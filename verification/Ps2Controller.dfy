/** The controller object: its queue, its two reading loops and its request
    processor, and what a whole request does to the devices' bytes
    (ApplePS2Controller-2/ApplePS2Controller.cpp). */
module Ps2Controller {
  import opened Bytes
  import opened Common
  import opened Ps2

  const TRANSMIT_TO_MOUSE: byte := 0xD4

  datatype Kind = ReadDataPort | ReadDataPortAndCompare | WriteDataPort | WriteCommandPort

  /** One step of a request; inOrOut is what to write, to expect, or was read. */
  datatype Command = Command(kind: Kind, inOrOut: byte)

  /** A request's outcome: its commands as overwritten, how many succeeded, every
      byte handed out, the bytes the caller has got, by a plain read or by a
      comparison that held, and the byte that the failing comparison read. */
  datatype Processed = Processed(commands: seq<Command>, count: nat, failed: bool, dispatched: seq<Delivery>,
                                 returned: seq<Delivery>, discarded: seq<Delivery>, port: Port)

  /** The bytes a read really took and returned; a timeout returns none. */
  function Returned(d: Device, r: Read): seq<Delivery> {
    if r.genuine then [Delivery(d, r.value)] else []
  }

  /** One command's effect.  mode is the device whose bytes are read, transmit
      whether the next data byte goes to the mouse. */
  datatype Effect = Effect(command: Command, mode: Device, transmit: bool, failed: bool,
                           dispatched: seq<Delivery>, returned: seq<Delivery>, discarded: seq<Delivery>, port: Port)

  function Execute(c: Command, mode: Device, transmit: bool, port: Port): Effect {
    match c.kind
    case ReadDataPort =>
      var r := ReadPlain(mode, TIMEOUT, port);
      Effect(c.(inOrOut := r.value), mode, transmit, false, r.dispatched, Returned(mode, r), [], r.port)
    case ReadDataPortAndCompare =>
      var r := ReadExpecting(mode, c.inOrOut, None, TIMEOUT, port);
      var got := Returned(mode, r);
      if r.value == c.inOrOut then Effect(c, mode, transmit, false, r.dispatched, got, [], r.port)
      else Effect(c, mode, transmit, true, r.dispatched, [], got, r.port)
    case WriteDataPort => Effect(c, if transmit then Mouse else Keyboard, false, false, [], [], [], port)
    case WriteCommandPort =>
      Effect(c, mode, transmit || c.inOrOut == TRANSMIT_TO_MOUSE, false, [], [], [], port)
  }

  function Preceded(e: Effect, rest: Processed): Processed {
    Processed([e.command] + rest.commands, rest.count + 1, rest.failed,
              e.dispatched + rest.dispatched, e.returned + rest.returned, rest.discarded, rest.port)
  }

  /** The commands from some point on. */
  function Process(commands: seq<Command>, mode: Device, transmit: bool, port: Port): Processed
    decreases |commands|
  {
    if commands == [] then Processed([], 0, false, [], [], [], port) else
    var e := Execute(commands[0], mode, transmit, port);
    if e.failed then Processed(commands, 0, true, e.dispatched, e.returned, e.discarded, e.port)
    else Preceded(e, Process(commands[1..], e.mode, e.transmit, e.port))
  }

  // ------------------------------------------------------------------ conservation

  lemma {:induction false} InTimeIsPrefix(d: Device, counter: nat, polls: seq<Poll>)
    requires counter > 0
    ensures OnPortInTime(d, counter, polls) <= OnPort(d, polls)
  {
    if polls != [] {
      match polls[0]
      case NotReady => if counter > 1 { InTimeIsPrefix(d, counter - 1, polls[1..]); }
      case Ready(_, _) => InTimeIsPrefix(d, counter, polls[1..]);
    }
  }

  /** No byte of the device is lost or made up: what it had to deliver is what was
      dispatched, what was returned and what is left. */
  ghost predicate Conserved(d: Device, before: Port, dispatched: seq<Delivery>, returned: seq<Delivery>, after: Port) {
    multiset(Stream(d, before)) ==
    multiset(DispatchedTo(d, dispatched)) + multiset(DispatchedTo(d, returned)) + multiset(Stream(d, after))
  }

  lemma RepairKeepsBytes(own: seq<byte>, stream: seq<byte>, expected: byte)
    requires own <= stream
    ensures var p := Repaired(own, expected);
            multiset(stream) == multiset(p.dispatched) + multiset(if own != [] then [p.value] else []) +
                                multiset(stream[p.taken..])
  {
    var p := Repaired(own, expected);
    if own == [] {
      assert stream[0..] == stream;
    } else if p.taken == 1 {
      assert p == Repair(1, stream[0], []) && multiset(p.dispatched) == multiset{};
      hide Repaired;
      FirstApart(stream);
    } else {
      assert p == Repair(2, stream[1], [stream[0]]) || p == Repair(2, stream[0], [stream[1]]);
      hide Repaired;
      FirstApart(stream);
      FirstApart(stream[1..]);
      assert stream[1..][1..] == stream[2..];
    }
  }

  lemma FirstApart(s: seq<byte>)
    requires s != []
    ensures multiset(s) == multiset([s[0]]) + multiset(s[1..])
  {
    assert s == [s[0]] + s[1..];
  }

  lemma ExpectingConserves(device: Device, expected: byte, port: Port, d: Device)
    ensures var r := ReadExpecting(device, expected, None, TIMEOUT, port);
            Conserved(d, port, r.dispatched, Returned(device, r), r.port)
  {
    var r := ReadExpecting(device, expected, None, TIMEOUT, port);
    var own := InTime(device, TIMEOUT, port);
    ExpectingReadRepairs(device, expected, port);
    OthersPassThrough(device, expected, None, TIMEOUT, port);
    InTimeIsPrefix(device, TIMEOUT, port.polls);
    hide ReadExpecting;
    if d == device {
      RepairKeepsBytes(own, Stream(device, port), expected);
      assert DispatchedTo(d, Returned(device, r)) == if own != [] then [r.value] else [];
    } else {
      PassingConserves(device, port, r);
    }
  }

  lemma PassingConserves(device: Device, port: Port, r: Read)
    requires PassesThrough(device, port, r)
    ensures Conserved(Other(device), port, r.dispatched, Returned(device, r), r.port)
  {
    var other := Other(device);
    assert DispatchedTo(other, Returned(device, r)) == [];
    assert multiset(OnPort(other, port.polls)) ==
           multiset(DispatchedTo(other, r.dispatched)) + multiset(OnPort(other, r.port.polls));
  }

  /** The plain read takes the device's first byte, if it comes in time. */
  lemma {:induction false} PlainReadRight(device: Device, counter: nat, port: Port)
    requires counter > 0
    ensures var r, own := ReadPlain(device, counter, port), InTime(device, counter, port);
            && PassesThrough(device, port, r)
            && DispatchedTo(device, r.dispatched) == []
            && (if own == [] then !r.genuine && r.value == 0 && Stream(device, r.port) == Stream(device, port)
                else r.genuine && r.value == own[0] && Stream(device, port) == [r.value] + Stream(device, r.port))
    decreases |port.polls|
  {
    FirstOwn(device, counter, port);
    if device == Keyboard && port.queue != [] {
    } else if port.polls == [] {
    } else {
      var rest := port.(polls := port.polls[1..]);
      match port.polls[0]
      case NotReady => if counter > 1 { PlainReadRight(device, counter - 1, rest); }
      case Ready(d, b) =>
        if d != device {
          var r := ReadPlain(device, counter, rest);
          PlainReadRight(device, counter, rest);
          DispatchingTo(device, Delivery(d, b), r);
          PassesDispatched(device, b, port, rest, r);
        }
    }
  }

  lemma PlainConserves(device: Device, port: Port, d: Device)
    ensures var r := ReadPlain(device, TIMEOUT, port);
            Conserved(d, port, r.dispatched, Returned(device, r), r.port)
  {
    hide ReadPlain, Stream, InTime;
    var r := ReadPlain(device, TIMEOUT, port);
    PlainReadRight(device, TIMEOUT, port);
    if d == device {
      assert DispatchedTo(d, Returned(device, r)) == if r.genuine then [r.value] else [];
      assert multiset([r.value] + Stream(d, r.port)) == multiset([r.value]) + multiset(Stream(d, r.port));
    } else {
      PassingConserves(device, port, r);
    }
  }

  lemma {:induction false} DispatchedToAppends(d: Device, s: seq<Delivery>, t: seq<Delivery>)
    ensures DispatchedTo(d, s + t) == DispatchedTo(d, s) + DispatchedTo(d, t)
  {
    if s == [] {
      assert s + t == t;
    } else {
      assert (s + t)[1..] == s[1..] + t;
      DispatchedToAppends(d, s[1..], t);
    }
  }

  lemma ConservedTwice(d: Device, before: Port, middle: Port, after: Port,
                       ds: seq<Delivery>, rs: seq<Delivery>, ds': seq<Delivery>, rs': seq<Delivery>)
    requires Conserved(d, before, ds, rs, middle) && Conserved(d, middle, ds', rs', after)
    ensures Conserved(d, before, ds + ds', rs + rs', after)
  {
    DispatchedToAppends(d, ds, ds');
    DispatchedToAppends(d, rs, rs');
  }

  lemma ExecuteConserves(c: Command, mode: Device, transmit: bool, port: Port, d: Device)
    ensures var e := Execute(c, mode, transmit, port);
            Conserved(d, port, e.dispatched, e.returned + e.discarded, e.port)
  {
    hide Conserved, ReadPlain, ReadExpecting, Returned, Stream;
    var e := Execute(c, mode, transmit, port);
    assert e.returned + [] == e.returned && [] + e.discarded == e.discarded;
    match c.kind
    case ReadDataPort =>
      assert e.discarded == [];
      PlainConserves(mode, port, d);
    case ReadDataPortAndCompare =>
      assert e.returned == [] || e.discarded == [];
      ExpectingConserves(mode, c.inOrOut, port, d);
    case WriteDataPort => NothingConserved(d, port);
    case WriteCommandPort => NothingConserved(d, port);
  }

  /** A request of any shape, failing anywhere, conserves both devices' bytes, the
      discarded one counted. */
  lemma {:induction false} RequestConserves(commands: seq<Command>, mode: Device, transmit: bool, port: Port, d: Device)
    ensures var p := Process(commands, mode, transmit, port);
            Conserved(d, port, p.dispatched, p.returned + p.discarded, p.port)
    decreases |commands|
  {
    hide Conserved, Execute;
    if commands == [] {
      NothingConserved(d, port);
      var none: seq<Delivery> := [];
      assert none + none == none;
    } else {
      var e := Execute(commands[0], mode, transmit, port);
      ExecuteConserves(commands[0], mode, transmit, port, d);
      if !e.failed {
        var rest := Process(commands[1..], e.mode, e.transmit, e.port);
        RequestConserves(commands[1..], e.mode, e.transmit, e.port, d);
        OnlyFailuresDiscard(commands[0], mode, transmit, port);
        ConservedTwice(d, port, e.port, rest.port, e.dispatched, e.returned + e.discarded,
                       rest.dispatched, rest.returned + rest.discarded);
        assert e.returned + [] + (rest.returned + rest.discarded) == e.returned + rest.returned + rest.discarded;
      }
    }
  }

  lemma OnlyFailuresDiscard(c: Command, mode: Device, transmit: bool, port: Port)
    ensures var e := Execute(c, mode, transmit, port);
            !e.failed ==> e.discarded == []
  {
    hide ReadPlain, ReadExpecting;
  }

  lemma NothingConserved(d: Device, port: Port)
    ensures Conserved(d, port, [], [], port)
  {
  }

  /** Where a command finds the controller: the device whose bytes are read, whether
      the next data byte goes to the mouse, and the input. */
  datatype Stand = Stand(mode: Device, transmit: bool, port: Port)

  /** Before command i, the ones before it having been executed. */
  function Before(commands: seq<Command>, s: Stand, i: nat): Stand
    requires i <= |commands|
  {
    if i == 0 then s else
    var e := Execute(commands[0], s.mode, s.transmit, s.port);
    Before(commands[1..], Stand(e.mode, e.transmit, e.port), i - 1)
  }

  function EffectAt(commands: seq<Command>, s: Stand, i: nat): Effect
    requires i < |commands|
  {
    var b := Before(commands, s, i);
    Execute(commands[i], b.mode, b.transmit, b.port)
  }

  /** Where a request stops, and what it overwrites: all commands before the count
      did not fail, and the one at the count did. */
  ghost predicate StopsRight(commands: seq<Command>, s: Stand, p: Processed) {
    && |p.commands| == |commands| && p.count <= |commands|
    && (p.failed <==> p.count < |commands|)
    && (forall i :: 0 <= i < p.count ==>
          !EffectAt(commands, s, i).failed && p.commands[i] == EffectAt(commands, s, i).command)
    && (forall i :: p.count <= i < |commands| ==> p.commands[i] == commands[i])
    && (if p.failed then
          EffectAt(commands, s, p.count).failed && p.discarded == EffectAt(commands, s, p.count).discarded
        else p.discarded == [])
  }

  lemma BeforeNext(commands: seq<Command>, s: Stand, i: nat)
    requires 0 < i < |commands|
    ensures var e := Execute(commands[0], s.mode, s.transmit, s.port);
            EffectAt(commands, s, i) == EffectAt(commands[1..], Stand(e.mode, e.transmit, e.port), i - 1)
  {
  }

  lemma StopsRightPreceded(commands: seq<Command>, s: Stand, rest: Processed)
    requires commands != []
    requires var e := Execute(commands[0], s.mode, s.transmit, s.port);
             !e.failed && StopsRight(commands[1..], Stand(e.mode, e.transmit, e.port), rest)
    ensures StopsRight(commands, s, Preceded(Execute(commands[0], s.mode, s.transmit, s.port), rest))
  {
    hide Execute;
    var e := Execute(commands[0], s.mode, s.transmit, s.port);
    var p, s' := Preceded(e, rest), Stand(e.mode, e.transmit, e.port);
    assert EffectAt(commands, s, 0) == e;
    forall i | 1 <= i < |commands|
      ensures commands[i] == commands[1..][i - 1] && p.commands[i] == rest.commands[i - 1]
      ensures EffectAt(commands, s, i) == EffectAt(commands[1..], s', i - 1)
    {
      BeforeNext(commands, s, i);
    }
  }

  lemma {:induction false} StopsAtFirstFailure(commands: seq<Command>, s: Stand)
    ensures StopsRight(commands, s, Process(commands, s.mode, s.transmit, s.port))
    decreases |commands|
  {
    hide Execute, Preceded;
    if commands != [] {
      var e, later := Execute(commands[0], s.mode, s.transmit, s.port), commands[1..];
      if e.failed {
        assert EffectAt(commands, s, 0) == e;
      } else {
        hide StopsRight;
        StopsAtFirstFailure(later, Stand(e.mode, e.transmit, e.port));
        StopsRightPreceded(commands, s, Process(later, e.mode, e.transmit, e.port));
      }
    }
  }

  /** A command fails exactly when it is a comparison and the byte the expecting read
      comes to is another; a plain read alone overwrites. */
  lemma FailsExactly(c: Command, mode: Device, transmit: bool, port: Port)
    ensures var e := Execute(c, mode, transmit, port);
            var own := InTime(mode, TIMEOUT, port);
            && (e.failed <==> c.kind == ReadDataPortAndCompare && Repaired(own, c.inOrOut).value != c.inOrOut)
            && (c.kind != ReadDataPort ==> e.command == c)
            && (e.failed && own == [] ==> e.discarded == [])
            && (e.failed && own != [] ==> e.discarded == [Delivery(mode, Repaired(own, c.inOrOut).value)])
  {
    if c.kind == ReadDataPortAndCompare {
      ExpectingReadRepairs(mode, c.inOrOut, port);
    }
    hide ReadPlain, ReadExpecting;
  }

  /** A request stops at the first comparison that does not hold and only there, and
      overwrites nothing but what it read plainly. */
  lemma FailsOnlyAtComparison(commands: seq<Command>, s: Stand)
    ensures var p := Process(commands, s.mode, s.transmit, s.port);
            && StopsRight(commands, s, p)
            && (forall i :: 0 <= i < |commands| && commands[i].kind != ReadDataPort ==> p.commands[i] == commands[i])
            && (p.failed ==>
                  var c, b := commands[p.count], Before(commands, s, p.count);
                  && c.kind == ReadDataPortAndCompare
                  && Repaired(InTime(b.mode, TIMEOUT, b.port), c.inOrOut).value != c.inOrOut)
  {
    hide Execute, Process, Repaired, InTime;
    var p := Process(commands, s.mode, s.transmit, s.port);
    StopsAtFirstFailure(commands, s);
    forall i | 0 <= i < |commands|
      ensures i < p.count && commands[i].kind != ReadDataPort ==> p.commands[i] == commands[i]
      ensures i == p.count ==>
                var c, b := commands[i], Before(commands, s, i);
                && c.kind == ReadDataPortAndCompare
                && Repaired(InTime(b.mode, TIMEOUT, b.port), c.inOrOut).value != c.inOrOut
    {
      var b := Before(commands, s, i);
      FailsExactly(commands[i], b.mode, b.transmit, b.port);
      assert i < p.count ==> p.commands[i] == EffectAt(commands, s, i).command;
    }
  }

  /** A byte is lost to everybody if and only if the request failed at a comparison
      for which the device did send something in time, and it is the one byte that
      the comparison read. */
  lemma ByteLostExactly(commands: seq<Command>, s: Stand)
    ensures var p := Process(commands, s.mode, s.transmit, s.port);
            && p.count <= |commands|
            && var b := Before(commands, s, p.count);
            && var own := InTime(b.mode, TIMEOUT, b.port);
            && (p.failed ==> p.count < |commands|)
            && p.discarded == if p.failed && own != [] then
                                [Delivery(b.mode, Repaired(own, commands[p.count].inOrOut).value)]
                              else []
  {
    hide Execute, Process, Repaired, InTime;
    var p := Process(commands, s.mode, s.transmit, s.port);
    StopsAtFirstFailure(commands, s);
    if p.failed {
      var b := Before(commands, s, p.count);
      FailsExactly(commands[p.count], b.mode, b.transmit, b.port);
    }
  }

  // -------------------------------------------------- the device a command reads

  predicate WritesData(c: Command) {
    c.kind == WriteDataPort
  }

  /** The mouse has been announced, and no data byte been written since. */
  ghost predicate Announced(commands: seq<Command>, i: nat)
    requires i <= |commands|
  {
    exists k :: 0 <= k < i && commands[k] == Command(WriteCommandPort, 0xD4) &&
                forall j :: k < j < i ==> !WritesData(commands[j])
  }

  /** j is the last data byte written before i. */
  predicate LastWritten(commands: seq<Command>, i: nat, j: nat)
    requires i <= |commands|
  {
    j < i && WritesData(commands[j]) && forall k :: j < k < i ==> !WritesData(commands[k])
  }

  /** It went to the mouse. */
  ghost predicate LastToMouse(commands: seq<Command>, i: nat)
    requires i <= |commands|
  {
    exists j: nat :: LastWritten(commands, i, j) && Announced(commands, j)
  }

  lemma {:induction false} BeforeGrows(commands: seq<Command>, s: Stand, i: nat)
    requires i < |commands|
    ensures var e := EffectAt(commands, s, i);
            Before(commands, s, i + 1) == Stand(e.mode, e.transmit, e.port)
  {
    hide Execute;
    if i == 0 {
      assert Before(commands[1..], Before(commands, s, 1), 0) == Before(commands, s, 1);
    } else {
      var e := Execute(commands[0], s.mode, s.transmit, s.port);
      BeforeGrows(commands[1..], Stand(e.mode, e.transmit, e.port), i - 1);
      BeforeNext(commands, s, i);
    }
  }

  lemma ExecuteModes(c: Command, mode: Device, transmit: bool, port: Port)
    ensures var e := Execute(c, mode, transmit, port);
            && e.mode == (if WritesData(c) then (if transmit then Mouse else Keyboard) else mode)
            && (e.transmit <==> !WritesData(c) && (transmit || c == Command(WriteCommandPort, 0xD4)))
  {
    hide ReadPlain, ReadExpecting;
  }

  lemma AnnouncedNext(commands: seq<Command>, i: nat)
    requires i < |commands|
    ensures Announced(commands, i + 1) <==>
            !WritesData(commands[i]) && (Announced(commands, i) || commands[i] == Command(WriteCommandPort, 0xD4))
  {
  }

  lemma LastToMouseNext(commands: seq<Command>, i: nat)
    requires i < |commands|
    ensures LastToMouse(commands, i + 1) <==>
            if WritesData(commands[i]) then Announced(commands, i) else LastToMouse(commands, i)
  {
    hide Announced;
    if WritesData(commands[i]) {
      assert LastWritten(commands, i + 1, i);
    } else {
      assert forall j: nat :: LastWritten(commands, i + 1, j) <==> LastWritten(commands, i, j);
    }
  }

  /** Which device a command finds, told by the commands alone: the mouse exactly when
      the last data byte before it was announced to be for the mouse. */
  lemma {:induction false} DeviceExactly(commands: seq<Command>, port: Port, i: nat)
    requires i <= |commands|
    ensures var b := Before(commands, Stand(Keyboard, false, port), i);
            && (b.mode == Mouse <==> LastToMouse(commands, i))
            && (b.transmit <==> Announced(commands, i))
  {
    hide Announced, LastToMouse, Execute;
    if i == 0 {
      NothingWritten(commands);
    } else {
      var b := Before(commands, Stand(Keyboard, false, port), i - 1);
      DeviceExactly(commands, port, i - 1);
      BeforeGrows(commands, Stand(Keyboard, false, port), i - 1);
      ExecuteModes(commands[i - 1], b.mode, b.transmit, b.port);
      AnnouncedNext(commands, i - 1);
      LastToMouseNext(commands, i - 1);
    }
  }

  lemma NothingWritten(commands: seq<Command>)
    ensures !Announced(commands, 0) && !LastToMouse(commands, 0)
  {
  }

  /** A whole request, command by command: which device each reads, what a plain read
      leaves for the caller, and which comparisons hold. */
  lemma RequestReadsRight(commands: seq<Command>, port: Port, i: nat)
    requires i < |commands| && i <= Process(commands, Keyboard, false, port).count
    ensures var p := Process(commands, Keyboard, false, port);
            var b := Before(commands, Stand(Keyboard, false, port), i);
            var device := if LastToMouse(commands, i) then Mouse else Keyboard;
            var own := InTime(device, 10000, b.port);
            && b.mode == device && |p.commands| == |commands|
            && match commands[i].kind
               case ReadDataPort =>
                 i < p.count && p.commands[i] == Command(ReadDataPort, if own == [] then 0 else own[0])
               case ReadDataPortAndCompare =>
                 var expected := commands[i].inOrOut;
                 && p.commands[i] == commands[i]
                 && (i < p.count <==> if own == [] then expected == 0
                                      else own[0] == expected || (|own| > 1 && own[1] == expected))
               case WriteDataPort => i < p.count && p.commands[i] == commands[i]
               case WriteCommandPort => i < p.count && p.commands[i] == commands[i]
  {
    hide Execute, Process, InTime, Announced, LastToMouse, Before;
    var s := Stand(Keyboard, false, port);
    var b := Before(commands, s, i);
    DeviceExactly(commands, port, i);
    StopsAtFirstFailure(commands, s);
    FailsExactly(commands[i], b.mode, b.transmit, b.port);
    PlainLeaves(commands[i], b.mode, b.transmit, b.port);
    assert EffectAt(commands, s, i) == Execute(commands[i], b.mode, b.transmit, b.port);
  }

  lemma PlainLeaves(c: Command, mode: Device, transmit: bool, port: Port)
    ensures c.kind == ReadDataPort ==>
              var own := InTime(mode, TIMEOUT, port);
              Execute(c, mode, transmit, port).command == Command(ReadDataPort, if own == [] then 0 else own[0])
  {
    PlainReadRight(mode, TIMEOUT, port);
    hide ReadPlain, ReadExpecting, InTime;
  }

  // ----------------------------------------------------------------------- order

  /** s is a and b run together, each in its own order. */
  predicate Merges(s: seq<byte>, a: seq<byte>, b: seq<byte>)
    decreases |s|
  {
    if s == [] then a == [] && b == []
    else
      || (a != [] && a[0] == s[0] && Merges(s[1..], a[1..], b))
      || (b != [] && b[0] == s[0] && Merges(s[1..], a, b[1..]))
  }

  lemma {:induction false} MergesAppended(s: seq<byte>, a: seq<byte>, b: seq<byte>, t: seq<byte>, c: seq<byte>,
                                          d: seq<byte>)
    requires Merges(s, a, b) && Merges(t, c, d)
    ensures Merges(s + t, a + c, b + d)
    decreases |s|
  {
    if s == [] {
      assert s + t == t && a + c == c && b + d == d;
    } else {
      assert (s + t)[1..] == s[1..] + t;
      if a != [] && a[0] == s[0] && Merges(s[1..], a[1..], b) {
        assert (a + c)[1..] == a[1..] + c;
        MergesAppended(s[1..], a[1..], b, t, c, d);
      } else {
        assert (b + d)[1..] == b[1..] + d;
        MergesAppended(s[1..], a, b[1..], t, c, d);
      }
    }
  }

  lemma {:induction false} MergesAlone(s: seq<byte>)
    ensures Merges(s, s, [])
  {
    if s != [] {
      MergesAlone(s[1..]);
    }
  }

  /** What is gone of the device's stream is what its handler got and what was read,
      each in the order in which it came. */
  ghost predicate InSequence(d: Device, before: Port, dispatched: seq<Delivery>, read: seq<Delivery>, after: Port) {
    var s, k := Stream(d, before), |Stream(d, before)| - |Stream(d, after)|;
    && k >= 0 && s[k..] == Stream(d, after)
    && Merges(s[..k], DispatchedTo(d, dispatched), DispatchedTo(d, read))
  }

  lemma SequenceTwice(d: Device, before: Port, middle: Port, after: Port,
                      ds: seq<Delivery>, rs: seq<Delivery>, ds': seq<Delivery>, rs': seq<Delivery>)
    requires InSequence(d, before, ds, rs, middle) && InSequence(d, middle, ds', rs', after)
    ensures InSequence(d, before, ds + ds', rs + rs', after)
  {
    hide Merges, Stream, DispatchedTo;
    var s, t := Stream(d, before), Stream(d, middle);
    var k, l := |s| - |t|, |t| - |Stream(d, after)|;
    SlicedTwice(s, t, k, l);
    DispatchedToAppends(d, ds, ds');
    DispatchedToAppends(d, rs, rs');
    MergesAppended(s[..k], DispatchedTo(d, ds), DispatchedTo(d, rs),
                   t[..l], DispatchedTo(d, ds'), DispatchedTo(d, rs'));
  }

  lemma SlicedTwice(s: seq<byte>, t: seq<byte>, k: nat, l: nat)
    requires k <= |s| && s[k..] == t && l <= |t|
    ensures s[..k + l] == s[..k] + t[..l] && s[k + l..] == t[l..]
  {
  }

  lemma RepairMerges(own: seq<byte>, stream: seq<byte>, expected: byte)
    requires own <= stream
    ensures var p := Repaired(own, expected);
            Merges(stream[..p.taken], p.dispatched, if own != [] then [p.value] else [])
  {
    var p := Repaired(own, expected);
    if p.taken == 1 {
      assert stream[..1] == [own[0]];
    } else if p.taken == 2 {
      assert stream[..2] == [own[0], own[1]];
      assert Merges([own[1]], [], [own[1]]) && Merges([own[1]], [own[1]], []);
    }
  }

  /** The bytes of the other device that pass are in order, unless older ones of it wait
      on the queue. */
  lemma PassingInSequence(device: Device, port: Port, r: Read)
    requires PassesThrough(device, port, r) && (device == Keyboard || port.queue == [])
    ensures InSequence(Other(device), port, r.dispatched, Returned(device, r), r.port)
  {
    var other := Other(device);
    var passed := DispatchedTo(other, r.dispatched);
    assert DispatchedTo(other, Returned(device, r)) == [];
    assert Stream(other, port) == passed + Stream(other, r.port);
    assert Stream(other, port)[..|passed|] == passed;
    MergesAlone(passed);
  }

  lemma ExpectingInSequence(device: Device, expected: byte, port: Port, d: Device)
    requires device == Keyboard || port.queue == []
    ensures var r := ReadExpecting(device, expected, None, TIMEOUT, port);
            InSequence(d, port, r.dispatched, Returned(device, r), r.port)
  {
    var r := ReadExpecting(device, expected, None, TIMEOUT, port);
    var own := InTime(device, TIMEOUT, port);
    ExpectingReadRepairs(device, expected, port);
    OthersPassThrough(device, expected, None, TIMEOUT, port);
    InTimeIsPrefix(device, TIMEOUT, port.polls);
    hide ReadExpecting, Merges;
    if d == device {
      RepairMerges(own, Stream(device, port), expected);
      assert DispatchedTo(d, Returned(device, r)) == if own != [] then [r.value] else [];
    } else {
      PassingInSequence(device, port, r);
    }
  }

  lemma PlainInSequence(device: Device, port: Port, d: Device)
    requires device == Keyboard || port.queue == []
    ensures var r := ReadPlain(device, TIMEOUT, port);
            InSequence(d, port, r.dispatched, Returned(device, r), r.port)
  {
    hide ReadPlain, Stream, InTime;
    var r := ReadPlain(device, TIMEOUT, port);
    PlainReadRight(device, TIMEOUT, port);
    if d == device {
      assert DispatchedTo(d, Returned(device, r)) == if r.genuine then [r.value] else [];
      if r.genuine {
        assert Stream(d, port)[..1] == [r.value] && Stream(d, port)[1..] == Stream(d, r.port);
        assert Merges([r.value], [], [r.value]);
      } else {
        assert Stream(d, port)[..0] == [] && Stream(d, port)[0..] == Stream(d, port);
      }
    } else {
      PassingInSequence(device, port, r);
    }
  }

  lemma NothingInSequence(d: Device, port: Port)
    ensures InSequence(d, port, [], [], port)
  {
    assert Stream(d, port)[..0] == [] && Stream(d, port)[0..] == Stream(d, port);
  }

  /** The command reads nothing while bytes of the other device wait on the queue. */
  predicate ReadsInOrder(c: Command, mode: Device, port: Port) {
    c.kind == ReadDataPort || c.kind == ReadDataPortAndCompare ==> mode == Keyboard || port.queue == []
  }

  lemma ExecuteInSequence(c: Command, mode: Device, transmit: bool, port: Port, d: Device)
    requires ReadsInOrder(c, mode, port)
    ensures var e := Execute(c, mode, transmit, port);
            InSequence(d, port, e.dispatched, e.returned + e.discarded, e.port)
  {
    hide InSequence, ReadPlain, ReadExpecting, Returned, Stream;
    var e := Execute(c, mode, transmit, port);
    assert e.returned + [] == e.returned && [] + e.discarded == e.discarded;
    match c.kind
    case ReadDataPort =>
      assert e.discarded == [];
      PlainInSequence(mode, port, d);
    case ReadDataPortAndCompare =>
      assert e.returned == [] || e.discarded == [];
      ExpectingInSequence(mode, c.inOrOut, port, d);
    case WriteDataPort => NothingInSequence(d, port);
    case WriteCommandPort => NothingInSequence(d, port);
  }

  /** Every read of the request, up to the one that fails, is for the keyboard or finds
      the keyboard queue empty. */
  predicate AllReadInOrder(commands: seq<Command>, mode: Device, transmit: bool, port: Port)
    decreases |commands|
  {
    commands != [] ==>
      && ReadsInOrder(commands[0], mode, port)
      && var e := Execute(commands[0], mode, transmit, port);
         !e.failed ==> AllReadInOrder(commands[1..], e.mode, e.transmit, e.port)
  }

  /** Over such a request, failing anywhere, both devices' bytes stay in order: what is
      gone of a stream is what its handler got and what was read, run together. */
  lemma {:induction false} RequestKeepsOrder(commands: seq<Command>, mode: Device, transmit: bool, port: Port,
      d: Device)
    requires AllReadInOrder(commands, mode, transmit, port)
    ensures var p := Process(commands, mode, transmit, port);
            InSequence(d, port, p.dispatched, p.returned + p.discarded, p.port)
    decreases |commands|
  {
    hide InSequence, Execute;
    if commands == [] {
      NothingInSequence(d, port);
      var none: seq<Delivery> := [];
      assert none + none == none;
    } else {
      var e := Execute(commands[0], mode, transmit, port);
      ExecuteInSequence(commands[0], mode, transmit, port, d);
      if !e.failed {
        var rest := Process(commands[1..], e.mode, e.transmit, e.port);
        RequestKeepsOrder(commands[1..], e.mode, e.transmit, e.port, d);
        OnlyFailuresDiscard(commands[0], mode, transmit, port);
        SequenceTwice(d, port, e.port, rest.port, e.dispatched, e.returned + e.discarded,
                      rest.dispatched, rest.returned + rest.discarded);
        assert e.returned + [] + (rest.returned + rest.discarded) == e.returned + rest.returned + rest.discarded;
      }
    }
  }

  lemma {:induction false} QueueStaysEmpty(device: Device, expected: byte, held: Option<byte>, counter: nat, port: Port)
    requires counter > 0 && port.queue == []
    ensures ReadExpecting(device, expected, held, counter, port).port.queue == []
    ensures ReadPlain(device, counter, port).port.queue == []
    decreases |port.polls|
  {
    if port.polls != [] {
      var rest := port.(polls := port.polls[1..]);
      match port.polls[0]
      case NotReady =>
        if counter > 1 {
          QueueStaysEmpty(device, expected, held, counter - 1, rest);
        }
      case Ready(d, b) =>
        QueueStaysEmpty(device, expected, held, counter, rest);
        QueueStaysEmpty(device, expected, Some(b), counter, rest);
    }
  }

  /** With an empty keyboard queue every request is one. */
  lemma {:induction false} EmptyQueueKeepsOrder(commands: seq<Command>, mode: Device, transmit: bool, port: Port)
    requires port.queue == []
    ensures AllReadInOrder(commands, mode, transmit, port)
    decreases |commands|
  {
    if commands != [] {
      var e := Execute(commands[0], mode, transmit, port);
      QueueStaysEmpty(mode, commands[0].inOrOut, None, TIMEOUT, port);
      hide ReadPlain, ReadExpecting;
      EmptyQueueKeepsOrder(commands[1..], e.mode, e.transmit, e.port);
    }
  }

  // ---------------------------------------------------------------- the controller

  /** A read resumed after some bytes have already been dispatched. */
  function Resumed(log: seq<Delivery>, r: Read): Read {
    r.(dispatched := log + r.dispatched)
  }

  lemma ResumedDispatching(log: seq<Delivery>, d: Delivery, r: Read)
    ensures Resumed(log, Dispatching(d, r)) == Resumed(log + [d], r)
  {
    assert log + ([d] + r.dispatched) == log + [d] + r.dispatched;
  }

  /** A request part of which is done. */
  function Joined(done: seq<Command>, ds: seq<Delivery>, rs: seq<Delivery>, rest: Processed): Processed {
    Processed(done + rest.commands, |done| + rest.count, rest.failed, ds + rest.dispatched, rs + rest.returned,
              rest.discarded, rest.port)
  }

  lemma JoinedPreceded(done: seq<Command>, ds: seq<Delivery>, rs: seq<Delivery>, e: Effect, rest: Processed)
    ensures Joined(done, ds, rs, Preceded(e, rest)) ==
            Joined(done + [e.command], ds + e.dispatched, rs + e.returned, rest)
  {
    assert done + ([e.command] + rest.commands) == done + [e.command] + rest.commands;
    assert ds + (e.dispatched + rest.dispatched) == ds + e.dispatched + rest.dispatched;
    assert rs + (e.returned + rest.returned) == rs + e.returned + rest.returned;
  }

  /** A request: its commands are overwritten in place. */
  class Request {
    const commands: array<Command>
    var commandsCount: nat

    constructor (cs: seq<Command>)
      ensures commands[..] == cs && commandsCount == |cs| && fresh(commands)
    {
      commands := new Command[|cs|](i requires 0 <= i < |cs| => cs[i]);
      commandsCount := |cs|;
    }
  }

  class Controller {
    var keyboardQueue: seq<byte>
    var keyboardQueueUnused: nat         // elements on the unused queue
    var polls: seq<Poll>                 // what the hardware has yet to show
    var dispatched: seq<Delivery>        // every call of dispatchDriverInterrupt

    ghost predicate Valid()
      reads this
    {
      |keyboardQueue| + keyboardQueueUnused == QUEUE_SIZE
    }

    ghost function Input(): Port
      reads this
    {
      Port(keyboardQueue, polls)
    }

    constructor ()
      ensures Valid() && keyboardQueue == [] && polls == [] && dispatched == []
    {
      keyboardQueue, keyboardQueueUnused, polls, dispatched := [], QUEUE_SIZE, [], [];
    }

    /** A byte too many is dropped. */
    method EnqueueKeyboardData(key: byte)
      requires Valid()
      modifies this`keyboardQueue, this`keyboardQueueUnused
      ensures Valid()
      ensures keyboardQueue == old(keyboardQueue) + if |old(keyboardQueue)| < 32 then [key] else []
    {
      if keyboardQueueUnused > 0 {
        keyboardQueueUnused := keyboardQueueUnused - 1;
        keyboardQueue := keyboardQueue + [key];
      }
    }

    method DequeueKeyboardData() returns (found: bool, key: byte)
      requires Valid()
      modifies this`keyboardQueue, this`keyboardQueueUnused
      ensures Valid() && (found <==> old(keyboardQueue) != [])
      ensures if found then key == old(keyboardQueue)[0] && keyboardQueue == old(keyboardQueue)[1..]
              else keyboardQueue == []
    {
      found, key := false, 0;
      if keyboardQueue != [] {
        key := keyboardQueue[0];
        keyboardQueue := keyboardQueue[1..];
        keyboardQueueUnused := keyboardQueueUnused + 1;
        found := true;
      }
    }

    method DispatchDriverInterrupt(device: Device, data: byte)
      modifies this`dispatched
      ensures dispatched == old(dispatched) + [Delivery(device, data)]
    {
      dispatched := dispatched + [Delivery(device, data)];
    }

    /** Polls until a byte is ready or the counter runs out, and takes the byte.
        The ghost parameters say which read is waiting, and from where. */
    method WaitForByte(timeoutCounter: nat, ghost device: Device, ghost expected: byte, ghost held: Option<byte>,
                       ghost before: Port)
      returns (left: nat, ready: Poll)
      requires timeoutCounter > 0 && before == Input() && (device == Keyboard ==> keyboardQueue == [])
      modifies this`polls
      ensures left <= timeoutCounter
      ensures if left == 0 then ready == NotReady else ready.Ready? && |polls| < |before.polls|
      ensures ReadExpecting(device, expected, held, timeoutCounter, before) ==
              AfterWait(device, expected, held, left, ready, Input())
      ensures ReadPlain(device, timeoutCounter, before) == AfterPlainWait(device, left, ready, Input())
    {
      left, ready := timeoutCounter, NotReady;
      while left > 0 && (polls == [] || polls[0] == NotReady)
        invariant left <= timeoutCounter && |polls| <= |before.polls|
        invariant ReadExpecting(device, expected, held, timeoutCounter, before) ==
                  if left == 0 then TimedOut(held, Input()) else ReadExpecting(device, expected, held, left, Input())
        invariant ReadPlain(device, timeoutCounter, before) ==
                  if left == 0 then TimedOut(None, Input()) else ReadPlain(device, left, Input())
        decreases left
      {
        if polls != [] {
          polls := polls[1..];
        }
        left := left - 1;
      }
      if left > 0 {
        ready := polls[0];
        polls := polls[1..];
      }
    }

    /** The plain read. */
    method ReadDataPort(device: Device) returns (readByte: byte, ghost genuine: bool)
      requires Valid()
      modifies this
      ensures Valid()
      ensures Read(readByte, genuine, dispatched, Input()) ==
              Resumed(old(dispatched), ReadPlain(device, TIMEOUT, old(Input())))
    {
      hide ReadPlain, ReadExpecting, AfterWait;
      ghost var whole := Resumed(dispatched, ReadPlain(device, TIMEOUT, Input()));
      var timeoutCounter := TIMEOUT;
      while true
        invariant Valid() && timeoutCounter > 0
        invariant whole == Resumed(dispatched, ReadPlain(device, timeoutCounter, Input()))
        decreases |polls|
      {
        ghost var before := Input();
        PlainTurn(device, timeoutCounter, before);
        assert dispatched + [] == dispatched;
        if device == Keyboard {
          var found;
          found, readByte := DequeueKeyboardData();
          if found {
            genuine := true;
            return;
          }
        }
        var ready;
        timeoutCounter, ready := WaitForByte(timeoutCounter, device, 0, None, before);
        if timeoutCounter == 0 {
          return 0, false;
        }
        readByte := ready.data;
        if ready.device == device {
          genuine := true;
          return;
        }
        ResumedDispatching(dispatched, Delivery(ready.device, readByte), ReadPlain(device, timeoutCounter, Input()));
        DispatchDriverInterrupt(Other(device), readByte);
      }
    }

    /** The expecting read, with its one byte held back. */
    method ReadDataPortExpecting(device: Device, expectedByte: byte) returns (readByte: byte, ghost genuine: bool)
      requires Valid()
      modifies this
      ensures Valid()
      ensures Read(readByte, genuine, dispatched, Input()) ==
              Resumed(old(dispatched), ReadExpecting(device, expectedByte, None, TIMEOUT, old(Input())))
    {
      hide ReadPlain, ReadExpecting, AfterPlainWait;
      ghost var whole := Resumed(dispatched, ReadExpecting(device, expectedByte, None, TIMEOUT, Input()));
      var firstByte: byte, firstByteHeld := 0, false;
      var timeoutCounter := TIMEOUT;
      while true
        invariant Valid() && timeoutCounter > 0
        invariant whole == Resumed(dispatched, ReadExpecting(device, expectedByte, Held(firstByteHeld, firstByte),
                                                             timeoutCounter, Input()))
        decreases |polls|, |keyboardQueue|
      {
        ghost var before, held := Input(), Held(firstByteHeld, firstByte);
        ExpectingTurn(device, expectedByte, held, timeoutCounter, before);
        assert dispatched + [] == dispatched;
        var requestedStream := false;
        if device == Keyboard {
          requestedStream, readByte := DequeueKeyboardData();
        }
        if !requestedStream {
          var ready;
          timeoutCounter, ready := WaitForByte(timeoutCounter, device, expectedByte, held, before);
          if timeoutCounter == 0 {
            if firstByteHeld {
              return firstByte, true;
            }
            return 0, false;
          }
          readByte := ready.data;
          requestedStream := ready.device == device;
        }
        if requestedStream {
          if readByte == expectedByte {
            if firstByteHeld {
              DispatchDriverInterrupt(device, firstByte);
            }
            genuine := true;
            return;
          } else if !firstByteHeld {
            firstByteHeld, firstByte := true, readByte;
          } else {
            DispatchDriverInterrupt(device, readByte);
            return firstByte, true;
          }
        } else {
          ResumedDispatching(dispatched, Delivery(Other(device), readByte),
                             ReadExpecting(device, expectedByte, held, timeoutCounter, Input()));
          DispatchDriverInterrupt(Other(device), readByte);
        }
      }
    }

    /** The switch in processRequest. */
    method ExecuteCommand(c: Command, deviceMode: Device, transmitToMouse: bool)
      returns (c': Command, mode: Device, transmit: bool, failed: bool, ghost e: Effect)
      requires Valid()
      modifies this
      ensures Valid()
      ensures e == Execute(c, deviceMode, transmitToMouse, old(Input()))
      ensures c' == e.command && mode == e.mode && transmit == e.transmit && failed == e.failed && Input() == e.port
      ensures dispatched == old(dispatched) + e.dispatched
    {
      hide ReadPlain, ReadExpecting;
      assert dispatched + [] == dispatched;
      e := Execute(c, deviceMode, transmitToMouse, Input());
      c', mode, transmit, failed := c, deviceMode, transmitToMouse, false;
      match c.kind {
        case ReadDataPort =>
          var byte, genuine := ReadDataPort(deviceMode);
          c' := c.(inOrOut := byte);
        case ReadDataPortAndCompare =>
          var byte, genuine := ReadDataPortExpecting(deviceMode, c.inOrOut);
          failed := byte != c.inOrOut;
        case WriteDataPort =>
          if transmitToMouse {
            mode, transmit := Mouse, false;
          } else {
            mode := Keyboard;
          }
        case WriteCommandPort =>
          if c.inOrOut == TRANSMIT_TO_MOUSE {
            transmit := true;
          }
      }
    }

    /** One command of the request, in place: done are the commands before it as
        they now are, cs the request as it was given. */
    method ProcessOne(commands: array<Command>, index: nat, deviceMode: Device, transmitToMouse: bool,
                      ghost done: seq<Command>, ghost cs: seq<Command>)
      returns (mode: Device, transmit: bool, failed: bool, ghost e: Effect)
      requires Valid() && index < |cs| <= commands.Length && |done| == index
      requires commands[..|cs|] == done + cs[index..]
      modifies this, commands
      ensures Valid()
      ensures e == Execute(cs[index], deviceMode, transmitToMouse, old(Input()))
      ensures mode == e.mode && transmit == e.transmit && failed == e.failed && Input() == e.port
      ensures dispatched == old(dispatched) + e.dispatched
      ensures commands[..|cs|] == done + [e.command] + cs[index + 1..]
    {
      hide Execute;
      assert commands[index] == commands[..|cs|][index] == cs[index];
      ghost var was := commands[..|cs|];
      var c;
      c, mode, transmit, failed, e := ExecuteCommand(commands[index], deviceMode, transmitToMouse);
      commands[index] := c;
      assert commands[..|cs|] == was[index := c];
      OneReplaced(done, cs, index, c);
    }

    /** processRequest, up to its completion routine; returned lists the bytes its
        reads got, discarded the one it had no use for. */
    method ProcessRequest(request: Request) returns (ghost returned: seq<Delivery>, ghost discarded: seq<Delivery>)
      requires Valid() && request.commandsCount <= request.commands.Length
      modifies this, request`commandsCount, request.commands
      ensures Valid()
      ensures var n := old(request.commandsCount);
              var p := Process(old(request.commands[..n]), Keyboard, false, old(Input()));
              && request.commands[..n] == p.commands && request.commandsCount == p.count
              && returned == p.returned && discarded == p.discarded
              && Input() == p.port && dispatched == old(dispatched) + p.dispatched
    {
      hide Process, Execute, StopsRight, Preceded, Joined, EffectAt, Before, ReadPlain, ReadExpecting;
      var commands, n := request.commands, request.commandsCount;
      ghost var cs, log := commands[..n], dispatched;
      ghost var whole := Process(cs, Keyboard, false, Input());
      ghost var done: seq<Command>, ds: seq<Delivery> := [], [];
      CountWhenWhole(cs, Keyboard, false, Input());
      var deviceMode, transmitToMouse, index := Keyboard, false, 0;
      returned, discarded := [], [];
      JoinedNothing(whole);
      assert cs[0..] == cs;
      while index < n
        invariant Valid() && index <= n == request.commandsCount && |done| == index
        invariant commands[..n] == done + cs[index..] && dispatched == log + ds
        invariant whole == Joined(done, ds, returned, Process(cs[index..], deviceMode, transmitToMouse, Input()))
      {
        JoinedStep(whole, done, ds, returned, cs, deviceMode, transmitToMouse, Input());
        ghost var e;
        var failed;
        deviceMode, transmitToMouse, failed, e := ProcessOne(commands, index, deviceMode, transmitToMouse, done, cs);
        returned, ds, done := returned + e.returned, ds + e.dispatched, done + [e.command];
        if failed {
          discarded := e.discarded;
          request.commandsCount := index;
          return;
        }
        index := index + 1;
      }
      JoinedEnd(whole, done, ds, returned, deviceMode, transmitToMouse, Input());
      assert cs[n..] == [] && done + [] == done;
    }
  }

  /** What the expecting read makes of the end of a wait. */
  function AfterWait(device: Device, expected: byte, held: Option<byte>, left: nat, ready: Poll, port: Port): Read
    requires left > 0 ==> ready.Ready?
  {
    if left == 0 then TimedOut(held, port)
    else if ready.device == device then
      var end := OwnByte(device, expected, held, ready.data, port);
      if end.Some? then end.value else ReadExpecting(device, expected, Some(ready.data), left, port)
    else Dispatching(Delivery(ready.device, ready.data), ReadExpecting(device, expected, held, left, port))
  }

  /** The same for the plain read. */
  function AfterPlainWait(device: Device, left: nat, ready: Poll, port: Port): Read
    requires left > 0 ==> ready.Ready?
  {
    if left == 0 then TimedOut(None, port)
    else if ready.device == device then Read(ready.data, true, [], port)
    else Dispatching(Delivery(ready.device, ready.data), ReadPlain(device, left, port))
  }

  function Held(held: bool, b: byte): Option<byte> {
    if held then Some(b) else None
  }

  /** A turn that finds a byte on the queue. */
  lemma PlainTurn(device: Device, counter: nat, port: Port)
    requires counter > 0
    ensures device == Keyboard && port.queue != [] ==>
              ReadPlain(device, counter, port) == Read(port.queue[0], true, [], port.(queue := port.queue[1..]))
  {
  }

  lemma ExpectingTurn(device: Device, expected: byte, held: Option<byte>, counter: nat, port: Port)
    requires counter > 0
    ensures device == Keyboard && port.queue != [] ==>
              var b, rest := port.queue[0], port.(queue := port.queue[1..]);
              var end := OwnByte(device, expected, held, b, rest);
              ReadExpecting(device, expected, held, counter, port) ==
              if end.Some? then end.value else ReadExpecting(device, expected, Some(b), counter, rest)
  {
  }

  /** One command of a request. */
  lemma ProcessStep(cs: seq<Command>, i: nat, mode: Device, transmit: bool, port: Port)
    requires i < |cs|
    ensures var e := Execute(cs[i], mode, transmit, port);
            if e.failed then
              && e.command == cs[i]
              && Process(cs[i..], mode, transmit, port) ==
                 Processed(cs[i..], 0, true, e.dispatched, e.returned, e.discarded, e.port)
            else Process(cs[i..], mode, transmit, port) == Preceded(e, Process(cs[i + 1..], e.mode, e.transmit, e.port))
  {
    hide ReadPlain, ReadExpecting;
    assert cs[i..][1..] == cs[i + 1..];
  }

  /** A request with its next command executed, or failed. */
  lemma JoinedStep(whole: Processed, done: seq<Command>, ds: seq<Delivery>, rs: seq<Delivery>,
                   cs: seq<Command>, mode: Device, transmit: bool, port: Port)
    requires |done| < |cs| && whole == Joined(done, ds, rs, Process(cs[|done|..], mode, transmit, port))
    ensures var i := |done|;
            var e := Execute(cs[i], mode, transmit, port);
            if e.failed then
              && whole.commands == done + [e.command] + cs[i + 1..] && whole.count == i
              && whole.dispatched == ds + e.dispatched && whole.returned == rs + e.returned
              && whole.discarded == e.discarded && whole.port == e.port
            else
              whole == Joined(done + [e.command], ds + e.dispatched, rs + e.returned,
                              Process(cs[i + 1..], e.mode, e.transmit, e.port))
  {
    hide Execute, Preceded, Process;
    var i := |done|;
    var e := Execute(cs[i], mode, transmit, port);
    ProcessStep(cs, i, mode, transmit, port);
    if e.failed {
      assert done + cs[i..] == done + [cs[i]] + cs[i + 1..];
    } else {
      JoinedPreceded(done, ds, rs, e, Process(cs[i + 1..], e.mode, e.transmit, e.port));
    }
  }

  lemma JoinedEnd(whole: Processed, done: seq<Command>, ds: seq<Delivery>, rs: seq<Delivery>, mode: Device,
                  transmit: bool, port: Port)
    requires whole == Joined(done, ds, rs, Process([], mode, transmit, port))
    ensures whole == Processed(done, |done|, false, ds, rs, [], port)
  {
    assert done + [] == done && ds + [] == ds && rs + [] == rs;
  }

  lemma JoinedNothing(p: Processed)
    ensures Joined([], [], [], p) == p
  {
    assert [] + p.commands == p.commands && [] + p.dispatched == p.dispatched && [] + p.returned == p.returned;
  }

  lemma CountWhenWhole(commands: seq<Command>, mode: Device, transmit: bool, port: Port)
    ensures var p := Process(commands, mode, transmit, port);
            p.count <= |commands| && (p.failed <==> p.count < |commands|)
  {
    StopsAtFirstFailure(commands, Stand(mode, transmit, port));
  }

  lemma OneReplaced(done: seq<Command>, cs: seq<Command>, i: nat, c: Command)
    requires i < |cs| && |done| == i
    ensures (done + cs[i..])[i := c] == done + [c] + cs[i + 1..]
  {
  }
}
