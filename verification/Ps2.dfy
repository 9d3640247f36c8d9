/** The PS/2 controller's input: two devices on one data port, a software queue in
    front of the keyboard's, and a read that holds back one byte to repair an
    acknowledge that arrives out of order
    (ApplePS2Controller-2/ApplePS2Controller.cpp). */
module Ps2 {
  import opened Bytes
  import opened Common

  datatype Device = Keyboard | Mouse

  /** What one look at the controller's status finds; a byte found is read. */
  datatype Poll = NotReady | Ready(device: Device, data: byte)

  /** The keyboard queue and the port.  When polls runs out nothing more comes. */
  datatype Port = Port(queue: seq<byte>, polls: seq<Poll>)

  /** A call of dispatchDriverInterrupt. */
  datatype Delivery = Delivery(device: Device, data: byte)

  /** What a read comes to: its value and whether that is a byte of the device or
      the 0 a timeout fakes, what it dispatched, and what it left behind. */
  datatype Read = Read(value: byte, genuine: bool, dispatched: seq<Delivery>, port: Port)

  const TIMEOUT: nat := 10000
  const QUEUE_SIZE: nat := 32

  function Other(d: Device): Device {
    if d == Keyboard then Mouse else Keyboard
  }

  function Dispatching(d: Delivery, r: Read): Read {
    r.(dispatched := [d] + r.dispatched)
  }

  // ---------------------------------------------------------------- the two reads

  /** A byte of the device itself, whether off the queue or the port, and then. */
  function OwnByte(device: Device, expected: byte, held: Option<byte>, b: byte, rest: Port): Option<Read> {
    if b == expected then
      Some(Read(b, true, if held.Some? then [Delivery(device, held.value)] else [], rest))
    else if held.Some? then
      Some(Read(held.value, true, [Delivery(device, b)], rest))
    else None
  }

  /** The expecting read, from any turn of its loop. */
  function ReadExpecting(device: Device, expected: byte, held: Option<byte>, counter: nat, port: Port): Read
    requires counter > 0
    decreases |port.polls|, |port.queue|
  {
    if device == Keyboard && port.queue != [] then
      var rest := port.(queue := port.queue[1..]);
      var end := OwnByte(device, expected, held, port.queue[0], rest);
      if end.Some? then end.value else ReadExpecting(device, expected, Some(port.queue[0]), counter, rest)
    else if port.polls == [] then
      TimedOut(held, port)
    else
      var rest := port.(polls := port.polls[1..]);
      match port.polls[0]
      case NotReady =>
        if counter == 1 then TimedOut(held, rest) else ReadExpecting(device, expected, held, counter - 1, rest)
      case Ready(d, b) =>
        if d == device then
          var end := OwnByte(device, expected, held, b, rest);
          if end.Some? then end.value else ReadExpecting(device, expected, Some(b), counter, rest)
        else Dispatching(Delivery(d, b), ReadExpecting(device, expected, held, counter, rest))
  }

  function TimedOut(held: Option<byte>, port: Port): Read {
    Read(if held.Some? then held.value else 0, held.Some?, [], port)
  }

  /** The plain read. */
  function ReadPlain(device: Device, counter: nat, port: Port): Read
    requires counter > 0
    decreases |port.polls|
  {
    if device == Keyboard && port.queue != [] then
      Read(port.queue[0], true, [], port.(queue := port.queue[1..]))
    else if port.polls == [] then
      TimedOut(None, port)
    else
      var rest := port.(polls := port.polls[1..]);
      match port.polls[0]
      case NotReady => if counter == 1 then TimedOut(None, rest) else ReadPlain(device, counter - 1, rest)
      case Ready(d, b) =>
        if d == device then Read(b, true, [], rest)
        else Dispatching(Delivery(d, b), ReadPlain(device, counter, rest))
  }

  // ------------------------------------------------------- each device's own stream

  function OnPort(d: Device, polls: seq<Poll>): seq<byte> {
    if polls == [] then []
    else (if polls[0].Ready? && polls[0].device == d then [polls[0].data] else []) + OnPort(d, polls[1..])
  }

  /** Everything a device has still to deliver, oldest first. */
  function Stream(d: Device, port: Port): seq<byte> {
    (if d == Keyboard then port.queue else []) + OnPort(d, port.polls)
  }

  function DispatchedTo(d: Device, ds: seq<Delivery>): seq<byte> {
    if ds == [] then [] else (if ds[0].device == d then [ds[0].data] else []) + DispatchedTo(d, ds[1..])
  }

  /** The device's bytes that come within the time the counter allows. */
  function InTime(d: Device, counter: nat, port: Port): seq<byte>
    requires counter > 0
    decreases |port.polls|
  {
    (if d == Keyboard then port.queue else []) + OnPortInTime(d, counter, port.polls)
  }

  function OnPortInTime(d: Device, counter: nat, polls: seq<Poll>): seq<byte>
    requires counter > 0
  {
    if polls == [] then []
    else match polls[0]
      case NotReady => if counter == 1 then [] else OnPortInTime(d, counter - 1, polls[1..])
      case Ready(e, b) => (if e == d then [b] else []) + OnPortInTime(d, counter, polls[1..])
  }

  /** How often the controller had nothing. */
  function Quiet(polls: seq<Poll>): nat {
    if polls == [] then 0 else (if polls[0] == NotReady then 1 else 0) + Quiet(polls[1..])
  }

  /** In time is what comes before the look that finds nothing for the last time the
      counter allows, however many bytes come in between. */
  lemma {:induction false} InTimeExactly(d: Device, counter: nat, polls: seq<Poll>, k: nat)
    requires counter > 0 && k <= |polls| && Quiet(polls[..k]) < counter
    requires k < |polls| ==> Quiet(polls[..k + 1]) == counter
    ensures OnPortInTime(d, counter, polls) == OnPort(d, polls[..k])
    decreases k
  {
    if k > 0 {
      assert polls[..k][0] == polls[0] && polls[..k][1..] == polls[1..][..k - 1];
      if k < |polls| {
        assert polls[..k + 1][0] == polls[0] && polls[..k + 1][1..] == polls[1..][..k];
      }
      InTimeExactly(d, if polls[0] == NotReady then counter - 1 else counter, polls[1..], k - 1);
    } else if polls != [] {
      assert polls[..1] == [polls[0]] && polls[..1][1..] == [] && polls[..0] == [];
    }
  }

  // ----------------------------------------------------------- what a read amounts to

  /** The repair, told by the device's own bytes alone: how many a read takes,
      which it returns, and what its handler gets. */
  datatype Repair = Repair(taken: nat, value: byte, dispatched: seq<byte>)

  function Repaired(own: seq<byte>, expected: byte): (r: Repair)
    ensures r.taken <= 2 && r.taken <= |own|
  {
    if own == [] then Repair(0, 0, [])
    else if own[0] == expected || |own| == 1 then Repair(1, own[0], [])
    else if own[1] == expected then Repair(2, own[1], [own[0]])
    else Repair(2, own[0], [own[1]])
  }

  /** The byte that has been put aside is the device's first. */
  function Ahead(held: Option<byte>): seq<byte> {
    if held.Some? then [held.value] else []
  }

  ghost predicate ReadsRight(device: Device, expected: byte, own: seq<byte>, before: seq<byte>, r: Read) {
    var p := Repaired(own, expected);
    && r.value == p.value && (r.genuine <==> own != [])
    && DispatchedTo(device, r.dispatched) == p.dispatched
    && p.taken <= |before| && Stream(device, r.port) == before[p.taken..]
  }

  lemma DispatchingTo(device: Device, d: Delivery, r: Read)
    ensures DispatchedTo(device, Dispatching(d, r).dispatched) ==
            (if d.device == device then [d.data] else []) + DispatchedTo(device, r.dispatched)
  {
    assert ([d] + r.dispatched)[1..] == r.dispatched;
  }

  /** The first byte of a device, off the queue or off the port. */
  lemma FirstOwn(device: Device, counter: nat, port: Port)
    requires counter > 0
    ensures device == Keyboard && port.queue != [] ==>
              var rest := port.(queue := port.queue[1..]);
              && InTime(device, counter, port) == [port.queue[0]] + InTime(device, counter, rest)
              && Stream(device, port) == [port.queue[0]] + Stream(device, rest)
    ensures !(device == Keyboard && port.queue != []) && port.polls != [] ==>
              var rest := port.(polls := port.polls[1..]);
              match port.polls[0]
              case NotReady =>
                && Stream(device, port) == Stream(device, rest)
                && InTime(device, counter, port) == if counter == 1 then [] else InTime(device, counter - 1, rest)
              case Ready(d, b) =>
                if d == device then
                  && Stream(device, port) == [b] + Stream(device, rest)
                  && InTime(device, counter, port) == [b] + InTime(device, counter, rest)
                else
                  && Stream(device, port) == Stream(device, rest)
                  && InTime(device, counter, port) == InTime(device, counter, rest)
    ensures !(device == Keyboard && port.queue != []) && port.polls == [] ==>
              Stream(device, port) == [] && InTime(device, counter, port) == []
  {
  }

  lemma OwnByteRight(device: Device, expected: byte, held: Option<byte>, b: byte, later: seq<byte>, rest: Port)
    requires held.Some? ==> held.value != expected
    ensures var own, before := Ahead(held) + ([b] + later), Ahead(held) + ([b] + Stream(device, rest));
            var end := OwnByte(device, expected, held, b, rest);
            if end.Some? then ReadsRight(device, expected, own, before, end.value)
            else held == None && b != expected
  {
    var own, before := Ahead(held) + ([b] + later), Ahead(held) + ([b] + Stream(device, rest));
    var p := Repaired(own, expected);
    var end := OwnByte(device, expected, held, b, rest);
    if end.Some? {
      assert own[0] == (if held.Some? then held.value else b);
      assert held.Some? ==> own[1] == b;
      assert before[p.taken..] == Stream(device, rest);
    }
  }

  lemma TimedOutRight(device: Device, expected: byte, held: Option<byte>, stream: seq<byte>, port: Port)
    requires held.Some? ==> held.value != expected
    requires stream == Stream(device, port)
    ensures ReadsRight(device, expected, Ahead(held) + [], Ahead(held) + stream, TimedOut(held, port))
  {
  }

  lemma SetAside(b: byte, s: seq<byte>)
    ensures Ahead(Some(b)) + s == Ahead(None) + ([b] + s)
  {
  }

  /** An own byte that does not end the read is put aside. */
  lemma OwnTurn(device: Device, expected: byte, held: Option<byte>, b: byte, counter: nat, rest: Port)
    requires counter > 0 && (held.Some? ==> held.value != expected)
    ensures var own := Ahead(held) + ([b] + InTime(device, counter, rest));
            var before := Ahead(held) + ([b] + Stream(device, rest));
            var end := OwnByte(device, expected, held, b, rest);
            if end.Some? then ReadsRight(device, expected, own, before, end.value)
            else
              && b != expected && own == Ahead(Some(b)) + InTime(device, counter, rest)
              && before == Ahead(Some(b)) + Stream(device, rest)
  {
    OwnByteRight(device, expected, held, b, InTime(device, counter, rest), rest);
    SetAside(b, InTime(device, counter, rest));
    SetAside(b, Stream(device, rest));
  }

  /** The expecting read, at any turn: its value, what its own handler gets and
      what is left of its own stream are the repair's. */
  lemma {:induction false} ReadExpectingRight(device: Device, expected: byte, held: Option<byte>, counter: nat,
                                              port: Port)
    requires counter > 0 && (held.Some? ==> held.value != expected)
    ensures ReadsRight(device, expected, Ahead(held) + InTime(device, counter, port),
                       Ahead(held) + Stream(device, port), ReadExpecting(device, expected, held, counter, port))
    decreases |port.polls|, |port.queue|
  {
    hide ReadsRight, InTime, Stream, OwnByte, TimedOut, Ahead;
    FirstOwn(device, counter, port);
    if device == Keyboard && port.queue != [] {
      var rest := port.(queue := port.queue[1..]);
      var b := port.queue[0];
      OwnTurn(device, expected, held, b, counter, rest);
      if OwnByte(device, expected, held, b, rest).None? {
        ReadExpectingRight(device, expected, Some(b), counter, rest);
      }
    } else if port.polls == [] {
      TimedOutRight(device, expected, held, [], port);
    } else {
      var rest := port.(polls := port.polls[1..]);
      match port.polls[0]
      case NotReady =>
        if counter > 1 {
          ReadExpectingRight(device, expected, held, counter - 1, rest);
        } else {
          TimedOutRight(device, expected, held, Stream(device, rest), rest);
        }
      case Ready(d, b) =>
        if d == device {
          OwnTurn(device, expected, held, b, counter, rest);
          if OwnByte(device, expected, held, b, rest).None? {
            ReadExpectingRight(device, expected, Some(b), counter, rest);
          }
        } else {
          ReadExpectingRight(device, expected, held, counter, rest);
          DispatchingRight(device, expected, Ahead(held) + InTime(device, counter, rest),
                           Ahead(held) + Stream(device, rest), Delivery(d, b),
                           ReadExpecting(device, expected, held, counter, rest));
        }
    }
  }

  lemma DispatchingRight(device: Device, expected: byte, own: seq<byte>, before: seq<byte>, d: Delivery, r: Read)
    requires d.device != device && ReadsRight(device, expected, own, before, r)
    ensures ReadsRight(device, expected, own, before, Dispatching(d, r))
  {
    DispatchingTo(device, d, r);
  }

  /** The expecting read returns the expected byte whenever it is one of the first
      two its device sends in time; it takes at most two, and its handler gets what
      it took less what it returned, in order. */
  lemma ExpectingReadRepairs(device: Device, expected: byte, port: Port)
    ensures var r := ReadExpecting(device, expected, None, TIMEOUT, port);
            var own := InTime(device, TIMEOUT, port);
            var p := Repaired(own, expected);
            && r.value == p.value && (r.genuine <==> own != [])
            && DispatchedTo(device, r.dispatched) == p.dispatched
            && p.taken <= |Stream(device, port)| && Stream(device, r.port) == Stream(device, port)[p.taken..]
            && ((|own| > 0 && own[0] == expected) || (|own| > 1 && own[1] == expected) <==>
                r.genuine && r.value == expected)
  {
    var own := InTime(device, TIMEOUT, port);
    ReadExpectingRight(device, expected, None, TIMEOUT, port);
    assert Ahead(None) + own == own && Ahead(None) + Stream(device, port) == Stream(device, port);
    hide ReadExpecting, InTime, Stream;
  }

  /** Case by case: which of its own bytes the read returns, and which it hands on. */
  lemma ExpectingReadExactly(device: Device, expected: byte, port: Port)
    ensures var r := ReadExpecting(device, expected, None, TIMEOUT, port);
            var own := InTime(device, 10000, port);
            var handed := DispatchedTo(device, r.dispatched);
            if own == [] then !r.genuine && r.value == 0 && handed == []
            else if own[0] == expected || |own| == 1 then r.genuine && r.value == own[0] && handed == []
            else if own[1] == expected then r.genuine && r.value == expected && handed == [own[0]]
            else r.genuine && r.value == own[0] && handed == [own[1]]
  {
    ExpectingReadRepairs(device, expected, port);
    hide ReadExpecting, InTime, Stream;
  }

  // -------------------------------------------------------------- the other device

  ghost predicate PassesThrough(device: Device, port: Port, r: Read) {
    var other := Other(device);
    && DispatchedTo(other, r.dispatched) + OnPort(other, r.port.polls) == OnPort(other, port.polls)
    && (device == Mouse ==> r.port.queue == port.queue)
  }

  lemma OwnByteEnds(device: Device, expected: byte, held: Option<byte>, b: byte, rest: Port)
    ensures var end := OwnByte(device, expected, held, b, rest);
            end.Some? ==> PassesThrough(device, rest, end.value)
  {
    var end := OwnByte(device, expected, held, b, rest);
    if end.Some? {
      assert DispatchedTo(Other(device), end.value.dispatched) == [];
    }
  }

  /** A step that finds nothing of the other device, and one that does. */
  lemma PassesFrom(device: Device, port: Port, rest: Port, r: Read)
    requires PassesThrough(device, rest, r)
    requires OnPort(Other(device), port.polls) == OnPort(Other(device), rest.polls)
    requires device == Mouse ==> port.queue == rest.queue
    ensures PassesThrough(device, port, r)
  {
  }

  lemma PassesDispatched(device: Device, b: byte, port: Port, rest: Port, r: Read)
    requires PassesThrough(device, rest, r) && port.queue == rest.queue
    requires OnPort(Other(device), port.polls) == [b] + OnPort(Other(device), rest.polls)
    ensures PassesThrough(device, port, Dispatching(Delivery(Other(device), b), r))
  {
    DispatchingTo(Other(device), Delivery(Other(device), b), r);
  }

  /** Whatever a read finds of the other device it dispatches at once, in order. */
  lemma {:induction false} OthersPassThrough(device: Device, expected: byte, held: Option<byte>, counter: nat,
                                             port: Port)
    requires counter > 0
    ensures PassesThrough(device, port, ReadExpecting(device, expected, held, counter, port))
    decreases |port.polls|, |port.queue|
  {
    hide PassesThrough, OwnByte, Dispatching;
    if device == Keyboard && port.queue != [] {
      var rest := port.(queue := port.queue[1..]);
      OwnByteEnds(device, expected, held, port.queue[0], rest);
      if OwnByte(device, expected, held, port.queue[0], rest).None? {
        OthersPassThrough(device, expected, Some(port.queue[0]), counter, rest);
      }
      PassesFrom(device, port, rest, ReadExpecting(device, expected, held, counter, port));
    } else if port.polls == [] {
      TimedOutPasses(device, held, port);
    } else {
      var rest := port.(polls := port.polls[1..]);
      match port.polls[0]
      case NotReady =>
        TimedOutPasses(device, held, rest);
        if counter > 1 {
          OthersPassThrough(device, expected, held, counter - 1, rest);
        }
        PassesFrom(device, port, rest, ReadExpecting(device, expected, held, counter, port));
      case Ready(d, b) =>
        if d == device {
          OwnByteEnds(device, expected, held, b, rest);
          if OwnByte(device, expected, held, b, rest).None? {
            OthersPassThrough(device, expected, Some(b), counter, rest);
          }
          PassesFrom(device, port, rest, ReadExpecting(device, expected, held, counter, port));
        } else {
          OthersPassThrough(device, expected, held, counter, rest);
          PassesDispatched(device, b, port, rest, ReadExpecting(device, expected, held, counter, rest));
        }
    }
  }

  lemma TimedOutPasses(device: Device, held: Option<byte>, port: Port)
    ensures PassesThrough(device, port, TimedOut(held, port))
  {
  }

  /** The other device hears its stream in order. */
  ghost predicate InOrder(device: Device, expected: byte, port: Port) {
    var r := ReadExpecting(device, expected, None, TIMEOUT, port);
    DispatchedTo(Other(device), r.dispatched) + Stream(Other(device), r.port) == Stream(Other(device), port)
  }

  /** The two bytes that show a mouse read passing keyboard bytes out of order. */
  function Overtaking(queued: byte): seq<Poll> {
    [Ready(Keyboard, if queued == 0 then 1 else 0)]
  }

  lemma OvertakingBreaksOrder(expected: byte, queue: seq<byte>)
    requires queue != []
    ensures !InOrder(Mouse, expected, Port(queue, Overtaking(queue[0])))
  {
    var b: byte := if queue[0] == 0 then 1 else 0;
    var port := Port(queue, Overtaking(queue[0]));
    var rest := Port(queue, []);
    assert port.polls[1..] == [];
    var r := ReadExpecting(Mouse, expected, None, TIMEOUT, port);
    assert r == Dispatching(Delivery(Keyboard, b), ReadExpecting(Mouse, expected, None, TIMEOUT, rest));
    DispatchingTo(Keyboard, Delivery(Keyboard, b), ReadExpecting(Mouse, expected, None, TIMEOUT, rest));
    assert (DispatchedTo(Keyboard, r.dispatched) + Stream(Keyboard, r.port))[0] == b;
  }

  /** Over every arrival stream the other device's order is kept exactly when the
      read is for the keyboard or the keyboard queue is empty. */
  lemma OrderKeptExactly(device: Device, expected: byte, queue: seq<byte>)
    ensures (forall polls :: InOrder(device, expected, Port(queue, polls))) <==> device == Keyboard || queue == []
  {
    if device == Keyboard || queue == [] {
      forall polls
        ensures InOrder(device, expected, Port(queue, polls))
      {
        OthersPassThrough(device, expected, None, TIMEOUT, Port(queue, polls));
      }
    } else {
      OvertakingBreaksOrder(expected, queue);
    }
  }
}
