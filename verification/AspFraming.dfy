/** ASP over a TCP stream: cutting the stream into packets, also when a caller's
    buffer was too small and when a write's data is fetched separately
    (AppleTalk-59/asp_if.c, SPGetRequest and SPWrtContinue). */
module AspFraming {
  import opened Bytes
  import opened Common

  const HEADER_SIZE := 16

  /** asp_fspkt_t. */
  datatype Header = Header(flags: byte, command: byte, requestId: int, errorCode: int, totalLen: int, reserved: int)

  const REPLY_BIT: byte := 1
  const TICKLE: byte := 5
  const WRITE: byte := 6

  function IsReply(h: Header): bool {
    h.flags % 2 == REPLY_BIT
  }

  const UINT32 := 0x1_0000_0000

  /** What recv makes of an int that is passed as its size. */
  function SizeT(n: int): (r: nat)
    ensures r < UINT32
  {
    n % UINT32
  }

  /** An int result. */
  function Wrapped(n: int): (r: int)
    ensures -0x8000_0000 <= r < 0x8000_0000 && (-0x8000_0000 <= n < 0x8000_0000 ==> r == n)
  {
    if n % UINT32 < 0x8000_0000 then n % UINT32 else n % UINT32 - UINT32
  }

  // ------------------------------------------------------------- headers on the wire

  predicate Fits(h: Header) {
    && 0 <= h.requestId < 0x1_0000
    && -0x8000_0000 <= h.errorCode < 0x8000_0000
    && -0x8000_0000 <= h.totalLen < 0x8000_0000
    && -0x8000_0000 <= h.reserved < 0x8000_0000
  }

  function Word32(n: int): (s: seq<byte>)
    ensures |s| == 4
  {
    var u := n % 0x1_0000_0000;
    var high := u / 0x1_0000;
    var low := u % 0x1_0000;
    [high / 0x100, high % 0x100, low / 0x100, low % 0x100]
  }

  function Int32(s: seq<byte>): int
    requires |s| == 4
  {
    var u := (s[0] as int * 0x100 + s[1]) * 0x1_0000 + (s[2] as int * 0x100 + s[3]);
    if u < 0x8000_0000 then u else u - 0x1_0000_0000
  }

  lemma Word32RoundTrip(n: int)
    requires -0x8000_0000 <= n < 0x8000_0000
    ensures Int32(Word32(n)) == n
  {
  }

  function Encode(h: Header): (s: seq<byte>)
    requires 0 <= h.requestId < 0x1_0000
    ensures |s| == HEADER_SIZE
  {
    [h.flags, h.command, h.requestId / 0x100, h.requestId % 0x100] +
    Word32(h.errorCode) + Word32(h.totalLen) + Word32(h.reserved)
  }

  function Decode(s: seq<byte>): Header
    requires |s| == HEADER_SIZE
  {
    Header(s[0], s[1], s[2] as int * 0x100 + s[3], Int32(s[4..8]), Int32(s[8..12]), Int32(s[12..16]))
  }

  lemma HeaderRoundTrip(h: Header)
    requires Fits(h)
    ensures Decode(Encode(h)) == h
  {
    var s := Encode(h);
    assert s[4..8] == Word32(h.errorCode) && s[8..12] == Word32(h.totalLen) && s[12..16] == Word32(h.reserved);
    hide Word32, Int32;
    Word32RoundTrip(h.errorCode);
    Word32RoundTrip(h.totalLen);
    Word32RoundTrip(h.reserved);
  }

  /** Four bytes as they stand on the wire. */
  function Unsigned32(s: seq<byte>, at: nat): int
    requires at + 4 <= |s|
  {
    s[at] as int * 0x100_0000 + s[at + 1] as int * 0x1_0000 + s[at + 2] as int * 0x100 + s[at + 3] as int
  }

  lemma WordInBytes(n: int)
    ensures Unsigned32(Word32(n), 0) == n % 0x1_0000_0000
  {
  }

  /** Where each field of a header is: 16 bytes, each number with its high byte first. */
  lemma HeaderInBytes(h: Header)
    requires Fits(h)
    ensures var s := Encode(h);
            && |s| == 16 && s[0] == h.flags && s[1] == h.command && s[2] as int * 0x100 + s[3] as int == h.requestId
            && Unsigned32(s, 4) == h.errorCode % 0x1_0000_0000
            && Unsigned32(s, 8) == h.totalLen % 0x1_0000_0000
            && Unsigned32(s, 12) == h.reserved % 0x1_0000_0000
  {
    var s := Encode(h);
    assert s[4..8] == Word32(h.errorCode) && s[8..12] == Word32(h.totalLen) && s[12..16] == Word32(h.reserved);
    WordInBytes(h.errorCode);
    WordInBytes(h.totalLen);
    WordInBytes(h.reserved);
    hide Word32;
    assert Unsigned32(s, 4) == Unsigned32(s[4..8], 0) && Unsigned32(s, 8) == Unsigned32(s[8..12], 0);
    assert Unsigned32(s, 12) == Unsigned32(s[12..16], 0);
  }

  // ----------------------------------------------------------------- the two calls

  /** What a session keeps between calls: SessFSPkt and FSRangeErr. */
  datatype Session = Session(header: Header, rangeErr: bool)

  datatype Outcome =
    | Request(refNum: int, command: byte, data: seq<byte>)
    | Reply(refNum: int, data: seq<byte>)
    | BufTooSmall
    | SessClosed
    | Overrun(asked: nat)      // a negative length passes for a small one: recv is asked for this much

  /** A call's outcome, what it keeps and leaves, and the tickles it sent back. */
  datatype Step = Step(outcome: Outcome, session: Session, stream: seq<byte>, echoed: nat)

  /** Headers are read until one is not a tickle. */
  datatype Found =
    | Found(header: Header, rest: seq<byte>, echoed: nat)
    | Nothing(last: Header, rest: seq<byte>, echoed: nat)

  function ReadHeader(last: Header, stream: seq<byte>): Found
    decreases |stream|
  {
    if |stream| < HEADER_SIZE then Nothing(last, stream, 0) else
    var h := Decode(stream[..HEADER_SIZE]);
    if h.command != TICKLE then Found(h, stream[HEADER_SIZE..], 0)
    else
      var f := ReadHeader(h, stream[HEADER_SIZE..]);
      f.(echoed := f.echoed + 1)
  }

  /** For a write ErrorCode says where its data starts; 0 says it has none. */
  function Prepared(h: Header): Header {
    if h.command == WRITE && h.errorCode == 0 then h.(errorCode := h.totalLen) else h
  }

  function CommandLength(h: Header): int {
    if h.command == WRITE then h.errorCode else h.totalLen
  }

  /** From a header on: its payload, if the caller has room for it. */
  function Deliver(h: Header, bufSize: nat, rest: seq<byte>, echoed: nat): Step {
    var p := Prepared(h);
    var n := CommandLength(p);
    if n > bufSize then Step(BufTooSmall, Session(p, true), rest, echoed)
    else if n < 0 then Step(Overrun(SizeT(n)), Session(p, false), rest, echoed)
    else if n > |rest| then Step(SessClosed, Session(p, false), [], echoed)
    else
      var data := rest[..n];
      var outcome := if IsReply(p) then Reply(p.errorCode, data) else Request(p.requestId, p.command, data);
      Step(outcome, Session(p, false), rest[n..], echoed)
  }

  function GetRequest(s: Session, bufSize: nat, stream: seq<byte>): Step {
    if s.rangeErr && !IsReply(s.header) then Deliver(s.header, bufSize, stream, 0)
    else
      match ReadHeader(s.header, stream)
      case Found(h, rest, echoed) => Deliver(h, bufSize, rest, echoed)
      case Nothing(h, rest, echoed) => Step(SessClosed, s.(header := h), rest, echoed)
  }

  /** What SPWrtContinue gives its caller. */
  datatype Fetched =
    | Got(data: seq<byte>)
    | Closes
    | TooMuch(asked: nat)      // recv is asked for this much, more than the buffer holds

  /** The data of a write: as much as there is room for, and the rest drained as far as
      it comes. */
  datatype Continued = Continued(fetched: Fetched, drained: seq<byte>, stream: seq<byte>) {
    function Data(): seq<byte> {
      if fetched.Got? then fetched.data else []
    }
  }

  function WriteLeft(h: Header): int {
    Wrapped(h.totalLen - h.errorCode)
  }

  function WrtContinue(s: Session, bufSize: nat, stream: seq<byte>): Continued {
    var left := WriteLeft(s.header);
    var n := Min(left, bufSize);
    if n < 0 then Continued(TooMuch(SizeT(n)), [], stream)
    else if n > |stream| then Continued(Closes, [], [])
    else
      var end := Min(left, |stream|);
      Continued(Got(stream[..n]), stream[n..end], stream[end..])
  }

  // ---------------------------------------------------- what recv is asked for

  /** The first payload recv of SPGetRequest for a header with this length; 0 if there
      is none. */
  function Asks(n: int, bufSize: nat): nat {
    if n > bufSize then 0 else SizeT(n)
  }

  /** And of SPWrtContinue. */
  function AsksForRest(h: Header, bufSize: nat): nat {
    SizeT(Min(WriteLeft(h), bufSize))
  }

  /** The header a call of SPGetRequest works on. */
  function HeaderTaken(s: Session, stream: seq<byte>): Option<Header> {
    if s.rangeErr && !IsReply(s.header) then Some(s.header) else
    match ReadHeader(s.header, stream)
    case Found(h, _, _) => Some(h)
    case Nothing(_, _, _) => None
  }

  /** A length that SPGetRequest takes for less than the buffer holds. */
  predicate NegativeLength(h: Header) {
    if h.command == WRITE && h.errorCode != 0 then h.errorCode < 0 else h.totalLen < 0
  }

  lemma DecodedFits(s: seq<byte>)
    requires |s| == HEADER_SIZE
    ensures Fits(Decode(s))
  {
  }

  lemma {:induction false} FoundFits(last: Header, stream: seq<byte>)
    ensures ReadHeader(last, stream).Found? ==> Fits(ReadHeader(last, stream).header)
    decreases |stream|
  {
    if |stream| >= HEADER_SIZE {
      DecodedFits(stream[..HEADER_SIZE]);
      FoundFits(Decode(stream[..HEADER_SIZE]), stream[HEADER_SIZE..]);
    }
  }

  /** Over every stream and session: SPGetRequest asks recv for no more than its buffer
      holds if and only if the header it takes has no negative length, and overruns
      exactly otherwise. */
  lemma AsksWithinBufferExactly(s: Session, bufSize: nat, stream: seq<byte>)
    requires Fits(s.header) && bufSize < 0x8000_0000
    ensures match HeaderTaken(s, stream)
            case None => GetRequest(s, bufSize, stream).outcome == SessClosed
            case Some(h) =>
              var asked := Asks(CommandLength(Prepared(h)), bufSize);
              && (asked <= bufSize <==> !NegativeLength(h))
              && (NegativeLength(h) ==> GetRequest(s, bufSize, stream).outcome == Overrun(asked))
              && (!NegativeLength(h) ==> !GetRequest(s, bufSize, stream).outcome.Overrun?)
  {
    hide Decode;
    FoundFits(s.header, stream);
  }

  /** SPWrtContinue likewise: if and only if what the header leaves does not read as
      negative; with a length and a start that are not negative, if and only if the
      data does not start behind the end. */
  lemma AsksForRestExactly(s: Session, bufSize: nat, stream: seq<byte>)
    requires bufSize < 0x8000_0000
    ensures AsksForRest(s.header, bufSize) <= bufSize <==> WriteLeft(s.header) >= 0
    ensures if WriteLeft(s.header) >= 0 then !WrtContinue(s, bufSize, stream).fetched.TooMuch?
            else WrtContinue(s, bufSize, stream).fetched == TooMuch(AsksForRest(s.header, bufSize))
    ensures Fits(s.header) && s.header.errorCode >= 0 && s.header.totalLen >= 0 ==>
              (WriteLeft(s.header) >= 0 <==> s.header.errorCode <= s.header.totalLen)
  {
  }

  /** Two headers that get past the checks: a length of -1, and a write whose data
      starts behind its end. */
  lemma OverrunsHappen(bufSize: nat, payload: seq<byte>)
    requires 8 <= bufSize < 0x8000_0000 && |payload| >= 8
    ensures Deliver(Header(0, 2, 1, 0, -1, 0), bufSize, payload, 0).outcome == Overrun(UINT32 - 1)
    ensures var r := Deliver(Header(0, WRITE, 1, 8, 4, 0), bufSize, payload, 0);
            && r.outcome == Request(1, WRITE, payload[..8])
            && WrtContinue(r.session, bufSize, r.stream).fetched == TooMuch(UINT32 - 4)
  {
  }

  // -------------------------------------------------------------------- the packets

  datatype Packet = Packet(header: Header, payload: seq<byte>)

  /** What a peer sends: as many bytes as announced, a write's data within them,
      nothing behind a tickle. */
  predicate WellFormed(p: Packet) {
    && Fits(p.header) && |p.payload| == p.header.totalLen
    && (p.header.command == WRITE ==> 0 <= p.header.errorCode <= p.header.totalLen)
    && (p.header.command == TICKLE ==> p.payload == [])
  }

  predicate AllWellFormed(ps: seq<Packet>) {
    forall i :: 0 <= i < |ps| ==> WellFormed(ps[i])
  }

  function EncodeAll(ps: seq<Packet>): seq<byte>
    requires AllWellFormed(ps)
  {
    if ps == [] then [] else Encode(ps[0].header) + ps[0].payload + EncodeAll(ps[1..])
  }

  /** Where a session stands in the packets still to come. */
  datatype Position =
    | Boundary(ps: seq<Packet>)                     // before a header
    | Pending(p: Packet, ps: seq<Packet>)           // header taken, buffer was too small
    | InWrite(p: Packet, ps: seq<Packet>)           // a write's command taken, its data not

  predicate Sound(pos: Position) {
    match pos
    case Boundary(ps) => AllWellFormed(ps)
    case Pending(p, ps) => WellFormed(p) && AllWellFormed(ps)
    case InWrite(p, ps) => WellFormed(p) && AllWellFormed(ps) && p.header.command == WRITE
  }

  function Command(p: Packet): seq<byte>
    requires WellFormed(p)
  {
    p.payload[..CommandLength(Prepared(p.header))]
  }

  function WriteData(p: Packet): seq<byte>
    requires WellFormed(p)
  {
    p.payload[CommandLength(Prepared(p.header))..]
  }

  ghost predicate Represents(pos: Position, s: Session, stream: seq<byte>)
    requires Sound(pos)
  {
    match pos
    case Boundary(ps) => !s.rangeErr && stream == EncodeAll(ps)
    case Pending(p, ps) =>
      s.rangeErr && !IsReply(p.header) && s.header == Prepared(p.header) && stream == p.payload + EncodeAll(ps)
    case InWrite(p, ps) => !s.rangeErr && s.header == Prepared(p.header) && stream == WriteData(p) + EncodeAll(ps)
  }

  function SkipTickles(ps: seq<Packet>): (rest: seq<Packet>)
    requires AllWellFormed(ps)
    ensures AllWellFormed(rest) && |rest| <= |ps| && (rest != [] ==> rest[0].header.command != TICKLE)
  {
    if ps != [] && ps[0].header.command == TICKLE then SkipTickles(ps[1..]) else ps
  }

  /** What SPGetRequest should do, packet by packet. */
  function Take(p: Packet, bufSize: nat, ps: seq<Packet>): (Outcome, Position)
    requires WellFormed(p)
  {
    var h := p.header;
    if |Command(p)| > bufSize then (BufTooSmall, Pending(p, ps))
    else if IsReply(h) then
      (Reply(Prepared(h).errorCode, Command(p)), if h.command == WRITE then InWrite(p, ps) else Boundary(ps))
    else (Request(h.requestId, h.command, Command(p)), if h.command == WRITE then InWrite(p, ps) else Boundary(ps))
  }

  /** The next packet to be taken, if the peer has sent one. */
  function Next(pos: Position): seq<Packet>
    requires Sound(pos)
    ensures AllWellFormed(Next(pos)) && (Next(pos) != [] ==> Next(pos)[0].header.command != TICKLE || pos.Pending?)
  {
    match pos
    case Boundary(ps) => SkipTickles(ps)
    case Pending(p, ps) => [p] + ps
    case InWrite(_, _) => []
  }

  // ------------------------------------------------------------- the calls refine it

  lemma SplitFirst(ps: seq<Packet>)
    requires AllWellFormed(ps) && ps != []
    ensures AllWellFormed(ps[1..])
    ensures var s := EncodeAll(ps);
            && |s| >= HEADER_SIZE && Decode(s[..HEADER_SIZE]) == ps[0].header
            && s[HEADER_SIZE..] == ps[0].payload + EncodeAll(ps[1..])
  {
    HeaderRoundTrip(ps[0].header);
    hide Encode, Decode;
    Apart(Encode(ps[0].header), ps[0].payload, EncodeAll(ps[1..]));
  }

  lemma Apart(a: seq<byte>, b: seq<byte>, c: seq<byte>)
    ensures (a + b + c)[..|a|] == a && (a + b + c)[|a|..] == b + c
  {
  }

  /** The header loop stops at the first packet that is not a tickle. */
  lemma {:induction false} FindsPacket(last: Header, ps: seq<Packet>)
    requires AllWellFormed(ps)
    ensures var f, rest := ReadHeader(last, EncodeAll(ps)), SkipTickles(ps);
            if rest == [] then f.Nothing?
            else f.Found? && f.header == rest[0].header && f.rest == rest[0].payload + EncodeAll(rest[1..])
    decreases |ps|
  {
    hide Encode, Decode;
    if ps == [] {
    } else {
      SplitFirst(ps);
      if ps[0].header.command == TICKLE {
        assert ps[0].payload + EncodeAll(ps[1..]) == EncodeAll(ps[1..]);
        FindsPacket(ps[0].header, ps[1..]);
      }
    }
  }

  lemma DeliverTakes(p: Packet, h: Header, bufSize: nat, ps: seq<Packet>, echoed: nat)
    requires WellFormed(p) && AllWellFormed(ps) && (h == p.header || h == Prepared(p.header))
    ensures var r, t := Deliver(h, bufSize, p.payload + EncodeAll(ps), echoed), Take(p, bufSize, ps);
            && r.outcome == t.0 && Sound(t.1)
            && (!(IsReply(p.header) && t.0.BufTooSmall?) ==> Represents(t.1, r.session, r.stream))
  {
    hide EncodeAll;
    var n := CommandLength(Prepared(p.header));
    var s := p.payload + EncodeAll(ps);
    if n <= bufSize {
      assert s[..n] == p.payload[..n];
      assert s[n..] == p.payload[n..] + EncodeAll(ps);
      if p.header.command != WRITE {
        assert p.payload[n..] + EncodeAll(ps) == EncodeAll(ps);
      }
    }
  }

  /** SPGetRequest on a stream of well-formed packets takes the next one, however
      many tickles precede it and however often the buffer was too small before. */
  lemma GetRequestTakesNext(pos: Position, s: Session, stream: seq<byte>, bufSize: nat)
    requires Sound(pos) && !pos.InWrite? && Represents(pos, s, stream)
    ensures var r, ps := GetRequest(s, bufSize, stream), Next(pos);
            if ps == [] then r.outcome == SessClosed
            else
              var t := Take(ps[0], bufSize, ps[1..]);
              && r.outcome == t.0 && Sound(t.1)
              && (!(IsReply(ps[0].header) && t.0.BufTooSmall?) ==> Represents(t.1, r.session, r.stream))
  {
    hide EncodeAll, Deliver, Take;
    match pos
    case Boundary(ps) =>
      FindsPacket(s.header, ps);
      var rest := SkipTickles(ps);
      if rest != [] {
        var f := ReadHeader(s.header, stream);
        DeliverTakes(rest[0], rest[0].header, bufSize, rest[1..], f.echoed);
      }
    case Pending(p, ps) =>
      assert ([p] + ps)[1..] == ps;
      DeliverTakes(p, s.header, bufSize, ps, 0);
  }

  lemma {:induction false} TicklesEchoed(last: Header, ps: seq<Packet>, k: nat)
    requires AllWellFormed(ps) && k < |ps| && ps[k].header.command != 5
    requires forall i :: 0 <= i < k ==> ps[i].header.command == 5
    ensures AllWellFormed(ps[k + 1..])
    ensures ReadHeader(last, EncodeAll(ps)) == Found(ps[k].header, ps[k].payload + EncodeAll(ps[k + 1..]), k)
    decreases k
  {
    hide Encode, Decode;
    SplitFirst(ps);
    if k > 0 {
      assert ps[0].payload + EncodeAll(ps[1..]) == EncodeAll(ps[1..]);
      assert ps[1..][k - 1] == ps[k] && ps[1..][k..] == ps[k + 1..];
      TicklesEchoed(ps[0].header, ps[1..], k - 1);
    }
  }

  /** In the source's own numbers: tickles, which are command 5, are sent back one by one;
      of the first other packet the caller gets its command, which of a write, command 6,
      ends where ErrorCode says unless that is 0, and of everything else is all of it; a
      reply is told by the lowest flag.  What is left of the stream begins right behind. */
  lemma NextPacketInFull(s: Session, ps: seq<Packet>, k: nat, bufSize: nat)
    requires AllWellFormed(ps) && k < |ps| && !s.rangeErr
    requires (forall i :: 0 <= i < k ==> ps[i].header.command == 5) && ps[k].header.command != 5
    ensures AllWellFormed(ps[k + 1..])
    ensures var h, payload, rest := ps[k].header, ps[k].payload, EncodeAll(ps[k + 1..]);
            var n := if h.command == 6 && h.errorCode != 0 then h.errorCode else h.totalLen;
            var r := GetRequest(s, bufSize, EncodeAll(ps));
            && r.echoed == k && 0 <= n <= |payload|
            && (r.session.rangeErr <==> n > bufSize)
            && (if n > bufSize then r.outcome == BufTooSmall && r.stream == payload + rest
                else
                  && r.stream == payload[n..] + rest
                  && r.outcome == if h.flags % 2 == 0 then Request(h.requestId, h.command, payload[..n])
                                  else Reply(if h.command == 6 && h.errorCode == 0 then h.totalLen else h.errorCode,
                                             payload[..n]))
  {
    TicklesEchoed(s.header, ps, k);
    hide EncodeAll, ReadHeader;
    var h, payload, rest := ps[k].header, ps[k].payload, EncodeAll(ps[k + 1..]);
    var n := if h.command == 6 && h.errorCode != 0 then h.errorCode else h.totalLen;
    assert (payload + rest)[..n] == payload[..n] && (payload + rest)[n..] == payload[n..] + rest;
  }

  /** And SPWrtContinue then gets the rest of a write's payload, as much as there is room
      for, drains what there is not, and leaves the next packet. */
  lemma WriteDataInFull(s: Session, ps: seq<Packet>, k: nat, bufSize: nat, room: nat)
    requires AllWellFormed(ps) && k < |ps| && !s.rangeErr
    requires (forall i :: 0 <= i < k ==> ps[i].header.command == 5) && ps[k].header.command == 6
    requires ps[k].header.errorCode <= bufSize && (ps[k].header.errorCode == 0 ==> ps[k].header.totalLen <= bufSize)
    ensures AllWellFormed(ps[k + 1..])
    ensures var h, payload := ps[k].header, ps[k].payload;
            var first := GetRequest(s, bufSize, EncodeAll(ps));
            var c := WrtContinue(first.session, room, first.stream);
            var data := if h.errorCode == 0 then [] else payload[h.errorCode..];
            && c.fetched == Got(if |data| <= room then data else data[..room])
            && c.Data() + c.drained == data
            && c.stream == EncodeAll(ps[k + 1..])
  {
    NextPacketInFull(s, ps, k, bufSize);
    TicklesEchoed(s.header, ps, k);
    hide EncodeAll, ReadHeader;
    var p, rest := ps[k], ps[k + 1..];
    var first := GetRequest(s, bufSize, EncodeAll(ps));
    assert first.stream == WriteData(p) + EncodeAll(rest);
    WrtContinueTakesData(InWrite(p, rest), first.session, first.stream, room);
    hide WrtContinue;
  }

  /** SPWrtContinue hands over or drains exactly the write's data. */
  lemma WrtContinueTakesData(pos: Position, s: Session, stream: seq<byte>, bufSize: nat)
    requires Sound(pos) && pos.InWrite? && Represents(pos, s, stream)
    ensures var r := WrtContinue(s, bufSize, stream);
            && r.fetched == Got(WriteData(pos.p)[..Min(|WriteData(pos.p)|, bufSize)])
            && r.Data() + r.drained == WriteData(pos.p)
            && Represents(Boundary(pos.ps), s, r.stream)
  {
    var d, rest := WriteData(pos.p), EncodeAll(pos.ps);
    var n := Min(|d|, bufSize);
    assert stream[..n] == d[..n] && stream[n..|d|] == d[n..] && stream[|d|..] == rest;
    assert d[..n] + d[n..] == d;
  }

  // ------------------------------------------------------------------------- whole runs

  datatype Call = Get(bufSize: nat) | Continue(bufSize: nat)

  /** The calls a server may make: the data of a write is fetched before anything
      else; a reply too big for the buffer is left to SPGetReply; and there is a
      packet to get. */
  predicate Follows(pos: Position, c: Call)
    requires Sound(pos)
  {
    match c
    case Get(n) =>
      && !pos.InWrite? && Next(pos) != []
      && !(IsReply(Next(pos)[0].header) && |Command(Next(pos)[0])| > n)
    case Continue(_) => pos.InWrite?
  }

  function Data(o: Outcome): seq<byte> {
    match o
    case Request(_, _, data) => data
    case Reply(_, data) => data
    case BufTooSmall => []
    case SessClosed => []
    case Overrun(_) => []
  }

  /** A call on the stream: the payload bytes it takes, and what is left. */
  function Call1(s: Session, stream: seq<byte>, c: Call): (seq<byte>, Session, seq<byte>) {
    match c
    case Get(n) => var r := GetRequest(s, n, stream); (Data(r.outcome), r.session, r.stream)
    case Continue(n) => var r := WrtContinue(s, n, stream); (r.Data() + r.drained, s, r.stream)
  }

  /** The same call on the packets. */
  function Moved(pos: Position, c: Call): (next: Position)
    requires Sound(pos) && Follows(pos, c)
    ensures Sound(next)
  {
    match c
    case Get(n) => Take(Next(pos)[0], n, Next(pos)[1..]).1
    case Continue(_) => Boundary(pos.ps)
  }

  function Payloads(ps: seq<Packet>): seq<byte> {
    if ps == [] then [] else ps[0].payload + Payloads(ps[1..])
  }

  /** The payload bytes not yet taken. */
  function Owed(pos: Position): seq<byte>
    requires Sound(pos)
  {
    match pos
    case Boundary(ps) => Payloads(ps)
    case Pending(p, ps) => p.payload + Payloads(ps)
    case InWrite(p, ps) => WriteData(p) + Payloads(ps)
  }

  lemma {:induction false} TicklesOweNothing(ps: seq<Packet>)
    requires AllWellFormed(ps)
    ensures Payloads(SkipTickles(ps)) == Payloads(ps)
    decreases |ps|
  {
    if ps != [] && ps[0].header.command == TICKLE {
      TicklesOweNothing(ps[1..]);
      assert ps[0].payload + Payloads(ps[1..]) == Payloads(ps[1..]);
    }
  }

  lemma NextOwesAll(pos: Position)
    requires Sound(pos) && !pos.InWrite? && Next(pos) != []
    ensures Owed(pos) == Next(pos)[0].payload + Payloads(Next(pos)[1..])
  {
    match pos
    case Boundary(ps) => TicklesOweNothing(ps);
    case Pending(p, ps) => assert ([p] + ps)[1..] == ps;
  }

  lemma TakeOwes(p: Packet, bufSize: nat, ps: seq<Packet>)
    requires WellFormed(p) && AllWellFormed(ps)
    ensures var t := Take(p, bufSize, ps);
            Sound(t.1) && Data(t.0) + Owed(t.1) == p.payload + Payloads(ps)
  {
    var n := CommandLength(Prepared(p.header));
    hide Payloads;
    Cut(p.payload, n, Payloads(ps));
  }

  lemma Cut(s: seq<byte>, n: nat, rest: seq<byte>)
    requires n <= |s|
    ensures s[..n] + (s[n..] + rest) == s + rest && [] + (s + rest) == s + rest
    ensures n == |s| ==> s[..n] + rest == s + rest
  {
  }

  /** One call takes the next payload bytes and leaves the rest. */
  lemma CallTakesInOrder(pos: Position, s: Session, stream: seq<byte>, c: Call)
    requires Sound(pos) && Represents(pos, s, stream) && Follows(pos, c)
    ensures var t := Call1(s, stream, c);
            && t.0 + Owed(Moved(pos, c)) == Owed(pos)
            && Represents(Moved(pos, c), t.1, t.2)
  {
    match c
    case Get(n) =>
      hide Take, Represents, Owed;
      GetRequestTakesNext(pos, s, stream, n);
      NextOwesAll(pos);
      TakeOwes(Next(pos)[0], n, Next(pos)[1..]);
      TakeTooSmall(Next(pos)[0], n, Next(pos)[1..]);
    case Continue(n) =>
      WrtContinueTakesData(pos, s, stream, n);
  }

  lemma TakeTooSmall(p: Packet, bufSize: nat, ps: seq<Packet>)
    requires WellFormed(p)
    ensures Take(p, bufSize, ps).0.BufTooSmall? <==> |Command(p)| > bufSize
  {
  }

  ghost predicate FollowsAll(pos: Position, calls: seq<Call>)
    requires Sound(pos)
    decreases |calls|
  {
    calls != [] ==> Follows(pos, calls[0]) && FollowsAll(Moved(pos, calls[0]), calls[1..])
  }

  function End(pos: Position, calls: seq<Call>): (end: Position)
    requires Sound(pos) && FollowsAll(pos, calls)
    ensures Sound(end)
    decreases |calls|
  {
    if calls == [] then pos else End(Moved(pos, calls[0]), calls[1..])
  }

  function Calls(s: Session, stream: seq<byte>, calls: seq<Call>): (seq<byte>, Session, seq<byte>)
    decreases |calls|
  {
    if calls == [] then ([], s, stream) else
    var t := Call1(s, stream, calls[0]);
    var u := Calls(t.1, t.2, calls[1..]);
    (t.0 + u.0, u.1, u.2)
  }

  /** Over any run of such calls, with any tickles and any number of buffers too
      small, every payload byte is handed over or drained exactly once, in order,
      and the stream stands where the packets say. */
  lemma {:induction false} FramingIsExact(pos: Position, s: Session, stream: seq<byte>, calls: seq<Call>)
    requires Sound(pos) && Represents(pos, s, stream) && FollowsAll(pos, calls)
    ensures var t := Calls(s, stream, calls);
            t.0 + Owed(End(pos, calls)) == Owed(pos) && Represents(End(pos, calls), t.1, t.2)
    decreases |calls|
  {
    hide Represents, Owed, Follows, Moved, Call1;
    if calls == [] {
      assert [] + Owed(pos) == Owed(pos);
    } else {
      var t := Call1(s, stream, calls[0]);
      CallTakesInOrder(pos, s, stream, calls[0]);
      FramingIsExact(Moved(pos, calls[0]), t.1, t.2, calls[1..]);
      var u := Calls(t.1, t.2, calls[1..]);
      var end := End(Moved(pos, calls[0]), calls[1..]);
      assert t.0 + u.0 + Owed(end) == t.0 + (u.0 + Owed(end));
    }
  }

  // -------------------------------------------------------------- resuming a reply

  lemma {:induction false} HeadersTakeRoom(last: Header, stream: seq<byte>)
    ensures var f := ReadHeader(last, stream);
            f.Found? ==> |f.rest| + HEADER_SIZE <= |stream|
    decreases |stream|
  {
    if |stream| >= HEADER_SIZE {
      HeadersTakeRoom(Decode(stream[..HEADER_SIZE]), stream[HEADER_SIZE..]);
    }
  }

  /** After a buffer that was too small, the packet is where it was. */
  lemma TooSmallLeavesPayload(p: Packet, small: nat, rest: seq<byte>)
    requires WellFormed(p) && small < |Command(p)|
    ensures Deliver(p.header, small, p.payload + rest, 0) ==
            Step(BufTooSmall, Session(Prepared(p.header), true), p.payload + rest, 0)
  {
  }

  lemma DeliverCuts(p: Packet, big: nat, rest: seq<byte>)
    requires WellFormed(p) && |Command(p)| <= big
    ensures var r := Deliver(Prepared(p.header), big, p.payload + rest, 0);
            Data(r.outcome) == Command(p) && r.stream == WriteData(p) + rest
  {
    var s, n := p.payload + rest, |Command(p)|;
    assert s[..n] == Command(p) && s[n..] == WriteData(p) + rest;
  }

  /** Taking a header out of a stream leaves too little for all of it. */
  lemma HeaderCosts(s: Session, big: nat, stream: seq<byte>)
    requires !s.rangeErr || IsReply(s.header)
    ensures var r := GetRequest(s, big, stream);
            Data(r.outcome) == [] || |Data(r.outcome)| + |r.stream| + HEADER_SIZE <= |stream|
  {
    HeadersTakeRoom(s.header, stream);
  }

  /** A retry with a big enough buffer, after a buffer that was too small, delivers
      the packet it was about and leaves its write data and the next packet exactly
      when that packet is not a reply; for a reply a fresh header is read out of its
      payload. */
  lemma RetryResumesExactly(p: Packet, ps: seq<Packet>, small: nat, big: nat)
    requires WellFormed(p) && AllWellFormed(ps)
    requires small < |Command(p)| <= big
    ensures var first := Deliver(p.header, small, p.payload + EncodeAll(ps), 0);
            var again := GetRequest(first.session, big, first.stream);
            && first.outcome == BufTooSmall
            && (Data(again.outcome) == Command(p) && again.stream == WriteData(p) + EncodeAll(ps) <==>
                !IsReply(p.header))
  {
    var rest := EncodeAll(ps);
    TooSmallLeavesPayload(p, small, rest);
    hide EncodeAll, Deliver, ReadHeader;
    assert |Command(p)| + |WriteData(p)| == |p.payload|;
    if IsReply(p.header) {
      HeaderCosts(Session(Prepared(p.header), true), big, p.payload + rest);
    } else {
      DeliverCuts(p, big, rest);
    }
  }
}
