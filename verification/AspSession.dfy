/** SPGetRequest and SPWrtContinue as they are written: loops over recv, which may
    return any part of what has arrived (AppleTalk-59/asp_if.c). */
module AspSession {
  import opened Bytes
  import opened Common
  import opened AspFraming

  /** A TCP connection; stream is what the peer has sent and nobody has read. */
  class Socket {
    var stream: seq<byte>
    var echoed: nat               // headers sent back
    ghost var cut: bool           // a header has come in pieces

    constructor (stream: seq<byte>)
      ensures this.stream == stream && echoed == 0 && !cut
    {
      this.stream, echoed, cut := stream, 0, false;
    }

    /** recv: some of the bytes asked for; none only when there are none. */
    method Recv(n: nat) returns (bytes: seq<byte>)
      requires n > 0
      modifies this`stream
      ensures bytes + stream == old(stream) && |bytes| <= n
      ensures bytes == [] <==> old(stream) == []
    {
      var most := if |stream| < n then |stream| else n;
      if most == 0 {
        return [];
      }
      var k :| 1 <= k <= most;
      bytes, stream := stream[..k], stream[k..];
    }

    /** recv of a header; a short one ends the session. */
    method RecvHeader() returns (header: seq<byte>)
      modifies this`stream, this`cut
      ensures |header| <= HEADER_SIZE && header + stream == old(stream)
      ensures cut == (old(cut) || (|header| < HEADER_SIZE <= |old(stream)|))
    {
      header := Recv(HEADER_SIZE);
      cut := cut || (|header| < HEADER_SIZE <= |header| + |stream|);
    }

    method Send()
      modifies this`echoed
      ensures echoed == old(echoed) + 1
    {
      echoed := echoed + 1;
    }
  }

  class ServerSession {
    const socket: Socket
    var SessFSPkt: Header
    var FSRangeErr: bool

    constructor (socket: Socket)
      ensures this.socket == socket && !FSRangeErr
    {
      this.socket := socket;
      SessFSPkt, FSRangeErr := Header(0, 0, 0, 0, 0, 0), false;
    }

    ghost function State(): Session
      reads this
    {
      Session(SessFSPkt, FSRangeErr)
    }

    /** Reads until len bytes are there or the peer has closed. */
    method ReceiveAll(len: nat) returns (data: seq<byte>, lenLeft: nat)
      modifies socket`stream
      ensures |data| + lenLeft == len && data + socket.stream == old(socket.stream)
      ensures lenLeft == 0 <==> len <= |old(socket.stream)|
      ensures lenLeft > 0 ==> socket.stream == []
    {
      data, lenLeft := [], len;
      while lenLeft > 0
        invariant |data| + lenLeft == len && data + socket.stream == old(socket.stream)
      {
        ghost var before := socket.stream;
        var bytes := socket.Recv(lenLeft);
        if bytes == [] {
          break;
        }
        assert data + (bytes + socket.stream) == data + bytes + socket.stream;
        data, lenLeft := data + bytes, lenLeft - |bytes|;
      }
    }

    /** Headers up to one that is not a tickle; tickles are sent back. */
    method NextHeader() returns (closed: bool, ghost tickles: nat)
      modifies this`SessFSPkt, socket`stream, socket`echoed, socket`cut
      ensures socket.echoed == old(socket.echoed) + tickles
      ensures closed && !socket.cut ==> ReadHeader(old(SessFSPkt), old(socket.stream)).Nothing?
      ensures !closed ==> socket.cut == old(socket.cut)
      ensures !closed ==> ReadHeader(old(SessFSPkt), old(socket.stream)) == Found(SessFSPkt, socket.stream, tickles)
    {
      closed, tickles := false, 0;
      ghost var start := ReadHeader(SessFSPkt, socket.stream);
      while true
        invariant socket.echoed == old(socket.echoed) + tickles
        invariant !closed && socket.cut == old(socket.cut)
        invariant start == Later(ReadHeader(SessFSPkt, socket.stream), tickles)
        decreases |socket.stream|
      {
        ghost var before := socket.stream;
        var header := socket.RecvHeader();
        if |header| != HEADER_SIZE {
          return true, tickles;
        }
        assert before[..HEADER_SIZE] == header && before[HEADER_SIZE..] == socket.stream;
        SessFSPkt := Decode(header);
        if SessFSPkt.command != TICKLE {
          return;
        }
        socket.Send();
        tickles := tickles + 1;
      }
    }

    /** SPGetRequest from the header on. */
    method ReceivePayload(bufSize: nat, ghost tickles: nat) returns (outcome: Outcome)
      modifies this, socket`stream
      ensures var r := Deliver(old(SessFSPkt), bufSize, old(socket.stream), tickles);
              outcome == r.outcome && (outcome != SessClosed ==> Step(outcome, State(), socket.stream, tickles) == r)
    {
      ghost var rest := socket.stream;
      var lenLeft;
      if SessFSPkt.command == WRITE {
        if SessFSPkt.errorCode == 0 {
          SessFSPkt := SessFSPkt.(errorCode := SessFSPkt.totalLen);
        }
        lenLeft := SessFSPkt.errorCode;
      } else {
        lenLeft := SessFSPkt.totalLen;
      }
      FSRangeErr := false;
      if lenLeft > bufSize {
        FSRangeErr := true;
        return BufTooSmall;
      }
      if lenLeft < 0 {
        return Overrun(SizeT(lenLeft));
      }
      var data, missing := ReceiveAll(lenLeft);
      if missing > 0 {
        return SessClosed;
      }
      assert rest[..lenLeft] == data && rest[lenLeft..] == socket.stream;
      outcome := if IsReply(SessFSPkt) then Reply(SessFSPkt.errorCode, data)
                 else Request(SessFSPkt.requestId, SessFSPkt.command, data);
    }

    /** SPGetRequest over TCP, without the request an attention may have saved.
        Unless a header arrives in pieces, which closes the session, the call does
        what is specified, however recv cuts the rest. */
    method SPGetRequest(bufSize: nat) returns (outcome: Outcome, ghost tickles: nat)
      modifies this, socket
      ensures socket.echoed == old(socket.echoed) + tickles
      ensures socket.cut ==> old(socket.cut) || outcome == SessClosed
      ensures var r := GetRequest(old(State()), bufSize, old(socket.stream));
              && (!socket.cut ==> outcome == r.outcome)
              && (outcome != SessClosed ==> Step(outcome, State(), socket.stream, tickles) == r)
    {
      hide ReadHeader, Deliver;
      tickles := 0;
      if !FSRangeErr || IsReply(SessFSPkt) {
        var closed;
        closed, tickles := NextHeader();
        if closed {
          return SessClosed, tickles;
        }
      }
      outcome := ReceivePayload(bufSize, tickles);
    }

    /** Throws len bytes away, a buffer at a time, as far as they come. */
    method Drain(len: nat)
      modifies socket`stream
      ensures socket.stream == old(socket.stream)[Min(len, |old(socket.stream)|)..]
    {
      var dLen: nat := len;
      ghost var start := socket.stream;
      ghost var gone: nat := 0;
      while dLen > 0
        invariant dLen + gone == len && gone <= |start| && socket.stream == start[gone..]
      {
        var bytes := socket.Recv(if dLen < 1024 then dLen else 1024);
        if bytes == [] {
          break;
        }
        dLen := dLen - |bytes|;
        assert start[gone..][|bytes|..] == start[gone + |bytes|..];
        gone := gone + |bytes|;
      }
    }

    /** SPWrtContinue over TCP. */
    method SPWrtContinue(bufSize: nat) returns (fetched: Fetched)
      modifies socket`stream
      ensures var r := WrtContinue(State(), bufSize, old(socket.stream));
              fetched == r.fetched && socket.stream == r.stream
    {
      var lenLeft := Wrapped(SessFSPkt.totalLen - SessFSPkt.errorCode);
      var dLen := 0;
      if lenLeft > bufSize {
        dLen := lenLeft - bufSize;
        lenLeft := bufSize;
      }
      if lenLeft < 0 {
        return TooMuch(SizeT(lenLeft));
      }
      ghost var start := socket.stream;
      var data, missing := ReceiveAll(lenLeft);
      if missing > 0 {
        return Closes;
      }
      assert start[..lenLeft] == data && start[lenLeft..] == socket.stream;
      if dLen > 0 {
        Drain(dLen);
        ghost var k := Min(dLen, |start| - lenLeft);
        assert start[lenLeft..][k..] == start[lenLeft + k..];
      }
      fetched := Got(data);
    }

    /** One call on a stream of well-formed packets.  Unless a header comes in
        pieces, which closes the session, it takes the next payload bytes that are
        due, in order, and leaves the session where the packets say. */
    method Serve(c: Call, ghost pos: Position) returns (closed: bool, data: seq<byte>, ghost drained: seq<byte>)
      requires Sound(pos) && Represents(pos, State(), socket.stream) && Follows(pos, c) && !socket.cut
      modifies this, socket
      ensures closed <==> socket.cut
      ensures !closed ==> data + drained + Owed(Moved(pos, c)) == Owed(pos)
      ensures !closed ==> Represents(Moved(pos, c), State(), socket.stream)
      ensures drained != [] ==> c.Continue? && |data| == c.bufSize
    {
      hide Represents, Owed, Moved, GetRequest, WrtContinue, EncodeAll;
      CallTakesInOrder(pos, State(), socket.stream, c);
      ghost var taken := Call1(State(), socket.stream, c).0;
      drained := [];
      match c {
        case Get(n) =>
          NeverCloses(pos, State(), socket.stream, n);
          var outcome;
          ghost var tickles;
          outcome, tickles := SPGetRequest(n);
          closed, data := outcome == SessClosed, Data(outcome);
          assert data + drained == data;
        case Continue(n) =>
          WrtContinueTakesData(pos, State(), socket.stream, n);
          drained := WrtContinue(State(), n, socket.stream).drained;
          DrainsTheRest(State(), n, socket.stream);
          var fetched := SPWrtContinue(n);
          closed, data := false, if fetched.Got? then fetched.data else [];
      }
    }

    /** Any sequence of calls that fetch each write's data first: all payload bytes
        are handed over or drained exactly once and in order, up to the end or to the
        first header that comes in pieces. */
    method ServeAll(calls: seq<Call>, ghost pos: Position)
      returns (done: nat, ghost taken: seq<byte>, ghost at: Position)
      requires Sound(pos) && Represents(pos, State(), socket.stream) && FollowsAll(pos, calls) && !socket.cut
      modifies this, socket
      ensures done <= |calls| && Sound(at) && taken + Owed(at) == Owed(pos)
      ensures done < |calls| <==> socket.cut
      ensures done == |calls| ==> at == End(pos, calls) && Represents(at, State(), socket.stream)
    {
      hide Represents, Owed, Moved, Follows;
      done, taken, at := 0, [], pos;
      assert calls[0..] == calls;
      while done < |calls|
        invariant done <= |calls| && Sound(at) && !socket.cut && taken + Owed(at) == Owed(pos)
        invariant Represents(at, State(), socket.stream)
        invariant FollowsAll(at, calls[done..]) && End(at, calls[done..]) == End(pos, calls)
      {
        var closed, data;
        ghost var drained;
        assert calls[done..][0] == calls[done] && calls[done..][1..] == calls[done + 1..];
        closed, data, drained := Serve(calls[done], at);
        if closed {
          return;
        }
        at := Moved(at, calls[done]);
        assert taken + (data + drained + Owed(at)) == taken + (data + drained) + Owed(at);
        taken := taken + (data + drained);
        done := done + 1;
      }
    }
  }

  /** With a packet to take there is always an outcome. */
  lemma NeverCloses(pos: Position, s: Session, stream: seq<byte>, bufSize: nat)
    requires Sound(pos) && Represents(pos, s, stream) && Follows(pos, Get(bufSize))
    ensures GetRequest(s, bufSize, stream).outcome != SessClosed
  {
    hide Represents;
    GetRequestTakesNext(pos, s, stream, bufSize);
  }

  /** Nothing is drained unless the buffer is full. */
  lemma DrainsTheRest(s: Session, bufSize: nat, stream: seq<byte>)
    ensures var r := WrtContinue(s, bufSize, stream); r.drained != [] ==> |r.Data()| == bufSize
  {
  }

  /** A header found after k tickles. */
  function Later(f: Found, k: nat): Found {
    f.(echoed := f.echoed + k)
  }
}
