/** Message-Out: queueing the messages that start a command and handing them to the
    fixed part of the channel program, which drops ATN for the last byte
    (AppleMESH-1.0d1/mesh.cpp, executeCommand, setupMsgO and gDescriptorList). */
module MessageOut {
  import opened Bytes
  import opened Common
  import opened MessageIn

  // offsets into the channel command area
  const MSGO_DATA := 0x30
  const MSGO_LAST := 0x3F
  const CCL_SIZE := 0x1000

  const ROOM := MSGO_LAST - MSGO_DATA + 1

  const SYNC_TRANSFER: byte := 0x01
  const DISCONNECT_MASK := 0x40

  /** What executeCommand reads from the command. */
  datatype Request = Request(lun: byte, noDisconnect: bool, tagMessage: byte, tag: byte, abortMessage: byte,
                             negotiate: bool, period: byte, offset: byte)

  /** The messages a command starts with. */
  function Messages(r: Request): seq<seq<byte>>
    requires r.lun < 8
  {
    [[IDENTIFY + (if r.noDisconnect then 0 else DISCONNECT_MASK) + r.lun]] +
    (if r.tagMessage != 0 then [[r.tagMessage, r.tag]] else []) +
    (if r.abortMessage != 0 then [[r.abortMessage]] else []) +
    (if r.negotiate then [[EXTENDED, 3, SYNC_TRANSFER, r.period, r.offset]] else [])
  }

  /** A byte on the bus and whether ATN is asserted with it. */
  datatype Sent = Sent(data: byte, atn: bool)

  /** What setupMsgO leaves for the fixed program: whether it branches past the
      transfer of all but the last byte, and the two counts of that transfer. */
  datatype Setup = Setup(branch: bool, meshCount: nat, dmaCount: nat)

  /** gDescriptorList from kcclMsgoBranch on: all but the last byte with ATN, then
      the last without. */
  function PutOut(ccl: seq<byte>, setup: Setup): seq<Sent>
    requires |ccl| == CCL_SIZE && setup.dmaCount < 0x100
  {
    WithAtn(if setup.branch then [] else ccl[MSGO_DATA..MSGO_DATA + setup.dmaCount]) + [Sent(ccl[MSGO_LAST], false)]
  }

  function WithAtn(s: seq<byte>): (r: seq<Sent>)
    ensures |r| == |s|
  {
    seq(|s|, i requires 0 <= i < |s| => Sent(s[i], true))
  }

  /** How a message must go out: ATN drops exactly with its last byte. */
  function Proper(s: seq<byte>): seq<Sent> {
    if s == [] then [] else WithAtn(s[..|s| - 1]) + [Sent(s[|s| - 1], false)]
  }

  /** The area as setupMsgO leaves it, with n bytes queued. */
  function AreaAfter(ccl: seq<byte>, n: nat): seq<byte>
    requires |ccl| == CCL_SIZE && n <= ROOM
  {
    ccl[MSGO_LAST := ccl[MSGO_DATA + n - 1]]
  }

  /** The size is a UInt8. */
  function SetupAfter(n: nat): Setup {
    var size := (n - 1) % 0x100;
    Setup(size == 0, size, size)
  }

  /** What is queued goes out as it should if and only if anything is queued; with
      nothing queued the size wraps and 256 bytes go out. */
  lemma SetupIsRightExactly(ccl: seq<byte>, n: nat)
    requires |ccl| == CCL_SIZE && n <= ROOM
    ensures PutOut(AreaAfter(ccl, n), SetupAfter(n)) == Proper(ccl[MSGO_DATA..MSGO_DATA + n]) <==> n > 0
    ensures n == 0 ==> |PutOut(AreaAfter(ccl, n), SetupAfter(n))| == 256
  {
    var s := ccl[MSGO_DATA..MSGO_DATA + n];
    var after, setup := AreaAfter(ccl, n), SetupAfter(n);
    if n > 0 {
      assert setup.dmaCount == n - 1;
      assert after[MSGO_DATA..MSGO_DATA + (n - 1)] == s[..n - 1];
    } else {
      assert |PutOut(after, setup)| == 256;
    }
  }

  /** A peer that cuts what a command starts with into messages, in whatever way,
      finds exactly those messages: no other cut is one. */
  lemma MessagesAreFramed(r: Request)
    requires r.lun < 8
    requires r.tagMessage != 0 ==> TWO_BYTE_MIN <= r.tagMessage <= TWO_BYTE_MAX
    requires r.abortMessage != EXTENDED && !(TWO_BYTE_MIN <= r.abortMessage <= TWO_BYTE_MAX)
    ensures AreMessages(Messages(r))
    ensures forall ns: seq<seq<byte>> ::
              AreMessages(ns) && Flatten(ns) == Flatten(Messages(r)) ==> ns == Messages(r)
  {
    var ms := Messages(r);
    assert AreMessages(ms);
    forall ns: seq<seq<byte>> | AreMessages(ns) && Flatten(ns) == Flatten(ms)
      ensures ns == ms
    {
      FramingIsUnique(ms, ns);
    }
  }

  class MessageQueue {
    const fCCL: array<byte>
    var fMsgOutPtr: nat            // an offset into fCCL
    var msgo: Setup                // kcclMsgoBranch, kcclMsgoMTC and kcclMsgoDTC

    ghost predicate Valid()
      reads this
    {
      fCCL.Length == CCL_SIZE && MSGO_DATA <= fMsgOutPtr <= MSGO_DATA + ROOM
    }

    ghost function Queued(): seq<byte>
      reads this, fCCL
      requires Valid()
    {
      fCCL[MSGO_DATA..fMsgOutPtr]
    }

    method Put(b: byte)
      requires Valid() && fMsgOutPtr < MSGO_DATA + ROOM
      modifies fCCL, this`fMsgOutPtr
      ensures Valid() && fMsgOutPtr == old(fMsgOutPtr) + 1 && Queued() == old(Queued()) + [b]
    {
      fCCL[fMsgOutPtr] := b;
      fMsgOutPtr := fMsgOutPtr + 1;
    }

    /** The synchronous negotiation message. */
    method PutSyncRequest(period: byte, offset: byte)
      requires Valid() && fMsgOutPtr + 5 <= MSGO_DATA + ROOM
      modifies fCCL, this`fMsgOutPtr
      ensures Valid() && Queued() == old(Queued()) + [EXTENDED, 3, SYNC_TRANSFER, period, offset]
    {
      Put(EXTENDED);
      Put(3);
      Put(SYNC_TRANSFER);
      Put(period);
      Put(offset);
    }

    method PutTag(tagMessage: byte, tag: byte)
      requires Valid() && fMsgOutPtr + 2 <= MSGO_DATA + ROOM
      modifies fCCL, this`fMsgOutPtr
      ensures Valid() && fMsgOutPtr <= old(fMsgOutPtr) + 2
      ensures Queued() == old(Queued()) + (if tagMessage != 0 then [tagMessage, tag] else [])
    {
      if tagMessage != 0 {
        Put(tagMessage);
        Put(tag);
      }
    }

    method PutAbort(abortMessage: byte)
      requires Valid() && fMsgOutPtr + 1 <= MSGO_DATA + ROOM
      modifies fCCL, this`fMsgOutPtr
      ensures Valid() && fMsgOutPtr <= old(fMsgOutPtr) + 1
      ensures Queued() == old(Queued()) + (if abortMessage != 0 then [abortMessage] else [])
    {
      if abortMessage != 0 {
        Put(abortMessage);
      }
    }

    /** The queueing part of executeCommand. */
    method QueueMessages(r: Request)
      requires fCCL.Length == CCL_SIZE && r.lun < 8
      modifies fCCL, this`fMsgOutPtr
      ensures Valid() && Queued() == Flatten(Messages(r)) && Queued() != []
      ensures Queued() == [0x80 + (if r.noDisconnect then 0 else 0x40) + r.lun] +
                          (if r.tagMessage != 0 then [r.tagMessage, r.tag] else []) +
                          (if r.abortMessage != 0 then [r.abortMessage] else []) +
                          (if r.negotiate then [1, 3, 1, r.period, r.offset] else [])
    {
      hide Flatten, Messages;
      fMsgOutPtr := MSGO_DATA;
      var msgByte: byte := IDENTIFY + DISCONNECT_MASK + r.lun;
      if r.noDisconnect {
        msgByte := msgByte - DISCONNECT_MASK;
      }
      Put(msgByte);
      assert Queued() == [msgByte];
      PutTag(r.tagMessage, r.tag);
      PutAbort(r.abortMessage);
      if r.negotiate {
        PutSyncRequest(r.period, r.offset);
      }
      FlattenMessages(r);
    }

    /** setupMsgO */
    method SetupMsgO()
      requires Valid()
      modifies fCCL, this`fMsgOutPtr, this`msgo
      ensures fCCL[..] == AreaAfter(old(fCCL[..]), old(fMsgOutPtr) - MSGO_DATA)
      ensures msgo.dmaCount < 0x100 && fMsgOutPtr == old(fMsgOutPtr) - 1
      ensures PutOut(fCCL[..], msgo) == PutOut(fCCL[..], SetupAfter(old(fMsgOutPtr) - MSGO_DATA))
      ensures !msgo.branch ==> msgo.meshCount == msgo.dmaCount
    {
      fMsgOutPtr := fMsgOutPtr - 1;
      var msgoSize := (fMsgOutPtr - MSGO_DATA) % 0x100;
      if msgoSize == 0 {
        msgo := Setup(true, 0, 0);
      } else {
        msgo := Setup(false, msgoSize, msgoSize);
      }
      fCCL[MSGO_LAST] := fCCL[fMsgOutPtr];
    }
  }

  lemma FlattenMessages(r: Request)
    requires r.lun < 8
    ensures Flatten(Messages(r)) ==
            [IDENTIFY + (if r.noDisconnect then 0 else DISCONNECT_MASK) + r.lun] +
            (if r.tagMessage != 0 then [r.tagMessage, r.tag] else []) +
            (if r.abortMessage != 0 then [r.abortMessage] else []) +
            (if r.negotiate then [EXTENDED, 3, SYNC_TRANSFER, r.period, r.offset] else [])
  {
    var a: seq<seq<byte>> := [[IDENTIFY + (if r.noDisconnect then 0 else DISCONNECT_MASK) + r.lun]];
    var b: seq<seq<byte>> := if r.tagMessage != 0 then [[r.tagMessage, r.tag]] else [];
    var c: seq<seq<byte>> := if r.abortMessage != 0 then [[r.abortMessage]] else [];
    var d: seq<seq<byte>> := if r.negotiate then [[EXTENDED, 3, SYNC_TRANSFER, r.period, r.offset]] else [];
    FlattenAppends(a + b + c, d);
    FlattenAppends(a + b, c);
    FlattenAppends(a, b);
    FlattenOne(a);
    FlattenOne(b);
    FlattenOne(c);
    FlattenOne(d);
  }

  lemma FlattenOne(ms: seq<seq<byte>>)
    requires |ms| <= 1
    ensures Flatten(ms) == if ms == [] then [] else ms[0]
  {
    if ms != [] {
      assert ms[1..] == [] && Flatten(ms[1..]) == [];
    }
  }

  lemma {:induction false} FlattenAppends(ms: seq<seq<byte>>, ns: seq<seq<byte>>)
    ensures Flatten(ms + ns) == Flatten(ms) + Flatten(ns)
  {
    if ms == [] {
      assert ms + ns == ns;
    } else {
      assert (ms + ns)[1..] == ms[1..] + ns;
      FlattenAppends(ms[1..], ns);
    }
  }
}
