/** A user client's linked list of registered buffers
    (IOAudioFamily-14.8/IOAudioDMAEngineUserClient.cpp). */
module AudioClients {

  /** What a list entry stands for: the stream it feeds, the address the client
      registered (0 is no address), its size in bytes and the channels of its format. */
  datatype Entry = Entry(stream: nat, sourceBuffer: nat, size: nat, numChannels: nat)

  datatype Status = Success | BadArgument | NoDevice | NoFormat | Failed(code: nat)

  /** IOAUDIODMAENGINE_DEFAULT_MIX_BUFFER_SAMPLE_SIZE, of a float. */
  const SAMPLE_SIZE := 4

  class ClientBuffer {
    const entry: Entry
    var next: ClientBuffer?

    constructor (entry: Entry)
      ensures this.entry == entry && next == null
    {
      this.entry := entry;
      next := null;
    }
  }

  /** What unregistering an address leaves: every entry for it goes. */
  function Without(entries: seq<Entry>, sourceBuffer: nat): seq<Entry> {
    if entries == [] then [] else
    var before, last := entries[..|entries| - 1], entries[|entries| - 1];
    Without(before, sourceBuffer) + (if last.sourceBuffer == sourceBuffer then [] else [last])
  }

  /** Unregistering takes away exactly the entries for that address, and a buffer
      registered twice is gone after one call. */
  lemma {:induction false} WithoutKeepsTheOthers(entries: seq<Entry>, sourceBuffer: nat)
    ensures forall e :: e in Without(entries, sourceBuffer) <==> e in entries && e.sourceBuffer != sourceBuffer
    ensures |Without(entries, sourceBuffer)| == |entries| <==>
            forall e :: e in entries ==> e.sourceBuffer != sourceBuffer
    ensures |Without(entries, sourceBuffer)| <= |entries|
  {
    if entries != [] {
      var before, last := entries[..|entries| - 1], entries[|entries| - 1];
      assert entries == before + [last];
      WithoutKeepsTheOthers(before, sourceBuffer);
    }
  }

  /** What is left is left in its order: unregistering works entry by entry. */
  lemma {:induction false} WithoutKeepsOrder(before: seq<Entry>, after: seq<Entry>, sourceBuffer: nat)
    ensures Without(before + after, sourceBuffer) == Without(before, sourceBuffer) + Without(after, sourceBuffer)
    decreases |after|
  {
    if after == [] {
      assert before + after == before;
    } else {
      var n := |after| - 1;
      WithoutOne(before + after, sourceBuffer);
      WithoutOne(after, sourceBuffer);
      hide Without;
      assert (before + after)[..|before| + n] == before + after[..n];
      WithoutKeepsOrder(before, after[..n], sourceBuffer);
    }
  }

  lemma WithoutOne(entries: seq<Entry>, sourceBuffer: nat)
    requires entries != []
    ensures var n := |entries| - 1;
            Without(entries, sourceBuffer) ==
            Without(entries[..n], sourceBuffer) + if entries[n].sourceBuffer == sourceBuffer then [] else [entries[n]]
  {
  }

  /** Unregistering undoes a registration if and only if the address was fresh: all
      registrations of an address go together. */
  lemma {:induction false} RegisterUnregister(entries: seq<Entry>, e: Entry)
    ensures Without(entries + [e], e.sourceBuffer) == entries <==>
            forall x :: x in entries ==> x.sourceBuffer != e.sourceBuffer
  {
    assert (entries + [e])[..|entries|] == entries;
    WithoutKeepsTheOthers(entries, e.sourceBuffer);
    if forall x :: x in entries ==> x.sourceBuffer != e.sourceBuffer {
      NothingToTake(entries, e.sourceBuffer);
    }
  }

  lemma {:induction false} NothingToTake(entries: seq<Entry>, sourceBuffer: nat)
    requires forall x :: x in entries ==> x.sourceBuffer != sourceBuffer
    ensures Without(entries, sourceBuffer) == entries
  {
    if entries != [] {
      NothingToTake(entries[..|entries| - 1], sourceBuffer);
    }
  }

  /** One call of the mixer or the converter: a buffer and how many frames of it. */
  datatype Transfer = Transfer(entry: Entry, frames: nat)

  function Transfers(entries: seq<Entry>, frames: nat): (r: seq<Transfer>)
    ensures |r| == |entries|
  {
    seq(|entries|, i requires 0 <= i < |entries| => Transfer(entries[i], frames))
  }

  /** The result performClientIO accumulates: the last failure, if any. */
  function LastFailure(transfers: seq<Transfer>, io: Transfer -> Status): Status {
    if transfers == [] then Success
    else if io(transfers[|transfers| - 1]) != Success then io(transfers[|transfers| - 1])
    else LastFailure(transfers[..|transfers| - 1], io)
  }

  /** And a failure that is reported is that of the last transfer that failed. */
  lemma {:induction false} ReportsTheLastFailure(transfers: seq<Transfer>, io: Transfer -> Status)
    requires LastFailure(transfers, io) != Success
    ensures exists k :: 0 <= k < |transfers| && io(transfers[k]) == LastFailure(transfers, io) &&
                        forall j :: k < j < |transfers| ==> io(transfers[j]) == Success
  {
    var last := |transfers| - 1;
    if io(transfers[last]) == Success {
      var before := transfers[..last];
      ReportsTheLastFailure(before, io);
      var k :| 0 <= k < |before| && io(before[k]) == LastFailure(before, io) &&
               forall j :: k < j < |before| ==> io(before[j]) == Success;
      assert transfers[k] == before[k];
      assert forall j :: k < j < last ==> transfers[j] == before[j];
    }
  }

  lemma {:induction false} SucceedsExactlyWhenAllDo(transfers: seq<Transfer>, io: Transfer -> Status)
    ensures LastFailure(transfers, io) == Success <==> forall t :: t in transfers ==> io(t) == Success
  {
    if transfers != [] {
      assert transfers == transfers[..|transfers| - 1] + [transfers[|transfers| - 1]];
      SucceedsExactlyWhenAllDo(transfers[..|transfers| - 1], io);
    }
  }

  /** The frames a buffer holds, as a registration computes them. */
  function FramesOf(e: Entry): nat
    requires e.numChannels > 0
  {
    e.size / (SAMPLE_SIZE * e.numChannels)
  }

  /** A transfer of this many frames stays inside the buffer. */
  predicate Inside(e: Entry, frames: nat) {
    frames * (4 * e.numChannels) <= e.size
  }

  predicate AllInside(entries: seq<Entry>, frames: nat) {
    forall i :: 0 <= i < |entries| ==> Inside(entries[i], frames)
  }

  lemma InsideExactly(e: Entry, frames: nat)
    requires e.numChannels > 0
    ensures Inside(e, frames) <==> frames <= FramesOf(e)
  {
    var unit := SAMPLE_SIZE * e.numChannels;
    var q := e.size / unit;
    if frames <= q {
      Times(frames, q, unit);
    } else {
      Times(q + 1, frames, unit);
    }
  }

  lemma Times(x: nat, y: nat, unit: nat)
    requires x <= y
    ensures x * unit <= y * unit
  {
  }

  /** All buffers are transferred with the frame count of the last registration: every
      transfer stays inside its buffer afterwards if and only if each buffer registered
      before holds that many frames. */
  lemma SharedCountExactly(entries: seq<Entry>, e: Entry)
    requires e.numChannels > 0 && forall i :: 0 <= i < |entries| ==> entries[i].numChannels > 0
    ensures AllInside(entries + [e], FramesOf(e)) <==>
            forall i :: 0 <= i < |entries| ==> FramesOf(e) <= FramesOf(entries[i])
  {
    InsideExactly(e, FramesOf(e));
    forall i | 0 <= i < |entries|
      ensures Inside(entries[i], FramesOf(e)) <==> FramesOf(e) <= FramesOf(entries[i])
      ensures (entries + [e])[i] == entries[i]
    {
      InsideExactly(entries[i], FramesOf(e));
    }
    hide Inside, FramesOf;
    assert (entries + [e])[|entries|] == e;
  }

  function Labels(buffers: seq<ClientBuffer>): (entries: seq<Entry>)
    ensures |entries| == |buffers|
  {
    seq(|buffers|, i requires 0 <= i < |buffers| => buffers[i].entry)
  }

  /** One more buffer gone past. */
  lemma WithoutOneMore(kept: seq<ClientBuffer>, all: seq<ClientBuffer>, done: nat, sourceBuffer: nat)
    requires done < |all| && Labels(kept) == Without(Labels(all[..done]), sourceBuffer)
    ensures var b := all[done];
            Without(Labels(all[..done + 1]), sourceBuffer) ==
            Labels(if b.entry.sourceBuffer == sourceBuffer then kept else kept + [b])
  {
    assert Labels(all[..done + 1])[..done] == Labels(all[..done]);
    assert Labels(kept + [all[done]]) == Labels(kept) + [all[done].entry];
  }

  lemma TailStep(s: seq<ClientBuffer>, k: nat, t: seq<ClientBuffer>, d: nat)
    requires k <= |s| && d < |t| && s[k..] == t[d..]
    ensures k < |s| && s[k] == t[d] && s[k + 1..] == t[d + 1..]
  {
    assert s[k..][0] == s[k] && t[d..][0] == t[d];
    assert s[k..][1..] == s[k + 1..] && t[d..][1..] == t[d + 1..];
  }

  lemma TailNotDone(s: seq<ClientBuffer>, k: nat, t: seq<ClientBuffer>, d: nat)
    requires k < |s| && d <= |t| && s[k..] == t[d..]
    ensures d < |t|
  {
    assert |s[k..]| > 0;
  }

  class UserClient {
    var clientBufferList: ClientBuffer?
    var numSampleFrames: nat           // one for all buffers
    var inactive: bool
    ghost var spine: seq<ClientBuffer>

    ghost predicate Linked(i: nat)
      requires i < |spine|
      reads this`spine, spine
    {
      spine[i].next == if i + 1 < |spine| then spine[i + 1] else null
    }

    ghost predicate Valid()
      reads this`clientBufferList, this`spine, spine
    {
      && (if spine == [] then clientBufferList == null else clientBufferList == spine[0])
      && (forall i, j :: 0 <= i < j < |spine| ==> spine[i] != spine[j])
      && (forall i :: 0 <= i < |spine| ==> Linked(i))
    }

    ghost function Entries(): seq<Entry>
      reads this`spine
    {
      Labels(spine)
    }

    constructor ()
      ensures Valid() && Entries() == [] && !inactive
    {
      clientBufferList, spine := null, [];
      numSampleFrames, inactive := 0, false;
    }

    /** Links a new buffer after the last one, if there is one. */
    method Append(last: ClientBuffer?, b: ClientBuffer)
      requires Valid() && b !in spine && b.next == null
      requires if spine == [] then last == null else last == spine[|spine| - 1]
      modifies this`clientBufferList, this`spine, last
      ensures Valid() && spine == old(spine) + [b]
    {
      ghost var n := |spine|;
      if last == null {
        clientBufferList := b;
      } else {
        last.next := b;
      }
      spine := spine + [b];
      forall k | 0 <= k < |spine|
        ensures Linked(k)
      {
        if k < n - 1 {
          assert old(Linked(k));
        }
      }
    }

    /** Takes the buffer at position k out of the list; previous is the one before. */
    method Splice(previous: ClientBuffer?, b: ClientBuffer, ghost k: nat)
      requires Valid() && k < |spine| && spine[k] == b
      requires if k == 0 then previous == null else previous == spine[k - 1]
      modifies this`clientBufferList, this`spine, previous
      ensures Valid() && k <= |spine| && spine[..k] == old(spine[..k]) && spine[k..] == old(spine[k + 1..])
      ensures b.next == old(b.next)
    {
      assert Linked(k);
      if previous != null {
        previous.next := b.next;
      } else {
        clientBufferList := b.next;
      }
      spine := spine[..k] + spine[k + 1..];
      forall i | 0 <= i < |spine|
        ensures Linked(i)
      {
        assert old(Linked(if i < k then i else i + 1));
      }
    }

    method Last() returns (clientBufPtr: ClientBuffer?)
      requires Valid()
      ensures if spine == [] then clientBufPtr == null else clientBufPtr == spine[|spine| - 1]
    {
      clientBufPtr := clientBufferList;
      if clientBufPtr != null {
        ghost var i := 0;
        while clientBufPtr.next != null
          invariant 0 <= i < |spine| && clientBufPtr == spine[i]
          decreases |spine| - i
        {
          assert Linked(i);
          clientBufPtr := clientBufPtr.next;
          i := i + 1;
        }
        assert Linked(i);
      }
    }

    /** Appends at the end; buffers already registered are not looked for.  The frame
        count, which all buffers share, is set even if mapping then fails.  numChannels is
        0 for a stream without a format, mapped is what allocating, preparing and mapping
        come to. */
    method RegisterClientBuffer(stream: nat, sourceBuffer: nat, bufSizeInBytes: nat, numChannels: nat, mapped: Status)
      returns (result: Status)
      requires Valid()
      modifies this`clientBufferList, this`spine, this`numSampleFrames, spine
      ensures Valid()
      ensures inactive ==> result == NoDevice
      ensures var nothing := stream == 0 || sourceBuffer == 0 || bufSizeInBytes == 0;
              && (!inactive && nothing ==> result == BadArgument)
              && (!inactive && !nothing && numChannels == 0 ==> result == NoFormat)
              && (!inactive && !nothing && numChannels != 0 ==> result == mapped)
              && numSampleFrames == if inactive || nothing || numChannels == 0 then old(numSampleFrames)
                                    else bufSizeInBytes / (4 * numChannels)
      ensures Entries() == old(Entries()) +
                           if result == Success then [Entry(stream, sourceBuffer, bufSizeInBytes, numChannels)] else []
      ensures forall b :: b in spine && b !in old(spine) ==> fresh(b)
    {
      if inactive {
        return NoDevice;
      }
      if stream == 0 || sourceBuffer == 0 || bufSizeInBytes == 0 {
        return BadArgument;
      }
      if numChannels == 0 {
        return NoFormat;
      }
      numSampleFrames := bufSizeInBytes / (SAMPLE_SIZE * numChannels);
      if mapped != Success {
        return mapped;
      }
      var clientBufPtr := Last();
      var clientBuffer := new ClientBuffer(Entry(stream, sourceBuffer, bufSizeInBytes, numChannels));
      Append(clientBufPtr, clientBuffer);
      result := Success;
    }

    lemma NextInSpine(k: nat)
      requires Valid() && k < |spine|
      ensures spine[k].next == if k + 1 < |spine| then spine[k + 1] else null
    {
      assert Linked(k);
    }

    /** The pass has gone by done of the buffers that were in the list, and k of them
        are left in front of clientBuf. */
    ghost predicate Passed(all: seq<ClientBuffer>, done: nat, k: nat, sourceBuffer: nat,
                           previousBuf: ClientBuffer?, clientBuf: ClientBuffer?)
      reads this`clientBufferList, this`spine, spine
    {
      && Valid() && k <= |spine| && done <= |all| && spine[k..] == all[done..]
      && clientBuf == (if k < |spine| then spine[k] else null)
      && previousBuf == (if k > 0 then spine[k - 1] else null)
      && (previousBuf != null ==> previousBuf in all)
      && Labels(spine[..k]) == Without(Labels(all[..done]), sourceBuffer)
    }

    /** One turn of the pass. */
    method PassOne(sourceBuffer: nat, previousBuf: ClientBuffer?, clientBuf: ClientBuffer,
                   ghost all: seq<ClientBuffer>, ghost done: nat, ghost k: nat)
      returns (previous: ClientBuffer?, next: ClientBuffer?, ghost k': nat)
      requires Passed(all, done, k, sourceBuffer, previousBuf, clientBuf) && done < |all|
      modifies this`clientBufferList, this`spine, previousBuf
      ensures Passed(all, done + 1, k', sourceBuffer, previous, next)
    {
      hide Without, Labels;
      TailStep(spine, k, all, done);
      WithoutOneMore(spine[..k], all, done, sourceBuffer);
      NextInSpine(k);
      if clientBuf.entry.sourceBuffer == sourceBuffer {
        Splice(previousBuf, clientBuf, k);
        previous, k' := previousBuf, k;
      } else {
        assert spine[..k + 1] == spine[..k] + [clientBuf];
        previous, k' := clientBuf, k + 1;
      }
      assert k' < |spine| ==> spine[k'] == spine[k'..][0];
      next := clientBuf.next;
    }

    /** Splices out every entry for the address, in one pass. */
    method UnregisterClientBuffer(sourceBuffer: nat) returns (result: Status)
      requires Valid()
      modifies this`clientBufferList, this`spine, spine
      ensures Valid() && result == if sourceBuffer == 0 then BadArgument else Success
      ensures Entries() == if sourceBuffer == 0 then old(Entries()) else Without(old(Entries()), sourceBuffer)
    {
      if sourceBuffer == 0 {
        return BadArgument;
      }
      ghost var all, k: nat, done: nat := spine, 0, 0;
      var clientBuf, previousBuf: ClientBuffer? := clientBufferList, null;
      while clientBuf != null
        invariant all == old(spine) && Passed(all, done, k, sourceBuffer, previousBuf, clientBuf)
        decreases |all| - done
      {
        hide Without, Labels;
        TailNotDone(spine, k, all, done);
        previousBuf, clientBuf, k := PassOne(sourceBuffer, previousBuf, clientBuf, all, done, k);
        done := done + 1;
      }
      assert all[..done] == all && spine[..k] == spine;
      result := Success;
    }

    /** Visits every buffer in order whatever becomes of each, with the one frame count;
        io stands for the stream's mixing or converting. */
    method PerformClientIO(io: Transfer -> Status) returns (visited: seq<Transfer>, result: Status)
      requires Valid()
      ensures |visited| == if inactive then 0 else |Entries()|
      ensures forall i :: 0 <= i < |visited| ==>
                visited[i].entry == Entries()[i] && visited[i].frames == numSampleFrames
      ensures result == if inactive then NoDevice else LastFailure(visited, io)
    {
      visited, result := [], Success;
      if inactive {
        return [], NoDevice;
      }
      var clientBuf := clientBufferList;
      ghost var all := Transfers(Entries(), numSampleFrames);
      while clientBuf != null
        invariant |visited| <= |spine| && visited == all[..|visited|]
        invariant clientBuf == if |visited| < |spine| then spine[|visited|] else null
        invariant result == LastFailure(visited, io)
        decreases |spine| - |visited|
      {
        var transfer := Transfer(clientBuf.entry, numSampleFrames);
        var tmpResult := io(transfer);
        if tmpResult != Success {
          result := tmpResult;
        }
        assert transfer == all[|visited|] && (visited + [transfer])[..|visited|] == visited;
        visited := visited + [transfer];
        assert Linked(|visited| - 1);
        clientBuf := clientBuf.next;
      }
    }
  }
}
