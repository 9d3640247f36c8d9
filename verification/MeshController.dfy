/** The driver's own code: updateCP filling the descriptor array through a moving
    index, and the handlers that move the data pointer
    (AppleMESH-1.0d1/mesh.cpp). */
module MeshController {
  import opened Bytes
  import opened Common
  import opened MeshProgram
  import opened MeshCompiler
  import opened MeshMachine
  import opened MeshTransfer
  import opened MeshCapacity

  lemma WrappedSubtraction(x: int, y: int)
    ensures Signed32(x - U32(y)) == Signed32(x - y)
  {
    var q := y / UINT32;
    assert x - U32(y) == (x - y) + q * UINT32;
    assert ((x - y) + q * UINT32) % UINT32 == (x - y) % UINT32;
  }

  lemma TakeOneMore(segs: seq<Segment>, i: nat)
    requires i < |segs|
    ensures segs[..i + 1][..i] == segs[..i] && segs[..i + 1][i] == segs[i]
    ensures Total(segs[..i + 1]) == Total(segs[..i]) + segs[i].length
  {
    assert segs[..i + 1][..i] == segs[..i];
  }

  lemma {:induction false} TotalOfPrefix(segs: seq<Segment>, i: nat)
    requires i <= |segs|
    ensures Total(segs[..i]) <= Total(segs)
    decreases |segs| - i
  {
    if i == |segs| {
      assert segs[..i] == segs;
    } else {
      TakeOneMore(segs, i);
      TotalOfPrefix(segs, i + 1);
    }
  }

  lemma NoItemsYet(isWrite: bool, split: bool, segs: seq<Segment>, remaining: int)
    ensures Items(isWrite, split, segs[..0], remaining) == [] && Total(segs[..0]) == 0
  {
  }

  /** The items of a group, one segment at a time. */
  lemma ItemsOneMore(isWrite: bool, split: bool, segs: seq<Segment>, remaining: int, i: nat)
    requires i < |segs|
    ensures Items(isWrite, split, segs[..i + 1], remaining) ==
            Items(isWrite, split, segs[..i], remaining) +
            SegmentItems(isWrite, split && i == 0, segs[i], remaining - Total(segs[..i]))
  {
    TakeOneMore(segs, i);
  }

  lemma {:induction false} ItemsOfPrefix(isWrite: bool, split: bool, segs: seq<Segment>, remaining: int, i: nat)
    requires i <= |segs|
    ensures |Items(isWrite, split, segs[..i], remaining)| <= |Items(isWrite, split, segs, remaining)|
    decreases |segs| - i
  {
    if i == |segs| {
      assert segs[..i] == segs;
    } else {
      ItemsOneMore(isWrite, split, segs, remaining, i);
      ItemsOfPrefix(isWrite, split, segs, remaining, i + 1);
    }
  }

  lemma Associates(a: seq<Descriptor>, b: seq<Descriptor>, c: seq<Descriptor>)
    ensures a + b + c == a + (b + c)
  {
  }

  lemma SameSlice(s: seq<Descriptor>, t: seq<Descriptor>, k: nat, i: nat, j: nat)
    requires i <= j <= k <= |s| && k <= |t| && s[..k] == t[..k]
    ensures s[i..j] == t[i..j]
  {
    assert s[i..j] == s[..k][i..j] && t[i..j] == t[..k][i..j];
  }

  /** A group's three parts, written into the array one after another: the items
      first (s to t), then the preamble (t to u), then the tail (u to v). */
  lemma GroupPieces(s: seq<Descriptor>, t: seq<Descriptor>, u: seq<Descriptor>, v: seq<Descriptor>, i: nat, k: nat,
                    n: nat)
    requires |s| == |t| == |u| == |v| && i + 4 <= k <= n <= |s|
    requires t[..i + 4] == s[..i + 4]
    requires u[..i] == t[..i] && u[i + 4..] == t[i + 4..]
    requires v[..k] == u[..k]
    ensures v[..n] == s[..i] + (u[i..i + 4] + (t[i + 4..k] + v[k..n]))
  {
    SameSlice(t, s, i + 4, 0, i);
    SameSlice(v, u, k, 0, i);
    SameSlice(v, u, k, i, i + 4);
    SameSlice(v, u, k, i + 4, k);
    assert u[i + 4..k] == u[i + 4..][..k - (i + 4)] && t[i + 4..k] == t[i + 4..][..k - (i + 4)];
  }

  lemma GroupParts(total: nat, remaining: int, isWrite: bool, segs: seq<Segment>)
    requires segs != []
    ensures var length := Total(segs);
            var items := Items(isWrite, SplitsFirst(isWrite, total, segs), segs, remaining);
            var preamble, tail := Preamble(total + length, length, isWrite), GroupTail(remaining - length);
            var ds := GroupProgram(Built([], total, remaining), isWrite, segs);
            && |preamble| == 4 && |ds| == 4 + |items| + |tail|
            && ds == preamble + (items + tail)
  {
    hide Items, Total;
  }

  /** What one turn of updateCP's inner loop adds. */
  lemma ItemsStep(isWrite: bool, split: bool, segs: seq<Segment>, remaining: int, i: nat)
    requires i < |segs| && Total(segs) <= MAX_DMA_TRANSFER
    ensures Total(segs[..i + 1]) == Total(segs[..i]) + segs[i].length <= MAX_DMA_TRANSFER
    ensures var one := SegmentItems(isWrite, split && i == 0, segs[i], remaining - Total(segs[..i]));
            && Items(isWrite, split, segs[..i + 1], remaining) == Items(isWrite, split, segs[..i], remaining) + one
            && |Items(isWrite, split, segs[..i], remaining)| + |one| <= |Items(isWrite, split, segs, remaining)|
  {
    TakeOneMore(segs, i);
    TotalOfPrefix(segs, i + 1);
    ItemsOneMore(isWrite, split, segs, remaining, i);
    ItemsOfPrefix(isWrite, split, segs, remaining, i + 1);
  }

  /** What one turn of updateCP's outer loop can rely on. */
  lemma GroupRoom(cursor: Cursor, phys: seq<nat>, start: nat, isWrite: bool, limit: nat, b: Built)
    requires Contract(cursor, phys) && start + b.total < |phys| && b.remaining > 0 && |b.program| < limit
    ensures var segs := cursor(start + b.total);
            && segs != [] && 0 < Total(segs) <= MAX_DMA_TRANSFER
            && var ds := GroupProgram(Built([], b.total, b.remaining), isWrite, segs);
               var next := Built(b.program + ds, b.total + Total(segs), b.remaining - Total(segs));
               && Build(cursor, start, isWrite, limit, b) == Build(cursor, start, isWrite, limit, next)
               && |b.program| + |ds| <= |Build(cursor, start, isWrite, limit, b).program|
  {
    hide Contract, Build, Total, GroupProgram;
    var segs := cursor(start + b.total);
    SegmentsAhead(cursor, phys, start + b.total);
    BuildTakesGroup(cursor, start, isWrite, limit, b);
    BuildGrows(cursor, start, isWrite, limit, AddGroup(b, isWrite, segs));
    SameGroup(b, isWrite, segs);
  }

  /** What a group is does not depend on what has been built before it. */
  lemma SameGroup(b: Built, isWrite: bool, segs: seq<Segment>)
    requires segs != []
    ensures GroupProgram(b, isWrite, segs) == GroupProgram(Built([], b.total, b.remaining), isWrite, segs)
  {
    hide Items, Total, Preamble;
  }

  lemma SegmentsAhead(cursor: Cursor, phys: seq<nat>, offset: nat)
    requires Contract(cursor, phys) && offset < |phys|
    ensures cursor(offset) != [] && 0 < Total(cursor(offset)) <= MAX_DMA_TRANSFER
  {
    TotalPositive(cursor(offset));
  }

  lemma BuildTakesGroup(cursor: Cursor, start: nat, isWrite: bool, limit: nat, b: Built)
    requires b.remaining > 0 && |b.program| < limit && cursor(start + b.total) != []
    ensures Build(cursor, start, isWrite, limit, b) ==
            Build(cursor, start, isWrite, limit, AddGroup(b, isWrite, cursor(start + b.total)))
  {
    hide AddGroup;
  }

  lemma BuildStops(cursor: Cursor, start: nat, isWrite: bool, limit: nat, b: Built)
    requires b.remaining <= 0 || |b.program| >= limit
    ensures Build(cursor, start, isWrite, limit, b) == b
  {
  }

  lemma NothingWritten(memory: map<nat, byte>, phys: seq<nat>, offset: nat)
    ensures WriteBytes(memory, phys, offset, []) == memory
  {
  }

  class Controller {
    const cursor: Cursor            // fMemoryCursor over the command's memory descriptor
    const phys: seq<nat>
    const isWrite: bool
    const sync: bool
    const ccl: array<Descriptor>    // from kcclDataXfer on, with what follows the area
    const fDBDMADescriptorMax: nat  // how much of it is the area
    var memory: map<nat, byte>
    var transferred: nat
    var savedDataPosition: nat
    var batchSize: nat              // kcclBatchSize
    var side: seq<byte>             // kcclReadBuf8
    var alignmentCount: nat
    var alignmentIndex: nat
    var incomplete: bool            // fFlagIncompleteDBDMA

    ghost predicate Valid()
      reads this
    {
      && Contract(cursor, phys) && |phys| < UINT32
      && transferred <= |phys| && savedDataPosition <= |phys|
      && AtMost(cursor, MAX_SEGMENTS) && fDBDMADescriptorMax >= SLACK + 2
      && ccl.Length >= fDBDMADescriptorMax + OVERSHOOT
      && |side| == 8 && alignmentCount <= 8
    }

    /** The misaligned head kept aside belongs at the current position. */
    ghost predicate Aligned()
      reads this
    {
      alignmentCount > 0 ==> alignmentIndex == transferred
    }

    ghost function BatchBuilt(): Built
      reads this
      requires Valid()
    {
      Build(cursor, transferred, isWrite, fDBDMADescriptorMax - SLACK, Initial(|phys| - transferred))
    }

    ghost function BatchProgram(): seq<Descriptor>
      reads this
      requires Valid()
    {
      Program(cursor, phys, transferred, isWrite, fDBDMADescriptorMax - SLACK, sync)
    }

    /** The items of one segment, at index; the rest of updateCP's inner loop. */
    method EmitSegment(seg: Segment, split: bool, index: nat, transferLength: int) returns (end: nat, left: int)
      requires Valid() && Aligned() && transferLength <= 0x7FFF_FFFF && seg.length <= MAX_DMA_TRANSFER
      requires transferLength > -0x4000_0000
      requires index + |SegmentItems(isWrite, split, seg, transferLength)| <= ccl.Length
      modifies ccl, this`alignmentCount, this`alignmentIndex
      ensures Valid() && Aligned()
      ensures end == index + |SegmentItems(isWrite, split, seg, transferLength)| && left == transferLength - seg.length
      ensures ccl[..end] == old(ccl[..index]) + SegmentItems(isWrite, split, seg, transferLength)
      ensures alignmentCount == if split then AlignmentCount(seg) else old(alignmentCount)
    {
      hide Contract, AtMost;
      var rangeLocation, rangeLength: nat := seg.location, seg.length;
      end, left := index, transferLength;
      if split {
        alignmentIndex := transferred;
        alignmentCount := AlignmentCount(seg);
        rangeLength := U32(rangeLength - alignmentCount);
        left := Signed32(left - alignmentCount);
        ccl[end] := Item(isWrite, ReadBuf8(0), alignmentCount, left);
        end := end + 1;
        WrappedSubtraction(transferLength - alignmentCount, seg.length - alignmentCount);
        if rangeLength == 0 {
          return;
        }
        rangeLocation := rangeLocation + alignmentCount;
      }
      left := Signed32(left - rangeLength);
      ccl[end] := Item(isWrite, Physical(rangeLocation), rangeLength, left);
      end := end + 1;
    }

    /** The items of one group, from index on: updateCP's inner loop. */
    method EmitItems(segs: seq<Segment>, split: bool, index: nat, transferLength: int)
      returns (end: nat, left: int, groupLength: nat)
      requires Valid() && Aligned() && 0 < transferLength <= 0x7FFF_FFFF && Total(segs) <= MAX_DMA_TRANSFER
      requires index + |Items(isWrite, split, segs, transferLength)| <= ccl.Length
      modifies ccl, this`alignmentCount, this`alignmentIndex
      ensures Valid() && Aligned()
      ensures end == index + |Items(isWrite, split, segs, transferLength)|
      ensures ccl[..index] == old(ccl[..index]) && ccl[index..end] == Items(isWrite, split, segs, transferLength)
      ensures groupLength == Total(segs) && left == transferLength - groupLength
      ensures alignmentCount == if split && segs != [] then AlignmentCount(segs[0]) else old(alignmentCount)
    {
      hide Items, SegmentItems, Total, Valid, Aligned;
      end, left, groupLength := index, transferLength, 0;
      ghost var before := ccl[..index];
      NoItemsYet(isWrite, split, segs, transferLength);
      assert ccl[..index] == before + [];
      for i := 0 to |segs|
        invariant Valid() && Aligned()
        invariant groupLength == Total(segs[..i]) <= MAX_DMA_TRANSFER && left == transferLength - groupLength
        invariant end == index + |Items(isWrite, split, segs[..i], transferLength)| <= ccl.Length
        invariant ccl[..end] == before + Items(isWrite, split, segs[..i], transferLength)
        invariant alignmentCount == if split && i > 0 then AlignmentCount(segs[0]) else old(alignmentCount)
      {
        ItemsStep(isWrite, split, segs, transferLength, i);
        groupLength := groupLength + segs[i].length;
        ghost var last := SegmentItems(isWrite, split && i == 0, segs[i], left);
        end, left := EmitSegment(segs[i], split && i == 0, end, left);
        Associates(before, Items(isWrite, split, segs[..i], transferLength), last);
      }
      assert segs[..|segs|] == segs;
    }

    /** The four preamble descriptors, filled in once the group's length is known. */
    method FillPreamble(at: nat, total: nat, length: nat)
      requires at + 4 <= ccl.Length
      modifies ccl
      ensures ccl[..at] == old(ccl[..at]) && ccl[at + 4..] == old(ccl[at + 4..])
      ensures ccl[at..at + 4] == Preamble(total, length, isWrite)
    {
      ccl[at] := StoreBatchSize(total);
      ccl[at + 1] := StoreCountHigh(length / 0x100);
      ccl[at + 2] := StoreCountLow(length % 0x100);
      ccl[at + 3] := StoreSequence(!isWrite);
    }

    method FillTail(at: nat, left: int) returns (end: nat)
      requires at + |GroupTail(left)| <= ccl.Length
      modifies ccl
      ensures end == at + |GroupTail(left)|
      ensures ccl[..at] == old(ccl[..at]) && ccl[at..end] == GroupTail(left)
    {
      end := at;
      if left > 0 {
        ccl[end], ccl[end + 1] := WaitCmdDone, ClearCmdDone;
        end := end + 2;
      }
    }

    /** One group at index: the body of updateCP's outer loop. */
    method BuildGroup(segs: seq<Segment>, index: nat, total: nat, transferLength: int)
      returns (end: nat, total': nat, left: int)
      requires Valid() && Aligned() && segs != [] && 0 < transferLength <= 0x7FFF_FFFF
      requires Total(segs) <= MAX_DMA_TRANSFER
      requires index + |GroupProgram(Built([], total, transferLength), isWrite, segs)| <= ccl.Length
      modifies ccl, this`alignmentCount, this`alignmentIndex
      ensures Valid() && Aligned()
      ensures total' == total + Total(segs) && left == transferLength - Total(segs)
      ensures end == index + |GroupProgram(Built([], total, transferLength), isWrite, segs)|
      ensures ccl[..end] == old(ccl[..index]) + GroupProgram(Built([], total, transferLength), isWrite, segs)
      ensures alignmentCount ==
              if SplitsFirst(isWrite, total, segs) then AlignmentCount(segs[0]) else old(alignmentCount)
    {
      hide Contract, Items, Total, Preamble, Valid, Aligned, GroupProgram, GroupTail;
      var split := total == 0 && !isWrite && Misaligned(segs[0]);
      GroupParts(total, transferLength, isWrite, segs);
      ghost var s := ccl[..];
      var length;
      end, left, length := EmitItems(segs, split, index + 4, transferLength);
      total' := total + length;
      ghost var t, mid := ccl[..], end;
      FillPreamble(index, total', length);
      ghost var u := ccl[..];
      end := FillTail(end, left);
      GroupPieces(s, t, u, ccl[..], index, mid, end);
    }

    /** The postamble, at index. */
    method FillPostamble(index: nat, total: nat, left: int) returns (end: nat)
      requires index <= ccl.Length && (left > 0 ==> index > 0)
      requires |Finish(Built(ccl[..index], total, left), isWrite, sync)| <= ccl.Length
      modifies ccl, this`incomplete
      ensures end == |Finish(Built(old(ccl[..index]), total, left), isWrite, sync)| <= ccl.Length
      ensures ccl[..end] == Finish(Built(old(ccl[..index]), total, left), isWrite, sync)
      ensures incomplete <==> left > 0
    {
      end := index;
      if sync && total > 0 && left == 0 {
        incomplete := false;
        ccl[end] := MaskInterrupts;
        ccl[end + 1] := BranchIfProblem(total <= 16 && isWrite);
        ccl[end + 2] := WaitBranchSyncCleanUp;
        ccl[end + 3] := BranchAlways(Overrun);
        end := end + 4;
      } else {
        incomplete := left > 0;
        if incomplete {
          end := end - 1;                  // drop the last ClearCmdDone
        } else if total > 0 {
          ccl[end] := WaitCmdDone;
          end := end + 1;
        }
        ccl[end] := BranchAlways(GetStatus);
        if incomplete {
          ccl[end] := BranchAlways(MESHIntr);
        }
        end := end + 1;
      }
    }

    /** updateCP, from the data phase on.  Whether the program stays within the area
        is not tested; MeshCapacity says when it does. */
    method UpdateCP()
      requires Valid()
      modifies ccl, this`alignmentCount, this`alignmentIndex, this`batchSize, this`incomplete
      ensures Valid() && Aligned() && batchSize == 0
      ensures |BatchProgram()| <= fDBDMADescriptorMax + OVERSHOOT <= ccl.Length
      ensures ccl[..|BatchProgram()|] == BatchProgram()
      ensures incomplete <==> BatchBuilt().remaining > 0
      ensures alignmentCount == if BatchBuilt().total > 0 then AlignmentOf(cursor, phys, transferred, isWrite) else 0
    {
      hide Contract, AtMost, Build, Items, GroupProgram, Total, Finish, U32;
      alignmentCount := 0;
      var limit := fDBDMADescriptorMax - SLACK;
      LargestProgram(cursor, phys, transferred, isWrite, limit, sync);
      var index: nat, total: nat := 0, 0;
      var left := Signed32(|phys| - transferred);
      batchSize := 0;
      while left > 0 && index < limit
        invariant index <= ccl.Length
        invariant Valid() && Aligned() && batchSize == 0
        invariant left > 0 ==> total + left == |phys| - transferred
        invariant left <= 0x7FFF_FFFF
        invariant total == 0 <==> index == 0
        invariant BatchBuilt() == Build(cursor, transferred, isWrite, limit, Built(ccl[..index], total, left))
        invariant alignmentCount == if total > 0 then AlignmentOf(cursor, phys, transferred, isWrite) else 0
        decreases limit - index
      {
        GroupRoom(cursor, phys, transferred, isWrite, limit, Built(ccl[..index], total, left));
        var segs := cursor(transferred + total);
        if segs == [] {
          break;
        }
        index, total, left := BuildGroup(segs, index, total, left);
      }
      BuildStops(cursor, transferred, isWrite, limit, Built(ccl[..index], total, left));
      index := FillPostamble(index, total, left);
    }

    /** What the handlers see when the program stops: the chip's residual count and
        what is left in its FIFO. */
    ghost function Seen(count: nat, fifo: seq<byte>): Machine
      reads this
    {
      Machine(0, 0, batchSize, count, false, fifo, [], memory, side)
    }

    ghost function Current(): Batch
      reads this
    {
      Batch(phys, transferred, isWrite, alignmentCount)
    }

    /** Reads the FIFO by hand into the user's buffer, as far as the transfer goes. */
    method DrainFifo(fifo: seq<byte>)
      requires |fifo| <= FIFO_SIZE
      modifies this`memory, this`transferred
      ensures var n := Min(U32(|phys| - old(transferred)), |fifo|);
              && memory == WriteBytes(old(memory), phys, old(transferred), fifo[..n])
              && transferred == U32(old(transferred) + n)
    {
      var n := U32(|phys| - transferred);
      if n > |fifo| {
        n := |fifo|;
      }
      var buffer := new byte[16];
      for i := 0 to n
        invariant buffer[..i] == fifo[..i]
        invariant memory == old(memory) && transferred == old(transferred)
      {
        buffer[i] := fifo[i];
      }
      memory := WriteBytes(memory, phys, transferred, buffer[..n]);
      transferred := U32(transferred + n);
    }

    /** updateCurrentIndex; returns whether the FIFO is to be flushed. */
    method UpdateCurrentIndex(count: nat, fifo: seq<byte>) returns (flush: bool)
      requires Valid() && Aligned() && |fifo| <= FIFO_SIZE
      modifies this`memory, this`transferred, this`batchSize, this`alignmentCount
      ensures Outcome(memory, transferred) == old(UpdatedIndex(Current(), Seen(count, fifo)))
      ensures batchSize == 0
      ensures alignmentCount == if old(batchSize) > 0 then 0 else old(alignmentCount)
      ensures flush <==> old(batchSize) > 0 && isWrite && fifo != []
    {
      hide WriteBytes, U32, Contract, AtMost;
      flush := false;
      if batchSize == 0 {
        return;
      }
      transferred := U32(transferred + batchSize - count);
      batchSize := 0;
      if alignmentCount > 0 {
        memory := WriteBytes(memory, phys, alignmentIndex, side[..alignmentCount]);
        alignmentCount := 0;
      } else {
        NothingWritten(memory, phys, old(transferred));
      }
      if fifo != [] {
        transferred := U32(transferred - |fifo|);
        if isWrite {
          flush := true;
        } else {
          DrainFifo(fifo);
        }
      }
    }

    /** doInterruptStageGood up to its decision: done, or build the next batch. */
    method DoInterruptStageGood() returns (restart: bool)
      requires Valid() && Aligned()
      modifies this`memory, this`transferred, this`batchSize, this`alignmentCount
      ensures Outcome(memory, transferred) == old(CompletedBatch(Current(), Seen(0, [])))
      ensures batchSize == 0 && alignmentCount == 0
      ensures restart == incomplete
    {
      var totalXferLen := batchSize;
      batchSize := 0;
      if alignmentCount > 0 {
        memory := WriteBytes(memory, phys, alignmentIndex, side[..alignmentCount]);
        alignmentCount := 0;
      }
      transferred := U32(transferred + totalXferLen);
      restart := incomplete;
    }

    method RestorePointers()
      modifies this`transferred
      ensures transferred == savedDataPosition
    {
      transferred := savedDataPosition;
    }

    method SaveDataPointers()
      modifies this`savedDataPosition
      ensures savedDataPosition == transferred
    {
      savedDataPosition := transferred;
    }

    /** doInterruptStageXfer: the target first sends these messages, if any, and then
        shows the last phase.  The program is started again, as it stands, exactly when
        that is a data phase and bytesTransferred is where it was at the interrupt. */
    method DoInterruptStageXfer(count: nat, fifo: seq<byte>, messages: seq<Message>, phase: Phase)
      returns (next: Reaction)
      requires Valid() && Aligned() && |fifo| <= FIFO_SIZE
      modifies this`memory, this`transferred, this`savedDataPosition
      modifies this`batchSize, this`alignmentCount, this`incomplete
      ensures var stopped := old(UpdatedIndex(Current(), Seen(count, fifo)));
              && memory == stopped.memory
              && Positions(transferred, savedDataPosition) ==
                 AfterMessages(Positions(stopped.transferred, old(savedDataPosition)), messages)
      ensures batchSize == 0 && alignmentCount == if old(batchSize) > 0 then 0 else old(alignmentCount)
      ensures next == match phase
                      case StatusPhase => FetchStatus
                      case DataPhase => if transferred == old(transferred) then RunAgain else Stuck
                      case Gone => Return
      ensures incomplete == (old(incomplete) && phase != StatusPhase)
    {
      hide UpdatedIndex, Contract;
      var before := transferred;
      ghost var saved := savedDataPosition;
      var flush := UpdateCurrentIndex(count, fifo);
      ghost var stopped := transferred;
      assert messages[..0] == [];
      for i := 0 to |messages|
        invariant memory == old(UpdatedIndex(Current(), Seen(count, fifo))).memory
        invariant batchSize == 0 && alignmentCount == if old(batchSize) > 0 then 0 else old(alignmentCount)
        invariant incomplete == old(incomplete)
        invariant Positions(transferred, savedDataPosition) == AfterMessages(Positions(stopped, saved), messages[..i])
      {
        assert messages[..i + 1][..i] == messages[..i];
        match messages[i] {
          case SaveMessage => SaveDataPointers();
          case RestoreMessage => RestorePointers();
          case OtherMessage =>
        }
      }
      assert messages[..|messages|] == messages;
      match phase {
        case StatusPhase =>
          incomplete := false;
          next := FetchStatus;
        case DataPhase =>
          next := if before == transferred then RunAgain else Stuck;
        case Gone =>
          next := Return;
      }
    }
  }

  // ------------------------------------------------- messages between two runs

  /** What a target sends in Message-In phase, as far as the pointers care. */
  datatype Message = SaveMessage | RestoreMessage | OtherMessage

  /** What it shows when no more messages come; Gone is a disconnection or the end of
      the command. */
  datatype Phase = StatusPhase | DataPhase | Gone

  /** What the driver does then; Stuck is its debugging halt. */
  datatype Reaction = FetchStatus | RunAgain | Stuck | Return

  datatype Positions = Positions(transferred: nat, saved: nat)

  function AfterMessages(p: Positions, messages: seq<Message>): Positions {
    if messages == [] then p else
    var q := AfterMessages(p, messages[..|messages| - 1]);
    match messages[|messages| - 1]
    case SaveMessage => q.(saved := q.transferred)
    case RestoreMessage => q.(transferred := q.saved)
    case OtherMessage => q
  }
}
