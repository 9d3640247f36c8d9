/** What updateCP compiles is right: every byte of the batch once, in order, at
    its own place, with exact group counts (AppleMESH-1.0d1/mesh.cpp). */
module MeshCompiler {
  import opened Common
  import opened MeshProgram

  /** The whole data-phase program of one batch. */
  function Program(cursor: Cursor, phys: seq<nat>, start: nat, isWrite: bool, limit: nat, sync: bool): seq<Descriptor>
    requires start <= |phys|
  {
    Finish(Build(cursor, start, isWrite, limit, Initial(|phys| - start)), isWrite, sync)
  }

  function BatchOf(cursor: Cursor, phys: seq<nat>, start: nat, isWrite: bool): Batch {
    Batch(phys, start, isWrite, AlignmentOf(cursor, phys, start, isWrite))
  }

  // ------------------------------------------------------------ one segment

  /** The next segment of the current group, read off the memory map. */
  ghost predicate NextSegment(t: Batch, p: Point, seg: Segment)
    requires t.Ok()
  {
    var at := t.start + p.moved;
    && p.stage == Moving
    && p.moved + seg.length <= p.goal <= |t.phys| - t.start
    && seg.length < COUNT_LIMIT
    && forall i :: at <= i < at + seg.length ==> t.phys[i] == seg.location + (i - at)
  }

  lemma WholeSegmentRight(t: Batch, p: Point, seg: Segment)
    requires t.Ok() && NextSegment(t, p, seg) && t.aligned <= p.moved
    ensures CheckAll(t, p, SegmentItems(t.isWrite, false, seg, |t.phys| - t.start - p.moved)) ==
            Some(p.(moved := p.moved + seg.length))
  {
    var remaining := |t.phys| - t.start - p.moved;
    var d := Item(t.isWrite, Physical(seg.location), seg.length, remaining - seg.length);
    CheckOne(t, p, d);
  }

  lemma HeadRight(t: Batch, p: Point, seg: Segment)
    requires t.Ok() && NextSegment(t, p, seg) && p.moved == 0
    requires t.aligned == AlignmentCount(seg) <= seg.length
    ensures Check(t, p, Item(t.isWrite, ReadBuf8(0), t.aligned, |t.phys| - t.start - t.aligned)) ==
            Some(p.(moved := t.aligned))
  {
  }

  lemma RestRight(t: Batch, p: Point, seg: Segment)
    requires t.Ok() && NextSegment(t, p, seg) && p.moved == 0
    requires t.aligned == AlignmentCount(seg) < seg.length
    ensures Check(t, p.(moved := t.aligned),
                  Item(t.isWrite, Physical(seg.location + t.aligned), seg.length - t.aligned,
                       |t.phys| - t.start - seg.length)) ==
            Some(p.(moved := seg.length))
  {
    var place := Physical(seg.location + t.aligned);
    assert forall j :: 0 <= j < seg.length - t.aligned ==> Shift(place, j) == t.PlaceOf(t.aligned + j);
  }

  lemma SplitSegmentRight(t: Batch, p: Point, seg: Segment)
    requires t.Ok() && NextSegment(t, p, seg) && p.moved == 0
    requires t.aligned == AlignmentCount(seg) <= seg.length
    ensures CheckAll(t, p, SegmentItems(t.isWrite, true, seg, |t.phys| - t.start)) ==
            Some(p.(moved := seg.length))
  {
    var remaining := |t.phys| - t.start;
    var c := t.aligned;
    var head := Item(t.isWrite, ReadBuf8(0), c, remaining - c);
    HeadRight(t, p, seg);
    CheckOne(t, p, head);
    if seg.length > c {
      var rest := Item(t.isWrite, Physical(seg.location + c), seg.length - c, remaining - seg.length);
      RestRight(t, p, seg);
      CheckOne(t, p.(moved := c), rest);
      CheckConcat(t, p, [head], [rest]);
    }
  }

  lemma SegmentRight(t: Batch, p: Point, split: bool, seg: Segment)
    requires t.Ok() && NextSegment(t, p, seg)
    requires if split then p.moved == 0 && t.aligned == AlignmentCount(seg) <= seg.length else t.aligned <= p.moved
    ensures CheckAll(t, p, SegmentItems(t.isWrite, split, seg, |t.phys| - t.start - p.moved)) ==
            Some(p.(moved := p.moved + seg.length))
  {
    if split {
      SplitSegmentRight(t, p, seg);
    } else {
      WholeSegmentRight(t, p, seg);
    }
  }

  // -------------------------------------------------------------- one group

  ghost predicate GroupFits(t: Batch, p: Point, split: bool, segs: seq<Segment>)
    requires t.Ok()
  {
    && p.stage == Moving
    && p.moved + Total(segs) <= p.goal <= |t.phys| - t.start
    && Total(segs) < COUNT_LIMIT
    && Maps(t.phys, t.start + p.moved, segs)
    && (if split then p.moved == 0 && (segs != [] ==> t.aligned == AlignmentCount(segs[0]) <= segs[0].length)
        else t.aligned <= p.moved)
  }

  lemma {:induction false} FirstWithinTotal(segs: seq<Segment>)
    requires segs != []
    ensures segs[0].length <= Total(segs)
  {
    if |segs| > 1 {
      FirstWithinTotal(segs[..|segs| - 1]);
    }
  }

  lemma NothingChecks(t: Batch, p: Point, split: bool)
    requires t.Ok()
    ensures CheckAll(t, p, Items(t.isWrite, split, [], |t.phys| - t.start - p.moved)) == Some(p)
  {
  }

  /** The items of a group move exactly the group. */
  lemma {:induction false} ItemsRight(t: Batch, p: Point, split: bool, segs: seq<Segment>)
    requires t.Ok() && GroupFits(t, p, split, segs)
    ensures CheckAll(t, p, Items(t.isWrite, split, segs, |t.phys| - t.start - p.moved)) ==
            Some(p.(moved := p.moved + Total(segs)))
  {
    hide CheckAll, Items, SegmentItems, Maps, AlignmentCount;
    if segs == [] {
      NothingChecks(t, p, split);
    } else {
      var before, seg := segs[..|segs| - 1], segs[|segs| - 1];
      var q := p.(moved := p.moved + Total(before));
      LastSegmentIsNext(t, p, split, segs);
      BeforeFits(t, p, split, segs);
      ItemsRight(t, p, split, before);
      SegmentRight(t, q, split && before == [], seg);
      ItemsThenSegment(t, p, split, segs);
    }
  }

  lemma ItemsThenSegment(t: Batch, p: Point, split: bool, segs: seq<Segment>)
    requires t.Ok() && segs != []
    ensures var before, remaining := segs[..|segs| - 1], |t.phys| - t.start - p.moved;
            CheckAll(t, p, Items(t.isWrite, split, segs, remaining)) ==
            match CheckAll(t, p, Items(t.isWrite, split, before, remaining))
            case None => None
            case Some(q) =>
              var last := segs[|segs| - 1];
              CheckAll(t, q, SegmentItems(t.isWrite, split && before == [], last, remaining - Total(before)))
  {
    hide CheckAll, SegmentItems;
    var before, remaining := segs[..|segs| - 1], |t.phys| - t.start - p.moved;
    CheckConcat(t, p, Items(t.isWrite, split, before, remaining),
                SegmentItems(t.isWrite, split && before == [], segs[|segs| - 1], remaining - Total(before)));
  }

  lemma BeforeFits(t: Batch, p: Point, split: bool, segs: seq<Segment>)
    requires t.Ok() && segs != [] && GroupFits(t, p, split, segs)
    ensures GroupFits(t, p, split, segs[..|segs| - 1])
  {
  }

  lemma LastSegmentIsNext(t: Batch, p: Point, split: bool, segs: seq<Segment>)
    requires t.Ok() && segs != [] && GroupFits(t, p, split, segs)
    ensures var before, seg := segs[..|segs| - 1], segs[|segs| - 1];
            var q := p.(moved := p.moved + Total(before));
            && NextSegment(t, q, seg) && Total(segs) == Total(before) + seg.length
            && (split && before == [] ==> p.moved == 0 && t.aligned == AlignmentCount(seg) <= seg.length)
            && (!(split && before == []) ==> t.aligned <= q.moved)
  {
    var before, seg := segs[..|segs| - 1], segs[|segs| - 1];
    if split && before != [] {
      FirstWithinTotal(before);
    }
  }

  /** Between groups, with at least one more to come, or at the end of the last. */
  function PointOf(b: Built): Point {
    Point(b.total, b.total, if b.remaining > 0 || b.total == 0 then Between else Moving)
  }

  lemma PreambleRight(t: Batch, p: Point, length: nat)
    requires t.Ok() && p.stage == Between && p.moved == p.goal && 0 < length < COUNT_LIMIT
    ensures CheckAll(t, p, Preamble(p.moved + length, length, t.isWrite)) ==
            Some(Point(p.moved, p.moved + length, Moving))
  {
    var d := Preamble(p.moved + length, length, t.isWrite);
    var goal := p.moved + length;
    assert d == [d[0]] + ([d[1]] + ([d[2]] + [d[3]]));
    CheckCons(t, p, d[0], [d[1]] + ([d[2]] + [d[3]]));
    CheckCons(t, Point(p.moved, goal, WantHigh), d[1], [d[2]] + [d[3]]);
    CheckCons(t, Point(p.moved, goal, WantLow), d[2], [d[3]]);
    CheckOne(t, Point(p.moved, goal, WantSequence), d[3]);
  }

  lemma TailRight(t: Batch, total: nat, remaining: int)
    requires t.Ok() && total > 0
    ensures CheckAll(t, Point(total, total, Moving), GroupTail(remaining)) ==
            Some(Point(total, total, if remaining > 0 then Between else Moving))
  {
    if remaining > 0 {
      CheckConcat(t, Point(total, total, Moving), [WaitCmdDone], [ClearCmdDone]);
      CheckOne(t, Point(total, total, Moving), WaitCmdDone);
      CheckOne(t, Point(total, total, Between), ClearCmdDone);
      assert GroupTail(remaining) == [WaitCmdDone] + [ClearCmdDone];
    }
  }

  /** The outer loop's invariant. */
  ghost predicate BuiltRight(t: Batch, b: Built)
    requires t.Ok()
  {
    && b.total + b.remaining == |t.phys| - t.start
    && b.remaining >= 0
    && CheckAll(t, START, b.program) == Some(PointOf(b))
    && (b.total == 0 <==> b.program == [])
    && (b.total > 0 ==> t.aligned <= b.total)
    && (b.remaining > 0 && b.total > 0 ==> b.program[|b.program| - 1] == ClearCmdDone)
  }

  /** The batch's misaligned head, seen from the first group. */
  ghost predicate AlignsWith(t: Batch, cursor: Cursor) {
    && t.aligned == AlignmentOf(cursor, t.phys, t.start, t.isWrite)
    && HeadFits(cursor, t.phys, t.start, t.isWrite)
  }

  /** What the cursor's contract says about the next group. */
  lemma NextGroupFits(t: Batch, cursor: Cursor, b: Built)
    requires t.Ok() && Contract(cursor, t.phys) && AlignsWith(t, cursor)
    requires b.total + b.remaining == |t.phys| - t.start && b.remaining > 0
    requires b.total > 0 ==> t.aligned <= b.total
    ensures var segs := cursor(t.start + b.total);
            GroupOk(t, b, segs) && t.aligned <= b.total + Total(segs)
  {
    var segs := cursor(t.start + b.total);
    TotalPositive(segs);
    MapsFits(t.phys, t.start + b.total, segs);
    FirstWithinTotal(segs);
  }

  ghost predicate GroupOk(t: Batch, b: Built, segs: seq<Segment>)
    requires t.Ok()
  {
    && segs != [] && 0 < Total(segs) <= b.remaining && Total(segs) < COUNT_LIMIT
    && b.total + b.remaining == |t.phys| - t.start
    && GroupFits(t, Point(b.total, b.total + Total(segs), Moving), SplitsFirst(t.isWrite, b.total, segs), segs)
  }

  lemma GroupProgramRight(t: Batch, b: Built, segs: seq<Segment>)
    requires t.Ok() && GroupOk(t, b, segs)
    ensures CheckAll(t, Point(b.total, b.total, Between), GroupProgram(b, t.isWrite, segs)) ==
            Some(PointOf(AddGroup(b, t.isWrite, segs)))
  {
    hide CheckAll, Items, Maps;
    var length := Total(segs);
    var split := SplitsFirst(t.isWrite, b.total, segs);
    var start, p := Point(b.total, b.total, Between), Point(b.total, b.total + length, Moving);
    var items, tail := Items(t.isWrite, split, segs, b.remaining), GroupTail(b.remaining - length);
    PreambleRight(t, start, length);
    ItemsRight(t, p, split, segs);
    TailRight(t, b.total + length, b.remaining - length);
    CheckConcat(t, p, items, tail);
    CheckConcat(t, start, Preamble(b.total + length, length, t.isWrite), items + tail);
  }

  lemma AddGroupRight(t: Batch, cursor: Cursor, b: Built)
    requires t.Ok() && Contract(cursor, t.phys) && AlignsWith(t, cursor)
    requires BuiltRight(t, b) && b.remaining > 0
    ensures BuiltRight(t, AddGroup(b, t.isWrite, cursor(t.start + b.total)))
  {
    var segs := cursor(t.start + b.total);
    NextGroupFits(t, cursor, b);
    GroupProgramRight(t, b, segs);
    CheckConcat(t, START, b.program, GroupProgram(b, t.isWrite, segs));
    if b.remaining > Total(segs) {
      GroupEnds(b, t.isWrite, segs);
    }
  }

  lemma GroupEnds(b: Built, isWrite: bool, segs: seq<Segment>)
    requires segs != [] && b.remaining > Total(segs)
    ensures var program := AddGroup(b, isWrite, segs).program;
            program[|program| - 1] == ClearCmdDone
  {
  }

  lemma {:induction false} BuildRight(t: Batch, cursor: Cursor, limit: nat, b: Built)
    requires t.Ok() && Contract(cursor, t.phys) && AlignsWith(t, cursor) && BuiltRight(t, b)
    ensures var b' := Build(cursor, t.start, t.isWrite, limit, b);
            BuiltRight(t, b') && (b'.remaining > 0 ==> |b'.program| >= limit)
    decreases limit - |b.program|
  {
    if b.remaining > 0 && |b.program| < limit {
      AddGroupRight(t, cursor, b);
      BuildRight(t, cursor, limit, AddGroup(b, t.isWrite, cursor(t.start + b.total)));
    }
  }

  // ------------------------------------------------------------- the postamble

  lemma SyncFinishRight(t: Batch, b: Built)
    requires t.Ok() && BuiltRight(t, b) && SyncPostamble(b, true)
    ensures CheckAll(t, START, Finish(b, t.isWrite, true)) == Some(Point(b.total, b.total, Finished))
  {
    var p := PointOf(b);
    var probe, done := BranchIfProblem(b.total <= 16 && t.isWrite), BranchAlways(Overrun);
    CheckConcat(t, START, b.program, [MaskInterrupts] + ([probe] + ([WaitBranchSyncCleanUp] + [done])));
    CheckCons(t, p, MaskInterrupts, [probe] + ([WaitBranchSyncCleanUp] + [done]));
    CheckCons(t, p.(stage := Masked), probe, [WaitBranchSyncCleanUp] + [done]);
    CheckCons(t, p.(stage := Probed), WaitBranchSyncCleanUp, [done]);
    CheckOne(t, p.(stage := Synced), done);
    assert [MaskInterrupts] + ([probe] + ([WaitBranchSyncCleanUp] + [done])) ==
           [MaskInterrupts, probe, WaitBranchSyncCleanUp, done];
  }

  lemma FinishRight(t: Batch, b: Built, sync: bool)
    requires t.Ok() && BuiltRight(t, b) && (b.remaining > 0 ==> b.total > 0)
    ensures CheckAll(t, START, Finish(b, t.isWrite, sync)) == Some(Point(b.total, b.total, Finished))
  {
    var p := PointOf(b);
    if SyncPostamble(b, sync) {
      SyncFinishRight(t, b);
    } else if b.remaining > 0 {
      var kept := b.program[..|b.program| - 1];
      assert b.program == kept + [ClearCmdDone];
      CheckConcat(t, START, kept, [ClearCmdDone]);
      var q := CheckAll(t, START, kept).value;
      CheckOne(t, q, ClearCmdDone);
      CheckOne(t, q, BranchAlways(MESHIntr));
      CheckConcat(t, START, kept, [BranchAlways(MESHIntr)]);
    } else {
      var wait := if b.total > 0 then [WaitCmdDone] else [];
      var q := Point(b.total, b.total, Between);
      CheckConcat(t, START, b.program, wait);
      if b.total > 0 {
        CheckOne(t, p, WaitCmdDone);
      }
      CheckOne(t, q, BranchAlways(GetStatus));
      CheckConcat(t, START, b.program + wait, [BranchAlways(GetStatus)]);
    }
  }

  lemma BatchIsOk(cursor: Cursor, phys: seq<nat>, start: nat, isWrite: bool)
    requires Contract(cursor, phys) && start <= |phys| && HeadFits(cursor, phys, start, isWrite)
    ensures var t := BatchOf(cursor, phys, start, isWrite);
            t.Ok() && AlignsWith(t, cursor)
  {
    if start < |phys| {
      MapsFits(phys, start, cursor(start));
      FirstWithinTotal(cursor(start));
    }
  }

  /** A batch with bytes left moves at least its first group. */
  lemma BuildMoves(t: Batch, cursor: Cursor, limit: nat)
    requires t.Ok() && Contract(cursor, t.phys) && AlignsWith(t, cursor) && limit > 0
    requires |t.phys| - t.start < 0x8000_0000
    ensures t.start < |t.phys| ==> Build(cursor, t.start, t.isWrite, limit, Initial(|t.phys| - t.start)).total > 0
  {
    if t.start < |t.phys| {
      var initial := Initial(|t.phys| - t.start);
      var first := AddGroup(initial, t.isWrite, cursor(t.start));
      NextGroupFits(t, cursor, initial);
      BuildGrows(cursor, t.start, t.isWrite, limit, first);
    }
  }

  lemma {:induction false} BuildGrows(cursor: Cursor, start: nat, isWrite: bool, limit: nat, b: Built)
    ensures b.program <= Build(cursor, start, isWrite, limit, b).program
    ensures b.total <= Build(cursor, start, isWrite, limit, b).total
    decreases limit - |b.program|
  {
    if b.remaining > 0 && |b.program| < limit && cursor(start + b.total) != [] {
      BuildGrows(cursor, start, isWrite, limit, AddGroup(b, isWrite, cursor(start + b.total)));
    }
  }

  lemma BatchBuildRight(t: Batch, cursor: Cursor, limit: nat) returns (b: Built)
    requires t.Ok() && Contract(cursor, t.phys) && AlignsWith(t, cursor) && limit > 0
    requires |t.phys| - t.start < 0x8000_0000
    ensures b == Build(cursor, t.start, t.isWrite, limit, Initial(|t.phys| - t.start))
    ensures BuiltRight(t, b) && (t.start < |t.phys| ==> b.total > 0)
  {
    var initial := Initial(|t.phys| - t.start);
    BuildRight(t, cursor, limit, initial);
    BuildMoves(t, cursor, limit);
    b := Build(cursor, t.start, t.isWrite, limit, initial);
  }

  /** The program of a batch checks out, moves b.total bytes, and stops short of
      the transfer's end by b.remaining. */
  ghost predicate Compiled(t: Batch, b: Built, program: seq<Descriptor>)
    requires t.Ok()
  {
    && CheckAll(t, START, program) == Some(Point(b.total, b.total, Finished))
    && b.remaining == |t.phys| - t.start - b.total >= 0
    && (t.start < |t.phys| ==> b.total > 0 && t.aligned <= b.total)
  }

  lemma AlignedProgramIsRight(t: Batch, cursor: Cursor, limit: nat, sync: bool)
    requires t.Ok() && Contract(cursor, t.phys) && AlignsWith(t, cursor) && limit > 0
    requires |t.phys| - t.start < 0x8000_0000
    ensures var b := Build(cursor, t.start, t.isWrite, limit, Initial(|t.phys| - t.start));
            Compiled(t, b, Finish(b, t.isWrite, sync))
  {
    var b := BatchBuildRight(t, cursor, limit);
    FinishRight(t, b, sync);
  }

  /** Whatever the cursor returns within its contract, the program updateCP
      builds is right, and it moves at least one byte if any is left. */
  lemma ProgramIsRight(cursor: Cursor, phys: seq<nat>, start: nat, isWrite: bool, limit: nat, sync: bool)
    requires Contract(cursor, phys) && start <= |phys| && limit > 0
    requires Compilable(cursor, phys, start, isWrite)
    ensures var t := BatchOf(cursor, phys, start, isWrite);
            var b := Build(cursor, start, isWrite, limit, Initial(|phys| - start));
            t.Ok() && Compiled(t, b, Program(cursor, phys, start, isWrite, limit, sync))
  {
    hide CheckAll, Build, Finish, Compiled, Contract, AlignsWith, U32, Signed32, HeadFits, AlignmentOf;
    BatchIsOk(cursor, phys, start, isWrite);
    AlignedProgramIsRight(BatchOf(cursor, phys, start, isWrite), cursor, limit, sync);
  }

  /** Where the program goes at its end: to the next interrupt while bytes remain; to
      the bit bucket after a synchronous transfer that moved any; else to the status. */
  lemma ProgramEndsExactly(cursor: Cursor, phys: seq<nat>, start: nat, isWrite: bool, limit: nat, sync: bool)
    requires Contract(cursor, phys) && start <= |phys| && limit > 0
    requires Compilable(cursor, phys, start, isWrite)
    ensures var moved := Build(cursor, start, isWrite, limit, Initial(|phys| - start)).total;
            var program := Program(cursor, phys, start, isWrite, limit, sync);
            && program != []
            && program[|program| - 1] ==
               BranchAlways(if start + moved < |phys| then MESHIntr
                            else if sync && start < |phys| then Overrun
                            else GetStatus)
  {
    hide Build, CheckAll;
    ProgramIsRight(cursor, phys, start, isWrite, limit, sync);
  }

  lemma {:induction false} FirstSegmentMaps(phys: seq<nat>, offset: nat, segs: seq<Segment>)
    requires Maps(phys, offset, segs) && segs != []
    ensures offset < |phys| && phys[offset] == segs[0].location
  {
    if |segs| > 1 {
      FirstSegmentMaps(phys, offset, segs[..|segs| - 1]);
    } else {
      assert segs[..0] == [];
    }
  }

  /** The head of a read that goes through kcclReadBuf8 ends at the first 8-byte
      boundary, so that the channel's own first byte stands on one; a write has none. */
  lemma HeadEndsAligned(cursor: Cursor, phys: seq<nat>, start: nat, isWrite: bool)
    requires Contract(cursor, phys) && start < |phys|
    ensures var head := AlignmentOf(cursor, phys, start, isWrite);
            if isWrite then head == 0 else head < 8 && (phys[start] + head) % 8 == 0
  {
    FirstSegmentMaps(phys, start, cursor(start));
  }

  // ------------------------------------------- the guard updateCP does not have

  lemma {:induction false} CorruptIsNotRight(t: Batch, p: Point, ds: seq<Descriptor>, k: nat)
    requires t.Ok() && k < |ds| && ds[k] == Corrupt
    ensures CheckAll(t, p, ds) == None
    decreases k
  {
    if k > 0 && Check(t, p, ds[0]).Some? {
      CorruptIsNotRight(t, Check(t, p, ds[0]).value, ds[1..], k - 1);
    }
  }

  /** The first items of a split group are its first segment's. */
  lemma {:induction false} ItemsBeginWithFirst(isWrite: bool, split: bool, segs: seq<Segment>, remaining: int)
    requires segs != []
    ensures SegmentItems(isWrite, split, segs[0], remaining) <= Items(isWrite, split, segs, remaining)
  {
    var before := segs[..|segs| - 1];
    if before == [] {
      assert Items(isWrite, split, before, remaining) == [];
    } else {
      ItemsBeginWithFirst(isWrite, split, before, remaining);
    }
  }

  lemma OverlongHeadItems(isWrite: bool, segs: seq<Segment>, initial: Built)
    requires segs != [] && initial.program == [] && initial.total == 0
    requires SplitsFirst(isWrite, 0, segs) && segs[0].length < AlignmentCount(segs[0])
    ensures var program := AddGroup(initial, isWrite, segs).program;
            |program| > 5 && program[5] == Corrupt
  {
    ItemsBeginWithFirst(isWrite, true, segs, initial.remaining);
    assert GroupProgram(initial, isWrite, segs)[5] == SegmentItems(isWrite, true, segs[0], initial.remaining)[1];
  }

  lemma OverlongHeadIsCorrupt(cursor: Cursor, phys: seq<nat>, start: nat, isWrite: bool, limit: nat, sync: bool)
    requires Contract(cursor, phys) && start < |phys| && limit > 0 && |phys| - start < 0x8000_0000
    requires !HeadFits(cursor, phys, start, isWrite)
    ensures var program := Program(cursor, phys, start, isWrite, limit, sync);
            |program| > 5 && program[5] == Corrupt
  {
    var segs := cursor(start);
    var initial := Initial(|phys| - start);
    var first := AddGroup(initial, isWrite, segs);
    OverlongHeadItems(isWrite, segs, initial);
    BuildGrows(cursor, start, isWrite, limit, first);
  }

  /** A program that begins with a preamble and an item. */
  predicate BeginsWithPreamble(program: seq<Descriptor>) {
    && |program| > 4 && program[0].StoreBatchSize? && program[1].StoreCountHigh? && program[2].StoreCountLow?
    && program[3].StoreSequence? && program[4].Move?
  }

  lemma GroupBegins(b: Built, isWrite: bool, segs: seq<Segment>)
    requires segs != [] && b.program == [] && Total(segs) <= MAX_DMA_TRANSFER
    ensures var first := AddGroup(b, isWrite, segs);
            BeginsWithPreamble(first.program) && (first.remaining > 0 ==> |first.program| > 6)
  {
    var items := Items(isWrite, SplitsFirst(isWrite, b.total, segs), segs, b.remaining);
    ItemsBeginWithFirst(isWrite, SplitsFirst(isWrite, b.total, segs), segs, b.remaining);
    FirstWithinTotal(segs);
    assert items[0] == SegmentItems(isWrite, SplitsFirst(isWrite, b.total, segs), segs[0], b.remaining)[0];
    assert items[0].Move?;
    hide Items, SegmentItems, Total;
    assert AddGroup(b, isWrite, segs).program[4] == items[0];
  }

  /** The postamble leaves all of the program but perhaps its last descriptor. */
  lemma FinishKeeps(b: Built, isWrite: bool, sync: bool, k: nat)
    requires k + (if b.remaining > 0 then 1 else 0) < |b.program|
    ensures k < |Finish(b, isWrite, sync)| && Finish(b, isWrite, sync)[k] == b.program[k]
  {
  }

  lemma BeginsStill(a: seq<Descriptor>, b: seq<Descriptor>)
    requires BeginsWithPreamble(a) && |b| > 4 && forall k :: 0 <= k < 5 ==> b[k] == a[k]
    ensures BeginsWithPreamble(b)
  {
  }

  lemma BuildBegins(cursor: Cursor, start: nat, isWrite: bool, limit: nat, initial: Built)
    requires initial.program == [] && initial.remaining > 0 && limit > 0
    requires cursor(start + initial.total) != [] && Total(cursor(start + initial.total)) <= MAX_DMA_TRANSFER
    ensures var b := Build(cursor, start, isWrite, limit, initial);
            BeginsWithPreamble(b.program) && (b.remaining > 0 ==> |b.program| > 6)
  {
    hide AddGroup;
    var segs := cursor(start + initial.total);
    var first := AddGroup(initial, isWrite, segs);
    GroupBegins(initial, isWrite, segs);
    BuildGrows(cursor, start, isWrite, limit, first);
    var b := Build(cursor, start, isWrite, limit, initial);
    assert b == Build(cursor, start, isWrite, limit, first);
    assert forall k :: 0 <= k < 5 ==> b.program[k] == first.program[k];
    BeginsStill(first.program, b.program);
  }

  /** A batch with bytes left begins with the preamble of its first group and an item. */
  lemma ProgramBegins(cursor: Cursor, phys: seq<nat>, start: nat, isWrite: bool, limit: nat, sync: bool)
    requires Contract(cursor, phys) && start < |phys| && limit > 0 && |phys| - start < 0x8000_0000
    ensures BeginsWithPreamble(Program(cursor, phys, start, isWrite, limit, sync))
  {
    hide Build, Finish, BeginsWithPreamble;
    var b := Build(cursor, start, isWrite, limit, Initial(|phys| - start));
    BuildBegins(cursor, start, isWrite, limit, Initial(|phys| - start));
    PrefixStays(b, isWrite, sync);
  }

  lemma PrefixStays(b: Built, isWrite: bool, sync: bool)
    requires BeginsWithPreamble(b.program) && (b.remaining > 0 ==> |b.program| > 6)
    ensures BeginsWithPreamble(Finish(b, isWrite, sync))
  {
    hide Finish;
    forall k | 0 <= k < 5
      ensures k < |Finish(b, isWrite, sync)| && Finish(b, isWrite, sync)[k] == b.program[k]
    {
      FinishKeeps(b, isWrite, sync, k);
    }
    assert |Finish(b, isWrite, sync)| > 4 by { FinishKeeps(b, isWrite, sync, 4); }
    BeginsStill(b.program, Finish(b, isWrite, sync));
  }

  /** A remainder that reads as negative compiles to nothing at all. */
  lemma OverlongTransferIsEmpty(cursor: Cursor, t: Batch, limit: nat, sync: bool)
    requires t.Ok() && |t.phys| < UINT32 && |t.phys| - t.start >= 0x8000_0000
    ensures !Right(t, Program(cursor, t.phys, t.start, t.isWrite, limit, sync))
  {
    CheckOne(t, START, BranchAlways(GetStatus));
    assert Program(cursor, t.phys, t.start, t.isWrite, limit, sync) == [BranchAlways(GetStatus)];
  }

  /** The program is right exactly when the misaligned head of a read does not
      reach past the first segment and the length left is not taken for negative. */
  lemma RightExactlyWhenCompilable(cursor: Cursor, phys: seq<nat>, start: nat, isWrite: bool, limit: nat, sync: bool)
    requires Contract(cursor, phys) && start <= |phys| < UINT32 && limit > 0
    ensures var t := BatchOf(cursor, phys, start, isWrite);
            Compilable(cursor, phys, start, isWrite) <==>
            t.Ok() && Right(t, Program(cursor, phys, start, isWrite, limit, sync))
  {
    var t := BatchOf(cursor, phys, start, isWrite);
    if Compilable(cursor, phys, start, isWrite) {
      ProgramIsRight(cursor, phys, start, isWrite, limit, sync);
    } else if |phys| - start >= 0x8000_0000 {
      if t.Ok() {
        OverlongTransferIsEmpty(cursor, t, limit, sync);
      }
    } else {
      OverlongHeadIsCorrupt(cursor, phys, start, isWrite, limit, sync);
      if t.Ok() {
        CorruptIsNotRight(t, START, Program(cursor, phys, start, isWrite, limit, sync), 5);
      }
    }
  }
}
