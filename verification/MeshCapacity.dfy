/** Whether a compiled program fits its descriptor area.  updateCP starts a group
    whenever the next free descriptor lies below descriptorMax, 16 short of the
    end, and leaves it to those 16 to hold the group and the postamble
    (AppleMESH-1.0d1/mesh.cpp). */
module MeshCapacity {
  import opened MeshProgram
  import opened MeshCompiler

  const SLACK := 16

  /** At most m segments per memory-cursor call. */
  ghost predicate AtMost(cursor: Cursor, m: nat) {
    forall offset :: |cursor(offset)| <= m
  }

  lemma {:induction false} ItemsCount(isWrite: bool, split: bool, segs: seq<Segment>, remaining: int)
    ensures |segs| <= |Items(isWrite, split, segs, remaining)| <= |segs| + (if split then 1 else 0)
    ensures !split ==> |Items(isWrite, split, segs, remaining)| == |segs|
  {
    if segs != [] {
      ItemsCount(isWrite, split, segs[..|segs| - 1], remaining);
      if |segs| == 1 {
        assert segs[..0] == [];
        assert Items(isWrite, split, segs[..0], remaining) == [];
      }
    }
  }

  /** A pass of the loop that begins at slot n ends by slot n + m + 6, or + 4 if
      it is the last; only the batch's first group may need one slot more. */
  lemma GroupSize(b: Built, isWrite: bool, segs: seq<Segment>)
    requires segs != []
    ensures var split := SplitsFirst(isWrite, b.total, segs);
            var grown := |AddGroup(b, isWrite, segs).program| - |b.program|;
            var tail := if b.remaining > Total(segs) then 2 else 0;
            4 + |segs| + tail <= grown <= 4 + |segs| + tail + (if split then 1 else 0)
  {
    ItemsCount(isWrite, SplitsFirst(isWrite, b.total, segs), segs, b.remaining);
  }

  lemma {:induction false} BuildSize(cursor: Cursor, start: nat, isWrite: bool, limit: nat, b: Built, m: nat)
    requires AtMost(cursor, m) && limit >= 2 && (b.total == 0 ==> b.program == [])
    requires |b.program| <= limit + m + (if b.remaining > 0 then 5 else 3)
    ensures var b' := Build(cursor, start, isWrite, limit, b);
            |b'.program| <= limit + m + (if b'.remaining > 0 then 5 else 3)
    decreases limit - |b.program|
  {
    var segs := cursor(start + b.total);
    if b.remaining > 0 && |b.program| < limit && segs != [] {
      GroupSize(b, isWrite, segs);
      TotalPositive(segs);
      BuildSize(cursor, start, isWrite, limit, AddGroup(b, isWrite, segs), m);
    }
  }

  /** Every batch of every transfer stays within its descriptor area. */
  ghost predicate AlwaysFits(m: nat, limit: nat, sync: bool) {
    forall cursor: Cursor, phys: seq<nat>, start: nat, isWrite: bool ::
      start <= |phys| && Contract(cursor, phys) && AtMost(cursor, m) ==>
      |Program(cursor, phys, start, isWrite, limit, sync)| <= limit + SLACK
  }

  /** The most segments per group that the slack allows for. */
  function Affordable(sync: bool): nat {
    if sync then 9 else 11
  }

  lemma AffordableFits(cursor: Cursor, phys: seq<nat>, start: nat, isWrite: bool, limit: nat, sync: bool, m: nat)
    requires start <= |phys| && AtMost(cursor, m) && limit >= 2 && m <= Affordable(sync)
    ensures |Program(cursor, phys, start, isWrite, limit, sync)| <= limit + SLACK
    ensures |Build(cursor, start, isWrite, limit, Initial(|phys| - start)).program| <= limit + SLACK
  {
    BuildSize(cursor, start, isWrite, limit, Initial(|phys| - start), m);
  }

  /** kMaxMemCursorSegs: what updateCP asks the cursor for. */
  const MAX_SEGMENTS := 15

  /** With that many, the furthest a program can reach past the end of its area. */
  const OVERSHOOT := 6

  lemma LargestProgram(cursor: Cursor, phys: seq<nat>, start: nat, isWrite: bool, limit: nat, sync: bool)
    requires start <= |phys| && AtMost(cursor, MAX_SEGMENTS) && limit >= 2
    ensures |Program(cursor, phys, start, isWrite, limit, sync)| <= limit + SLACK + OVERSHOOT
    ensures |Build(cursor, start, isWrite, limit, Initial(|phys| - start)).program| <= limit + SLACK + OVERSHOOT
  {
    BuildSize(cursor, start, isWrite, limit, Initial(|phys| - start), MAX_SEGMENTS);
  }

  // ------------------------------------------------------- one segment too many

  /** A page of channel commands less the fixed part, 16 bytes a descriptor, and
      the last slot a group may not start at. */
  const DESCRIPTORS := (4096 - 0x500) / 16
  const LIMIT := DESCRIPTORS - SLACK

  /** A write of n scattered single bytes. */
  function Scattered(n: nat): seq<nat> {
    seq(n, i => 2 * i)
  }

  function Singles(offset: nat, k: nat): (segs: seq<Segment>)
    ensures |segs| == k
  {
    seq(k, j requires 0 <= j < k => Segment(2 * (offset + j), 1))
  }

  lemma {:induction false} SinglesMap(n: nat, offset: nat, k: nat)
    requires offset + k <= n
    ensures Total(Singles(offset, k)) == k && Maps(Scattered(n), offset, Singles(offset, k))
  {
    if k > 0 {
      assert Singles(offset, k)[..k - 1] == Singles(offset, k - 1);
      SinglesMap(n, offset, k - 1);
    }
  }

  /** How a write that fills the area to its last usable slot is cut up: q full
      groups of g segments, one of 9, and then another full one. */
  datatype Filling = Filling(g: nat, q: nat) {
    predicate Ok() {
      this == Filling(10, 9) || this == Filling(12, 8)
    }

    function Bytes(): nat {
      q * g + 9 + g
    }

    function GroupAt(offset: nat): nat {
      var want := if offset == q * g then 9 else g;
      if offset >= Bytes() then 0 else if want < Bytes() - offset then want else Bytes() - offset
    }

    function Cut(): Cursor {
      offset => Singles(offset, GroupAt(offset))
    }
  }

  lemma FillingMeetsContract(f: Filling)
    requires f.Ok()
    ensures Contract(f.Cut(), Scattered(f.Bytes())) && AtMost(f.Cut(), f.g)
  {
    forall offset: nat | offset < f.Bytes()
      ensures f.Cut()(offset) != [] && Total(f.Cut()(offset)) <= MAX_DMA_TRANSFER
      ensures Maps(Scattered(f.Bytes()), offset, f.Cut()(offset))
    {
      SinglesMap(f.Bytes(), offset, f.GroupAt(offset));
    }
  }

  /** The loop's state once i full groups are out. */
  predicate Filled(f: Filling, i: nat, b: Built) {
    && i <= f.q && b.total == i * f.g && |b.program| == i * (f.g + 6)
    && b.remaining == f.Bytes() - b.total
  }

  lemma AddSingles(f: Filling, b: Built)
    requires f.Ok() && b.total < f.Bytes() && b.remaining == f.Bytes() - b.total
    ensures var segs := f.Cut()(b.total);
            && segs != [] && |segs| == f.GroupAt(b.total)
            && var b' := AddGroup(b, true, segs);
               && b'.total == b.total + f.GroupAt(b.total)
               && b'.remaining == f.Bytes() - b'.total
               && |b'.program| == |b.program| + 4 + f.GroupAt(b.total) + (if b'.remaining > 0 then 2 else 0)
  {
    var segs := f.Cut()(b.total);
    SinglesMap(f.Bytes(), b.total, f.GroupAt(b.total));
    ItemsCount(true, false, segs, b.remaining);
  }

  lemma OnePass(f: Filling, b: Built)
    requires f.Ok() && b.total < f.Bytes() && b.remaining == f.Bytes() - b.total && |b.program| < LIMIT
    ensures f.Cut()(b.total) != []
    ensures Build(f.Cut(), 0, true, LIMIT, b) == Build(f.Cut(), 0, true, LIMIT, AddGroup(b, true, f.Cut()(b.total)))
  {
    hide AddGroup, Contract, Filling.Cut, Filling.Bytes, Filling.GroupAt, Singles;
    AddSingles(f, b);
  }

  lemma FullGroup(f: Filling, i: nat, b: Built)
    requires f.Ok() && Filled(f, i, b) && i < f.q
    ensures f.Cut()(b.total) != []
    ensures Filled(f, i + 1, AddGroup(b, true, f.Cut()(b.total)))
  {
    AddSingles(f, b);
    hide AddGroup;
    if f.g == 10 {
      assert b.total == 10 * i;
    } else {
      assert b.total == 12 * i;
    }
  }

  /** The short group and the full one that no longer fits. */
  lemma LastGroups(f: Filling, b: Built)
    requires f.Ok() && Filled(f, f.q, b)
    ensures var end := Build(f.Cut(), 0, true, LIMIT, b);
            |end.program| == LIMIT - 1 + 4 + f.g && end.remaining == 0 && end.total > 0
  {
    AddSingles(f, b);
    OnePass(f, b);
    var b' := AddGroup(b, true, f.Cut()(b.total));
    AddSingles(f, b');
    OnePass(f, b');
    hide AddGroup;
  }

  lemma {:induction false} FillingOverruns(f: Filling, i: nat, b: Built)
    requires f.Ok() && Filled(f, i, b)
    ensures var end := Build(f.Cut(), 0, true, LIMIT, b);
            |end.program| == LIMIT - 1 + 4 + f.g && end.remaining == 0 && end.total > 0
    decreases f.q - i
  {
    if i == f.q {
      LastGroups(f, b);
    } else {
      FullGroup(f, i, b);
      OnePass(f, b);
      FillingOverruns(f, i + 1, AddGroup(b, true, f.Cut()(b.total)));
    }
  }

  /** With the driver's own page-sized area: no transfer overruns it exactly when
      the cursor returns at most 9 segments a call (11 when not synchronous); the
      15 that updateCP allows for are too many. */
  lemma FitsExactlyWhenAffordable(m: nat, sync: bool)
    ensures AlwaysFits(m, LIMIT, sync) <==> m <= Affordable(sync)
    ensures AlwaysFits(m, 176 - 16, sync) <==> m <= if sync then 9 else 11
  {
    if m <= Affordable(sync) {
      forall cursor: Cursor, phys: seq<nat>, start: nat, isWrite: bool
        | start <= |phys| && Contract(cursor, phys) && AtMost(cursor, m)
        ensures |Program(cursor, phys, start, isWrite, LIMIT, sync)| <= LIMIT + SLACK
      {
        AffordableFits(cursor, phys, start, isWrite, LIMIT, sync, m);
      }
    } else {
      var f := if sync then Filling(10, 9) else Filling(12, 8);
      FillingMeetsContract(f);
      FillingOverruns(f, 0, Initial(f.Bytes()));
      assert |Program(f.Cut(), Scattered(f.Bytes()), 0, true, LIMIT, sync)| == LIMIT + SLACK + 1;
    }
  }
}
