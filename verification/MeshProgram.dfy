/** The DBDMA channel program that updateCP builds for the data phase
    (AppleMESH-1.0d1/mesh.cpp).

    A transfer is compiled into groups; a group is one MESH operation and moves
    the segments of one memory-cursor call, one DBDMA item each.  The memory
    cursor is xnu-123.5/iokit/Kernel/IOMemoryCursor.cpp: it returns non-empty
    physically contiguous segments, in order, of at most kMaxDMATransfer bytes
    together. */
module MeshProgram {
  import opened Common

  /** IOPhysicalSegment; the cursor never returns an empty one. */
  datatype RawSegment = Segment(location: nat, length: nat)
  type Segment = s: RawSegment | s.length > 0 witness Segment(0, 1)

  type Cursor = nat -> seq<Segment>

  /** Where an item's bytes go or come from. */
  datatype Place = ReadBuf8(offset: nat) | Physical(address: nat)

  datatype Label = GetStatus | Overrun | MESHIntr

  datatype Descriptor =
    | Stale                                     // a slot updateCP skipped over
    | StoreBatchSize(value: nat)                // preamble 0
    | StoreCountHigh(value: nat)                // preamble 1
    | StoreCountLow(value: nat)                 // preamble 2
    | StoreSequence(input: bool)                // preamble 3
    | Move(input: bool, last: bool, place: Place, count: nat)
    | Corrupt                                   // a count that spilled into the opcode
    | WaitCmdDone                               // the copy of kcclBrProblem
    | ClearCmdDone
    | MaskInterrupts
    | BranchIfProblem(wait: bool)
    | WaitBranchSyncCleanUp
    | BranchAlways(target: Label)

  const MAX_DMA_TRANSFER := 0xF000
  const UINT32 := 0x1_0000_0000
  const COUNT_LIMIT := 0x1_0000

  function Total(segs: seq<Segment>): nat {
    if segs == [] then 0 else Total(segs[..|segs| - 1]) + segs[|segs| - 1].length
  }

  // ---------------------------------------------------------- what is built

  /** A data item; a length that does not fit the count field damages the word. */
  function Item(isWrite: bool, place: Place, length: int, remaining: int): Descriptor
    requires length >= 0
  {
    if length < COUNT_LIMIT then Move(!isWrite, remaining <= 0, place, length) else Corrupt
  }

  function Misaligned(seg: Segment): bool {
    seg.location % 8 != 0
  }

  function AlignmentCount(seg: Segment): (c: nat)
    ensures 1 <= c <= 8
  {
    8 - seg.location % 8
  }

  /** The items of one segment.  With split set its misaligned head goes to
      kcclReadBuf8; the subtraction from rangeLength is unsigned. */
  function SegmentItems(isWrite: bool, split: bool, seg: Segment, remaining: int): seq<Descriptor> {
    if split then
      var c := AlignmentCount(seg);
      var rest := U32(seg.length - c);
      [Item(isWrite, ReadBuf8(0), c, remaining - c)] +
      (if rest == 0 then []
       else [Item(isWrite, Physical(seg.location + c), rest, remaining - seg.length)])
    else
      [Item(isWrite, Physical(seg.location), seg.length, remaining - seg.length)]
  }

  /** The items of one group. */
  function Items(isWrite: bool, split: bool, segs: seq<Segment>, remaining: int): seq<Descriptor> {
    if segs == [] then [] else
    var before := segs[..|segs| - 1];
    Items(isWrite, split, before, remaining) +
    SegmentItems(isWrite, split && before == [], segs[|segs| - 1], remaining - Total(before))
  }

  function Preamble(total: nat, length: nat, isWrite: bool): (ds: seq<Descriptor>)
    ensures |ds| == 4
  {
    [StoreBatchSize(total), StoreCountHigh(length / 0x100), StoreCountLow(length % 0x100), StoreSequence(!isWrite)]
  }

  /** The state of updateCP's outer loop. */
  datatype Built = Built(program: seq<Descriptor>, total: nat, remaining: int)

  /** The first item of a batch's first group is split when a read begins off an
      8-byte boundary. */
  predicate SplitsFirst(isWrite: bool, total: nat, segs: seq<Segment>)
    requires segs != []
  {
    total == 0 && !isWrite && Misaligned(segs[0])
  }

  function GroupTail(remaining: int): seq<Descriptor> {
    if remaining > 0 then [WaitCmdDone, ClearCmdDone] else []
  }

  /** Everything one pass of the outer loop emits. */
  function GroupProgram(b: Built, isWrite: bool, segs: seq<Segment>): (ds: seq<Descriptor>)
    requires segs != []
    ensures |ds| >= 4
  {
    var length := Total(segs);
    Preamble(b.total + length, length, isWrite) +
    (Items(isWrite, SplitsFirst(isWrite, b.total, segs), segs, b.remaining) + GroupTail(b.remaining - length))
  }

  function AddGroup(b: Built, isWrite: bool, segs: seq<Segment>): (b': Built)
    requires segs != []
    ensures |b'.program| > |b.program|
  {
    Built(b.program + GroupProgram(b, isWrite, segs), b.total + Total(segs), b.remaining - Total(segs))
  }

  const SKIPPED_PREAMBLE: seq<Descriptor> := [Stale, Stale, Stale, Stale]

  /** The outer loop, from any of its states to its exit. */
  function Build(cursor: Cursor, start: nat, isWrite: bool, limit: nat, b: Built): Built
    decreases limit - |b.program|
  {
    if b.remaining > 0 && |b.program| < limit then
      var segs := cursor(start + b.total);
      if segs == [] then b.(program := b.program + SKIPPED_PREAMBLE)
      else Build(cursor, start, isWrite, limit, AddGroup(b, isWrite, segs))
    else b
  }

  predicate SyncPostamble(b: Built, sync: bool) {
    sync && b.total > 0 && b.remaining == 0
  }

  /** The postamble: an incomplete batch overwrites its last ClearCmdDone. */
  function Finish(b: Built, isWrite: bool, sync: bool): seq<Descriptor> {
    if SyncPostamble(b, sync) then
      b.program +
      [MaskInterrupts, BranchIfProblem(b.total <= 16 && isWrite), WaitBranchSyncCleanUp, BranchAlways(Overrun)]
    else if b.remaining > 0 then
      (if b.program == [] then [] else b.program[..|b.program| - 1]) + [BranchAlways(MESHIntr)]
    else
      b.program + (if b.total > 0 then [WaitCmdDone] else []) + [BranchAlways(GetStatus)]
  }

  /** A UInt32 result. */
  function U32(n: int): (r: nat)
    ensures r < UINT32 && (0 <= n < UINT32 ==> r == n)
  {
    n % UINT32
  }

  /** transferLength is an SInt32. */
  function Signed32(n: int): (r: int)
    ensures -0x8000_0000 <= r < 0x8000_0000 && (-0x8000_0000 <= n < 0x8000_0000 ==> r == n)
  {
    var low := U32(n);
    if low < 0x8000_0000 then low else low - UINT32
  }

  function Initial(left: nat): Built {
    Built([], 0, Signed32(left))
  }

  // ------------------------------------------------------ what it should do

  /** A batch: the physical address of every byte of the transfer, where the
      batch starts, and how many of its bytes go through kcclReadBuf8. */
  datatype Batch = Batch(phys: seq<nat>, start: nat, isWrite: bool, aligned: nat) {
    predicate Ok() {
      start <= |phys| && start + aligned <= |phys| && aligned <= 8
    }

    /** The place of the batch's byte o. */
    function PlaceOf(o: nat): Place
      requires start + o < |phys|
    {
      if o < aligned then ReadBuf8(o) else Physical(phys[start + o])
    }
  }

  function Shift(place: Place, j: nat): Place {
    match place
    case ReadBuf8(o) => ReadBuf8(o + j)
    case Physical(a) => Physical(a + j)
  }

  datatype Stage = Between | WantHigh | WantLow | WantSequence | Moving | Masked | Probed | Synced | Finished

  /** MESH has been told to move the group and has not reported that it is done. */
  predicate Busy(s: Stage) {
    s == Moving || s == Masked || s == Probed
  }

  /** The longest transfer that may sit in the FIFO without a byte on the bus. */
  predicate FitsFifo(t: Batch, moved: nat) {
    t.isWrite && moved <= 16
  }

  /** What must follow the program: the next batch while bytes remain, the status
      phase once they are all through, by way of the bit bucket if the target may have
      gone on to the next phase unnoticed. */
  function Destination(t: Batch, p: Point): Label {
    if t.start + p.moved < |t.phys| then MESHIntr else if p.stage == Synced then Overrun else GetStatus
  }

  /** What is known when the channel reaches a descriptor: how many bytes the
      items before it move, and how many the groups up to the current one do. */
  datatype Point = Point(moved: nat, goal: nat, stage: Stage)

  const START := Point(0, 0, Between)

  /** An item is right when it moves the next bytes, to or from their own
      places, stays within its group, and is LAST exactly at the transfer's end. */
  predicate RightItem(t: Batch, p: Point, d: Descriptor)
    requires t.Ok() && d.Move?
  {
    && d.input == !t.isWrite
    && d.count > 0
    && p.moved + d.count <= p.goal <= |t.phys| - t.start
    && (d.last <==> t.start + p.moved + d.count == |t.phys|)
    && forall j :: 0 <= j < d.count ==> Shift(d.place, j) == t.PlaceOf(p.moved + j)
  }

  /** One descriptor checked against what is known before it. */
  function Check(t: Batch, p: Point, d: Descriptor): Option<Point>
    requires t.Ok()
  {
    match d
    case StoreBatchSize(v) =>
      if p.stage == Between && p.moved == p.goal < v < p.moved + COUNT_LIMIT then
        Some(Point(p.moved, v, WantHigh))
      else None
    case StoreCountHigh(v) =>
      if p.stage == WantHigh && p.moved <= p.goal && v == (p.goal - p.moved) / 0x100 then
        Some(p.(stage := WantLow))
      else None
    case StoreCountLow(v) =>
      if p.stage == WantLow && p.moved <= p.goal && v == (p.goal - p.moved) % 0x100 then
        Some(p.(stage := WantSequence))
      else None
    case StoreSequence(input) =>
      if p.stage == WantSequence && input == !t.isWrite then Some(p.(stage := Moving)) else None
    case Move(_, _, _, _) =>
      if p.stage == Moving && RightItem(t, p, d) then Some(p.(moved := p.moved + d.count)) else None
    case WaitCmdDone =>
      if p.stage == Moving && p.moved == p.goal then Some(p.(stage := Between)) else None
    case ClearCmdDone =>
      if p.stage == Between then Some(p) else None
    case BranchAlways(target) =>
      if p.moved == p.goal && p.stage in {Between, Synced} && target == Destination(t, p) then
        Some(p.(stage := Finished))
      else None
    case MaskInterrupts =>
      if p.stage == Moving && p.moved == p.goal && t.start + p.moved == |t.phys| then Some(p.(stage := Masked))
      else None
    case BranchIfProblem(wait) =>
      if p.stage == Masked && t.start + p.moved == |t.phys| && (wait <==> FitsFifo(t, p.moved)) then
        Some(p.(stage := Probed))
      else None
    case WaitBranchSyncCleanUp =>
      if p.stage == Probed then Some(p.(stage := Synced)) else None
    case Stale => None
    case Corrupt => None
  }

  /** A stretch of program checked from a point. */
  function CheckAll(t: Batch, p: Point, ds: seq<Descriptor>): Option<Point>
    requires t.Ok()
    decreases |ds|
  {
    if ds == [] then Some(p) else
    match Check(t, p, ds[0])
    case None => None
    case Some(q) => CheckAll(t, q, ds[1..])
  }

  /** A program that is right all the way to its final branch. */
  predicate Right(t: Batch, program: seq<Descriptor>)
    requires t.Ok()
  {
    var end := CheckAll(t, START, program);
    end.Some? && end.value.stage == Finished
  }

  lemma {:induction false} CheckConcat(t: Batch, p: Point, ds: seq<Descriptor>, es: seq<Descriptor>)
    requires t.Ok()
    ensures CheckAll(t, p, ds + es) ==
            match CheckAll(t, p, ds) case None => None case Some(q) => CheckAll(t, q, es)
    decreases |ds|
  {
    if ds == [] {
      assert ds + es == es;
    } else {
      assert (ds + es)[1..] == ds[1..] + es;
      if Check(t, p, ds[0]).Some? {
        CheckConcat(t, Check(t, p, ds[0]).value, ds[1..], es);
      }
    }
  }

  lemma CheckOne(t: Batch, p: Point, d: Descriptor)
    requires t.Ok()
    ensures CheckAll(t, p, [d]) == Check(t, p, d)
  {
    match Check(t, p, d)
    case None =>
    case Some(q) => assert [d][1..] == [];
  }

  lemma CheckCons(t: Batch, p: Point, d: Descriptor, ds: seq<Descriptor>)
    requires t.Ok()
    ensures CheckAll(t, p, [d] + ds) ==
            match Check(t, p, d) case None => None case Some(q) => CheckAll(t, q, ds)
  {
    assert ([d] + ds)[1..] == ds;
  }

  // -------------------------------------------------------- the cursor's word

  predicate Distinct(phys: seq<nat>) {
    forall i, j :: 0 <= i < j < |phys| ==> phys[i] != phys[j]
  }

  /** These segments are the physical places of the bytes from offset on. */
  predicate Maps(phys: seq<nat>, offset: nat, segs: seq<Segment>) {
    segs == [] ||
    (var before := segs[..|segs| - 1];
     var seg := segs[|segs| - 1];
     var at := offset + Total(before);
     && Maps(phys, offset, before)
     && at + seg.length <= |phys|
     && forall i :: at <= i < at + seg.length ==> phys[i] == seg.location + (i - at))
  }

  /** The memory cursor's contract. */
  ghost predicate Contract(cursor: Cursor, phys: seq<nat>) {
    forall offset: nat :: offset < |phys| ==>
      && cursor(offset) != []
      && Total(cursor(offset)) <= MAX_DMA_TRANSFER
      && Maps(phys, offset, cursor(offset))
  }

  lemma {:induction false} TotalPositive(segs: seq<Segment>)
    ensures segs != [] ==> Total(segs) > 0
  {
    if segs != [] {
      TotalPositive(segs[..|segs| - 1]);
    }
  }

  lemma {:induction false} MapsFits(phys: seq<nat>, offset: nat, segs: seq<Segment>)
    requires Maps(phys, offset, segs) && offset <= |phys|
    ensures offset + Total(segs) <= |phys|
  {
    if segs != [] {
      MapsFits(phys, offset, segs[..|segs| - 1]);
    }
  }

  /** How many bytes of a batch go through kcclReadBuf8. */
  function AlignmentOf(cursor: Cursor, phys: seq<nat>, start: nat, isWrite: bool): (c: nat)
    ensures c <= 8
  {
    if start < |phys| && cursor(start) != [] && SplitsFirst(isWrite, 0, cursor(start)) then
      AlignmentCount(cursor(start)[0])
    else 0
  }

  /** The guard that updateCP does not have: the misaligned head must lie within
      the first segment, and what is left to transfer within an SInt32. */
  predicate HeadFits(cursor: Cursor, phys: seq<nat>, start: nat, isWrite: bool) {
    start < |phys| && cursor(start) != [] ==> AlignmentOf(cursor, phys, start, isWrite) <= cursor(start)[0].length
  }

  predicate Compilable(cursor: Cursor, phys: seq<nat>, start: nat, isWrite: bool) {
    HeadFits(cursor, phys, start, isWrite) && |phys| - start < 0x8000_0000
  }
}
