/** The DBDMA channel and the MESH chip, a byte at a time: what running a data
    phase program does to memory and to the SCSI bus, and what the interrupt
    code can conclude when it stops (AppleMESH-1.0d1/mesh.cpp).

    The chip moves bytes between the bus and its FIFO; the channel moves them
    between the FIFO and memory.  Both run freely, so any interleaving of the
    two is possible, and an exception can stop them after any step. */
module MeshMachine {
  import opened Bytes
  import opened Common
  import opened MeshProgram

  const FIFO_SIZE := 16

  /** count is the MESH transfer counter: bytes of the current operation that
      have not entered the FIFO.  bus lists the bytes that crossed the bus since
      the program was started. */
  datatype Machine = Machine(pc: nat, done: nat, batchSize: nat, count: nat, active: bool,
                             fifo: seq<byte>, bus: seq<byte>, memory: map<nat, byte>, side: seq<byte>)

  /** One run of a program against a target: data is the transfer's contents,
      sent by the target on a read and held in memory on a write. */
  datatype Run = Run(t: Batch, program: seq<Descriptor>, data: seq<byte>) {
    ghost predicate Ok() {
      && t.Ok() && |data| == |t.phys| < UINT32
      && Right(t, program)
      && Distinct(t.phys)
    }
  }

  datatype Action =
    | Bus         // one byte crosses the bus
    | Dma         // one byte moves between the FIFO and memory
    | Next        // the channel leaves the current descriptor

  // ------------------------------------------------------------ the hardware

  predicate Loadable(m: Machine, place: Place) {
    match place
    case ReadBuf8(o) => o < |m.side|
    case Physical(a) => a in m.memory
  }

  function Load(m: Machine, place: Place): byte
    requires Loadable(m, place)
  {
    match place
    case ReadBuf8(o) => m.side[o]
    case Physical(a) => m.memory[a]
  }

  function Store(m: Machine, place: Place, b: byte): Machine {
    match place
    case ReadBuf8(o) => if o < |m.side| then m.(side := m.side[o := b]) else m
    case Physical(a) => m.(memory := m.memory[a := b])
  }

  predicate CmdDone(m: Machine) {
    m.count == 0 && m.fifo == []
  }

  predicate BusEnabled(r: Run, m: Machine) {
    if r.t.isWrite then m.fifo != []
    else m.active && m.count > 0 && |m.fifo| < FIFO_SIZE && r.t.start + |m.bus| < |r.data|
  }

  predicate InItem(r: Run, m: Machine) {
    m.pc < |r.program| && r.program[m.pc].Move? && m.done < r.program[m.pc].count
  }

  predicate DmaEnabled(r: Run, m: Machine) {
    && InItem(r, m)
    && (if r.t.isWrite
        then m.active && m.count > 0 && |m.fifo| < FIFO_SIZE && Loadable(m, Shift(r.program[m.pc].place, m.done))
        else m.fifo != [])
  }

  predicate NextEnabled(r: Run, m: Machine) {
    && m.pc < |r.program|
    && match r.program[m.pc]
       case Move(_, _, _, count) => m.done == count
       case WaitCmdDone => CmdDone(m)
       case BranchIfProblem(wait) => wait ==> CmdDone(m)
       case WaitBranchSyncCleanUp => CmdDone(m)
       case Stale => false
       case Corrupt => false
       case _ => true
  }

  predicate Enabled(r: Run, m: Machine, a: Action) {
    match a
    case Bus => BusEnabled(r, m)
    case Dma => DmaEnabled(r, m)
    case Next => NextEnabled(r, m)
  }

  function Execute(d: Descriptor, m: Machine): Machine {
    match d
    case StoreBatchSize(v) => m.(batchSize := v)
    case StoreCountHigh(v) => m.(count := v * 0x100 + m.count % 0x100)
    case StoreCountLow(v) => m.(count := m.count / 0x100 * 0x100 + v)
    case StoreSequence(_) => m.(active := true)
    case WaitCmdDone => m.(active := false)
    case WaitBranchSyncCleanUp => m.(active := false)
    case _ => m
  }

  function Step(r: Run, m: Machine, a: Action): Machine
    requires Enabled(r, m, a)
  {
    match a
    case Bus =>
      if r.t.isWrite then m.(bus := m.bus + [m.fifo[0]], fifo := m.fifo[1..])
      else
        var b := r.data[r.t.start + |m.bus|];
        m.(bus := m.bus + [b], fifo := m.fifo + [b], count := m.count - 1)
    case Dma =>
      var place := Shift(r.program[m.pc].place, m.done);
      if r.t.isWrite then m.(fifo := m.fifo + [Load(m, place)], count := m.count - 1, done := m.done + 1)
      else Store(m, place, m.fifo[0]).(fifo := m.fifo[1..], done := m.done + 1)
    case Next => Execute(r.program[m.pc], m).(pc := m.pc + 1, done := 0)
  }

  // --------------------------------------------------------- what always holds

  /** What the checked program says about the place the channel has reached. */
  function PointAt(r: Run, m: Machine): Option<Point>
    requires r.t.Ok() && m.pc <= |r.program|
  {
    CheckAll(r.t, START, r.program[..m.pc])
  }

  /** User memory holds the transfer's bytes lo up to hi. */
  ghost predicate Held(memory: map<nat, byte>, phys: seq<nat>, data: seq<byte>, lo: nat, hi: nat)
    requires hi <= |phys| == |data|
  {
    forall o :: lo <= o < hi ==> phys[o] in memory && memory[phys[o]] == data[o]
  }

  /** The first n bytes of the batch have reached their places. */
  ghost predicate Delivered(r: Run, m: Machine, n: nat)
    requires r.t.Ok() && |r.data| == |r.t.phys| && r.t.start + n <= |r.t.phys|
  {
    && |m.side| == 8
    && (forall o :: 0 <= o < n && o < r.t.aligned ==> m.side[o] == r.data[r.t.start + o])
    && Held(m.memory, r.t.phys, r.data, r.t.start + r.t.aligned, r.t.start + n)
  }

  /** Bytes of the program that have passed its current position. */
  function Passed(p: Point, m: Machine): nat {
    p.moved + m.done
  }

  /** Bytes that have entered the FIFO. */
  function Entered(r: Run, p: Point, m: Machine): nat {
    if r.t.isWrite then Passed(p, m) else |m.bus|
  }

  /** The chip's registers agree with the program's position. */
  ghost predicate Registers(r: Run, p: Point, m: Machine) {
    && p.moved <= p.goal
    && m.batchSize == p.goal
    && (m.active <==> Busy(p.stage))
    && (Busy(p.stage) || p.stage == WantSequence ==> Entered(r, p, m) <= p.goal && m.count == p.goal - Entered(r, p, m))
    && (!Busy(p.stage) ==> m.fifo == [])
    && (p.stage != Moving ==> m.done == 0)
    && (p.stage == Probed && FitsFifo(r.t, p.moved) ==> m.fifo == [])
    && (p.stage == WantHigh && p.moved > 0 ==> m.count == 0)
    && (p.stage == WantLow ==> m.count / 0x100 == (p.goal - p.moved) / 0x100)
    && (p.stage == WantLow && p.moved > 0 ==> m.count % 0x100 == 0)
    && (p.stage in {Masked, Probed, Synced} ==> p.moved == p.goal)
    && (p.stage in {Between, Synced, Finished} ==> p.moved == p.goal && (p.goal > 0 ==> m.count == 0))
  }

  /** The bytes in the FIFO and on the bus are the transfer's, in order. */
  ghost predicate Stream(r: Run, p: Point, m: Machine)
    requires r.t.Ok() && |r.data| == |r.t.phys|
  {
    var n := Passed(p, m);
    var s := r.t.start;
    && |m.fifo| <= FIFO_SIZE
    && (if r.t.isWrite then
          && s + n <= |r.data| && |m.bus| + |m.fifo| == n
          && m.bus + m.fifo == r.data[s..s + n]
          && Held(m.memory, r.t.phys, r.data, 0, |r.data|)
        else
          && s + |m.bus| <= |r.data| && |m.bus| == n + |m.fifo|
          && m.bus == r.data[s..s + |m.bus|]
          && m.fifo == r.data[s + n..s + |m.bus|]
          && Delivered(r, m, n))
  }

  ghost predicate Inv(r: Run, m: Machine)
    requires r.Ok()
  {
    && m.pc <= |r.program|
    && PointAt(r, m).Some?
    && var p := PointAt(r, m).value;
       && Registers(r, p, m)
       && Stream(r, p, m)
       && (m.done > 0 ==> m.pc < |r.program| && r.program[m.pc].Move? && m.done <= r.program[m.pc].count)
  }

  // ------------------------------------------------------ stepping the checker

  lemma PrefixChecks(r: Run, k: nat)
    requires r.t.Ok() && Right(r.t, r.program) && k < |r.program|
    ensures CheckAll(r.t, START, r.program[..k]).Some?
    ensures var p := CheckAll(r.t, START, r.program[..k]).value;
            Check(r.t, p, r.program[k]).Some? &&
            CheckAll(r.t, START, r.program[..k + 1]) == Check(r.t, p, r.program[k])
  {
    assert r.program == r.program[..k] + r.program[k..];
    CheckConcat(r.t, START, r.program[..k], r.program[k..]);
    assert r.program[..k + 1] == r.program[..k] + [r.program[k]];
    CheckConcat(r.t, START, r.program[..k], [r.program[k]]);
    CheckOne(r.t, CheckAll(r.t, START, r.program[..k]).value, r.program[k]);
  }

  // ---------------------------------------------------------- what a step keeps

  lemma SliceGrows(data: seq<byte>, lo: nat, hi: nat)
    requires lo <= hi < |data|
    ensures data[lo..hi + 1] == data[lo..hi] + [data[hi]]
  {
  }

  lemma SliceHead(data: seq<byte>, lo: nat, hi: nat)
    requires lo < hi <= |data|
    ensures data[lo..hi][0] == data[lo] && data[lo..hi][1..] == data[lo + 1..hi]
  {
  }

  lemma ReadBusKeepsStream(r: Run, p: Point, m: Machine)
    requires r.Ok() && !r.t.isWrite && Stream(r, p, m) && BusEnabled(r, m)
    ensures Stream(r, p, Step(r, m, Bus))
  {
    hide Held, Distinct, Right;
    var s := r.t.start;
    SliceGrows(r.data, s, s + |m.bus|);
    SliceGrows(r.data, s + Passed(p, m), s + |m.bus|);
  }

  lemma WriteBusKeepsStream(r: Run, p: Point, m: Machine)
    requires r.Ok() && r.t.isWrite && Stream(r, p, m) && BusEnabled(r, m)
    ensures Stream(r, p, Step(r, m, Bus))
  {
    var m' := Step(r, m, Bus);
    assert m.bus + m.fifo == m'.bus + m'.fifo;
  }

  /** A bus byte leaves the program where it is. */
  lemma BusKeepsInv(r: Run, m: Machine)
    requires r.Ok() && Inv(r, m) && BusEnabled(r, m)
    ensures Inv(r, Step(r, m, Bus)) && PointAt(r, Step(r, m, Bus)) == PointAt(r, m)
  {
    var p := PointAt(r, m).value;
    if r.t.isWrite {
      WriteBusKeepsStream(r, p, m);
    } else {
      ReadBusKeepsStream(r, p, m);
    }
    hide Stream, CheckAll;
  }

  /** While an item has bytes to move its checks give the byte's own place. */
  lemma ItemPlace(r: Run, m: Machine)
    requires r.Ok() && Inv(r, m) && InItem(r, m)
    ensures var p := PointAt(r, m).value;
            && p.stage == Moving && r.t.start + Passed(p, m) < |r.t.phys| && Passed(p, m) < p.goal
            && Shift(r.program[m.pc].place, m.done) == r.t.PlaceOf(Passed(p, m))
  {
    PrefixChecks(r, m.pc);
  }

  lemma WriteDmaKeepsStream(r: Run, p: Point, m: Machine)
    requires r.Ok() && r.t.isWrite && r.t.aligned == 0 && Stream(r, p, m) && DmaEnabled(r, m)
    requires r.t.start + Passed(p, m) < |r.t.phys|
    requires Shift(r.program[m.pc].place, m.done) == r.t.PlaceOf(Passed(p, m))
    ensures Stream(r, p, Step(r, m, Dma))
  {
    var m' := Step(r, m, Dma);
    var s, n := r.t.start, Passed(p, m);
    SliceGrows(r.data, s, s + n);
    assert m'.bus + m'.fifo == m.bus + m.fifo + [r.data[s + n]];
  }

  /** Storing the next byte at its own place disturbs no earlier byte. */
  lemma StoreDelivers(r: Run, m: Machine, n: nat)
    requires r.Ok() && r.t.start + n < |r.t.phys|
    requires Delivered(r, m, n)
    ensures Delivered(r, Store(m, r.t.PlaceOf(n), r.data[r.t.start + n]), n + 1)
  {
  }

  lemma ReadDmaKeepsStream(r: Run, p: Point, m: Machine)
    requires r.Ok() && !r.t.isWrite && Stream(r, p, m) && DmaEnabled(r, m)
    requires r.t.start + Passed(p, m) < |r.t.phys|
    requires Shift(r.program[m.pc].place, m.done) == r.t.PlaceOf(Passed(p, m))
    ensures Stream(r, p, Step(r, m, Dma))
  {
    hide Held, Distinct, Right;
    var s, n := r.t.start, Passed(p, m);
    StoreDelivers(r, m, n);
    SliceHead(r.data, s + n, s + |m.bus|);
  }

  lemma DmaKeepsInv(r: Run, m: Machine)
    requires r.Ok() && Inv(r, m) && DmaEnabled(r, m) && (r.t.isWrite ==> r.t.aligned == 0)
    ensures Inv(r, Step(r, m, Dma)) && PointAt(r, Step(r, m, Dma)) == PointAt(r, m)
  {
    var p := PointAt(r, m).value;
    ItemPlace(r, m);
    if r.t.isWrite {
      WriteDmaKeepsStream(r, p, m);
    } else {
      ReadDmaKeepsStream(r, p, m);
    }
    hide Stream, CheckAll, Right;
  }

  lemma ItemKeepsRegisters(r: Run, p: Point, d: Descriptor, m: Machine)
    requires r.t.Ok() && Registers(r, p, m) && Check(r.t, p, d).Some? && d.Move? && m.done == d.count
    requires m.pc < |r.program| && r.program[m.pc] == d
    ensures Registers(r, Check(r.t, p, d).value, Step(r, m, Next))
    ensures Passed(Check(r.t, p, d).value, Step(r, m, Next)) == Passed(p, m)
  {
    hide Shift, PointAt, BusEnabled, DmaEnabled;
  }

  lemma OtherKeepsRegisters(r: Run, p: Point, d: Descriptor, m: Machine)
    requires r.t.Ok() && Registers(r, p, m) && Check(r.t, p, d).Some? && !d.Move? && m.done == 0
    requires m.pc < |r.program| && r.program[m.pc] == d && NextEnabled(r, m)
    requires !Busy(p.stage) ==> |m.bus| == p.moved
    ensures Registers(r, Check(r.t, p, d).value, Step(r, m, Next))
    ensures Passed(Check(r.t, p, d).value, Step(r, m, Next)) == Passed(p, m)
  {
    hide RightItem, Destination, Shift, PointAt, BusEnabled, DmaEnabled;
  }

  /** Leaving a descriptor changes registers only. */
  lemma NextKeepsRegisters(r: Run, p: Point, d: Descriptor, m: Machine)
    requires r.t.Ok() && Registers(r, p, m) && Check(r.t, p, d).Some?
    requires m.pc < |r.program| && r.program[m.pc] == d && NextEnabled(r, m)
    requires (d.Move? ==> m.done == d.count) && (!d.Move? ==> m.done == 0)
    requires !Busy(p.stage) ==> |m.bus| == p.moved
    ensures Registers(r, Check(r.t, p, d).value, Step(r, m, Next))
    ensures var m' := Step(r, m, Next);
            m'.fifo == m.fifo && m'.bus == m.bus && m'.memory == m.memory && m'.side == m.side
    ensures Passed(Check(r.t, p, d).value, Step(r, m, Next)) == Passed(p, m)
  {
    hide Registers, Check, Passed, Busy;
    if d.Move? {
      ItemKeepsRegisters(r, p, d, m);
    } else {
      OtherKeepsRegisters(r, p, d, m);
    }
  }

  lemma StreamFrame(r: Run, p: Point, m: Machine, q: Point, m': Machine)
    requires r.Ok() && Stream(r, p, m) && Passed(p, m) == Passed(q, m')
    requires m'.fifo == m.fifo && m'.bus == m.bus && m'.memory == m.memory && m'.side == m.side
    ensures Stream(r, q, m')
  {
  }

  lemma BusMatchesPassed(r: Run, p: Point, m: Machine)
    requires r.Ok() && Stream(r, p, m) && m.fifo == []
    ensures |m.bus| == Passed(p, m)
  {
  }

  lemma NextKeepsInv(r: Run, m: Machine)
    requires r.Ok() && Inv(r, m) && NextEnabled(r, m)
    ensures Inv(r, Step(r, m, Next))
    ensures Passed(PointAt(r, Step(r, m, Next)).value, Step(r, m, Next)) == Passed(PointAt(r, m).value, m)
  {
    var p, d, m' := PointAt(r, m).value, r.program[m.pc], Step(r, m, Next);
    PrefixChecks(r, m.pc);
    if !Busy(p.stage) {
      BusMatchesPassed(r, p, m);
    }
    NextKeepsRegisters(r, p, d, m);
    StreamFrame(r, p, m, Check(r.t, p, d).value, m');
    hide Stream, CheckAll, Right, Check;
  }

  function Cost(a: Action): nat {
    if a == Dma then 1 else 0
  }

  /** Every action keeps the invariant, and only a channel byte counts as passed. */
  lemma StepKeepsInv(r: Run, m: Machine, a: Action)
    requires r.Ok() && Inv(r, m) && Enabled(r, m, a) && (r.t.isWrite ==> r.t.aligned == 0)
    ensures Inv(r, Step(r, m, a))
    ensures Passed(PointAt(r, Step(r, m, a)).value, Step(r, m, a)) == Passed(PointAt(r, m).value, m) + Cost(a)
  {
    match a
    case Bus => BusKeepsInv(r, m);
    case Dma => DmaKeepsInv(r, m);
    case Next => NextKeepsInv(r, m);
    hide Inv, Right, CheckAll;
  }
}
