/** Running the channel program to a stop, and what the interrupt code makes of
    it (AppleMESH-1.0d1/mesh.cpp, updateCurrentIndex and doInterruptStageGood). */
module MeshTransfer {
  import opened Bytes
  import opened Common
  import opened MeshProgram
  import opened MeshMachine

  // ------------------------------------------------------------------ the runs

  /** Doing these actions takes m to m'. */
  ghost predicate Steps(r: Run, m: Machine, actions: seq<Action>, m': Machine)
    decreases |actions|
  {
    if actions == [] then m' == m
    else Enabled(r, m, actions[0]) && Steps(r, Step(r, m, actions[0]), actions[1..], m')
  }

  /** A machine about to run the program: updateCP has cleared kcclBatchSize,
      the transfer counter holds whatever the last operation left in it. */
  ghost predicate Launched(r: Run, m: Machine)
    requires r.Ok()
  {
    && m.pc == 0 && m.done == 0 && m.batchSize == 0 && !m.active
    && m.fifo == [] && m.bus == [] && |m.side| == 8
    && (r.t.isWrite ==> r.t.aligned == 0 && Held(m.memory, r.t.phys, r.data, 0, |r.data|))
  }

  /** A machine that some interleaving of chip and channel can reach. */
  ghost predicate Reachable(r: Run, m: Machine)
    requires r.Ok()
  {
    exists m0, actions :: Launched(r, m0) && Steps(r, m0, actions, m)
  }

  /** Some interleaving takes the program from this memory to m. */
  ghost predicate ReachedFrom(r: Run, memory: map<nat, byte>, m: Machine)
    requires r.Ok()
  {
    exists m0, actions :: Launched(r, m0) && m0.memory == memory && Steps(r, m0, actions, m)
  }

  lemma LaunchedHasInv(r: Run, m: Machine)
    requires r.Ok() && Launched(r, m)
    ensures Inv(r, m)
  {
    assert r.program[..0] == [];
    assert PointAt(r, m) == Some(START);
    assert r.data[r.t.start..r.t.start] == [];
  }

  lemma {:induction false} StepsKeepInv(r: Run, m: Machine, actions: seq<Action>, m': Machine)
    requires r.Ok() && (r.t.isWrite ==> r.t.aligned == 0) && Inv(r, m) && Steps(r, m, actions, m')
    ensures Inv(r, m')
    decreases |actions|
  {
    hide Inv;
    if actions != [] {
      StepKeepsInv(r, m, actions[0]);
      StepsKeepInv(r, Step(r, m, actions[0]), actions[1..], m');
    }
  }

  lemma ReachableHasInv(r: Run, m: Machine)
    requires r.Ok() && Reachable(r, m)
    ensures Inv(r, m) && (r.t.isWrite ==> r.t.aligned == 0)
  {
    var m0, actions :| Launched(r, m0) && Steps(r, m0, actions, m);
    LaunchedHasInv(r, m0);
    StepsKeepInv(r, m0, actions, m);
  }

  // -------------------------------------------------------------- no run hangs

  /** What is left to do: descriptors to leave, bytes to cross the bus, bytes to
      cross between FIFO and memory. */
  function Pending(r: Run, p: Point, m: Machine): int {
    |r.program| - m.pc + (|r.t.phys| - r.t.start - |m.bus|) + (|r.t.phys| - r.t.start - Passed(p, m))
  }

  /** Every action uses up exactly one unit of what is left, so no interleaving
      can run on for ever. */
  lemma StepUsesOne(r: Run, m: Machine, a: Action)
    requires r.Ok() && Inv(r, m) && Enabled(r, m, a) && (r.t.isWrite ==> r.t.aligned == 0)
    ensures Inv(r, Step(r, m, a))
    ensures Pending(r, PointAt(r, Step(r, m, a)).value, Step(r, m, a)) == Pending(r, PointAt(r, m).value, m) - 1 >= 0
  {
    hide Inv, CheckAll, Right, RightItem;
    StepKeepsInv(r, m, a);
    PendingIsNatural(r, Step(r, m, a));
  }

  lemma PendingIsNatural(r: Run, m: Machine)
    requires r.Ok() && Inv(r, m)
    ensures Pending(r, PointAt(r, m).value, m) >= 0
  {
  }

  /** In the middle of an item something can always move: on a read the channel
      if the FIFO holds a byte and the bus if not, on a write the other way. */
  lemma ItemCanMove(r: Run, m: Machine)
    requires r.Ok() && Inv(r, m) && InItem(r, m) && (r.t.isWrite ==> r.t.aligned == 0)
    ensures BusEnabled(r, m) || DmaEnabled(r, m)
  {
    ItemPlace(r, m);
    if r.t.isWrite && m.fifo == [] {
      assert r.t.phys[r.t.start + Passed(PointAt(r, m).value, m)] in m.memory;
    }
  }

  /** Once a group's bytes have all passed, the chip can only drain. */
  lemma GroupCanFinish(r: Run, m: Machine)
    requires r.Ok() && Inv(r, m) && m.done == 0
    requires var p := PointAt(r, m).value; Busy(p.stage) && p.moved == p.goal
    ensures BusEnabled(r, m) || CmdDone(m)
  {
  }

  /** Nothing ever hangs: until the program is done, some action is possible. */
  lemma SomethingCanMove(r: Run, m: Machine)
    requires r.Ok() && Inv(r, m) && m.pc < |r.program| && (r.t.isWrite ==> r.t.aligned == 0)
    ensures exists a :: Enabled(r, m, a)
  {
    PrefixChecks(r, m.pc);
    var d := r.program[m.pc];
    if InItem(r, m) {
      ItemCanMove(r, m);
      assert Enabled(r, m, Bus) || Enabled(r, m, Dma);
    } else if d.WaitCmdDone? || d.BranchIfProblem? || d.WaitBranchSyncCleanUp? {
      GroupCanFinish(r, m);
      assert Enabled(r, m, Bus) || Enabled(r, m, Next);
    } else {
      assert Enabled(r, m, Next);
    }
  }

  /** From every machine a run can be in, some continuation completes the
      program; with StepUsesOne, every continuation that never stops early does. */
  lemma {:induction false} EveryRunCanComplete(r: Run, m: Machine) returns (actions: seq<Action>, end: Machine)
    requires r.Ok() && Inv(r, m) && (r.t.isWrite ==> r.t.aligned == 0)
    ensures Steps(r, m, actions, end) && Inv(r, end) && end.pc == |r.program|
    decreases Pending(r, PointAt(r, m).value, m)
  {
    if m.pc == |r.program| {
      actions, end := [], m;
    } else {
      SomethingCanMove(r, m);
      var a :| Enabled(r, m, a);
      StepUsesOne(r, m, a);
      PendingIsNatural(r, m);
      var rest;
      rest, end := EveryRunCanComplete(r, Step(r, m, a));
      actions := [a] + rest;
    }
  }

  /** Behind the test for an exception nothing is left to move. */
  lemma {:induction false} AfterProbe(r: Run, k: nat, j: nat)
    requires r.Ok() && k < j <= |r.program| && r.program[k].BranchIfProblem?
    ensures CheckAll(r.t, START, r.program[..j]).Some?
    ensures var p := CheckAll(r.t, START, r.program[..j]).value;
            p.stage in {Probed, Synced, Finished} && r.t.start + p.moved == |r.t.phys|
  {
    PrefixChecks(r, j - 1);
    if k < j - 1 {
      AfterProbe(r, k, j - 1);
    }
  }

  /** A write of at most 16 bytes, which the FIFO may hold whole, does not pass the test
      for an exception before the target has every byte. */
  lemma SmallWriteWaits(r: Run, m: Machine, k: nat)
    requires r.Ok() && Reachable(r, m) && k < m.pc && k < |r.program| && r.program[k].BranchIfProblem?
    requires r.t.isWrite && |r.t.phys| - r.t.start <= 16
    ensures m.bus == r.data[r.t.start..]
  {
    ReachableHasInv(r, m);
    AfterProbe(r, k, m.pc);
    WriteBusIsPrefix(r, m);
    hide CheckAll, Right;
  }

  /** And nothing else ever waits there. */
  lemma OnlySmallWritesWait(r: Run, m: Machine)
    requires r.Ok() && Reachable(r, m) && m.pc < |r.program| && r.program[m.pc].BranchIfProblem?
    ensures NextEnabled(r, m) <==> CmdDone(m) || !(r.t.isWrite && |r.t.phys| - r.t.start <= 16)
  {
    PrefixChecks(r, m.pc);
    hide CheckAll, Right;
  }

  // ------------------------------------------------------------- the accounting

  /** Bytes that have left the FIFO, on the side away from where they entered. */
  function LeftFifo(r: Run, m: Machine): int {
    if r.t.isWrite then |m.bus| else |m.bus| - |m.fifo|
  }

  /** The channel leaves the program only from these: by its branch on a MESH
      exception, or by the branch that ends it. */
  predicate IsBranchPoint(d: Descriptor) {
    d.Move? || d.WaitCmdDone? || d.BranchIfProblem? || d.WaitBranchSyncCleanUp? || d.BranchAlways?
  }

  /** Where the channel can be when the interrupt code looks; the stage says data
      phase before the program is entered. */
  predicate Stopped(r: Run, m: Machine) {
    m.pc == 0 || m.pc == |r.program| || (m.pc < |r.program| && IsBranchPoint(r.program[m.pc]))
  }

  /** At every stop, in whatever group, batch size less residual less FIFO count
      is the number of bytes that left the FIFO. */
  lemma AccountingIsExact(r: Run, m: Machine)
    requires r.Ok() && Reachable(r, m) && Stopped(r, m)
    ensures m.batchSize > 0 ==> m.batchSize - m.count - |m.fifo| == LeftFifo(r, m)
    ensures m.batchSize == 0 ==> m.bus == []
  {
    ReachableHasInv(r, m);
    StoppedStage(r, m);
  }

  lemma StoppedStage(r: Run, m: Machine)
    requires r.Ok() && Inv(r, m) && Stopped(r, m)
    ensures PointAt(r, m).value.stage !in {WantHigh, WantLow, WantSequence}
  {
    if m.pc == 0 {
      assert r.program[..0] == [];
    } else if m.pc < |r.program| {
      PrefixChecks(r, m.pc);
    } else {
      assert r.program[..m.pc] == r.program;
    }
  }

  /** By how much the driver's sum is off. */
  function Error(r: Run, m: Machine): int {
    m.batchSize - m.count - |m.fifo| - LeftFifo(r, m)
  }

  predicate AtCountHigh(r: Run, m: Machine) {
    m.pc < |r.program| && r.program[m.pc].StoreCountHigh?
  }

  predicate AtCountLow(r: Run, m: Machine) {
    m.pc < |r.program| && r.program[m.pc].StoreCountLow?
  }

  lemma SlotsAreStages(r: Run, m: Machine)
    requires r.Ok() && Inv(r, m)
    ensures AtCountHigh(r, m) <==> PointAt(r, m).value.stage == WantHigh
    ensures AtCountLow(r, m) <==> PointAt(r, m).value.stage == WantLow
  {
    if m.pc < |r.program| {
      PrefixChecks(r, m.pc);
    } else {
      assert r.program[..m.pc] == r.program;
    }
  }

  /** The sum in every reachable state, branch point or not, once the batch size has
      been stored: it is off only before the two counter stores, by what the counter
      still lacks of the group's length. */
  lemma AccountingEverywhere(r: Run, m: Machine)
    requires r.Ok() && Reachable(r, m) && m.batchSize > 0
    ensures m.pc <= |r.program| && PointAt(r, m).Some?
    ensures var group := PointAt(r, m).value.goal - PointAt(r, m).value.moved;
            Error(r, m) == if AtCountHigh(r, m) then group - m.count
                           else if AtCountLow(r, m) then group % 0x100 - m.count % 0x100
                           else 0
  {
    ReachableHasInv(r, m);
    SlotsAreStages(r, m);
    ErrorOfStage(r, m);
  }

  lemma ErrorOfStage(r: Run, m: Machine)
    requires r.Ok() && Inv(r, m) && m.batchSize > 0
    ensures var p := PointAt(r, m).value;
            Error(r, m) == match p.stage
                           case WantHigh => p.goal - p.moved - m.count
                           case WantLow => (p.goal - p.moved) % 0x100 - m.count % 0x100
                           case _ => 0
  {
    hide CheckAll, Right;
  }

  /** So the driver's sum is right exactly when the counter does not differ from the
      group's length in what is still to be stored. */
  lemma AccountingHoldsExactly(r: Run, m: Machine)
    requires r.Ok() && Reachable(r, m) && m.batchSize > 0
    ensures m.pc <= |r.program| && PointAt(r, m).Some?
    ensures var group := PointAt(r, m).value.goal - PointAt(r, m).value.moved;
            Error(r, m) == 0 <==>
            && (AtCountHigh(r, m) ==> m.count == group)
            && (AtCountLow(r, m) ==> m.count % 0x100 == group % 0x100)
  {
    AccountingEverywhere(r, m);
  }

  /** In every group but the first the counter has run down to 0, so the sum is off
      by the whole group at the first slot, and by its length modulo 256 at the
      second. */
  lemma AccountingIsOffInLaterGroups(r: Run, m: Machine)
    requires r.Ok() && Reachable(r, m) && (AtCountHigh(r, m) || AtCountLow(r, m))
    requires PointAt(r, m).Some? && PointAt(r, m).value.moved > 0
    ensures var group := PointAt(r, m).value.goal - PointAt(r, m).value.moved;
            && group > 0
            && Error(r, m) == if AtCountHigh(r, m) then group else group % 0x100
  {
    ReachableHasInv(r, m);
    SlotsAreStages(r, m);
    GroupIsAhead(r, m.pc);
    ErrorOfStage(r, m);
  }

  /** Until the group is moving, the goal lies ahead. */
  lemma {:induction false} GroupIsAhead(r: Run, k: nat)
    requires r.Ok() && k < |r.program| && CheckAll(r.t, START, r.program[..k]).Some?
    requires CheckAll(r.t, START, r.program[..k]).value.stage in {WantHigh, WantLow}
    ensures var p := CheckAll(r.t, START, r.program[..k]).value; p.moved < p.goal
  {
    assert r.program[..0] == [];
    if k > 0 {
      PrefixChecks(r, k - 1);
      if CheckAll(r.t, START, r.program[..k - 1]).value.stage == WantHigh {
        GroupIsAhead(r, k - 1);
      }
    }
  }

  // ------------------------------------------------------- the interrupt's work

  /** writeBytes on the memory descriptor: by offset into the transfer, nothing
      beyond its end (xnu-123.5/iokit/Kernel/IOMemoryDescriptor.cpp). */
  function WriteBytes(memory: map<nat, byte>, phys: seq<nat>, offset: nat, bytes: seq<byte>): map<nat, byte> {
    if bytes == [] then memory else
    var last := |bytes| - 1;
    var before := WriteBytes(memory, phys, offset, bytes[..last]);
    if offset + last < |phys| then before[phys[offset + last] := bytes[last]] else before
  }

  /** What the handlers leave: user memory and bytesTransferred. */
  datatype Outcome = Outcome(memory: map<nat, byte>, transferred: nat)

  /** updateCurrentIndex; its arithmetic is on UInt32. */
  function UpdatedIndex(t: Batch, m: Machine): Outcome
    requires t.aligned <= |m.side|
  {
    if m.batchSize == 0 then Outcome(m.memory, t.start) else
    var index := U32(t.start + m.batchSize - m.count);
    var memory := WriteBytes(m.memory, t.phys, t.start, m.side[..t.aligned]);
    if m.fifo == [] then Outcome(memory, index) else
    var moved := U32(index - |m.fifo|);
    if t.isWrite then Outcome(memory, moved) else
    var n := Min(U32(|t.phys| - moved), |m.fifo|);
    Outcome(WriteBytes(memory, t.phys, moved, m.fifo[..n]), U32(moved + n))
  }

  /** doInterruptStageGood: the whole batch went through. */
  function CompletedBatch(t: Batch, m: Machine): Outcome
    requires t.aligned <= |m.side|
  {
    Outcome(WriteBytes(m.memory, t.phys, t.start, m.side[..t.aligned]), U32(t.start + m.batchSize))
  }

  /** The same at one address, a byte or none. */
  ghost predicate SameAt(memory: map<nat, byte>, after: map<nat, byte>, addr: nat) {
    (addr in memory <==> addr in after) && (addr in memory ==> memory[addr] == after[addr])
  }

  /** And at no other address does writeBytes change anything. */
  lemma {:induction false} WriteBytesKeeps(memory: map<nat, byte>, phys: seq<nat>, offset: nat, bytes: seq<byte>,
                                           addr: nat)
    requires offset + |bytes| <= |phys| && addr !in phys[offset..offset + |bytes|]
    ensures SameAt(memory, WriteBytes(memory, phys, offset, bytes), addr)
  {
    if bytes != [] {
      var last := |bytes| - 1;
      assert phys[offset + last] == phys[offset..offset + |bytes|][last];
      assert phys[offset..offset + last] == phys[offset..offset + |bytes|][..last];
      WriteBytesKeeps(memory, phys, offset, bytes[..last], addr);
    }
  }

  /** writeBytes changes exactly the bytes it is given. */
  lemma {:induction false} WriteBytesWrites(memory: map<nat, byte>, phys: seq<nat>, offset: nat, bytes: seq<byte>)
    requires Distinct(phys) && offset + |bytes| <= |phys|
    ensures var after := WriteBytes(memory, phys, offset, bytes);
            && (forall o :: offset <= o < offset + |bytes| ==> phys[o] in after && after[phys[o]] == bytes[o - offset])
            && (forall o :: 0 <= o < |phys| && !(offset <= o < offset + |bytes|) && phys[o] in memory ==>
                  phys[o] in after && after[phys[o]] == memory[phys[o]])
  {
    if bytes != [] {
      WriteBytesWrites(memory, phys, offset, bytes[..|bytes| - 1]);
    }
  }

  lemma WriteKeepsHeld(memory: map<nat, byte>, phys: seq<nat>, data: seq<byte>, offset: nat, bytes: seq<byte>, lo: nat,
                       hi: nat)
    requires Distinct(phys) && |data| == |phys| && hi <= |phys| && offset + |bytes| <= |phys|
    requires Held(memory, phys, data, lo, hi) && (hi <= offset || offset + |bytes| <= lo)
    ensures Held(WriteBytes(memory, phys, offset, bytes), phys, data, lo, hi)
  {
    WriteBytesWrites(memory, phys, offset, bytes);
  }

  lemma WriteHolds(memory: map<nat, byte>, phys: seq<nat>, data: seq<byte>, offset: nat, bytes: seq<byte>, n: nat)
    requires Distinct(phys) && |data| == |phys| && offset + |bytes| <= |phys| && n <= |bytes|
    requires bytes[..n] == data[offset..offset + n]
    ensures Held(WriteBytes(memory, phys, offset, bytes), phys, data, offset, offset + n)
  {
    WriteBytesWrites(memory, phys, offset, bytes);
    forall o | offset <= o < offset + n
      ensures bytes[o - offset] == data[o]
    {
      assert bytes[..n][o - offset] == data[offset..offset + n][o - offset];
    }
  }

  lemma HeldSplits(memory: map<nat, byte>, phys: seq<nat>, data: seq<byte>, lo: nat, mid: nat, hi: nat)
    requires mid <= hi <= |phys| == |data|
    requires Held(memory, phys, data, lo, mid) && Held(memory, phys, data, mid, hi)
    ensures Held(memory, phys, data, lo, hi)
  {
  }

  lemma SidePrefix(r: Run, m: Machine, n: nat, k: nat)
    requires r.t.Ok() && |r.data| == |r.t.phys| && r.t.start + n <= |r.t.phys| && Delivered(r, m, n)
    requires k <= n && k <= r.t.aligned
    ensures m.side[..r.t.aligned][..k] == r.data[r.t.start..r.t.start + k]
  {
    hide Held;
    forall o | 0 <= o < k
      ensures m.side[..r.t.aligned][..k][o] == r.data[r.t.start..r.t.start + k][o]
    {
      assert m.side[o] == r.data[r.t.start + o];
    }
  }

  /** Copying the side buffer out completes what the items delivered. */
  lemma SideCompletes(r: Run, m: Machine, n: nat)
    requires r.Ok() && r.t.start + n <= |r.t.phys| && |r.data| == |r.t.phys|
    requires Delivered(r, m, n)
    ensures Held(WriteBytes(m.memory, r.t.phys, r.t.start, m.side[..r.t.aligned]), r.t.phys, r.data,
                 r.t.start, r.t.start + n)
  {
    hide Distinct, WriteBytes;
    var t, side := r.t, m.side[..r.t.aligned];
    var k := Min(n, t.aligned);
    var after := WriteBytes(m.memory, t.phys, t.start, side);
    assert side[..k] == r.data[t.start..t.start + k] by { SidePrefix(r, m, n, k); }
    WriteHolds(m.memory, t.phys, r.data, t.start, side, k);
    if t.aligned < n {
      WriteKeepsHeld(m.memory, t.phys, r.data, t.start, side, t.start + t.aligned, t.start + n);
      HeldSplits(after, t.phys, r.data, t.start, t.start + t.aligned, t.start + n);
    }
  }

  /** Emptying the FIFO by hand delivers the bytes the channel had not taken. */
  lemma DrainCompletes(t: Batch, data: seq<byte>, memory: map<nat, byte>, moved: nat, fifo: seq<byte>)
    requires Distinct(t.phys) && |data| == |t.phys| && t.start <= moved && moved + |fifo| <= |data|
    requires Held(memory, t.phys, data, t.start, moved) && fifo == data[moved..moved + |fifo|]
    ensures Held(WriteBytes(memory, t.phys, moved, fifo), t.phys, data, t.start, moved + |fifo|)
  {
    assert fifo[..|fifo|] == fifo;
    WriteHolds(memory, t.phys, data, moved, fifo, |fifo|);
    WriteKeepsHeld(memory, t.phys, data, moved, fifo, t.start, moved);
    HeldSplits(WriteBytes(memory, t.phys, moved, fifo), t.phys, data, t.start, moved, moved + |fifo|);
  }

  /** When nothing wraps: moved is the offset the channel has reached. */
  lemma UpdatedIndexAt(t: Batch, m: Machine, moved: nat)
    requires t.aligned <= |m.side| && m.batchSize > 0
    requires t.start + m.batchSize - m.count == moved + |m.fifo| <= |t.phys| < UINT32
    ensures var side := WriteBytes(m.memory, t.phys, t.start, m.side[..t.aligned]);
            UpdatedIndex(t, m) ==
            if t.isWrite || m.fifo == [] then Outcome(side, moved)
            else Outcome(WriteBytes(side, t.phys, moved, m.fifo), moved + |m.fifo|)
  {
    hide U32, WriteBytes;
    assert m.fifo[..|m.fifo|] == m.fifo;
  }

  /** What a stopped read has in hand: n bytes delivered, the rest in the FIFO. */
  lemma StoppedRead(r: Run, m: Machine) returns (n: nat)
    requires r.Ok() && Reachable(r, m) && Stopped(r, m) && !r.t.isWrite
    ensures r.t.start + n + |m.fifo| == r.t.start + |m.bus| <= |r.data| == |r.t.phys|
    ensures Delivered(r, m, n)
    ensures m.bus == r.data[r.t.start..r.t.start + |m.bus|]
    ensures m.fifo == r.data[r.t.start + n..r.t.start + n + |m.fifo|]
    ensures if m.batchSize == 0 then m.bus == [] else m.batchSize - m.count == n + |m.fifo|
  {
    ReachableHasInv(r, m);
    AccountingIsExact(r, m);
    n := Passed(PointAt(r, m).value, m);
  }

  /** After updateCurrentIndex, wherever the program stopped, every byte that
      crossed the bus is counted, and on a read is in user memory at its place. */
  lemma StopDelivers(r: Run, m: Machine)
    requires r.Ok() && Reachable(r, m) && Stopped(r, m) && !r.t.isWrite
    ensures |m.side| == 8
    ensures var after := UpdatedIndex(r.t, m);
            && after.transferred == r.t.start + |m.bus| <= |r.data|
            && m.bus == r.data[r.t.start..after.transferred]
            && Held(after.memory, r.t.phys, r.data, r.t.start, after.transferred)
  {
    hide CheckAll, Right, Reachable, Stopped, WriteBytes, Distinct;
    var n := StoppedRead(r, m);
    if m.batchSize > 0 {
      hide UpdatedIndex;
      SideCompletes(r, m, n);
      UpdatedIndexAt(r.t, m, r.t.start + n);
      if m.fifo != [] {
        DrainCompletes(r.t, r.data, WriteBytes(m.memory, r.t.phys, r.t.start, m.side[..r.t.aligned]), r.t.start + n,
                       m.fifo);
      }
    }
  }

  /** On a write the count is what the target took, and memory is untouched. */
  lemma StopCounts(r: Run, m: Machine)
    requires r.Ok() && Reachable(r, m) && Stopped(r, m) && r.t.isWrite
    ensures r.t.aligned == 0
    ensures var after := UpdatedIndex(r.t, m);
            && after.transferred == r.t.start + |m.bus| <= |r.data|
            && m.bus == r.data[r.t.start..after.transferred]
            && after.memory == m.memory && Held(m.memory, r.t.phys, r.data, 0, |r.data|)
  {
    ReachableHasInv(r, m);
    AccountingIsExact(r, m);
    WriteBusIsPrefix(r, m);
    assert m.side[..0] == [];
    if m.batchSize > 0 {
      UpdatedIndexAt(r.t, m, r.t.start + |m.bus|);
      hide UpdatedIndex, CheckAll, Right;
    }
  }

  lemma WriteBusIsPrefix(r: Run, m: Machine)
    requires r.Ok() && Inv(r, m) && r.t.isWrite
    ensures r.t.start + |m.bus| <= |r.data| && m.bus == r.data[r.t.start..r.t.start + |m.bus|]
  {
    var s, n := r.t.start, Passed(PointAt(r, m).value, m);
    assert m.bus == (m.bus + m.fifo)[..|m.bus|];
    assert r.data[s..s + n][..|m.bus|] == r.data[s..s + |m.bus|];
  }

  /** A program that runs to its end moves its whole batch, and the Good
      interrupt's count and copy are then right. */
  lemma GoodDelivers(r: Run, m: Machine)
    requires r.Ok() && Reachable(r, m) && m.pc == |r.program|
    ensures |m.side| >= r.t.aligned
    ensures var end := CheckAll(r.t, START, r.program).value;
            var after := CompletedBatch(r.t, m);
            && after.transferred == r.t.start + |m.bus| == r.t.start + end.moved <= |r.data|
            && m.bus == r.data[r.t.start..after.transferred]
            && Held(after.memory, r.t.phys, r.data, r.t.start, after.transferred)
            && (r.t.isWrite ==> after.memory == m.memory)
  {
    ReachableHasInv(r, m);
    assert r.program[..m.pc] == r.program;
    var n := Passed(PointAt(r, m).value, m);
    if r.t.isWrite {
      WriteBusIsPrefix(r, m);
      assert m.side[..0] == [];
    } else {
      SideCompletes(r, m, n);
    }
  }
}
