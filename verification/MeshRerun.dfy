/** Exactly what a stop or the end of a program leaves in memory, byte by byte, and
    with whatever alignment count the driver still has: a program that is started
    again after a stop finds it cleared (AppleMESH-1.0d1/mesh.cpp,
    doInterruptStageXfer and updateCurrentIndex). */
module MeshRerun {
  import opened Bytes
  import opened Common
  import opened MeshProgram
  import opened MeshMachine
  import opened MeshTransfer

  // ------------------------------------------------------- what a run touches

  /** The places of the first n bytes of the batch, less those set aside. */
  function Touched(t: Batch, n: nat): seq<nat> {
    if t.aligned <= n && t.start + n <= |t.phys| then t.phys[t.start + t.aligned..t.start + n] else []
  }

  /** Nothing but those places has changed. */
  ghost predicate Untouched(t: Batch, n: nat, before: map<nat, byte>, after: map<nat, byte>) {
    forall addr: nat :: addr !in Touched(t, n) ==> SameAt(before, after, addr)
  }

  lemma TouchedGrows(t: Batch, n: nat)
    requires t.start + n < |t.phys|
    ensures forall addr :: addr !in Touched(t, n + 1) ==> addr !in Touched(t, n)
    ensures n >= t.aligned ==> t.phys[t.start + n] in Touched(t, n + 1)
  {
    if n >= t.aligned {
      var more := Touched(t, n + 1);
      assert more == Touched(t, n) + [t.phys[t.start + n]];
      assert more[|more| - 1] == t.phys[t.start + n];
    }
  }

  lemma DmaTouches(r: Run, m: Machine, before: map<nat, byte>)
    requires r.Ok() && MeshMachine.Inv(r, m) && DmaEnabled(r, m) && !r.t.isWrite
    requires Untouched(r.t, Passed(PointAt(r, m).value, m), before, m.memory)
    ensures Untouched(r.t, Passed(PointAt(r, m).value, m) + 1, before, Step(r, m, Dma).memory)
  {
    hide Touched, CheckAll, Right;
    var n := Passed(PointAt(r, m).value, m);
    var m' := Step(r, m, Dma);
    ItemPlace(r, m);
    TouchedGrows(r.t, n);
    forall addr: nat | addr !in Touched(r.t, n + 1)
      ensures SameAt(before, m'.memory, addr)
    {
      assert SameAt(before, m.memory, addr);
    }
  }

  lemma {:induction false} StepsTouch(r: Run, m: Machine, actions: seq<Action>, m': Machine, before: map<nat, byte>)
    requires r.Ok() && !r.t.isWrite && MeshMachine.Inv(r, m) && Steps(r, m, actions, m')
    requires Untouched(r.t, Passed(PointAt(r, m).value, m), before, m.memory)
    ensures MeshMachine.Inv(r, m')
    ensures Untouched(r.t, Passed(PointAt(r, m').value, m'), before, m'.memory)
    decreases |actions|
  {
    hide MeshMachine.Inv, Untouched, Passed, PointAt;
    if actions != [] {
      if actions[0] == Dma {
        DmaTouches(r, m, before);
      }
      StepKeepsInv(r, m, actions[0]);
      StepsTouch(r, Step(r, m, actions[0]), actions[1..], m', before);
    }
  }

  /** A run touches the places of the bytes that have passed, and nothing else. */
  lemma RunTouches(r: Run, m0: Machine, actions: seq<Action>, m: Machine)
    requires r.Ok() && !r.t.isWrite && Launched(r, m0) && Steps(r, m0, actions, m)
    ensures MeshMachine.Inv(r, m)
    ensures Untouched(r.t, Passed(PointAt(r, m).value, m), m0.memory, m.memory)
  {
    LaunchedHasInv(r, m0);
    StepsTouch(r, m0, actions, m, m0.memory);
  }

  // ------------------------------------------------- what the handlers leave

  /** The batch as the handlers see it: left is the alignment count. */
  function Left(t: Batch, left: nat): Batch {
    t.(aligned := left)
  }

  lemma PlaceOutside(phys: seq<nat>, lo: nat, hi: nat, o: nat)
    requires Distinct(phys) && lo <= hi <= |phys| && o < |phys| && !(lo <= o < hi)
    ensures phys[o] !in phys[lo..hi]
  {
    assert forall k :: 0 <= k < hi - lo ==> phys[lo..hi][k] == phys[lo + k];
  }

  /** What is found at offset o of the transfer after a stop: all that crossed the
      bus but the head, the head's side buffer as far as the driver still has its
      count, even where nothing has come, and otherwise what was there. */
  ghost predicate StopLeaves(r: Run, m: Machine, n: nat, left: nat, after: map<nat, byte>, o: nat)
    requires o < |r.t.phys| == |r.data| && left <= |m.side|
  {
    var t, addr := r.t, r.t.phys[o];
    if t.start + n <= o < t.start + |m.bus| then addr in after && after[addr] == r.data[o]
    else if m.batchSize > 0 && t.start <= o < t.start + left then addr in after && after[addr] == m.side[o - t.start]
    else SameAt(m.memory, after, addr)
  }

  lemma StopLeavesAt(r: Run, m: Machine, n: nat, left: nat, o: nat)
    requires r.Ok() && !r.t.isWrite && o < |r.t.phys| && left <= r.t.aligned <= |m.side|
    requires r.t.start + n + |m.fifo| == r.t.start + |m.bus| <= |r.data|
    requires m.fifo == r.data[r.t.start + n..r.t.start + n + |m.fifo|]
    requires if m.batchSize == 0 then m.bus == [] else m.batchSize - m.count == n + |m.fifo|
    ensures StopLeaves(r, m, n, left, UpdatedIndex(Left(r.t, left), m).memory, o)
  {
    hide UpdatedIndex, WriteBytes, Distinct;
    var t, moved, side := Left(r.t, left), r.t.start + n, m.side[..left];
    if m.batchSize == 0 {
      NoBatch(t, m);
    } else {
      UpdatedIndexAt(t, m, moved);
      SideAt(m.memory, t.phys, t.start, side, o);
      if m.fifo != [] {
        SideAt(WriteBytes(m.memory, t.phys, t.start, side), t.phys, moved, m.fifo, o);
      }
    }
  }

  lemma NoBatch(t: Batch, m: Machine)
    requires t.aligned <= |m.side| && m.batchSize == 0
    ensures UpdatedIndex(t, m) == Outcome(m.memory, t.start)
  {
  }

  /** One place after writeBytes. */
  lemma SideAt(memory: map<nat, byte>, phys: seq<nat>, offset: nat, bytes: seq<byte>, o: nat)
    requires Distinct(phys) && offset + |bytes| <= |phys| && o < |phys|
    ensures var after := WriteBytes(memory, phys, offset, bytes);
            if offset <= o < offset + |bytes| then phys[o] in after && after[phys[o]] == bytes[o - offset]
            else SameAt(memory, after, phys[o])
  {
    WriteBytesWrites(memory, phys, offset, bytes);
    if !(offset <= o < offset + |bytes|) {
      PlaceOutside(phys, offset, offset + |bytes|, o);
      WriteBytesKeeps(memory, phys, offset, bytes, phys[o]);
    }
  }

  /** The part of the head that has gone to the side buffer. */
  function HeadPassed(r: Run, m: Machine): nat {
    var n := |m.bus| - |m.fifo|;
    if n < 0 then 0 else if n < r.t.aligned then n else r.t.aligned
  }

  ghost predicate HeadHeld(r: Run, m: Machine, memory: map<nat, byte>)
    requires r.t.Ok() && |r.data| == |r.t.phys|
  {
    Held(memory, r.t.phys, r.data, r.t.start, r.t.start + HeadPassed(r, m))
  }

  /** What a stopped read has in hand, and what it has touched since memory was
      before. */
  lemma StoppedFrom(r: Run, before: map<nat, byte>, m: Machine) returns (n: nat)
    requires r.Ok() && ReachedFrom(r, before, m) && Stopped(r, m) && !r.t.isWrite
    ensures r.t.start + n + |m.fifo| == r.t.start + |m.bus| <= |r.data| == |r.t.phys|
    ensures Delivered(r, m, n)
    ensures m.bus == r.data[r.t.start..r.t.start + |m.bus|]
    ensures m.fifo == r.data[r.t.start + n..r.t.start + n + |m.fifo|]
    ensures if m.batchSize == 0 then m.bus == [] else m.batchSize - m.count == n + |m.fifo|
    ensures Untouched(r.t, n, before, m.memory)
  {
    hide Stopped, Untouched;
    var m0, actions :| Launched(r, m0) && m0.memory == before && Steps(r, m0, actions, m);
    assert Reachable(r, m);
    n := StoppedRead(r, m);
    RunTouches(r, m0, actions, m);
  }

  /** The count and the bytes on the bus do not depend on the alignment count. */
  lemma StopCountsRead(r: Run, before: map<nat, byte>, m: Machine, left: nat)
    requires r.Ok() && ReachedFrom(r, before, m) && Stopped(r, m) && !r.t.isWrite && left <= r.t.aligned
    ensures |m.side| == 8
    ensures UpdatedIndex(Left(r.t, left), m).transferred == r.t.start + |m.bus| <= |r.data|
    ensures m.bus == r.data[r.t.start..r.t.start + |m.bus|]
  {
    hide Stopped, Untouched, WriteBytes, ReachedFrom, Delivered;
    var n := StoppedFrom(r, before, m);
    assert |m.side| == 8 by { SideIsEight(r, m, n); }
    if m.batchSize > 0 {
      UpdatedIndexAt(Left(r.t, left), m, r.t.start + n);
    }
  }

  lemma SideIsEight(r: Run, m: Machine, n: nat)
    requires r.Ok() && r.t.start + n <= |r.t.phys| && Delivered(r, m, n)
    ensures |m.side| == 8
  {
  }

  /** One place that was already there, after a run and a stop. */
  lemma OldPlace(r: Run, before: map<nat, byte>, m: Machine, n: nat, o: nat)
    requires r.Ok() && o < |r.t.phys| && r.t.start + n <= |r.t.phys| && Untouched(r.t, n, before, m.memory)
    requires !(r.t.start + r.t.aligned <= o < r.t.start + n)
    ensures SameAt(before, m.memory, r.t.phys[o])
  {
    if r.t.aligned <= n {
      PlaceOutside(r.t.phys, r.t.start + r.t.aligned, r.t.start + n, o);
    }
  }

  /** After updateCurrentIndex everything up to bytesTransferred is in memory exactly
      when everything before the batch was, and either the driver had the alignment
      count of the batch or the part of the head that went to the side buffer was in
      memory as well. */
  lemma StopDeliversExactly(r: Run, before: map<nat, byte>, m: Machine, left: nat)
    requires r.Ok() && ReachedFrom(r, before, m) && Stopped(r, m) && !r.t.isWrite
    requires left == r.t.aligned || left == 0
    ensures |m.side| == 8
    ensures var after := UpdatedIndex(Left(r.t, left), m);
            && after.transferred == r.t.start + |m.bus| <= |r.data|
            && m.bus == r.data[r.t.start..after.transferred]
            && (Held(after.memory, r.t.phys, r.data, 0, after.transferred) <==>
                && Held(before, r.t.phys, r.data, 0, r.t.start)
                && (left == r.t.aligned || HeadHeld(r, m, before)))
  {
    hide Stopped, Untouched, UpdatedIndex, ReachedFrom, Distinct, Delivered;
    StopCountsRead(r, before, m, left);
    var n := StoppedFrom(r, before, m);
    var after := UpdatedIndex(Left(r.t, left), m).memory;
    forall o | 0 <= o < r.t.start + |m.bus|
      ensures if IsOld(r, m, left, o) then SameAt(before, after, r.t.phys[o])
              else r.t.phys[o] in after && after[r.t.phys[o]] == r.data[o]
    {
      PlaceAfterStop(r, before, m, n, left, o);
    }
  }

  /** What the run and the stop have not written: what comes before the batch, and the
      part of the head that stays in the side buffer. */
  predicate IsOld(r: Run, m: Machine, left: nat, o: nat) {
    o < r.t.start || (o < r.t.start + HeadPassed(r, m) && left != r.t.aligned)
  }

  /** One place below bytesTransferred after a stop. */
  ghost predicate PlaceAfter(r: Run, before: map<nat, byte>, m: Machine, left: nat, after: map<nat, byte>, o: nat)
    requires o < |r.t.phys| == |r.data|
  {
    if IsOld(r, m, left, o) then SameAt(before, after, r.t.phys[o])
    else r.t.phys[o] in after && after[r.t.phys[o]] == r.data[o]
  }

  lemma PlaceAfterStop(r: Run, before: map<nat, byte>, m: Machine, n: nat, left: nat, o: nat)
    requires r.Ok() && !r.t.isWrite && o < r.t.start + |m.bus| && (left == r.t.aligned || left == 0)
    requires r.t.start + n + |m.fifo| == r.t.start + |m.bus| <= |r.data| && |m.side| == 8
    requires m.fifo == r.data[r.t.start + n..r.t.start + n + |m.fifo|]
    requires if m.batchSize == 0 then m.bus == [] else m.batchSize - m.count == n + |m.fifo|
    requires Delivered(r, m, n)
    requires Untouched(r.t, n, before, m.memory)
    ensures PlaceAfter(r, before, m, left, UpdatedIndex(Left(r.t, left), m).memory, o)
  {
    hide Untouched, UpdatedIndex, Distinct;
    StopLeavesAt(r, m, n, left, o);
    if IsOld(r, m, left, o) || o < r.t.start + HeadPassed(r, m) {
      OldPlace(r, before, m, n, o);
    }
  }

  /** What a stop does beyond the bytes it counts: the rest of a head that has not
      come is overwritten with whatever the side buffer holds; everything else is as
      it was before the run. */
  lemma StopFrame(r: Run, before: map<nat, byte>, m: Machine, left: nat, o: nat)
    requires r.Ok() && ReachedFrom(r, before, m) && Stopped(r, m) && !r.t.isWrite
    requires left == r.t.aligned || left == 0
    requires o < |r.t.phys| && !(r.t.start <= o < r.t.start + |m.bus|)
    ensures |m.side| == 8
    ensures var after, addr := UpdatedIndex(Left(r.t, left), m).memory, r.t.phys[o];
            if m.batchSize > 0 && r.t.start <= o < r.t.start + left then
              addr in after && after[addr] == m.side[o - r.t.start]
            else SameAt(before, after, addr)
  {
    StopCountsRead(r, before, m, left);
    hide Stopped, Untouched, UpdatedIndex, ReachedFrom, Distinct;
    var n := StoppedFrom(r, before, m);
    StopLeavesAt(r, m, n, left, o);
    OldPlace(r, before, m, n, o);
  }

  /** A program that ran to its end is counted by doInterruptStageGood as
      updateCurrentIndex would. */
  lemma EndIsAStop(r: Run, m: Machine, left: nat)
    requires r.Ok() && Reachable(r, m) && m.pc == |r.program| && left <= |m.side|
    requires m.batchSize > 0 || left == 0
    ensures CompletedBatch(Left(r.t, left), m) == UpdatedIndex(Left(r.t, left), m)
    ensures Stopped(r, m) && m.fifo == []
  {
    ReachableHasInv(r, m);
    assert r.program[..m.pc] == r.program;
    assert m.side[..0] == [];
    hide CheckAll;
  }
}
