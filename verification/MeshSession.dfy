/** A whole transfer: batch after batch, stopped and resumed wherever the target
    pleases, with the SCSI pointers moving under messages in between
    (AppleMESH-1.0d1/mesh.cpp; SCSI-2, section 6.4). */
module MeshSession {
  import opened Bytes
  import opened Common
  import opened MeshProgram
  import opened MeshCompiler
  import opened MeshMachine
  import opened MeshTransfer
  import opened MeshRerun

  /** One command's data: contents, memory layout, direction. */
  datatype Transfer = Transfer(cursor: Cursor, phys: seq<nat>, data: seq<byte>, isWrite: bool, limit: nat, sync: bool) {
    ghost predicate Ok() {
      Contract(cursor, phys) && Distinct(phys) && |data| == |phys| < UINT32 && limit > 0
    }
  }

  /** The initiator's pointers, the target's own, what the target has received of a
      write, where the compiled program starts and the alignment count that is left
      of it. */
  datatype Session = Session(memory: map<nat, byte>, transferred: nat, saved: nat,
                             target: nat, targetSaved: nat, received: seq<byte>, start: nat, aligned: nat)

  datatype Event =
    | Good(m: Machine)      // the program of one batch ran to its end
    | Stop(m: Machine)      // it was stopped on the way
    | Save                  // the Save Data Pointer message
    | Restore               // the Restore Pointers message
    | Reconnect             // the target disconnected and came back

  /** The alignment count updateCP leaves for a batch that starts here. */
  function AlignedAt(x: Transfer, start: nat): nat {
    AlignmentOf(x.cursor, x.phys, start, x.isWrite)
  }

  /** updateCP: executeCommand, the Good interrupt and a reselection call it, and
      nothing else does. */
  function Recompiled(x: Transfer, s: Session): Session {
    s.(start := s.transferred, aligned := AlignedAt(x, s.transferred))
  }

  function RunOf(x: Transfer, start: nat): Run
    requires start <= |x.phys|
  {
    Run(BatchOf(x.cursor, x.phys, start, x.isWrite),
        Program(x.cursor, x.phys, start, x.isWrite, x.limit, x.sync), x.data)
  }

  /** The handler's outcome o, after the target moved on by what crossed the bus. */
  function Moved(x: Transfer, s: Session, o: Outcome, bus: seq<byte>): Session {
    s.(memory := o.memory, transferred := o.transferred, target := s.target + |bus|,
       received := if x.isWrite then s.received + bus else s.received)
  }

  /** The batch as the interrupt code sees it. */
  function Seen(x: Transfer, s: Session): Batch
    requires s.start <= |x.phys|
  {
    Left(RunOf(x, s.start).t, s.aligned)
  }

  /** The target goes back to its saved pointer and forgets what it took since. */
  function TargetRewound(s: Session): Session {
    s.(target := s.targetSaved,
       received := if s.targetSaved <= |s.received| then s.received[..s.targetSaved] else s.received)
  }

  /** The compiled program runs, for the first time or again, only when the two sides
      are at the same place and bytesTransferred is where the program starts. */
  ghost predicate Runs(x: Transfer, s: Session, m: Machine) {
    && s.target == s.transferred == s.start <= |x.phys|
    && Compilable(x.cursor, x.phys, s.start, x.isWrite)
    && var r := RunOf(x, s.start);
       r.Ok() && ReachedFrom(r, s.memory, m) && r.t.aligned <= |m.side| && s.aligned <= |m.side|
  }

  ghost predicate Step(x: Transfer, s: Session, e: Event, s': Session) {
    match e
    case Good(m) =>
      && Runs(x, s, m) && m.pc == |RunOf(x, s.start).program|
      && s' == Recompiled(x, Moved(x, s, CompletedBatch(Seen(x, s), m), m.bus))
    case Stop(m) =>
      && Runs(x, s, m) && Stopped(RunOf(x, s.start), m)
      && s' == Moved(x, s, UpdatedIndex(Seen(x, s), m), m.bus).(aligned := if m.batchSize > 0 then 0 else s.aligned)
    case Save => s' == s.(saved := s.transferred, targetSaved := s.target)
    case Restore => s' == TargetRewound(s).(transferred := s.saved)
    case Reconnect => s' == Recompiled(x, TargetRewound(s))
  }

  /** The pointers are consistent, and a write has sent what the target's says. */
  ghost predicate Pointers(x: Transfer, s: Session)
    requires x.Ok()
  {
    && s.saved <= s.transferred <= |x.data|
    && s.saved == s.targetSaved <= s.target <= |x.data|
    && s.start <= |x.data| && (s.aligned == AlignedAt(x, s.start) || s.aligned == 0)
    && (if x.isWrite then s.received == x.data[..s.target] && Held(s.memory, x.phys, x.data, 0, |x.data|)
        else s.received == [])
  }

  /** A read has everything below bytesTransferred in memory. */
  ghost predicate InPlace(x: Transfer, s: Session)
    requires x.Ok() && s.transferred <= |x.data|
  {
    x.isWrite || Held(s.memory, x.phys, x.data, 0, s.transferred)
  }

  /** The two sides agree where they are. */
  predicate Agree(s: Session) {
    s.target == s.transferred
  }

  lemma RunIsOk(x: Transfer, start: nat)
    requires x.Ok() && start <= |x.phys| && Compilable(x.cursor, x.phys, start, x.isWrite)
    ensures RunOf(x, start).Ok()
  {
    RightExactlyWhenCompilable(x.cursor, x.phys, start, x.isWrite, x.limit, x.sync);
  }

  /** What a run that ends or stops does to the pointers. */
  lemma MovedKeepsPointers(x: Transfer, s: Session, o: Outcome, bus: seq<byte>, s': Session)
    requires x.Ok() && Pointers(x, s) && Agree(s)
    requires o.transferred == s.transferred + |bus| <= |x.data| && bus == x.data[s.transferred..o.transferred]
    requires x.isWrite ==> o.memory == s.memory
    requires s' == Moved(x, s, o, bus).(start := s'.start, aligned := s'.aligned)
    requires s'.start <= |x.data| && (s'.aligned == AlignedAt(x, s'.start) || s'.aligned == 0)
    ensures Pointers(x, s') && Agree(s')
  {
    assert x.data[..s.transferred] + x.data[s.transferred..o.transferred] == x.data[..o.transferred];
  }

  /** Runs do not touch the memory of a write. */
  lemma {:induction false} WriteStepsKeepMemory(r: Run, m: Machine, actions: seq<Action>, m': Machine)
    requires r.t.isWrite && Steps(r, m, actions, m')
    ensures m'.memory == m.memory
    decreases |actions|
  {
    if actions != [] {
      WriteStepsKeepMemory(r, MeshMachine.Step(r, m, actions[0]), actions[1..], m');
    }
  }

  lemma RunsReach(x: Transfer, s: Session, m: Machine)
    requires x.Ok() && Runs(x, s, m)
    ensures Reachable(RunOf(x, s.start), m)
    ensures x.isWrite ==> m.memory == s.memory
  {
    var r := RunOf(x, s.start);
    var m0, actions :| Launched(r, m0) && m0.memory == s.memory && Steps(r, m0, actions, m);
    if x.isWrite {
      WriteStepsKeepMemory(r, m0, actions, m);
    }
  }

  /** The batch of a program that has run to its end is not empty, or has no head. */
  lemma EndHasStored(x: Transfer, s: Session, m: Machine)
    requires x.Ok() && Runs(x, s, m) && m.pc == |RunOf(x, s.start).program|
    ensures m.batchSize > 0 || AlignedAt(x, s.start) == 0
  {
    hide Right, Build, Finish, Contract, Compilable, Distinct, ReachedFrom, Held;
    var r := RunOf(x, s.start);
    RunsReach(x, s, m);
    ReachableHasInv(r, m);
    assert r.program[..m.pc] == r.program;
    ProgramIsRight(x.cursor, x.phys, s.start, x.isWrite, x.limit, x.sync);
  }

  /** A run keeps the head of its batch: the driver still has its alignment count, or
      the part that passed the side buffer was in memory already. */
  ghost predicate KeepsHead(x: Transfer, s: Session, e: Event) {
    match e
    case Good(m) => Runs(x, s, m) ==> s.aligned == AlignedAt(x, s.start) || HeadHeld(RunOf(x, s.start), m, s.memory)
    case Stop(m) => Runs(x, s, m) ==> s.aligned == AlignedAt(x, s.start) || HeadHeld(RunOf(x, s.start), m, s.memory)
    case _ => true
  }

  lemma GoodStep(x: Transfer, s: Session, m: Machine, s': Session)
    requires x.Ok() && Pointers(x, s) && Agree(s) && Step(x, s, Good(m), s')
    ensures Pointers(x, s') && Agree(s')
    ensures InPlace(x, s') <==> InPlace(x, s) && KeepsHead(x, s, Good(m))
  {
    hide ReachedFrom, Right, CheckAll, WriteBytes, CompletedBatch, UpdatedIndex, Compilable, Contract, Held, HeadHeld,
         Distinct, Stopped;
    var r := RunOf(x, s.start);
    RunsReach(x, s, m);
    GoodDelivers(r, m);
    if !x.isWrite {
      EndHasStored(x, s, m);
      EndIsAStop(r, m, s.aligned);
      StopDeliversExactly(r, s.memory, m, s.aligned);
    }
    MovedKeepsPointers(x, s, CompletedBatch(Seen(x, s), m), m.bus, s');
  }

  lemma StopStep(x: Transfer, s: Session, m: Machine, s': Session)
    requires x.Ok() && Pointers(x, s) && Agree(s) && Step(x, s, Stop(m), s')
    ensures Pointers(x, s') && Agree(s')
    ensures InPlace(x, s') <==> InPlace(x, s) && KeepsHead(x, s, Stop(m))
  {
    hide ReachedFrom, Right, CheckAll, WriteBytes, UpdatedIndex, Compilable, Contract, Held, HeadHeld;
    hide Distinct, Stopped;
    var r := RunOf(x, s.start);
    RunsReach(x, s, m);
    if x.isWrite {
      StopCounts(r, m);
    } else {
      StopDeliversExactly(r, s.memory, m, s.aligned);
    }
    MovedKeepsPointers(x, s, UpdatedIndex(Seen(x, s), m), m.bus, s');
  }

  /** When everything below bytesTransferred is in place after an event. */
  ghost predicate EndsInPlace(x: Transfer, s: Session, e: Event)
    requires x.Ok() && Pointers(x, s)
  {
    if e.Restore? then x.isWrite || Held(s.memory, x.phys, x.data, 0, s.saved)
    else InPlace(x, s) && KeepsHead(x, s, e)
  }

  /** Every event keeps the pointers of both sides consistent, and leaves them agreed
      unless it is a reconnection that no save preceded; what is below bytesTransferred
      is in place afterwards exactly when it was before and the head was kept. */
  lemma StepExactly(x: Transfer, s: Session, e: Event, s': Session)
    requires x.Ok() && Pointers(x, s) && Agree(s) && Step(x, s, e, s')
    ensures Pointers(x, s')
    ensures InPlace(x, s') <==> EndsInPlace(x, s, e)
    ensures Agree(s') <==> (e.Reconnect? ==> s.saved == s.transferred)
  {
    match e
    case Good(m) => GoodStep(x, s, m, s');
    case Stop(m) => StopStep(x, s, m, s');
    case Save =>
    case Restore =>
    case Reconnect =>
  }

  /** A run of events in which the target saves before it disconnects. */
  ghost predicate Orderly(x: Transfer, s: Session, events: seq<Event>, states: seq<Session>, s': Session)
    requires |events| == |states|
    decreases |events|
  {
    if events == [] then s' == s else
    && Step(x, s, events[0], states[0])
    && (events[0].Reconnect? ==> s.saved == s.transferred)
    && Orderly(x, states[0], events[1..], states[1..], s')
  }

  /** A command that updateCP has just compiled. */
  function Begin(x: Transfer, memory: map<nat, byte>): Session {
    Recompiled(x, Session(memory, 0, 0, 0, 0, [], 0, 0))
  }

  ghost predicate KeepsHeads(x: Transfer, s: Session, events: seq<Event>, states: seq<Session>)
    requires |events| == |states|
    decreases |events|
  {
    events != [] ==> KeepsHead(x, s, events[0]) && KeepsHeads(x, states[0], events[1..], states[1..])
  }

  lemma {:induction false} OrderlyKeeps(x: Transfer, s: Session, events: seq<Event>, states: seq<Session>, s': Session)
    requires x.Ok() && Pointers(x, s) && Agree(s) && |events| == |states| && Orderly(x, s, events, states, s')
    ensures Pointers(x, s') && Agree(s')
    ensures InPlace(x, s) && KeepsHeads(x, s, events, states) ==> InPlace(x, s')
    decreases |events|
  {
    hide Pointers, InPlace, Step, KeepsHead, Agree;
    if events != [] {
      StepExactly(x, s, events[0], states[0]);
      RestoreShrinks(x, s);
      OrderlyKeeps(x, states[0], events[1..], states[1..], s');
    }
  }

  lemma RestoreShrinks(x: Transfer, s: Session)
    requires x.Ok() && Pointers(x, s)
    ensures InPlace(x, s) ==> EndsInPlace(x, s, Restore)
  {
  }

  /** Wherever the target stops, saves, restores and resumes, as long as every run
      keeps its head: once bytesTransferred reaches xferCount a read has every byte in
      its place; and in any case a write has given the target every byte once and in
      order. */
  lemma EveryByteArrives(x: Transfer, memory: map<nat, byte>, events: seq<Event>, states: seq<Session>, s: Session)
    requires x.Ok() && |events| == |states| && Orderly(x, Begin(x, memory), events, states, s)
    requires x.isWrite ==> Held(memory, x.phys, x.data, 0, |x.data|)
    requires s.transferred == |x.data|
    ensures x.isWrite ==> s.received == x.data
    ensures !x.isWrite && KeepsHeads(x, Begin(x, memory), events, states) ==>
              Held(s.memory, x.phys, x.data, 0, |x.data|)
  {
    OrderlyKeeps(x, Begin(x, memory), events, states, s);
  }

  /** And that is exact.  In an orderly session everything below bytesTransferred is in
      place after every event if and only if every run keeps its head. */
  lemma {:induction false} InPlaceExactly(x: Transfer, s: Session, events: seq<Event>, states: seq<Session>,
      s': Session)
    requires x.Ok() && Pointers(x, s) && InPlace(x, s) && Agree(s)
    requires |events| == |states| && Orderly(x, s, events, states, s')
    ensures KeepsHeads(x, s, events, states) <==>
            forall i :: 0 <= i < |states| ==> states[i].transferred <= |x.data| && InPlace(x, states[i])
    decreases |events|
  {
    hide Pointers, InPlace, Step, KeepsHead, Agree;
    if events != [] {
      StepExactly(x, s, events[0], states[0]);
      RestoreShrinks(x, s);
      WithinTransfer(x, states[0]);
      if InPlace(x, states[0]) {
        InPlaceExactly(x, states[0], events[1..], states[1..], s');
        KeptIfInPlace(x, s, events[0]);
        assert forall i :: 0 < i < |states| ==> states[i] == states[1..][i - 1];
        assert forall i :: 0 <= i < |states| - 1 ==> states[1..][i] == states[i + 1];
      }
    }
  }

  lemma WithinTransfer(x: Transfer, s: Session)
    requires x.Ok() && Pointers(x, s)
    ensures s.transferred <= |x.data|
  {
  }

  lemma KeptIfInPlace(x: Transfer, s: Session, e: Event)
    requires x.Ok() && Pointers(x, s) && EndsInPlace(x, s, e)
    ensures KeepsHead(x, s, e)
  {
  }

  /** Without Restore Pointers a lost head stays lost: the read is complete in the end
      if and only if every run kept its head. */
  lemma {:induction false} CompleteExactly(x: Transfer, s: Session, events: seq<Event>, states: seq<Session>,
      s': Session)
    requires x.Ok() && Pointers(x, s) && Agree(s)
    requires |events| == |states| && Orderly(x, s, events, states, s')
    requires forall i :: 0 <= i < |events| ==> !events[i].Restore?
    ensures s'.transferred <= |x.data|
    ensures InPlace(x, s') <==> InPlace(x, s) && KeepsHeads(x, s, events, states)
    decreases |events|
  {
    hide Pointers, InPlace, Step, KeepsHead, Agree;
    WithinTransfer(x, s);
    if events != [] {
      StepExactly(x, s, events[0], states[0]);
      CompleteExactly(x, states[0], events[1..], states[1..], s');
    }
  }

  // ----------------------------------------------------- restarting is total

  /** The bytes updateCP compiles at this point. */
  function BatchLength(x: Transfer, start: nat): nat
    requires start <= |x.phys|
  {
    Build(x.cursor, start, x.isWrite, x.limit, Initial(|x.phys| - start)).total
  }

  /** Every batch that whole batches lead to can be compiled. */
  ghost predicate Continuable(x: Transfer, start: nat)
    decreases |x.phys| - start
  {
    start < |x.phys| ==>
      && Compilable(x.cursor, x.phys, start, x.isWrite)
      && var n := BatchLength(x, start); 0 < n ==> Continuable(x, start + n)
  }

  lemma SameCount(t: Batch, m: Machine, left: nat)
    requires t.aligned <= |m.side| && left <= |m.side|
    ensures CompletedBatch(Left(t, left), m).transferred == CompletedBatch(t, m).transferred
  {
  }

  /** A Good interrupt advances bytesTransferred by the batch that was compiled. */
  lemma GoodAdvances(x: Transfer, s: Session, m: Machine, s': Session)
    requires x.Ok() && Pointers(x, s) && Agree(s) && Step(x, s, Good(m), s')
    ensures s'.transferred == s.transferred + BatchLength(x, s.transferred) == s.transferred + |m.bus|
    ensures s.transferred < |x.data| ==> s.transferred < s'.transferred <= |x.data|
    ensures AlignedAt(x, s.start) <= |m.bus|
  {
    hide CheckAll, Right, Build, Finish, WriteBytes, CompletedBatch, ReachedFrom, Compilable, Contract, Held;
    var r := RunOf(x, s.start);
    RunsReach(x, s, m);
    GoodDelivers(r, m);
    SameCount(r.t, m, s.aligned);
    ProgramIsRight(x.cursor, x.phys, s.start, x.isWrite, x.limit, x.sync);
  }

  /** Where the channel is when a program has run to its end: at the interrupt while
      bytes remain, and only once all of them are through at what fetches the status,
      by way of the bit bucket if the transfer is synchronous.  The chip is done. */
  lemma EndsWhereItShould(x: Transfer, s: Session, m: Machine, s': Session)
    requires x.Ok() && Pointers(x, s) && Agree(s) && Step(x, s, Good(m), s')
    ensures var program := RunOf(x, s.start).program;
            && program != []
            && program[|program| - 1] ==
               BranchAlways(if s'.transferred < |x.data| then MESHIntr
                            else if x.sync && s.start < |x.data| then Overrun
                            else GetStatus)
    ensures !m.active && m.fifo == []
  {
    hide CheckAll, Right, Build, WriteBytes, CompletedBatch, ReachedFrom, Compilable, Contract, Held;
    GoodAdvances(x, s, m, s');
    ProgramEndsExactly(x.cursor, x.phys, s.start, x.isWrite, x.limit, x.sync);
    EndIsIdle(x, s, m);
  }

  lemma EndIsIdle(x: Transfer, s: Session, m: Machine)
    requires x.Ok() && Runs(x, s, m) && m.pc == |RunOf(x, s.start).program|
    ensures !m.active && m.fifo == []
  {
    hide Build, Finish, Contract, Compilable, Distinct, ReachedFrom, Held;
    var r := RunOf(x, s.start);
    RunsReach(x, s, m);
    ReachableHasInv(r, m);
    assert r.program[..m.pc] == r.program;
  }

  /** updateCP has just been called. */
  predicate Fresh(x: Transfer, s: Session) {
    s.start == s.transferred && s.aligned == AlignedAt(x, s.start)
  }

  /** A compiled program can always be run to its end. */
  lemma BatchCanRun(x: Transfer, s: Session) returns (m: Machine, s': Session)
    requires x.Ok() && Pointers(x, s) && Agree(s) && s.start == s.transferred
    requires Compilable(x.cursor, x.phys, s.start, x.isWrite)
    ensures Step(x, s, Good(m), s')
  {
    hide CheckAll, Right, WriteBytes, CompletedBatch, Contract, Compilable, Held, Distinct, Build, Finish;
    var r := RunOf(x, s.start);
    RunIsOk(x, s.start);
    var side: seq<byte> := seq(8, i => 0);
    var m0 := Machine(0, 0, 0, 0, false, [], [], s.memory, side);
    LaunchedHasInv(r, m0);
    var actions;
    actions, m := EveryRunCanComplete(r, m0);
    assert ReachedFrom(r, s.memory, m);
    assert Reachable(r, m);
    GoodDelivers(r, m);
    s' := Recompiled(x, Moved(x, s, CompletedBatch(Seen(x, s), m), m.bus));
  }

  lemma NextBatch(x: Transfer, s: Session) returns (m: Machine, s': Session)
    requires x.Ok() && Pointers(x, s) && Agree(s) && Fresh(x, s)
    requires s.transferred < |x.data| && Continuable(x, s.transferred)
    ensures Step(x, s, Good(m), s') && Pointers(x, s') && Agree(s') && Fresh(x, s')
    ensures s.transferred < s'.transferred <= |x.data| && Continuable(x, s'.transferred)
  {
    hide Step, Pointers, Contract, Compilable, BatchLength, Runs;
    m, s' := BatchCanRun(x, s);
    GoodAdvances(x, s, m, s');
    GoodStep(x, s, m, s');
    GoodIsFresh(x, s, m, s');
  }

  lemma GoodIsFresh(x: Transfer, s: Session, m: Machine, s': Session)
    requires Step(x, s, Good(m), s')
    ensures Fresh(x, s')
  {
  }

  lemma OrderlyCons(x: Transfer, s: Session, e: Event, s1: Session, events: seq<Event>, states: seq<Session>,
                    end: Session)
    requires |events| == |states| && Step(x, s, e, s1) && !e.Reconnect? && Orderly(x, s1, events, states, end)
    ensures Orderly(x, s, [e] + events, [s1] + states, end)
  {
    hide Step;
    assert ([e] + events)[1..] == events && ([s1] + states)[1..] == states;
  }

  /** Run, take the Good interrupt, rebuild: repeating this ends with
      bytesTransferred equal to xferCount. */
  lemma {:induction false} RestartIsTotal(x: Transfer, s: Session)
    returns (events: seq<Event>, states: seq<Session>, end: Session)
    requires x.Ok() && Pointers(x, s) && Agree(s) && Fresh(x, s) && Continuable(x, s.transferred)
    ensures |events| == |states| && Orderly(x, s, events, states, end)
    ensures forall i :: 0 <= i < |events| ==> events[i].Good?
    ensures end.transferred == |x.data| && |events| <= |x.data| - s.transferred
    decreases |x.data| - s.transferred
  {
    hide Step, Continuable;
    if s.transferred == |x.data| {
      events, states, end := [], [], s;
    } else {
      var m, s1 := NextBatch(x, s);
      var later, laterStates;
      later, laterStates, end := RestartIsTotal(x, s1);
      OrderlyCons(x, s, Good(m), s1, later, laterStates, end);
      events, states := [Good(m)] + later, [s1] + laterStates;
    }
  }

  // ------------------------------------------------------- a program run again

  /** The head of the batch at s has all its bytes right in the side buffer of m. */
  predicate SideIsRight(x: Transfer, s: Session, m: Machine)
    requires s.start + AlignedAt(x, s.start) <= |x.data| && AlignedAt(x, s.start) <= |m.side|
  {
    m.side[..AlignedAt(x, s.start)] == x.data[s.start..s.start + AlignedAt(x, s.start)]
  }

  /** Where a read stands that was stopped before its first byte. */
  lemma StoppedAtStart(x: Transfer, s: Session, m: Machine, s': Session)
    requires x.Ok() && Pointers(x, s) && Agree(s) && !x.isWrite && s.aligned == AlignedAt(x, s.start)
    requires Step(x, s, Stop(m), s') && m.bus == []
    ensures Pointers(x, s') && Agree(s') && s'.transferred == s'.start == s.start == s.transferred
    ensures InPlace(x, s') <==> InPlace(x, s)
    ensures s'.aligned == if m.batchSize > 0 then 0 else s.aligned
    ensures s.start + AlignedAt(x, s.start) <= |x.data| && |m.side| == 8 && AlignedAt(x, s.start) <= 8
  {
    StopStep(x, s, m, s');
    StopDeliversExactly(RunOf(x, s.start), s.memory, m, s.aligned);
    hide UpdatedIndex, ReachedFrom, Stopped, Held;
  }

  /** The head's places then hold what the side buffer held. */
  lemma HeadPlaces(x: Transfer, s: Session, m: Machine, s': Session)
    requires x.Ok() && Pointers(x, s) && Agree(s) && !x.isWrite && s.aligned == AlignedAt(x, s.start)
    requires Step(x, s, Stop(m), s') && m.bus == [] && m.batchSize > 0
    requires s.start + AlignedAt(x, s.start) <= |x.data|
    ensures AlignedAt(x, s.start) <= |m.side|
    ensures forall o :: s.start <= o < s.start + AlignedAt(x, s.start) ==>
              x.phys[o] in s'.memory && s'.memory[x.phys[o]] == m.side[o - s.start]
  {
    hide UpdatedIndex, ReachedFrom, Stopped, Held, Distinct;
    var r, a := RunOf(x, s.start), AlignedAt(x, s.start);
    forall o | s.start <= o < s.start + a
      ensures x.phys[o] in s'.memory && s'.memory[x.phys[o]] == m.side[o - s.start]
    {
      StopFrame(r, s.memory, m, s.aligned, o);
    }
  }

  lemma HeadAfterStop(x: Transfer, s: Session, m: Machine, s': Session)
    requires x.Ok() && Pointers(x, s) && Agree(s) && !x.isWrite && s.aligned == AlignedAt(x, s.start)
    requires Step(x, s, Stop(m), s') && m.bus == [] && m.batchSize > 0
    requires s.start + AlignedAt(x, s.start) <= |x.data| && AlignedAt(x, s.start) <= |m.side|
    ensures Held(s'.memory, x.phys, x.data, s.start, s.start + AlignedAt(x, s.start)) <==> SideIsRight(x, s, m)
  {
    hide Step, Pointers, InPlace, Held, AlignedAt, Contract, Distinct, Agree;
    HeadPlaces(x, s, m, s');
    SidePlaces(s'.memory, x.phys, x.data, m.side, s.start, AlignedAt(x, s.start));
  }

  lemma SidePlaces(memory: map<nat, byte>, phys: seq<nat>, data: seq<byte>, side: seq<byte>, start: nat, a: nat)
    requires |phys| == |data| && start + a <= |data| && a <= |side|
    requires forall o :: start <= o < start + a ==> phys[o] in memory && memory[phys[o]] == side[o - start]
    ensures Held(memory, phys, data, start, start + a) <==> side[..a] == data[start..start + a]
  {
    if Held(memory, phys, data, start, start + a) {
      forall i | 0 <= i < a
        ensures side[..a][i] == data[start..start + a][i]
      {
        assert memory[phys[start + i]] == data[start + i];
      }
    } else {
      var o :| start <= o < start + a && !(phys[o] in memory && memory[phys[o]] == data[o]);
      assert side[..a][o - start] != data[start..start + a][o - start];
    }
  }

  /** A read whose target sends a message before its first byte and then goes on: the
      program that is started again delivers everything if and only if the batch has
      no misaligned head, or the stop came before the batch size was stored, or the
      side buffer happened to hold the head when it was copied out at the stop. */
  lemma RerunDeliversExactly(x: Transfer, s: Session, m1: Machine, s1: Session, m2: Machine, s2: Session)
    requires x.Ok() && Pointers(x, s) && InPlace(x, s) && Agree(s) && !x.isWrite && s.aligned == AlignedAt(x, s.start)
    requires Step(x, s, Stop(m1), s1) && m1.bus == [] && Step(x, s1, Good(m2), s2)
    ensures s.start + AlignedAt(x, s.start) <= s2.transferred <= |x.data| && AlignedAt(x, s.start) <= |m1.side|
    ensures InPlace(x, s2) <==>
            AlignedAt(x, s.start) == 0 || m1.batchSize == 0 || SideIsRight(x, s, m1)
  {
    hide Step, Pointers, InPlace, Held, AlignedAt, Contract, Distinct, SideIsRight, KeepsHead;
    StoppedAtStart(x, s, m1, s1);
    GoodStep(x, s1, m2, s2);
    GoodAdvances(x, s1, m2, s2);
    WholeHeadPassed(x, s1, m2, s2);
    if m1.batchSize > 0 {
      HeadAfterStop(x, s, m1, s1);
    }
  }

  /** At the end of a program the whole head has gone to the side buffer. */
  lemma WholeHeadPassed(x: Transfer, s: Session, m: Machine, s': Session)
    requires x.Ok() && Pointers(x, s) && Agree(s) && !x.isWrite && Step(x, s, Good(m), s')
    requires AlignedAt(x, s.start) <= |m.bus| && s.start + AlignedAt(x, s.start) <= |x.data|
    ensures KeepsHead(x, s, Good(m)) <==>
            || s.aligned == AlignedAt(x, s.start)
            || Held(s.memory, x.phys, x.data, s.start, s.start + AlignedAt(x, s.start))
  {
    hide ReachedFrom, Right, CheckAll, Contract, Compilable, Distinct, Stopped, Held, Pointers;
    RunsReach(x, s, m);
    EndHasStored(x, s, m);
    SidesFit(x, s, m);
    EndIsAStop(RunOf(x, s.start), m, 0);
  }

  lemma SidesFit(x: Transfer, s: Session, m: Machine)
    requires Runs(x, s, m)
    ensures RunOf(x, s.start).Ok()
  {
  }

  /** The input: whatever memory and however the misaligned read is laid out, a
      message after the preamble and before the first byte can lose the head. */
  lemma RerunLosesHead(x: Transfer, s: Session) returns (m1: Machine, s1: Session, m2: Machine, s2: Session)
    requires x.Ok() && Pointers(x, s) && InPlace(x, s) && Agree(s) && Fresh(x, s)
    requires !x.isWrite && AlignedAt(x, s.start) > 0
    requires Compilable(x.cursor, x.phys, s.start, x.isWrite)
    ensures Orderly(x, s, [Stop(m1), Good(m2)], [s1, s2], s2)
    ensures s1.transferred == s.transferred < s2.transferred <= |x.data|
    ensures !InPlace(x, s2)
  {
    m1, s1 := StopAfterPreamble(x, s);
    StoppedAtStart(x, s, m1, s1);
    m2, s2 := BatchCanRun(x, s1);
    RerunDeliversExactly(x, s, m1, s1, m2, s2);
    hide Step, Pointers, InPlace, Held;
    assert !SideIsRight(x, s, m1) by {
      assert m1.side[..AlignedAt(x, s.start)][0] != x.data[s.start..s.start + AlignedAt(x, s.start)][0];
    }
    TwoSteps(x, s, Stop(m1), s1, Good(m2), s2);
  }

  lemma TwoSteps(x: Transfer, s: Session, e1: Event, s1: Session, e2: Event, s2: Session)
    requires Step(x, s, e1, s1) && Step(x, s1, e2, s2) && !e1.Reconnect? && !e2.Reconnect?
    ensures Orderly(x, s, [e1, e2], [s1, s2], s2)
  {
    hide Step;
    OrderlyCons(x, s1, e2, s2, [], [], s2);
    OrderlyCons(x, s, e1, s1, [e2] + [], [s2] + [], s2);
    assert [e1] + ([e2] + []) == [e1, e2] && [s1] + ([s2] + []) == [s1, s2];
  }

  /** The four stores of the preamble run, with a wrong byte in the side buffer. */
  lemma StopAfterPreamble(x: Transfer, s: Session) returns (m: Machine, s': Session)
    requires x.Ok() && Pointers(x, s) && Agree(s) && Fresh(x, s) && !x.isWrite && s.start < |x.data|
    requires Compilable(x.cursor, x.phys, s.start, x.isWrite)
    ensures Step(x, s, Stop(m), s') && m.bus == [] && m.batchSize > 0
    ensures |m.side| == 8 && m.side[0] != x.data[s.start]
  {
    hide Contract, Compilable, Held, Distinct, Build, Finish, UpdatedIndex, MeshMachine.Inv, CheckAll, Right;
    var r := RunOf(x, s.start);
    RunIsOk(x, s.start);
    var wrong: byte := if x.data[s.start] == 0 then 1 else 0;
    var m0 := Machine(0, 0, 0, 0, false, [], [], s.memory, seq(8, i => wrong));
    PreambleComesFirst(x, s.start);
    m := AfterPreamble(r, m0);
    PreambleRuns(r, m0, m);
    assert ReachedFrom(r, s.memory, m);
    s' := Moved(x, s, UpdatedIndex(Seen(x, s), m), m.bus).(aligned := 0);
  }

  lemma PreambleComesFirst(x: Transfer, start: nat)
    requires x.Ok() && start < |x.phys| && Compilable(x.cursor, x.phys, start, x.isWrite)
    ensures BeginsWithPreamble(RunOf(x, start).program)
  {
    ProgramBegins(x.cursor, x.phys, start, x.isWrite, x.limit, x.sync);
  }

  function AfterPreamble(r: Run, m0: Machine): Machine
    requires BeginsWithPreamble(r.program)
  {
    var m1 := Execute(r.program[0], m0).(pc := 1, done := 0);
    var m2 := Execute(r.program[1], m1).(pc := 2, done := 0);
    var m3 := Execute(r.program[2], m2).(pc := 3, done := 0);
    Execute(r.program[3], m3).(pc := 4, done := 0)
  }

  lemma PreambleRuns(r: Run, m0: Machine, m: Machine)
    requires r.Ok() && Launched(r, m0) && BeginsWithPreamble(r.program) && m == AfterPreamble(r, m0)
    ensures Steps(r, m0, [Next, Next, Next, Next], m) && Stopped(r, m)
    ensures m.bus == [] && m.batchSize > 0 && m.side == m0.side && m.memory == m0.memory
  {
    hide CheckAll, Right;
    var m1 := MeshMachine.Step(r, m0, Next);
    var m2 := MeshMachine.Step(r, m1, Next);
    var m3 := MeshMachine.Step(r, m2, Next);
    assert m == MeshMachine.Step(r, m3, Next);
    NextLast(r, m3);
    NextFirst(r, m2, [Next], m);
    NextFirst(r, m1, [Next, Next], m);
    NextFirst(r, m0, [Next, Next, Next], m);
    assert m.batchSize > 0 by { FirstStoreIsPositive(r); }
  }

  lemma NextLast(r: Run, m: Machine)
    requires NextEnabled(r, m)
    ensures Steps(r, m, [Next], MeshMachine.Step(r, m, Next))
  {
    assert [Next][1..] == [];
  }

  lemma NextFirst(r: Run, m: Machine, more: seq<Action>, end: Machine)
    requires NextEnabled(r, m) && Steps(r, MeshMachine.Step(r, m, Next), more, end)
    ensures Steps(r, m, [Next] + more, end)
  {
    assert ([Next] + more)[1..] == more;
  }

  lemma FirstStoreIsPositive(r: Run)
    requires r.Ok() && BeginsWithPreamble(r.program)
    ensures r.program[0].value > 0
  {
    assert r.program[..0] == [];
    PrefixChecks(r, 0);
  }
}
