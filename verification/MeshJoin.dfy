/** The driver's code carries out the steps of a session: while the controller's
    fields are those of a session state before a call, they are those of the state
    after that step when it returns.  What chip and channel do in between is any
    machine the compiled program can reach. */
module MeshJoin {
  import opened Bytes
  import opened Common
  import opened MeshProgram
  import opened MeshCompiler
  import opened MeshMachine
  import opened MeshTransfer
  import opened MeshSession
  import opened MeshCapacity
  import opened MeshController

  /** The transfer x is the command the controller works on. */
  ghost predicate Serves(c: Controller, x: Transfer)
    reads c
  {
    && c.Valid() && x.Ok()
    && x.cursor == c.cursor && x.phys == c.phys && x.isWrite == c.isWrite && x.sync == c.sync
    && x.limit == c.fDBDMADescriptorMax - SLACK
  }

  ghost predicate Matches(c: Controller, s: Session)
    reads c
  {
    c.memory == s.memory && c.transferred == s.transferred && c.savedDataPosition == s.saved
  }

  /** The program is compiled and what the interrupt code has left of it is there. */
  ghost predicate Prepared(c: Controller, x: Transfer, s: Session)
    requires s.start <= |x.phys|
    reads c, c.ccl
  {
    var r := RunOf(x, s.start);
    && Serves(c, x) && Matches(c, s) && c.batchSize == 0
    && c.alignmentCount == s.aligned && (c.alignmentCount > 0 ==> c.alignmentIndex == s.start)
    && |r.program| <= c.ccl.Length && c.ccl[..|r.program|] == r.program
    && (c.incomplete <==> BatchLength(x, s.start) < |x.phys| - s.start)
  }

  /** updateCP compiles the program of the session's next run. */
  method Prepares(c: Controller, ghost x: Transfer, ghost s: Session)
    requires Serves(c, x) && Matches(c, s) && Compilable(x.cursor, x.phys, s.transferred, x.isWrite)
    modifies c.ccl, c`alignmentCount, c`alignmentIndex, c`batchSize, c`incomplete
    ensures Prepared(c, x, Recompiled(x, s))
  {
    hide Contract, Compilable, Build, Finish, Distinct;
    c.UpdateCP();
    ProgramIsRight(x.cursor, x.phys, s.transferred, x.isWrite, x.limit, x.sync);
  }

  /** Chip and channel leave m in memory, in kcclBatchSize and in kcclReadBuf8. */
  method RunsHardware(c: Controller, memory: map<nat, byte>, batchSize: nat, side: seq<byte>)
    modifies c`memory, c`batchSize, c`side
    ensures c.memory == memory && c.batchSize == batchSize && c.side == side
  {
    c.memory, c.batchSize, c.side := memory, batchSize, side;
  }

  /** The handlers look at nothing but these. */
  lemma SameSeen(t: Batch, m: Machine, n: Machine)
    requires m.batchSize == n.batchSize && m.memory == n.memory && m.side == n.side && t.aligned <= |m.side|
    ensures CompletedBatch(t, m) == CompletedBatch(t, n)
    ensures m.count == n.count && m.fifo == n.fifo ==> UpdatedIndex(t, m) == UpdatedIndex(t, n)
  {
    hide WriteBytes, U32;
  }

  /** A program that runs to its end, for the first time or again, and
      doInterruptStageGood: the session's Good step.  Exactly when bytes remain the
      next batch is compiled. */
  method RunsToEnd(c: Controller, ghost x: Transfer, ghost s: Session, ghost m: Machine,
                   memory: map<nat, byte>, batchSize: nat, side: seq<byte>)
    returns (restart: bool, ghost s': Session)
    requires s.start <= |x.phys| && Prepared(c, x, s)
    requires MeshSession.Pointers(x, s) && Agree(s) && Runs(x, s, m) && m.pc == |RunOf(x, s.start).program|
    requires memory == m.memory && batchSize == m.batchSize && side == m.side && |side| == 8
    modifies c, c.ccl
    ensures MeshSession.Step(x, s, Good(m), s') && Serves(c, x) && Matches(c, s')
    ensures restart <==> s'.transferred < |x.phys|
    ensures restart && Compilable(x.cursor, x.phys, s'.transferred, x.isWrite) ==>
              s'.start <= |x.phys| && Prepared(c, x, s')
  {
    hide Contract, Compilable, Distinct, WriteBytes, Build, Finish, BatchLength, CheckAll, Right, MeshMachine.Inv,
         ReachedFrom, Held;
    ghost var t := MeshSession.Seen(x, s);
    s' := Recompiled(x, Moved(x, s, CompletedBatch(t, m), m.bus));
    GoodAdvances(x, s, m, s');
    GoodStep(x, s, m, s');
    RunsHardware(c, memory, batchSize, side);
    SameSeen(t, m, c.Seen(0, []));
    hide CompletedBatch;
    restart := c.DoInterruptStageGood();
    if restart {
      Recompiles(c, x, s');
    }
  }

  /** The updateCP of doInterruptStageGood. */
  method Recompiles(c: Controller, ghost x: Transfer, ghost s: Session)
    requires Serves(c, x) && Matches(c, s) && MeshSession.Fresh(x, s)
    modifies c.ccl, c`alignmentCount, c`alignmentIndex, c`batchSize, c`incomplete
    ensures Serves(c, x) && Matches(c, s)
    ensures Compilable(x.cursor, x.phys, s.transferred, x.isWrite) ==> s.start <= |x.phys| && Prepared(c, x, s)
  {
    hide Contract, Compilable, Build, Finish, Distinct;
    c.UpdateCP();
    if Compilable(x.cursor, x.phys, s.transferred, x.isWrite) {
      ProgramIsRight(x.cursor, x.phys, s.transferred, x.isWrite, x.limit, x.sync);
    }
  }

  /** The session after messages of the target. */
  function AfterTalk(s: Session, messages: seq<Message>): Session {
    if messages == [] then s else
    var q := AfterTalk(s, messages[..|messages| - 1]);
    match messages[|messages| - 1]
    case SaveMessage => q.(saved := q.transferred, targetSaved := q.target)
    case RestoreMessage => TargetRewound(q).(transferred := q.saved)
    case OtherMessage => q
  }

  /** Every message is the session's own step, or none. */
  lemma TalkIsSteps(x: Transfer, s: Session, messages: seq<Message>, i: nat)
    requires i < |messages|
    ensures var q, q' := AfterTalk(s, messages[..i]), AfterTalk(s, messages[..i + 1]);
            match messages[i]
            case SaveMessage => MeshSession.Step(x, q, Save, q')
            case RestoreMessage => MeshSession.Step(x, q, Restore, q')
            case OtherMessage => q' == q
  {
    assert messages[..i + 1][..i] == messages[..i];
  }

  /** The driver's own two positions move as the session's. */
  lemma {:induction false} SamePositions(s: Session, messages: seq<Message>)
    ensures var q, p := AfterTalk(s, messages), AfterMessages(Positions(s.transferred, s.saved), messages);
            && p == Positions(q.transferred, q.saved)
            && q.memory == s.memory && q.start == s.start && q.aligned == s.aligned
            && (q.transferred == s.transferred || q.transferred == s.saved)
            && (q.saved == s.transferred || q.saved == s.saved)
  {
    if messages != [] {
      SamePositions(s, messages[..|messages| - 1]);
    }
  }

  /** A program stopped at a branch point, and doInterruptStageXfer: the session's Stop
      step and those of the messages that follow.  In a data phase the same program is
      started again, with the alignment count the stop has left, exactly when
      bytesTransferred is back where it starts. */
  method RunsToStop(c: Controller, ghost x: Transfer, ghost s: Session, ghost m: Machine,
                    memory: map<nat, byte>, batchSize: nat, side: seq<byte>, count: nat, fifo: seq<byte>,
                    messages: seq<Message>, phase: Phase)
    returns (next: Reaction, ghost s1: Session, ghost s': Session)
    requires s.start <= |x.phys| && Prepared(c, x, s)
    requires MeshSession.Pointers(x, s) && Agree(s) && Runs(x, s, m) && Stopped(RunOf(x, s.start), m)
    requires memory == m.memory && batchSize == m.batchSize && side == m.side && |side| == 8
    requires count == m.count && fifo == m.fifo && |fifo| <= FIFO_SIZE
    modifies c`memory, c`batchSize, c`side, c`transferred, c`savedDataPosition, c`alignmentCount, c`incomplete
    ensures MeshSession.Step(x, s, Stop(m), s1) && s' == AfterTalk(s1, messages)
    ensures s'.start == s.start && (phase != StatusPhase ==> Prepared(c, x, s'))
    ensures next == RunAgain <==> phase == DataPhase && s'.transferred == s'.start
  {
    hide Contract, Compilable, Distinct, BatchLength, UpdatedIndex, AfterTalk, AfterMessages, Stopped, MeshSession.Step,
         MeshSession.Pointers, ReachedFrom;
    ghost var t := MeshSession.Seen(x, s);
    s1 := StoppedSession(x, s, m);
    s' := AfterTalk(s1, messages);
    SamePositions(s1, messages);
    RunsHardware(c, memory, batchSize, side);
    SameSeen(t, m, c.Seen(count, fifo));
    next := c.DoInterruptStageXfer(count, fifo, messages, phase);
  }

  lemma StoppedSession(x: Transfer, s: Session, m: Machine) returns (s': Session)
    requires x.Ok() && MeshSession.Pointers(x, s) && Agree(s) && Runs(x, s, m) && Stopped(RunOf(x, s.start), m)
    ensures MeshSession.Step(x, s, Stop(m), s')
    ensures s.aligned <= |m.side| && Outcome(s'.memory, s'.transferred) == UpdatedIndex(MeshSession.Seen(x, s), m)
    ensures s'.transferred <= |x.data| && s'.saved == s.saved <= |x.data| && s'.start == s.start
    ensures s'.aligned == if m.batchSize > 0 then 0 else s.aligned
  {
    hide UpdatedIndex, InPlace, KeepsHead, Compilable, ReachedFrom, Stopped;
    var o := UpdatedIndex(MeshSession.Seen(x, s), m);
    s' := Moved(x, s, o, m.bus).(aligned := if m.batchSize > 0 then 0 else s.aligned);
    StopStep(x, s, m, s');
  }
}
