/** The AppleTalk read-write lock (AppleTalk-59/at_rwlock.c).

    Every function first tests rwl->valid, without the mutex, and only then takes
    it.  The test is a step of its own, and every other step is one stretch of code
    between taking the mutex and giving it up, either by mutex_unlock or inside
    condition_wait.  A request that waits is parked on one of the two condition
    variables until a signal, a broadcast or a spurious wakeup marks it woken; it
    then competes for the mutex again and re-tests its loop condition.  Any number
    of requests may be in progress.  What a mutex does after mutex_clear is not part
    of this model: it goes on working. */
module RwLock {

  type Request = nat

  /** Where one request stands.  One that has entered a function has found the lock
      valid and does not have the mutex yet; one that leaves still holds the lock. */
  datatype Mode =
    | Idle
    | ReadEntered | ReadTryEntered | ReadParked | ReadWoken | Reading | ReadLeaving
    | WriteEntered | WriteTryEntered | WriteParked | WriteWoken | Writing | WriteLeaving
    | DestroyEntered

  /** The seven functions. */
  datatype Call = ToRead | ToTryRead | ToEndRead | ToWrite | ToTryWrite | ToEndWrite | ToDestroy {
    /** Where a request may call it. */
    function From(): Mode {
      if this == ToEndRead then Reading else if this == ToEndWrite then Writing else Idle
    }

    /** Where a request is once it has found the lock valid. */
    function Entered(): Mode {
      match this
      case ToRead => ReadEntered
      case ToTryRead => ReadTryEntered
      case ToEndRead => ReadLeaving
      case ToWrite => WriteEntered
      case ToTryWrite => WriteTryEntered
      case ToEndWrite => WriteLeaving
      case ToDestroy => DestroyEntered
    }
  }

  type Requests = map<Request, Mode>

  const EINVAL := 22
  const EBUSY := 16

  /** The lock's own counters, together with what every request is doing. */
  datatype State = State(valid: bool, rActive: int, wActive: bool, rWait: int, wWait: int, requests: Requests) {
    function ModeOf(t: Request): Mode {
      if t in requests then requests[t] else Idle
    }

    predicate Free() {
      !wActive && rActive == 0
    }

    /** What at_rwl_destroy looks for. */
    predicate Unused() {
      Free() && rWait == 0 && wWait == 0
    }
  }

  function In(requests: Requests, modes: set<Mode>): set<Request> {
    set t | t in requests && requests[t] in modes
  }

  function Num(requests: Requests, modes: set<Mode>): nat {
    |In(requests, modes)|
  }

  const READERS: set<Mode> := {Reading, ReadLeaving}
  const WRITERS: set<Mode> := {Writing, WriteLeaving}
  const READ_WAITERS: set<Mode> := {ReadParked, ReadWoken}
  const WRITE_WAITERS: set<Mode> := {WriteParked, WriteWoken}
  const WOKEN: set<Mode> := {ReadWoken, WriteWoken}

  /** Between the test of valid and the mutex, on the way to the lock. */
  const TAKING: set<Mode> := {ReadEntered, ReadTryEntered, WriteEntered, WriteTryEntered}

  // ---------------------------------------------------------------- wakeups

  /** condition_broadcast on the read condition. */
  function BroadcastReaders(requests: Requests): Requests {
    map t | t in requests :: if requests[t] == ReadParked then ReadWoken else requests[t]
  }

  /** condition_signal on the write condition; the caller of the model picks
      which parked writer the scheduler wakes. */
  function SignalWriter(requests: Requests, chosen: Request): Requests {
    if chosen in requests && requests[chosen] == WriteParked then requests[chosen := WriteWoken] else requests
  }

  /** A signal may not be wasted while somebody is parked. */
  predicate SignalChoice(requests: Requests, chosen: Request) {
    In(requests, {WriteParked}) != {} ==> chosen in In(requests, {WriteParked})
  }

  // ------------------------------------------------------------------ steps

  datatype Event =
    | Test(t: Request, call: Call)                // of valid, without the mutex
    | ReadLock(t: Request)                        // from mutex_lock to the first wait or unlock
    | ReadRecheck(t: Request)                     // back from condition_wait
    | ReadTryLock(t: Request)
    | ReadUnlock(t: Request, chosen: Request)
    | WriteLock(t: Request)
    | WriteRecheck(t: Request)
    | WriteTryLock(t: Request)
    | WriteUnlock(t: Request, chosen: Request)
    | Destroy(t: Request)
    | SpuriousWakeup(t: Request)

  ghost predicate Enabled(s: State, e: Event) {
    match e
    case Test(t, call) => s.ModeOf(t) == call.From()
    case ReadLock(t) => s.ModeOf(t) == ReadEntered
    case ReadTryLock(t) => s.ModeOf(t) == ReadTryEntered
    case WriteLock(t) => s.ModeOf(t) == WriteEntered
    case WriteTryLock(t) => s.ModeOf(t) == WriteTryEntered
    case ReadRecheck(t) => s.ModeOf(t) == ReadWoken
    case WriteRecheck(t) => s.ModeOf(t) == WriteWoken
    case ReadUnlock(t, c) => s.ModeOf(t) == ReadLeaving && SignalChoice(s.requests, c)
    case WriteUnlock(t, c) => s.ModeOf(t) == WriteLeaving && SignalChoice(s.requests, c)
    case Destroy(t) => s.ModeOf(t) == DestroyEntered
    case SpuriousWakeup(t) => s.ModeOf(t) in {ReadParked, WriteParked}
  }

  function GrantRead(s: State, t: Request): State {
    s.(rActive := s.rActive + 1, requests := s.requests[t := Reading])
  }

  function GrantWrite(s: State, t: Request): State {
    s.(wActive := true, requests := s.requests[t := Writing])
  }

  /** The effect of one step on the lock and on the requests. */
  function Apply(s: State, e: Event): State {
    match e
    case Test(t, call) => if s.valid then s.(requests := s.requests[t := call.Entered()]) else s
    case ReadLock(t) =>
      if s.wActive then s.(rWait := s.rWait + 1, requests := s.requests[t := ReadParked])
      else GrantRead(s, t)
    case ReadRecheck(t) =>
      if s.wActive then s.(requests := s.requests[t := ReadParked])
      else GrantRead(s.(rWait := s.rWait - 1), t)
    case ReadTryLock(t) =>
      if s.wActive then s.(requests := s.requests[t := Idle]) else GrantRead(s, t)
    case ReadUnlock(t, c) =>
      var after := s.requests[t := Idle];
      s.(rActive := s.rActive - 1,
         requests := if s.rActive - 1 == 0 && s.wWait > 0 then SignalWriter(after, c) else after)
    case WriteLock(t) =>
      if !s.Free() then s.(wWait := s.wWait + 1, requests := s.requests[t := WriteParked])
      else GrantWrite(s, t)
    case WriteRecheck(t) =>
      if !s.Free() then s.(requests := s.requests[t := WriteParked])
      else GrantWrite(s.(wWait := s.wWait - 1), t)
    case WriteTryLock(t) =>
      if !s.Free() then s.(requests := s.requests[t := Idle]) else GrantWrite(s, t)
    case WriteUnlock(t, c) =>
      var after := s.requests[t := Idle];
      s.(wActive := false,
         requests := if s.rWait > 0 then BroadcastReaders(after)
                     else if s.wWait > 0 then SignalWriter(after, c)
                     else after)
    case Destroy(t) =>
      s.(valid := s.valid && !s.Unused(), requests := s.requests[t := Idle])
    case SpuriousWakeup(t) =>
      s.(requests := s.requests[t := if s.ModeOf(t) == ReadParked then ReadWoken else WriteWoken])
  }

  // -------------------------------------------------------------- invariant

  ghost predicate CountersExact(s: State) {
    && s.rActive == Num(s.requests, READERS)
    && (if s.wActive then 1 else 0) == Num(s.requests, WRITERS)
    && s.rWait == Num(s.requests, READ_WAITERS)
    && s.wWait == Num(s.requests, WRITE_WAITERS)
  }

  /** The lock is never shared between a writer and anybody else. */
  ghost predicate Exclusive(s: State) {
    s.wActive ==> s.rActive == 0
  }

  /** A parked reader is always parked behind an active writer. */
  ghost predicate ReadersParkBehindWriter(s: State) {
    !s.wActive ==> In(s.requests, {ReadParked}) == {}
  }

  /** Nobody sleeps on a free lock unless somebody else is already awake. */
  ghost predicate NoLostWakeup(s: State) {
    s.Free() && In(s.requests, READ_WAITERS + WRITE_WAITERS) != {} ==>
      In(s.requests, WOKEN) != {}
  }

  ghost predicate Inv(s: State) {
    && CountersExact(s)
    && Exclusive(s)
    && ReadersParkBehindWriter(s)
    && NoLostWakeup(s)
  }

  // ------------------------------------------------------- counting lemmas

  /** Changing one request moves exactly that request between the counted sets. */
  lemma NumUpdate(r: Requests, t: Request, m: Mode, modes: set<Mode>)
    ensures Num(r[t := m], modes) ==
            Num(r, modes) - (if t in r && r[t] in modes then 1 else 0) + (if m in modes then 1 else 0)
  {
    var was := In(r, modes);
    var rest := was - {t};
    assert In(r[t := m], modes) == if m in modes then rest + {t} else rest;
  }

  lemma NumBroadcast(r: Requests, modes: set<Mode>)
    requires ReadParked in modes <==> ReadWoken in modes
    ensures Num(BroadcastReaders(r), modes) == Num(r, modes)
  {
    assert In(BroadcastReaders(r), modes) == In(r, modes);
  }

  lemma NumSignal(r: Requests, chosen: Request, modes: set<Mode>)
    requires WriteParked in modes <==> WriteWoken in modes
    ensures Num(SignalWriter(r, chosen), modes) == Num(r, modes)
  {
    assert In(SignalWriter(r, chosen), modes) == In(r, modes);
  }

  lemma UpdateCounts(r: Requests, t: Request, m: Mode)
    ensures forall modes {:trigger Num(r[t := m], modes)} :: Num(r[t := m], modes) ==
              Num(r, modes) - (if t in r && r[t] in modes then 1 else 0) + (if m in modes then 1 else 0)
  {
    forall modes {
      NumUpdate(r, t, m, modes);
    }
  }

  lemma WakeupCounts(r: Requests, chosen: Request)
    ensures forall modes {:trigger Num(BroadcastReaders(r), modes)} ::
              (ReadParked in modes <==> ReadWoken in modes) ==> Num(BroadcastReaders(r), modes) == Num(r, modes)
    ensures forall modes {:trigger Num(SignalWriter(r, chosen), modes)} ::
              (WriteParked in modes <==> WriteWoken in modes) ==> Num(SignalWriter(r, chosen), modes) == Num(r, modes)
  {
    forall modes | ReadParked in modes <==> ReadWoken in modes
      ensures Num(BroadcastReaders(r), modes) == Num(r, modes)
    {
      NumBroadcast(r, modes);
    }
    forall modes | WriteParked in modes <==> WriteWoken in modes
      ensures Num(SignalWriter(r, chosen), modes) == Num(r, modes)
    {
      NumSignal(r, chosen, modes);
    }
  }

  lemma NumPositive(r: Requests, modes: set<Mode>)
    ensures Num(r, modes) > 0 <==> In(r, modes) != {}
    ensures Num(r, modes) == 0 <==> forall t :: t in r ==> r[t] !in modes
  {
    if In(r, modes) != {} {
      var t :| t in In(r, modes);
    } else {
      forall t | t in r ensures r[t] !in modes {
        assert t !in In(r, modes);
      }
    }
  }

  // ------------------------------------------------------ what a step keeps

  lemma TestCountersKept(s: State, e: Event)
    requires CountersExact(s) && Enabled(s, e) && (e.Test? || e.Destroy?)
    ensures CountersExact(Apply(s, e))
  {
    UpdateCounts(s.requests, e.t, Apply(s, e).ModeOf(e.t));
  }

  lemma ReadCountersKept(s: State, e: Event)
    requires CountersExact(s) && Enabled(s, e)
    requires e.ReadLock? || e.ReadRecheck? || e.ReadTryLock?
    ensures CountersExact(Apply(s, e))
  {
    UpdateCounts(s.requests, e.t, Apply(s, e).ModeOf(e.t));
  }

  lemma WriteCountersKept(s: State, e: Event)
    requires CountersExact(s) && Enabled(s, e)
    requires e.WriteLock? || e.WriteRecheck? || e.WriteTryLock? || e.SpuriousWakeup?
    ensures CountersExact(Apply(s, e))
  {
    UpdateCounts(s.requests, e.t, Apply(s, e).ModeOf(e.t));
  }

  lemma UnlockCountersKept(s: State, e: Event)
    requires CountersExact(s) && Enabled(s, e)
    requires e.ReadUnlock? || e.WriteUnlock?
    ensures CountersExact(Apply(s, e))
  {
    UpdateCounts(s.requests, e.t, Idle);
    WakeupCounts(s.requests[e.t := Idle], e.chosen);
    hide Num, BroadcastReaders, SignalWriter;
  }

  lemma CountersKept(s: State, e: Event)
    requires CountersExact(s) && Enabled(s, e)
    ensures CountersExact(Apply(s, e))
  {
    hide Apply, CountersExact, Enabled;
    match e
    case Test(_, _) => TestCountersKept(s, e);
    case Destroy(_) => TestCountersKept(s, e);
    case ReadLock(_) => ReadCountersKept(s, e);
    case ReadRecheck(_) => ReadCountersKept(s, e);
    case ReadTryLock(_) => ReadCountersKept(s, e);
    case ReadUnlock(_, _) => UnlockCountersKept(s, e);
    case WriteUnlock(_, _) => UnlockCountersKept(s, e);
    case WriteLock(_) => WriteCountersKept(s, e);
    case WriteRecheck(_) => WriteCountersKept(s, e);
    case WriteTryLock(_) => WriteCountersKept(s, e);
    case SpuriousWakeup(_) => WriteCountersKept(s, e);
  }

  lemma ExclusionKept(s: State, e: Event)
    requires CountersExact(s) && Exclusive(s) && Enabled(s, e)
    ensures Exclusive(Apply(s, e))
  {
    if e.ReadUnlock? {
      NumPositive(s.requests, READERS);
      assert e.t in s.requests && s.requests[e.t] in READERS;
      assert s.rActive > 0;
    }
  }

  lemma ReadersParkKept(s: State, e: Event)
    requires CountersExact(s) && Exclusive(s) && ReadersParkBehindWriter(s) && Enabled(s, e)
    ensures ReadersParkBehindWriter(Apply(s, e))
  {
    NumPositive(s.requests, {ReadParked});
    NumPositive(s.requests, READ_WAITERS);
    NumPositive(Apply(s, e).requests, {ReadParked});
  }

  /** Releasing the lock leaves somebody awake whenever somebody is waiting. */
  lemma ReleaseWakesSomebody(s: State, e: Event)
    requires Inv(s) && Enabled(s, e)
    requires (e.ReadUnlock? && s.rActive == 1) || e.WriteUnlock?
    ensures var r := Apply(s, e).requests;
            In(r, READ_WAITERS + WRITE_WAITERS) != {} ==> In(r, WOKEN) != {}
  {
    var after := s.requests[e.t := Idle];
    var r := Apply(s, e).requests;
    if w :| w in In(r, READ_WAITERS + WRITE_WAITERS) {
      assert w in s.requests && s.requests[w] in READ_WAITERS + WRITE_WAITERS;
      NumPositive(s.requests, READ_WAITERS);
      NumPositive(s.requests, WRITE_WAITERS);
      if s.requests[w] in READ_WAITERS {
        assert w in In(s.requests, READ_WAITERS);
        if e.ReadUnlock? {
          assert w !in In(s.requests, {ReadParked});
        }
        assert r[w] == ReadWoken;
        assert w in In(r, WOKEN);
      } else if e.WriteUnlock? && s.rWait > 0 {
        var u :| u in In(s.requests, READ_WAITERS);
        assert r[u] == ReadWoken;
        assert u in In(r, WOKEN);
      } else {
        assert w in In(s.requests, WRITE_WAITERS);
        assert r == SignalWriter(after, e.chosen);
        if s.requests[w] == WriteParked {
          assert w in In(s.requests, {WriteParked});
          assert r[e.chosen] == WriteWoken;
          assert e.chosen in In(r, WOKEN);
        } else {
          assert r[w] == WriteWoken;
          assert w in In(r, WOKEN);
        }
      }
    }
  }

  /** A request outside the waiting modes that stays outside them. */
  lemma SameWaiters(r: Requests, t: Request, m: Mode, modes: set<Mode>)
    requires m !in modes && (t in r ==> r[t] !in modes)
    ensures In(r[t := m], modes) == In(r, modes)
  {
  }

  lemma WakeupKept(s: State, e: Event)
    requires Inv(s) && Enabled(s, e)
    ensures NoLostWakeup(Apply(s, e))
  {
    var s' := Apply(s, e);
    if s'.Free() && In(s'.requests, READ_WAITERS + WRITE_WAITERS) != {} {
      if e.ReadUnlock? || e.WriteUnlock? {
        ReleaseWakesSomebody(s, e);
      } else if e.SpuriousWakeup? {
        assert e.t in In(s'.requests, WOKEN);
      } else if (e.Test? && s.valid) || e.Destroy? {
        SameWaiters(s.requests, e.t, s'.ModeOf(e.t), READ_WAITERS + WRITE_WAITERS);
        SameWaiters(s.requests, e.t, s'.ModeOf(e.t), WOKEN);
      }
      // the remaining steps either take the lock or find it taken
    }
  }

  lemma StepKeepsInv(s: State, e: Event)
    requires Inv(s) && Enabled(s, e)
    ensures Inv(Apply(s, e))
  {
    CountersKept(s, e);
    ExclusionKept(s, e);
    ReadersParkKept(s, e);
    WakeupKept(s, e);
  }

  // ------------------------------------------------------------------- runs

  const INITIAL := State(true, 0, false, 0, 0, map[])

  ghost predicate IsRun(s: State, events: seq<Event>)
    decreases |events|
  {
    events == [] || (Enabled(s, events[0]) && IsRun(Apply(s, events[0]), events[1..]))
  }

  function Exec(s: State, events: seq<Event>): State
    decreases |events|
  {
    if events == [] then s else Exec(Apply(s, events[0]), events[1..])
  }

  lemma {:induction false} RunKeepsInv(s: State, events: seq<Event>)
    requires Inv(s) && IsRun(s, events)
    ensures Inv(Exec(s, events))
    decreases |events|
  {
    if events != [] {
      StepKeepsInv(s, events[0]);
      RunKeepsInv(Apply(s, events[0]), events[1..]);
    }
  }

  lemma InitialInv()
    ensures Inv(INITIAL)
  {
    assert forall modes :: In(INITIAL.requests, modes) == {};
  }

  /** Safety of every run: a writer excludes every other holder, and the four
      counters are the true numbers of holders and waiters. */
  lemma ReaderWriterSafety(events: seq<Event>, t: Request, u: Request)
    requires IsRun(INITIAL, events)
    ensures var s := Exec(INITIAL, events);
            && CountersExact(s)
            && (s.ModeOf(t) in WRITERS && t != u ==> s.ModeOf(u) !in READERS + WRITERS)
  {
    InitialInv();
    RunKeepsInv(INITIAL, events);
    var s := Exec(INITIAL, events);
    NumUpdate(s.requests, t, Idle, WRITERS);
    NumPositive(s.requests, WRITERS);
    NumPositive(s.requests[t := Idle], WRITERS);
    NumPositive(s.requests, READERS);
    assert t != u && u in s.requests ==> u in s.requests[t := Idle];
  }

  /** In every run: on a free lock with a waiter some waiter has been woken,
      and no reader is parked while no writer is active. */
  lemma NoWakeupIsLost(events: seq<Event>)
    requires IsRun(INITIAL, events)
    ensures var s := Exec(INITIAL, events);
            && (s.Free() && (exists t :: s.ModeOf(t) in READ_WAITERS + WRITE_WAITERS) ==>
                  exists t :: s.ModeOf(t) in WOKEN)
            && (!s.wActive ==> forall t :: s.ModeOf(t) != ReadParked)
  {
    InitialInv();
    RunKeepsInv(INITIAL, events);
    var s := Exec(INITIAL, events);
    if s.Free() {
      if w :| s.ModeOf(w) in READ_WAITERS + WRITE_WAITERS {
        assert w in In(s.requests, READ_WAITERS + WRITE_WAITERS);
        var u :| u in In(s.requests, WOKEN);
        assert s.ModeOf(u) in WOKEN;
      }
    }
    if !s.wActive {
      forall t ensures s.ModeOf(t) != ReadParked {
        assert s.ModeOf(t) == ReadParked ==> t in In(s.requests, {ReadParked});
      }
    }
  }

  ghost predicate NobodyIn(s: State, modes: set<Mode>) {
    forall t :: s.ModeOf(t) !in modes
  }

  lemma NobodyCounted(s: State, modes: set<Mode>)
    requires Idle !in modes
    ensures NobodyIn(s, modes) <==> Num(s.requests, modes) == 0
  {
    NumPositive(s.requests, modes);
    assert forall t :: t in s.requests ==> s.ModeOf(t) == s.requests[t];
  }

  predicate TriesToRead(e: Event) {
    e.ReadLock? || e.ReadRecheck? || e.ReadTryLock?
  }

  predicate TriesToWrite(e: Event) {
    e.WriteLock? || e.WriteRecheck? || e.WriteTryLock?
  }

  lemma TakenExactly(s: State)
    requires Inv(s)
    ensures s.wActive <==> !NobodyIn(s, WRITERS)
    ensures s.Free() <==> NobodyIn(s, READERS + WRITERS)
  {
    NobodyCounted(s, READERS);
    NobodyCounted(s, WRITERS);
  }

  lemma GrantsOf(s: State, e: Event)
    requires Enabled(s, e) && (TriesToRead(e) || TriesToWrite(e))
    ensures var s' := Apply(s, e);
            && (TriesToRead(e) ==> (s'.ModeOf(e.t) == Reading <==> !s.wActive))
            && (TriesToWrite(e) ==> (s'.ModeOf(e.t) == Writing <==> s.Free()))
            && s'.ModeOf(e.t) in Answers(e)
            && forall u :: u != e.t ==> s'.ModeOf(u) == s.ModeOf(u)
  {
  }

  /** What an attempt may come to: granted, or else parked or turned away. */
  function Answers(e: Event): set<Mode> {
    match e
    case ReadLock(_) => {Reading, ReadParked}
    case ReadRecheck(_) => {Reading, ReadParked}
    case ReadTryLock(_) => {Reading, Idle}
    case WriteLock(_) => {Writing, WriteParked}
    case WriteRecheck(_) => {Writing, WriteParked}
    case WriteTryLock(_) => {Writing, Idle}
    case _ => {}
  }

  /** In every run: a request that has the mutex is granted the lock for reading exactly
      when nobody holds it for writing, and for writing exactly when nobody holds it at
      all; else it is parked, or turned away if it only tries.  Nobody else moves. */
  lemma GrantedExactly(events: seq<Event>, e: Event)
    requires IsRun(INITIAL, events) && Enabled(Exec(INITIAL, events), e)
    requires TriesToRead(e) || TriesToWrite(e)
    ensures var s := Exec(INITIAL, events);
            var s' := Apply(s, e);
            && (TriesToRead(e) ==> (s'.ModeOf(e.t) == Reading <==> NobodyIn(s, {Writing, WriteLeaving})))
            && (TriesToWrite(e) ==> (s'.ModeOf(e.t) == Writing <==>
                                     NobodyIn(s, {Reading, ReadLeaving, Writing, WriteLeaving})))
            && s'.ModeOf(e.t) in Answers(e)
            && forall u :: u != e.t ==> s'.ModeOf(u) == s.ModeOf(u)
  {
    InitialInv();
    RunKeepsInv(INITIAL, events);
    var s := Exec(INITIAL, events);
    TakenExactly(s);
    GrantsOf(s, e);
    assert READERS + WRITERS == {Reading, ReadLeaving, Writing, WriteLeaving};
    hide Inv, Apply;
  }

  /** In every run: unlocking wakes nobody while a reader is left; the last reader wakes
      the chosen one of the parked writers, if there are any; a writer wakes all parked
      readers if any reader waits, and else the chosen writer.  Nobody else moves. */
  lemma UnlockWakesExactly(events: seq<Event>, e: Event, u: Request)
    requires IsRun(INITIAL, events) && Enabled(Exec(INITIAL, events), e)
    requires e.ReadUnlock? || e.WriteUnlock?
    ensures var s := Exec(INITIAL, events);
            var s' := Apply(s, e);
            var signalled := if s.ModeOf(u) == WriteParked && u == e.chosen then WriteWoken else s.ModeOf(u);
            s'.ModeOf(u) ==
              if u == e.t then Idle
              else if e.ReadUnlock? then
                (if NobodyIn(s', {Reading, ReadLeaving}) then signalled else s.ModeOf(u))
              else if !NobodyIn(s, {ReadParked, ReadWoken}) then
                (if s.ModeOf(u) == ReadParked then ReadWoken else s.ModeOf(u))
              else signalled
  {
    InitialInv();
    RunKeepsInv(INITIAL, events);
    var s := Exec(INITIAL, events);
    StepKeepsInv(s, e);
    NobodyCounted(Apply(s, e), READERS);
    NobodyCounted(s, READ_WAITERS);
    NobodyCounted(s, WRITE_WAITERS);
    WakesOf(s, e, u);
    hide Apply, In, Num;
    if s.ModeOf(u) == WriteParked {
      assert !NobodyIn(s, WRITE_WAITERS);
    }
  }

  /** The same told by the counters. */
  lemma WakesOf(s: State, e: Event, u: Request)
    requires Enabled(s, e) && (e.ReadUnlock? || e.WriteUnlock?)
    ensures var s' := Apply(s, e);
            var signalled := if s.wWait > 0 && s.ModeOf(u) == WriteParked && u == e.chosen then WriteWoken
                             else s.ModeOf(u);
            && (e.ReadUnlock? ==> s'.rActive == s.rActive - 1)
            && s'.ModeOf(u) ==
               if u == e.t then Idle
               else if e.ReadUnlock? then (if s.rActive == 1 then signalled else s.ModeOf(u))
               else if s.rWait > 0 then (if s.ModeOf(u) == ReadParked then ReadWoken else s.ModeOf(u))
               else signalled
  {
  }

  /** The counters that at_rwl_destroy looks at tell whether anybody holds the lock
      or waits for it. */
  lemma UnusedExactly(s: State)
    requires Inv(s)
    ensures s.Unused() <==> NobodyIn(s, READERS + WRITERS + READ_WAITERS + WRITE_WAITERS)
  {
    NobodyCounted(s, READERS);
    NobodyCounted(s, WRITERS);
    NobodyCounted(s, READ_WAITERS);
    NobodyCounted(s, WRITE_WAITERS);
  }

  /** at_rwl_destroy succeeds in a reachable state exactly when nobody holds the lock
      and nobody waits for it. */
  lemma DestroyExactlyWhenUnused(events: seq<Event>, t: Request)
    requires IsRun(INITIAL, events) && Enabled(Exec(INITIAL, events), Destroy(t))
    ensures var s := Exec(INITIAL, events);
            s.valid ==> (!Apply(s, Destroy(t)).valid <==>
                         NobodyIn(s, READERS + WRITERS + READ_WAITERS + WRITE_WAITERS))
  {
    InitialInv();
    RunKeepsInv(INITIAL, events);
    UnusedExactly(Exec(INITIAL, events));
  }

  /** From here no request can get the lock any more. */
  ghost predicate Dead(s: State) {
    !s.valid && forall t :: s.ModeOf(t) in {Idle, DestroyEntered}
  }

  lemma {:induction false} DeadStaysDead(s: State, events: seq<Event>)
    requires Dead(s) && IsRun(s, events)
    ensures Dead(Exec(s, events))
    decreases |events|
  {
    if events != [] {
      var e := events[0];
      assert e.t in s.requests ==> s.ModeOf(e.t) in {Idle, DestroyEntered};
      var s' := Apply(s, e);
      forall t
        ensures s'.ModeOf(t) in {Idle, DestroyEntered}
      {
        assert s.ModeOf(t) in {Idle, DestroyEntered};
      }
      DeadStaysDead(s', events[1..]);
    }
  }

  /** No run from s ever has a holder. */
  ghost predicate NeverHeldAgain(s: State) {
    forall events: seq<Event> :: IsRun(s, events) ==> NobodyIn(Exec(s, events), READERS + WRITERS)
  }

  /** The locked stretch of a request that found the lock valid before it was
      destroyed is granted all the same. */
  lemma LateGrant(s: State, t: Request) returns (e: Event)
    requires s.Free() && s.ModeOf(t) in TAKING
    ensures Enabled(s, e) && Apply(s, e).ModeOf(t) in READERS + WRITERS
  {
    match s.ModeOf(t)
    case ReadEntered => e := ReadLock(t);
    case ReadTryEntered => e := ReadTryLock(t);
    case WriteEntered => e := WriteLock(t);
    case WriteTryEntered => e := WriteTryLock(t);
  }

  lemma DeadIsNeverHeld(s: State)
    requires Dead(s)
    ensures NeverHeldAgain(s)
  {
    forall events: seq<Event> | IsRun(s, events)
      ensures NobodyIn(Exec(s, events), READERS + WRITERS)
    {
      DeadStaysDead(s, events);
      assert forall t :: Exec(s, events).ModeOf(t) in {Idle, DestroyEntered};
    }
  }

  lemma LateGrantIsHeld(s: State, t: Request)
    requires s.Free() && s.ModeOf(t) in TAKING
    ensures !NeverHeldAgain(s)
  {
    var e := LateGrant(s, t);
    assert IsRun(s, [e]) && Exec(s, [e]) == Apply(s, e) by {
      assert [e][1..] == [];
    }
    assert !NobodyIn(Exec(s, [e]), READERS + WRITERS);
  }

  /** After at_rwl_destroy has succeeded in a reachable state, nobody ever holds the
      lock again if and only if no request was between its test of valid and the
      mutex. */
  lemma DestroyIsFinalExactly(events: seq<Event>, t: Request)
    requires IsRun(INITIAL, events)
    requires var s := Exec(INITIAL, events);
             Enabled(s, Destroy(t)) && s.valid && !Apply(s, Destroy(t)).valid
    ensures var s := Exec(INITIAL, events);
            NeverHeldAgain(Apply(s, Destroy(t))) <==> NobodyIn(s, TAKING)
  {
    InitialInv();
    RunKeepsInv(INITIAL, events);
    var s := Exec(INITIAL, events);
    UnusedExactly(s);
    hide Inv, NeverHeldAgain, IsRun, Exec;
    if NobodyIn(s, TAKING) {
      DeadOnceUnused(s, t);
      DeadIsNeverHeld(Apply(s, Destroy(t)));
    } else {
      OthersStay(s, t);
      var u :| s.ModeOf(u) in TAKING;
      LateGrantIsHeld(Apply(s, Destroy(t)), u);
    }
  }

  lemma OthersStay(s: State, t: Request)
    requires Enabled(s, Destroy(t))
    ensures var d := Apply(s, Destroy(t));
            forall u :: d.ModeOf(u) == if u == t then Idle else s.ModeOf(u)
  {
  }

  lemma DeadOnceUnused(s: State, t: Request)
    requires Enabled(s, Destroy(t)) && s.valid && s.Unused()
    requires NobodyIn(s, READERS + WRITERS + READ_WAITERS + WRITE_WAITERS) && NobodyIn(s, TAKING)
    ensures Dead(Apply(s, Destroy(t)))
  {
    var d := Apply(s, Destroy(t));
    OthersStay(s, t);
    forall u
      ensures d.ModeOf(u) in {Idle, DestroyEntered}
    {
      assert s.ModeOf(u) !in TAKING && s.ModeOf(u) !in READERS + WRITERS + READ_WAITERS + WRITE_WAITERS;
      AllModes(s.ModeOf(u));
    }
  }

  lemma AllModes(m: Mode)
    ensures m in {Idle, DestroyEntered} || m in TAKING || m in READERS + WRITERS + READ_WAITERS + WRITE_WAITERS
  {
  }

  /** And a lock that was granted so late is never given back: unlocking it fails. */
  lemma {:induction false} LateHolderStays(s: State, t: Request, events: seq<Event>)
    requires !s.valid && s.ModeOf(t) in {Reading, Writing} && IsRun(s, events)
    ensures Exec(s, events).ModeOf(t) == s.ModeOf(t) && !Exec(s, events).valid
    decreases |events|
  {
    if events != [] {
      LateHolderStep(s, t, events[0]);
      LateHolderStays(Apply(s, events[0]), t, events[1..]);
    }
  }

  lemma LateHolderStep(s: State, t: Request, e: Event)
    requires !s.valid && s.ModeOf(t) in {Reading, Writing} && Enabled(s, e)
    ensures Apply(s, e).ModeOf(t) == s.ModeOf(t) && !Apply(s, e).valid
  {
  }

  // ----------------------------------------------------------- no deadlock

  /** Steps of requests that are under way: no new call but to unlock, no destroy. */
  predicate WindsDown(e: Event) {
    match e
    case Test(_, call) => call == ToEndRead || call == ToEndWrite
    case Destroy(_) => false
    case SpuriousWakeup(_) => false
    case _ => true
  }

  /** How many steps a request is from being idle, at most. */
  function Weight(m: Mode): nat {
    match m
    case ReadEntered => 4
    case WriteEntered => 4
    case ReadTryEntered => 3
    case WriteTryEntered => 3
    case ReadParked => 3
    case ReadWoken => 3
    case WriteParked => 3
    case WriteWoken => 3
    case Reading => 2
    case Writing => 2
    case ReadLeaving => 1
    case WriteLeaving => 1
    case Idle => 0
    case DestroyEntered => 0
  }

  const FOUR: set<Mode> := {ReadEntered, WriteEntered}
  const THREE: set<Mode> := FOUR + {ReadTryEntered, WriteTryEntered} + READ_WAITERS + WRITE_WAITERS
  const TWO: set<Mode> := THREE + {Reading, Writing}
  const ONE: set<Mode> := TWO + {ReadLeaving, WriteLeaving}

  lemma WeightSets(m: Mode)
    ensures m in FOUR <==> Weight(m) >= 4
    ensures m in THREE <==> Weight(m) >= 3
    ensures m in TWO <==> Weight(m) >= 2
    ensures m in ONE <==> Weight(m) >= 1
    ensures Weight(m) <= 4
  {
  }

  /** Work left before every request is idle again: the sum of the weights. */
  function Pending(r: Requests): nat {
    Num(r, ONE) + Num(r, TWO) + Num(r, THREE) + Num(r, FOUR)
  }

  lemma ParkedChoice(r: Requests) returns (c: Request)
    ensures SignalChoice(r, c)
  {
    if w :| w in In(r, {WriteParked}) {
      c := w;
    } else {
      c := 0;
    }
  }

  lemma PendingUpdate(r: Requests, t: Request, m: Mode)
    ensures Pending(r[t := m]) == Pending(r) - (if t in r then Weight(r[t]) else 0) + Weight(m)
  {
    NumUpdate(r, t, m, ONE);
    NumUpdate(r, t, m, TWO);
    NumUpdate(r, t, m, THREE);
    NumUpdate(r, t, m, FOUR);
    WeightSets(m);
    if t in r {
      WeightSets(r[t]);
    }
    hide Num, Weight;
  }

  lemma WakeupsWeighNothing(r: Requests, chosen: Request)
    ensures Pending(BroadcastReaders(r)) == Pending(r)
    ensures Pending(SignalWriter(r, chosen)) == Pending(r)
  {
    WakeupCounts(r, chosen);
  }

  lemma PendingDrops(s: State, e: Event)
    requires s.valid && Enabled(s, e) && WindsDown(e)
    requires e.ReadRecheck? || e.WriteRecheck? ==> s.Free()
    ensures Pending(Apply(s, e).requests) < Pending(s.requests)
  {
    hide Pending;
    PendingUpdate(s.requests, e.t, Apply(s, e).ModeOf(e.t));
    if e.ReadUnlock? || e.WriteUnlock? {
      PendingUpdate(s.requests, e.t, Idle);
      WakeupsWeighNothing(s.requests[e.t := Idle], e.chosen);
    }
  }

  lemma HolderExists(s: State) returns (t: Request)
    requires Inv(s) && !s.Free()
    ensures s.ModeOf(t) in if s.wActive then WRITERS else READERS
  {
    NumPositive(s.requests, READERS);
    NumPositive(s.requests, WRITERS);
    if s.wActive {
      t :| t in s.requests && s.requests[t] in WRITERS;
    } else {
      t :| t in s.requests && s.requests[t] in READERS;
    }
  }

  /** A request on its way to the lock can always take the mutex. */
  lemma EnteredStep(s: State, t: Request) returns (e: Event)
    requires s.ModeOf(t) in TAKING
    ensures WindsDown(e) && Enabled(s, e) && !e.ReadRecheck? && !e.WriteRecheck? && Apply(s, e).valid == s.valid
  {
    match s.ModeOf(t)
    case ReadEntered => e := ReadLock(t);
    case ReadTryEntered => e := ReadTryLock(t);
    case WriteEntered => e := WriteLock(t);
    case WriteTryEntered => e := WriteTryLock(t);
  }

  lemma NothingPends(s: State)
    ensures Pending(s.requests) == 0 <==> forall t :: s.ModeOf(t) in {Idle, DestroyEntered}
  {
    NobodyCounted(s, ONE);
    NumIncluded(s.requests, TWO, ONE);
    NumIncluded(s.requests, THREE, ONE);
    NumIncluded(s.requests, FOUR, ONE);
    forall t
      ensures s.ModeOf(t) in ONE <==> s.ModeOf(t) !in {Idle, DestroyEntered}
    {
      WeightSets(s.ModeOf(t));
    }
    hide Num;
  }

  lemma NumIncluded(r: Requests, a: set<Mode>, b: set<Mode>)
    requires a <= b
    ensures Num(r, b) == 0 ==> Num(r, a) == 0
  {
    NumPositive(r, a);
    NumPositive(r, b);
  }

  /** While anything is pending, a request on its way in or out, or the return of a
      woken waiter, brings the lock strictly closer to rest. */
  lemma Progress(s: State) returns (e: Event)
    requires Inv(s) && s.valid && Pending(s.requests) > 0
    ensures WindsDown(e) && Enabled(s, e) && Apply(s, e).valid
    ensures Pending(Apply(s, e).requests) < Pending(s.requests)
  {
    hide Pending;
    if t :| s.ModeOf(t) in TAKING {
      e := EnteredStep(s, t);
    } else if !s.Free() {
      e := HolderStep(s);
    } else {
      var t := WokenExists(s);
      e := if s.ModeOf(t) == ReadWoken then ReadRecheck(t) else WriteRecheck(t);
    }
    PendingDrops(s, e);
  }

  lemma HolderStep(s: State) returns (e: Event)
    requires Inv(s) && s.valid && !s.Free()
    ensures WindsDown(e) && Enabled(s, e) && !e.ReadRecheck? && !e.WriteRecheck? && Apply(s, e).valid
  {
    var t := HolderExists(s);
    var c := ParkedChoice(s.requests);
    match s.ModeOf(t)
    case Reading => e := Test(t, ToEndRead);
    case ReadLeaving => e := ReadUnlock(t, c);
    case Writing => e := Test(t, ToEndWrite);
    case WriteLeaving => e := WriteUnlock(t, c);
  }

  lemma WokenExists(s: State) returns (t: Request)
    requires Inv(s) && Pending(s.requests) > 0 && s.Free() && NobodyIn(s, TAKING)
    ensures s.ModeOf(t) in WOKEN
  {
    NothingPends(s);
    var u :| s.ModeOf(u) !in {Idle, DestroyEntered};
    NobodyCounted(s, READERS);
    NobodyCounted(s, WRITERS);
    assert s.ModeOf(u) !in READERS && s.ModeOf(u) !in WRITERS && s.ModeOf(u) !in TAKING;
    AllModes(s.ModeOf(u));
    assert u in In(s.requests, READ_WAITERS + WRITE_WAITERS);
    t :| t in In(s.requests, WOKEN);
  }

  /** No reachable state of a lock that has not been destroyed is stuck: if the
      holders unlock and no new request arrives, every waiter is served and the lock
      comes to rest. */
  lemma {:induction false} EveryWaiterCanBeServed(s: State) returns (events: seq<Event>)
    requires Inv(s) && s.valid
    ensures IsRun(s, events) && (forall i :: 0 <= i < |events| ==> WindsDown(events[i]))
    ensures forall t :: Exec(s, events).ModeOf(t) in {Idle, DestroyEntered}
    decreases Pending(s.requests)
  {
    hide Inv, Pending;
    NothingPends(s);
    if Pending(s.requests) == 0 {
      events := [];
    } else {
      var e := Progress(s);
      StepKeepsInv(s, e);
      var rest := EveryWaiterCanBeServed(Apply(s, e));
      events := [e] + rest;
      assert events[1..] == rest;
    }
  }

  // ------------------------------------------------- the functions themselves

  datatype Outcome = Enters | Done | Fails(errno: int) | Waits

  /** at_rwlock_t; Test is the beginning of every function but at_rwl_init, and each
      other method is one locked stretch of the C function named in its comment.
      requests is a history variable: it records what the condition variables and
      the callers know. */
  class AtRwlock {
    var valid: bool
    var rActive: int
    var wActive: bool
    var rWait: int
    var wWait: int
    ghost var requests: Requests

    ghost function Now(): State
      reads this
    {
      State(valid, rActive, wActive, rWait, wWait, requests)
    }

    /** at_rwl_init */
    constructor ()
      ensures Now() == INITIAL && Inv(Now())
    {
      rActive, rWait, wWait, wActive := 0, 0, 0, false;
      valid := true;
      requests := map[];
      new;
      InitialInv();
    }

    /** the test of valid, without the mutex */
    method Test(ghost t: Request, ghost call: Call) returns (o: Outcome)
      requires Inv(Now()) && Enabled(Now(), Event.Test(t, call))
      modifies this`requests
      ensures Now() == Apply(old(Now()), Event.Test(t, call)) && Inv(Now())
      ensures o == if valid then Enters else Fails(22)
    {
      StepKeepsInv(Now(), Event.Test(t, call));
      if !valid {
        return Fails(EINVAL);
      }
      requests := requests[t := call.Entered()];
      return Enters;
    }

    /** at_rwl_readlock, up to its first wait or its end */
    method ReadLock(ghost t: Request) returns (o: Outcome)
      requires Inv(Now()) && Enabled(Now(), Event.ReadLock(t))
      modifies this
      ensures Now() == Apply(old(Now()), Event.ReadLock(t)) && Inv(Now())
      ensures o == if Now().ModeOf(t) == Reading then Done else Waits
    {
      StepKeepsInv(Now(), Event.ReadLock(t));
      if wActive {
        rWait := rWait + 1;
        requests := requests[t := ReadParked];
        return Waits;
      }
      rActive := rActive + 1;
      requests := requests[t := Reading];
      return Done;
    }

    /** at_rwl_readlock, one return from condition_wait */
    method ReadRecheck(ghost t: Request) returns (o: Outcome)
      requires Inv(Now()) && Enabled(Now(), Event.ReadRecheck(t))
      modifies this
      ensures Now() == Apply(old(Now()), Event.ReadRecheck(t)) && Inv(Now())
      ensures o == if Now().ModeOf(t) == Reading then Done else Waits
    {
      StepKeepsInv(Now(), Event.ReadRecheck(t));
      if wActive {
        requests := requests[t := ReadParked];
        return Waits;
      }
      rWait := rWait - 1;
      rActive := rActive + 1;
      requests := requests[t := Reading];
      return Done;
    }

    /** at_rwl_readtrylock */
    method ReadTryLock(ghost t: Request) returns (o: Outcome)
      requires Inv(Now()) && Enabled(Now(), Event.ReadTryLock(t))
      modifies this
      ensures Now() == Apply(old(Now()), Event.ReadTryLock(t)) && Inv(Now())
      ensures o == if Now().ModeOf(t) == Reading then Done else Fails(16)
    {
      StepKeepsInv(Now(), Event.ReadTryLock(t));
      if wActive {
        requests := requests[t := Idle];
        return Fails(EBUSY);
      }
      rActive := rActive + 1;
      requests := requests[t := Reading];
      return Done;
    }

    /** at_rwl_readunlock */
    method ReadUnlock(ghost t: Request, ghost chosen: Request) returns (o: Outcome)
      requires Inv(Now()) && Enabled(Now(), Event.ReadUnlock(t, chosen))
      modifies this
      ensures Now() == Apply(old(Now()), Event.ReadUnlock(t, chosen)) && Inv(Now())
      ensures o == Done
    {
      StepKeepsInv(Now(), Event.ReadUnlock(t, chosen));
      rActive := rActive - 1;
      requests := requests[t := Idle];
      if rActive == 0 && wWait > 0 {
        requests := SignalWriter(requests, chosen);
      }
      return Done;
    }

    /** at_rwl_writelock, up to its first wait or its end */
    method WriteLock(ghost t: Request) returns (o: Outcome)
      requires Inv(Now()) && Enabled(Now(), Event.WriteLock(t))
      modifies this
      ensures Now() == Apply(old(Now()), Event.WriteLock(t)) && Inv(Now())
      ensures o == if Now().ModeOf(t) == Writing then Done else Waits
    {
      StepKeepsInv(Now(), Event.WriteLock(t));
      if wActive || rActive > 0 {
        wWait := wWait + 1;
        requests := requests[t := WriteParked];
        return Waits;
      }
      wActive := true;
      requests := requests[t := Writing];
      return Done;
    }

    /** at_rwl_writelock, one return from condition_wait */
    method WriteRecheck(ghost t: Request) returns (o: Outcome)
      requires Inv(Now()) && Enabled(Now(), Event.WriteRecheck(t))
      modifies this
      ensures Now() == Apply(old(Now()), Event.WriteRecheck(t)) && Inv(Now())
      ensures o == if Now().ModeOf(t) == Writing then Done else Waits
    {
      StepKeepsInv(Now(), Event.WriteRecheck(t));
      if wActive || rActive > 0 {
        requests := requests[t := WriteParked];
        return Waits;
      }
      wWait := wWait - 1;
      wActive := true;
      requests := requests[t := Writing];
      return Done;
    }

    /** at_rwl_writetrylock */
    method WriteTryLock(ghost t: Request) returns (o: Outcome)
      requires Inv(Now()) && Enabled(Now(), Event.WriteTryLock(t))
      modifies this
      ensures Now() == Apply(old(Now()), Event.WriteTryLock(t)) && Inv(Now())
      ensures o == if Now().ModeOf(t) == Writing then Done else Fails(16)
    {
      StepKeepsInv(Now(), Event.WriteTryLock(t));
      if wActive || rActive > 0 {
        requests := requests[t := Idle];
        return Fails(EBUSY);
      }
      wActive := true;
      requests := requests[t := Writing];
      return Done;
    }

    /** at_rwl_writeunlock */
    method WriteUnlock(ghost t: Request, ghost chosen: Request) returns (o: Outcome)
      requires Inv(Now()) && Enabled(Now(), Event.WriteUnlock(t, chosen))
      modifies this
      ensures Now() == Apply(old(Now()), Event.WriteUnlock(t, chosen)) && Inv(Now())
      ensures o == Done
    {
      StepKeepsInv(Now(), Event.WriteUnlock(t, chosen));
      wActive := false;
      requests := requests[t := Idle];
      if rWait > 0 {
        requests := BroadcastReaders(requests);
      } else if wWait > 0 {
        requests := SignalWriter(requests, chosen);
      }
      return Done;
    }

    /** at_rwl_destroy */
    method Destroy(ghost t: Request) returns (o: Outcome)
      requires Inv(Now()) && Enabled(Now(), Event.Destroy(t))
      modifies this
      ensures Now() == Apply(old(Now()), Event.Destroy(t)) && Inv(Now())
      ensures o == if old(Now()).Unused() then Done else Fails(16)
    {
      StepKeepsInv(Now(), Event.Destroy(t));
      requests := requests[t := Idle];
      if rActive > 0 || wActive {
        return Fails(EBUSY);
      }
      if rWait != 0 || wWait != 0 {
        return Fails(EBUSY);
      }
      valid := false;
      return Done;
    }
  }
}
