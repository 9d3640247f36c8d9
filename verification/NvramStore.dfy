/** The two-bank flash store (AppleCore99NVRAM-1.0d1/Core99NVRAM.cpp).

    The driver keeps a RAM shadow of the current bank.  sync seals the shadow,
    erases the other bank, programs it byte by byte, reads it back and only then
    swaps the bank pointers; start picks the bank with the higher generation.
    Each effect on the flash is a step of its own, so a crash, which is a Boot
    step, can fall between any two of them. */
module NvramStore {
  import opened Bytes
  import opened Checksums
  import opened NvramImage

  datatype Phase =
    | Idle
    | Sealed                       // the shadow is sealed, the erase is next
    | Programming(written: nat)    // this many byte writes reported success

  /** attempts is a history variable: the images that sync has begun to write
      since the current bank was last chosen. */
  datatype Store = Store(a: Image, b: Image, currentIsA: bool, shadow: Image, generation: int,
                         phase: Phase, attempts: set<Image>) {
    function Current(): Image { if currentIsA then a else b }
    function Other(): Image { if currentIsA then b else a }
    function WithOther(image: Image): Store { if currentIsA then this.(b := image) else this.(a := image) }
  }

  /** start chooses bank A only when its generation is strictly higher. */
  predicate BootsFromA(a: Image, b: Image) {
    Validate(a) > Validate(b)
  }

  function Boot(s: Store): Store {
    var fromA := BootsFromA(s.a, s.b);
    var chosen := if fromA then s.a else s.b;
    Store(s.a, s.b, fromA, chosen, Validate(chosen), Idle, {})
  }

  function Loaded(s: Store): Image {
    Boot(s).shadow
  }

  datatype Event =
    | Edit(image: Image)                      // write() into the shadow
    | Begin                                   // sync found a difference and sealed the shadow
    | Erase(erased: bool, ok: bool)           // atomic; the status may be wrong
    | Program(value: byte, ok: bool)          // the next cell now reads value
    | Finish                                  // read back, swap the banks if equal
    | Crash                                   // power lost, then start()

  ghost predicate Enabled(s: Store, e: Event) {
    match e
    case Edit(_) => s.phase == Idle
    case Begin => s.phase == Idle && s.shadow != s.Current()
    case Erase(_, _) => s.phase == Sealed
    case Program(_, _) => s.phase.Programming? && s.phase.written < SIZE
    case Finish => s.phase == Programming(SIZE)
    case Crash => true
  }

  function Apply(s: Store, e: Event): (s': Store)
    requires 0 <= s.generation <= ULONG_MAX
    requires e.Program? ==> s.phase.Programming? && s.phase.written < SIZE
    ensures 0 <= s'.generation <= ULONG_MAX
  {
    match e
    case Edit(image) => s.(shadow := image)
    case Begin =>
      var g := NextGeneration(s.generation);
      var sealed := Seal(s.shadow, g);
      s.(generation := g, shadow := sealed, phase := Sealed, attempts := s.attempts + {sealed})
    case Erase(erased, ok) =>
      var blank: Image := Erased(SIZE);
      var s' := if erased then s.WithOther(blank) else s;
      s'.(phase := if ok && s'.Other() == blank then Programming(0) else Idle)
    case Program(value, ok) =>
      var n := s.phase.written;
      s.WithOther(s.Other()[n := value]).(phase := if ok then Programming(n + 1) else Idle)
    case Finish =>
      if s.Other() == s.shadow then s.(currentIsA := !s.currentIsA, phase := Idle, attempts := {})
      else s.(phase := Idle)
    case Crash => Boot(s)
  }

  // ------------------------------------------- what the theorems assume

  /** The caller keeps the signature byte, and a half-programmed bank is not a valid
      image of something else. */
  ghost predicate Kept(s: Store, e: Event)
    requires 0 <= s.generation <= ULONG_MAX && Enabled(s, e)
  {
    match e
    case Edit(image) => image[0] == SIGNATURE
    case Program(value, _) =>
      var image: Image := s.Other()[s.phase.written := value];
      image == s.shadow || Validate(image) == 0
    case _ => true
  }

  /** And the generation does not wrap. */
  ghost predicate Assumed(s: Store, e: Event)
    requires 0 <= s.generation <= ULONG_MAX && Enabled(s, e)
  {
    Kept(s, e) && (e.Begin? ==> s.generation < ULONG_MAX)
  }

  ghost predicate Inv(s: Store) {
    && 0 < Validate(s.Current()) <= s.generation <= ULONG_MAX
    && s.shadow[0] == SIGNATURE
    && (forall x :: x in s.attempts ==> Validate(s.Current()) < Validate(x) <= s.generation)
    && (Boot(s).currentIsA == s.currentIsA || s.Other() in s.attempts)
    && (s.phase != Idle ==> s.shadow in s.attempts && Validate(s.shadow) == s.generation)
  }

  lemma ValidIsSigned(s: Image)
    ensures Validate(s) > 0 ==> s[0] == SIGNATURE
  {
  }

  lemma BlankIsInvalid()
    ensures Validate(Erased(SIZE)) == 0
  {
    ErasedAdlerFieldIsInvalid(Erased(SIZE));
  }

  lemma AttemptKeepsInv(s: Store, sealed: Image)
    requires Inv(s) && s.phase == Idle && s.generation < ULONG_MAX
    requires sealed[0] == SIGNATURE && Validate(sealed) == s.generation + 1
    ensures Inv(s.(generation := s.generation + 1, shadow := sealed, phase := Sealed,
                   attempts := s.attempts + {sealed}))
  {
  }

  lemma BeginKeepsInv(s: Store)
    requires Inv(s) && Enabled(s, Begin) && Assumed(s, Begin)
    ensures Inv(Apply(s, Begin))
  {
    var sealed := SealedNext(s);
    AttemptKeepsInv(s, sealed);
  }

  lemma SealedNext(s: Store) returns (sealed: Image)
    requires 0 <= s.generation < ULONG_MAX && s.shadow[0] == SIGNATURE
    ensures sealed[0] == SIGNATURE && Validate(sealed) == s.generation + 1
    ensures Apply(s, Begin) ==
            s.(generation := s.generation + 1, shadow := sealed, phase := Sealed, attempts := s.attempts + {sealed})
  {
    hide Validate, Seal;
    sealed := Apply(s, Begin).shadow;
    SealedImageValidates(s.shadow, NextGeneration(s.generation));
  }

  lemma EraseKeepsInv(s: Store, e: Event)
    requires Inv(s) && e.Erase? && Enabled(s, e)
    ensures Inv(Apply(s, e))
  {
    BlankIsInvalid();
  }

  lemma ProgramKeepsInv(s: Store, e: Event)
    requires Inv(s) && e.Program? && Enabled(s, e) && Assumed(s, e)
    ensures Inv(Apply(s, e))
  {
  }

  lemma FinishKeepsInv(s: Store)
    requires Inv(s) && Enabled(s, Finish)
    ensures Inv(Apply(s, Finish))
  {
  }

  lemma CrashKeepsInv(s: Store)
    requires Inv(s)
    ensures Inv(Apply(s, Crash))
  {
    ValidIsSigned(s.a);
    ValidIsSigned(s.b);
  }

  lemma StepKeepsInv(s: Store, e: Event)
    requires Inv(s) && Enabled(s, e) && Assumed(s, e)
    ensures Inv(Apply(s, e))
  {
    match e
    case Edit(_) =>
    case Begin => BeginKeepsInv(s);
    case Erase(_, _) => EraseKeepsInv(s, e);
    case Program(_, _) => ProgramKeepsInv(s, e);
    case Finish => FinishKeepsInv(s);
    case Crash => CrashKeepsInv(s);
  }

  /** Flash with at least one valid bank gives the driver its invariant. */
  lemma BootEstablishesInv(s: Store)
    requires Validate(s.a) > 0 || Validate(s.b) > 0
    ensures Inv(Boot(s)) && Boot(s).attempts == {}
  {
    ValidIsSigned(s.a);
    ValidIsSigned(s.b);
  }

  // ------------------------------------------------------------------- runs

  ghost predicate IsRun(s: Store, events: seq<Event>)
    decreases |events|
  {
    0 <= s.generation <= ULONG_MAX &&
    (events == [] || (Enabled(s, events[0]) && IsRun(Apply(s, events[0]), events[1..])))
  }

  ghost predicate AssumedThroughout(s: Store, events: seq<Event>)
    requires IsRun(s, events)
    decreases |events|
  {
    events == [] || (Assumed(s, events[0]) && AssumedThroughout(Apply(s, events[0]), events[1..]))
  }

  ghost function Exec(s: Store, events: seq<Event>): (t: Store)
    requires IsRun(s, events)
    ensures 0 <= t.generation <= ULONG_MAX
    decreases |events|
  {
    if events == [] then s else Exec(Apply(s, events[0]), events[1..])
  }

  lemma NothingRuns(s: Store)
    requires 0 <= s.generation <= ULONG_MAX
    ensures IsRun(s, []) && Exec(s, []) == s
  {
  }

  lemma {:induction false} RunExtends(s: Store, events: seq<Event>, e: Event)
    requires IsRun(s, events) && Enabled(Exec(s, events), e)
    ensures IsRun(s, events + [e]) && Exec(s, events + [e]) == Apply(Exec(s, events), e)
    decreases |events|
  {
    if events == [] {
      assert events + [e] == [e];
    } else {
      RunExtends(Apply(s, events[0]), events[1..], e);
      assert (events + [e])[1..] == events[1..] + [e];
    }
  }

  lemma {:induction false} RunsConcat(s: Store, first: seq<Event>, second: seq<Event>)
    requires IsRun(s, first) && IsRun(Exec(s, first), second)
    ensures IsRun(s, first + second) && Exec(s, first + second) == Exec(Exec(s, first), second)
    decreases |first|
  {
    if first == [] {
      assert first + second == second;
    } else {
      RunsConcat(Apply(s, first[0]), first[1..], second);
      assert (first + second)[1..] == first[1..] + second;
    }
  }

  lemma {:induction false} RunKeepsInv(s: Store, events: seq<Event>)
    requires Inv(s) && IsRun(s, events) && AssumedThroughout(s, events)
    ensures Inv(Exec(s, events))
    decreases |events|
  {
    if events != [] {
      StepKeepsInv(s, events[0]);
      RunKeepsInv(Apply(s, events[0]), events[1..]);
    }
  }

  /** Crash atomicity over any number of syncs, failed syncs and crashes:
      wherever power is lost, start() loads the current bank's contents or one
      of the fully written images that sync was writing after them. */
  lemma CrashAtomicity(s: Store, events: seq<Event>)
    requires Inv(s) && IsRun(s, events) && AssumedThroughout(s, events)
    ensures var t := Exec(s, events);
            Loaded(t) == t.Current() || (Loaded(t) == t.Other() && t.Other() in t.attempts)
    ensures Inv(Boot(Exec(s, events)))
  {
    RunKeepsInv(s, events);
    StepKeepsInv(Exec(s, events), Crash);
  }

  predicate WithinOneSync(e: Event) {
    e.Erase? || e.Program?
  }

  /** Within one sync nothing but the other bank and the phase moves. */
  lemma {:induction false} OneSyncLeavesCurrent(s: Store, events: seq<Event>)
    requires IsRun(s, events) && forall i :: 0 <= i < |events| ==> WithinOneSync(events[i])
    ensures var t := Exec(s, events);
            t.Current() == s.Current() && t.shadow == s.shadow && t.attempts == s.attempts
    decreases |events|
  {
    if events != [] {
      assert WithinOneSync(events[0]);
      OneSyncLeavesCurrent(Apply(s, events[0]), events[1..]);
    }
  }

  /** One sync, crashed anywhere: the old contents or the sealed shadow, whole. */
  lemma OneSyncIsAtomic(s: Store, events: seq<Event>)
    requires Inv(s) && s.phase == Idle && s.attempts == {} && s.shadow != s.Current()
    requires IsRun(s, [Begin] + events) && AssumedThroughout(s, [Begin] + events)
    requires forall i :: 0 <= i < |events| ==> WithinOneSync(events[i])
    ensures Loaded(Exec(s, [Begin] + events)) in {s.Current(), Seal(s.shadow, NextGeneration(s.generation))}
  {
    assert ([Begin] + events)[1..] == events;
    OneSyncLeavesCurrent(Apply(s, Begin), events);
    CrashAtomicity(s, [Begin] + events);
  }

  // ------------------------------------------------------- how far the counter is

  ghost predicate KeptThroughout(s: Store, events: seq<Event>)
    requires IsRun(s, events)
    decreases |events|
  {
    events == [] || (Kept(s, events[0]) && KeptThroughout(Apply(s, events[0]), events[1..]))
  }

  /** How many syncs a run begins. */
  function Begins(events: seq<Event>): nat {
    if events == [] then 0 else (if events[0].Begin? then 1 else 0) + Begins(events[1..])
  }

  lemma StepCounts(s: Store, e: Event)
    requires 0 <= s.generation <= ULONG_MAX && (e.Begin? ==> s.generation < ULONG_MAX)
    requires Inv(s) && Enabled(s, e) && Kept(s, e)
    ensures Inv(Apply(s, e)) && Apply(s, e).generation <= s.generation + (if e.Begin? then 1 else 0)
  {
    hide Inv, Boot, Validate, Seal;
    StepKeepsInv(s, e);
    match e
    case Crash => CrashCounts(s);
    case Begin => NextCounts(s.generation);
    case Edit(_) =>
    case Erase(_, _) =>
    case Program(_, _) =>
    case Finish =>
  }

  lemma NextCounts(g: int)
    requires 0 <= g < ULONG_MAX
    ensures NextGeneration(g) == g + 1
  {
  }

  /** start() never goes on from more than was counted before. */
  lemma CrashCounts(s: Store)
    requires Inv(s)
    ensures Boot(s).generation <= s.generation
  {
    hide Validate;
  }

  /** Each sync uses up one generation, and a crash none: the counter cannot wrap in
      as many syncs as it was short of its limit, crashes and failures included, so
      for those the assumption about it holds by itself. */
  lemma {:induction false} GenerationIsBounded(s: Store, events: seq<Event>)
    requires Inv(s) && IsRun(s, events) && KeptThroughout(s, events)
    requires s.generation + Begins(events) <= ULONG_MAX
    ensures AssumedThroughout(s, events)
    ensures Exec(s, events).generation <= s.generation + Begins(events)
    decreases |events|
  {
    if events != [] {
      StepCounts(s, events[0]);
      GenerationIsBounded(Apply(s, events[0]), events[1..]);
    }
  }

  /** The same counted from a start(): from the higher of the two generations found. */
  lemma FirstSyncsDoNotWrap(s: Store, events: seq<Event>)
    requires Validate(s.a) > 0 || Validate(s.b) > 0
    requires IsRun(Boot(s), events) && KeptThroughout(Boot(s), events)
    requires Validate(s.a) + Begins(events) <= ULONG_MAX && Validate(s.b) + Begins(events) <= ULONG_MAX
    ensures AssumedThroughout(Boot(s), events)
    ensures || Exec(Boot(s), events).generation <= Validate(s.a) + Begins(events)
            || Exec(Boot(s), events).generation <= Validate(s.b) + Begins(events)
  {
    BootEstablishesInv(s);
    GenerationIsBounded(Boot(s), events);
  }

  // ------------------------------------------------------------ a sync that works

  /** A device that programs every cell of an image and says so. */
  function Writes(image: Image): (w: seq<Event>)
    ensures |w| == SIZE && forall i :: 0 <= i < SIZE ==> w[i] == Program(image[i], true)
  {
    seq(SIZE, i requires 0 <= i < SIZE => Program(image[i], true))
  }

  lemma {:induction false} WritesFill(s: Store, k: nat)
    requires 0 <= s.generation <= ULONG_MAX && k <= SIZE && s.phase == Programming(k)
    requires s.Other()[..k] == s.shadow[..k]
    ensures IsRun(s, Writes(s.shadow)[k..])
    ensures Exec(s, Writes(s.shadow)[k..]) == s.WithOther(s.shadow).(phase := Programming(SIZE))
    decreases SIZE - k
  {
    var w := Writes(s.shadow);
    if k == SIZE {
      assert s.Other() == s.Other()[..SIZE] == s.shadow;
      assert w[k..] == [];
    } else {
      assert w[k..][0] == Program(s.shadow[k], true) && w[k..][1..] == w[k + 1..];
      var s' := Apply(s, w[k]);
      assert s'.Other()[..k + 1] == s.Other()[..k] + [s.shadow[k]] == s.shadow[..k + 1];
      WritesFill(s', k + 1);
    }
  }

  lemma RunsNext(s: Store, e: Event, events: seq<Event>)
    requires 0 <= s.generation <= ULONG_MAX && Enabled(s, e) && IsRun(Apply(s, e), events)
    ensures IsRun(s, [e] + events) && Exec(s, [e] + events) == Exec(Apply(s, e), events)
  {
    assert ([e] + events)[1..] == events;
  }

  /** One sync that everything goes well in. */
  function GoodSync(edit: Image, sealed: Image): seq<Event> {
    [Edit(edit)] + ([Begin] + ([Erase(true, true)] + (Writes(sealed) + [Finish])))
  }

  /** Power lost after it. */
  function GoodSyncThenCrash(edit: Image, sealed: Image): seq<Event> {
    GoodSync(edit, sealed) + [Crash]
  }

  lemma GoodEraseAndWrites(s: Store)
    requires 0 <= s.generation <= ULONG_MAX && s.phase == Sealed
    ensures var events := [Erase(true, true)] + (Writes(s.shadow) + [Finish]);
            IsRun(s, events) &&
            Exec(s, events) == s.WithOther(s.shadow).(currentIsA := !s.currentIsA, phase := Idle, attempts := {})
  {
    var erased := Apply(s, Erase(true, true));
    assert erased.Other()[..0] == erased.shadow[..0] && Writes(s.shadow)[0..] == Writes(s.shadow);
    hide Enabled, Writes;
    WritesFill(erased, 0);
    FinishRuns(s, erased, Writes(s.shadow));
    RunsNext(s, Erase(true, true), Writes(s.shadow) + [Finish]);
  }

  lemma FinishRuns(s: Store, erased: Store, writes: seq<Event>)
    requires 0 <= s.generation <= ULONG_MAX && erased == Apply(s, Erase(true, true)) && s.phase == Sealed
    requires IsRun(erased, writes)
    requires Exec(erased, writes) == erased.WithOther(s.shadow).(phase := Programming(SIZE))
    ensures IsRun(erased, writes + [Finish])
    ensures Exec(erased, writes + [Finish]) ==
            s.WithOther(s.shadow).(currentIsA := !s.currentIsA, phase := Idle, attempts := {})
  {
    RunExtends(erased, writes, Finish);
  }

  /** The generation start() goes on from. */
  function Newest(a: Image, b: Image): int {
    if Validate(a) > Validate(b) then Validate(a) else Validate(b)
  }

  /** What the store is for: on flash with a valid bank, start, change something but
      the signature, sync with a device that works, lose power: the next start loads
      exactly that change, sealed with the next generation. */
  lemma GoodSyncSurvives(s: Store, edit: Image)
    requires 0 < Newest(s.a, s.b) < 0xFFFF_FFFF
    requires edit[0] == 0x5A && edit != Loaded(s)
    ensures var g := Newest(s.a, s.b);
            var events := GoodSyncThenCrash(edit, Seal(edit, g + 1));
            && IsRun(Boot(s), events)
            && var t := Exec(Boot(s), events);
               t.shadow == t.Current() == Seal(edit, g + 1) && t.generation == Validate(t.shadow) == g + 1
  {
    hide Validate, Seal, Writes, Inv, Exec, IsRun;
    var g, start := Newest(s.a, s.b), Boot(s);
    var sealed := Seal(edit, g + 1);
    BootEstablishesInv(s);
    SealedImageValidates(edit, g + 1);
    var edited := Apply(start, Edit(edit));
    var begun := Apply(edited, Begin);
    GoodEraseAndWrites(begun);
    var rest := [Erase(true, true)] + (Writes(sealed) + [Finish]);
    RunsNext(edited, Begin, rest);
    RunsNext(start, Edit(edit), [Begin] + rest);
    RunExtends(start, GoodSync(edit, sealed), Crash);
  }

  predicate LeavesFlashAlone(e: Event) {
    e.Edit? || e.Crash?
  }

  /** A sync that completed is recovered by every later start(), however often
      the machine crashes and whatever is done to the shadow meanwhile. */
  lemma {:induction false} CompletedSyncIsRecovered(s: Store, events: seq<Event>)
    requires Inv(s) && s.phase == Idle && s.attempts == {}
    requires IsRun(s, events) && AssumedThroughout(s, events)
    requires forall i :: 0 <= i < |events| ==> LeavesFlashAlone(events[i])
    ensures Loaded(Exec(s, events)) == s.Current()
    decreases |events|
  {
    if events != [] {
      assert LeavesFlashAlone(events[0]);
      StepKeepsInv(s, events[0]);
      CompletedSyncIsRecovered(Apply(s, events[0]), events[1..]);
    }
  }

  /** When the read-back succeeds the sealed shadow is the current bank, and it
      is what start() loads. */
  lemma FinishedSyncIsCurrent(s: Store)
    requires Inv(s) && Enabled(s, Finish) && s.Other() == s.shadow
    ensures var t := Apply(s, Finish);
            t.Current() == s.shadow && t.attempts == {} && Loaded(t) == s.shadow && Validate(s.shadow) == s.generation
  {
    StepKeepsInv(s, Finish);
  }

  /** Why the generation must not wrap: the image then written is never chosen. */
  lemma WrappedGenerationIsLost(s: Store)
    requires 0 < Validate(s.Current()) && s.generation == ULONG_MAX
    ensures Loaded(s.WithOther(Apply(s, Begin).shadow)) == s.Current()
  {
    SealedImageValidates(s.shadow, 0);
  }

  // ------------------------------------------------ a device that does its job

  /** The bank during a sync: what has not been written is erased, and what has been
      reads right or is still erased. */
  ghost predicate FaithfulSoFar(s: Store) {
    && s.phase.Programming? && s.phase.written <= SIZE
    && Holey(s.Other(), s.shadow)
    && forall i :: s.phase.written <= i < SIZE ==> s.Other()[i] == 0xFF
  }

  /** The device programs the cell right or leaves it erased, whatever it reports. */
  ghost predicate FaithfulWrite(s: Store, e: Event) {
    && e.Program? && Enabled(s, e)
    && (e.value == s.shadow[s.phase.written] || e.value == 0xFF)
  }

  lemma EraseStartsFaithful(s: Store)
    requires 0 <= s.generation <= ULONG_MAX && Enabled(s, Erase(true, true))
    ensures FaithfulSoFar(Apply(s, Erase(true, true)))
  {
  }

  /** With such a device the only thing left to assume of an image is that no copy of
      it with holes passes for valid; and the bank stays such a copy. */
  lemma FaithfulDeviceMeetsAssumption(s: Store, e: Event)
    requires Inv(s) && FaithfulSoFar(s) && FaithfulWrite(s, e) && HolesAreDetected(s.shadow)
    ensures Assumed(s, e)
    ensures e.ok ==> FaithfulSoFar(Apply(s, e))
  {
    EveryHoleIsDetected(s.Other()[s.phase.written := e.value], s.shadow);
    hide Validate, HolesAreDetected;
  }

  ghost predicate FaithfulWrites(s: Store, events: seq<Event>)
    requires 0 <= s.generation <= ULONG_MAX
    decreases |events|
  {
    events != [] ==> FaithfulWrite(s, events[0]) && FaithfulWrites(Apply(s, events[0]), events[1..])
  }

  /** So all byte writes of a sync meet it, however many cells stay erased. */
  lemma {:induction false} FaithfulSyncMeetsAssumption(s: Store, events: seq<Event>)
    requires Inv(s) && FaithfulSoFar(s) && FaithfulWrites(s, events) && HolesAreDetected(s.shadow)
    requires IsRun(s, events)
    ensures AssumedThroughout(s, events)
    decreases |events|
  {
    if events != [] {
      var e := events[0];
      FaithfulDeviceMeetsAssumption(s, e);
      StepKeepsInv(s, e);
      if e.ok {
        FaithfulSyncMeetsAssumption(Apply(s, e), events[1..]);
      } else {
        NoWriteAfterFailure(Apply(s, e), events[1..]);
      }
    }
  }

  /** A write that fails is the last. */
  lemma NoWriteAfterFailure(s: Store, events: seq<Event>)
    requires s.phase == Idle && 0 <= s.generation <= ULONG_MAX && FaithfulWrites(s, events) && IsRun(s, events)
    ensures AssumedThroughout(s, events)
  {
  }

  // ---------------------------------------------------------------- the driver

  /** Outside stands for a bcopy that runs outside the shadow: what it does there is
      not part of this model. */
  datatype Status = Success | NotReady | BadArgument | Outside

  /** The range check of read and write, whose sum is an IOByteCount of 32 bits. */
  predicate PassesCheck(offset: nat, length: nat) {
    length > 0 && (offset + length) % (ULONG_MAX + 1) <= SIZE
  }

  /** The check is right exactly when the sum does not wrap: it never refuses a range
      inside the shadow, and lets one outside through if and only if the sum wraps to
      no more than the shadow's size. */
  lemma CheckIsRightExactly(offset: nat, length: nat)
    requires 0 < length && offset <= ULONG_MAX && length <= ULONG_MAX
    ensures offset + length <= SIZE ==> PassesCheck(offset, length)
    ensures PassesCheck(offset, length) && offset + length > SIZE <==>
            ULONG_MAX < offset + length <= ULONG_MAX + 1 + SIZE
  {
  }

  /** Core99NVRAM.  The flash is the two areas; what the device does with each
      command comes in as arguments, since the status register is read from it. */
  class Core99NVRAM {
    const areaA: array<byte>
    const areaB: array<byte>
    const nvramShadow: array<byte>
    const started: bool                // whether start got as far as allocating the shadow
    var nvramCurrent: array<byte>
    var nvramNext: array<byte>
    var generation: int
    ghost var phase: Phase
    ghost var attempts: set<Image>

    ghost predicate Valid()
      reads this, areaA, areaB, nvramShadow
    {
      && started && areaA.Length == areaB.Length == nvramShadow.Length == SIZE
      && areaA != areaB && areaA != nvramShadow && areaB != nvramShadow
      && ((nvramCurrent == areaA && nvramNext == areaB) || (nvramCurrent == areaB && nvramNext == areaA))
      && 0 <= generation <= ULONG_MAX
    }

    ghost function Now(): Store
      requires Valid()
      reads this, areaA, areaB, nvramShadow
    {
      Store(areaA[..], areaB[..], nvramCurrent == areaA, nvramShadow[..], generation, phase, attempts)
    }

    /** validateGeneration */
    static method ValidateGeneration(bank: array<byte>) returns (g: int)
      requires bank.Length == SIZE
      ensures g == Validate(bank[..])
    {
      if bank[0] != SIGNATURE {
        return 0;
      }
      var check := ChrpCheckSum(bank);
      if bank[CHECKSUM_AT] != check {
        return 0;
      }
      var adler := Adler32(bank, ADLER_START, SIZE - ADLER_START);
      assert bank[ADLER_START..ADLER_START + (SIZE - ADLER_START)] == bank[..][ADLER_START..];
      if Long(bank[..], ADLER_AT) != adler as int {
        return 0;
      }
      return Long(bank[..], GENERATION_AT);
    }

    /** bcmp over a whole image */
    static method Same(x: array<byte>, y: array<byte>) returns (same: bool)
      requires x.Length == y.Length == SIZE
      ensures same <==> x[..] == y[..]
    {
      var cnt := 0;
      while cnt < SIZE
        invariant 0 <= cnt <= SIZE
        invariant x[..cnt] == y[..cnt]
      {
        if x[cnt] != y[cnt] {
          assert x[..][cnt] != y[..][cnt];
          return false;
        }
        cnt := cnt + 1;
      }
      assert x[..] == x[..SIZE] && y[..] == y[..SIZE];
      return true;
    }

    /** start, on flash that holds whatever the last power cut left there */
    constructor (flashA: array<byte>, flashB: array<byte>)
      requires flashA.Length == flashB.Length == SIZE && flashA != flashB
      ensures Valid() && areaA == flashA && areaB == flashB && fresh(nvramShadow)
      ensures forall s: Store {:trigger Boot(s)} :: s.a == flashA[..] && s.b == flashB[..] ==> Now() == Boot(s)
    {
      areaA, areaB := flashA, flashB;
      nvramShadow := new byte[SIZE];
      started := true;
      nvramCurrent, nvramNext := flashB, flashA;
      generation := 0;
      phase := Idle;
      attempts := {};
      new;
      Select();
    }

    /** start, when the shadow cannot be had */
    constructor WithoutShadow(flashA: array<byte>, flashB: array<byte>)
      ensures !started
    {
      areaA, areaB, nvramShadow := flashA, flashB, flashA;
      nvramCurrent, nvramNext := flashB, flashA;
      started := false;
    }

    /** the part of start that finds the current partition and loads the shadow */
    method Select()
      requires Valid() && phase == Idle && attempts == {}
      modifies this`nvramCurrent, this`nvramNext, this`generation, nvramShadow
      ensures Valid() && Now() == Boot(old(Now()))
      ensures nvramCurrent == areaA <==> Validate(areaA[..]) > Validate(areaB[..])
      ensures generation == Newest(areaA[..], areaB[..]) && nvramShadow[..] == nvramCurrent[..]
      ensures areaA[..] == old(areaA[..]) && areaB[..] == old(areaB[..])
    {
      var gen1 := ValidateGeneration(areaA);
      var gen2 := ValidateGeneration(areaB);
      if gen1 > gen2 {
        generation := gen1;
        nvramCurrent, nvramNext := areaA, areaB;
      } else {
        generation := gen2;
        nvramCurrent, nvramNext := areaB, areaA;
      }
      Copy(nvramShadow, 0, nvramCurrent[..]);
      assert nvramShadow[..] == nvramCurrent[..];
    }

    /** What read and write answer for a shadow that is there: the sum is one of 32
        bits, and a wrapped one may pass for a range inside. */
    static ghost predicate Answers(status: Status, offset: nat, buffer: array?<byte>, length: nat) {
      && (status == BadArgument <==> buffer == null || length == 0 || (offset + length) % 0x1_0000_0000 > 0x2000)
      && (status == Success <==> buffer != null && length > 0 && offset + length <= 0x2000)
      && status != NotReady
    }

    method Read(offset: nat, buffer: array?<byte>, length: nat) returns (status: Status)
      requires started ==> Valid() && buffer !in {areaA, areaB, nvramShadow}
      requires buffer != null ==> length <= buffer.Length
      modifies buffer
      ensures if !started then status == NotReady else Answers(status, offset, buffer, length)
      ensures status == Success ==>
                buffer[..] == Written(old(buffer[..]), 0, nvramShadow[offset..offset + length])
      ensures status != Success && buffer != null ==> unchanged(buffer)
    {
      if !started {
        return NotReady;
      }
      if buffer == null || length <= 0 || (offset + length) % (ULONG_MAX + 1) > SIZE {
        return BadArgument;
      }
      if offset + length > SIZE {
        return Outside;
      }
      Copy(buffer, 0, nvramShadow[offset..offset + length]);
      return Success;
    }

    /** write: only the shadow changes, and only where the caller said */
    method Write(offset: nat, buffer: array?<byte>, length: nat) returns (status: Status)
      requires started ==> Valid() && phase == Idle
      requires buffer != null ==> length <= buffer.Length
      modifies nvramShadow
      ensures if !started then status == Success else Answers(status, offset, buffer, length)
      ensures started && status == Success ==>
                && Valid()
                && Now() == Apply(old(Now()), Edit(Written(old(nvramShadow[..]), offset, old(buffer[..length]))))
      ensures !started || status != Success ==> unchanged(nvramShadow)
    {
      if !started {
        return Success;
      }
      if buffer == null || length <= 0 || (offset + length) % (ULONG_MAX + 1) > SIZE {
        return BadArgument;
      }
      if offset + length > SIZE {
        return Outside;
      }
      Copy(nvramShadow, offset, buffer[..length]);
      return Success;
    }

    method VerifyEraseBlock() returns (ok: bool)
      requires Valid()
      ensures ok <==> nvramNext[..] == Erased(SIZE)
    {
      var cnt := 0;
      while cnt < SIZE
        invariant 0 <= cnt <= SIZE
        invariant forall i :: 0 <= i < cnt ==> nvramNext[i] == 0xFF
      {
        if nvramNext[cnt] != 0xFF {
          assert nvramNext[..][cnt] != Erased(SIZE)[cnt];
          return false;
        }
        cnt := cnt + 1;
      }
      return true;
    }

    /** eraseBlock: erased says what the device did, status what it reported */
    method EraseBlock(erased: bool, status: bool) returns (ok: bool)
      requires Valid() && phase == Sealed
      modifies this`phase, nvramNext
      ensures Valid() && Now() == Apply(old(Now()), Erase(erased, status))
      ensures ok <==> phase == Programming(0)
    {
      if erased {
        forall i | 0 <= i < SIZE {
          nvramNext[i] := 0xFF;
        }
        assert nvramNext[..] == Erased(SIZE);
      }
      ok := status;
      if ok {
        ok := VerifyEraseBlock();
      }
      phase := if ok then Programming(0) else Idle;
    }

    /** The header updates of sync, in its order: generation, checksum, Adler-32. */
    method SealShadow()
      requires Valid() && phase == Idle
      modifies this`generation, this`phase, this`attempts, nvramShadow
      ensures Valid() && Now() == Apply(old(Now()), Begin)
    {
      hide Validate, Boot, Adler, Chrp, Enabled;
      ghost var was: Image := nvramShadow[..];
      generation := NextGeneration(generation);
      PutShadowLong(GENERATION_AT, generation);
      var check := ChrpCheckSum(nvramShadow);
      nvramShadow[CHECKSUM_AT] := check;
      var adler := Adler32(nvramShadow, ADLER_START, SIZE - ADLER_START);
      assert nvramShadow[ADLER_START..ADLER_START + (SIZE - ADLER_START)] == nvramShadow[..][ADLER_START..];
      PutShadowLong(ADLER_AT, adler as int);
      assert nvramShadow[..] == Seal(was, generation);
      phase := Sealed;
      attempts := attempts + {nvramShadow[..]};
    }

    method PutShadowLong(at: nat, v: int)
      requires Valid() && at + 4 <= SIZE && 0 <= v <= ULONG_MAX
      modifies nvramShadow
      ensures nvramShadow[..] == PutLong(old(nvramShadow[..]), at, v)
    {
      var bytes := PutLong(nvramShadow[..], at, v);
      nvramShadow[at] := bytes[at];
      nvramShadow[at + 1] := bytes[at + 1];
      nvramShadow[at + 2] := bytes[at + 2];
      nvramShadow[at + 3] := bytes[at + 3];
      assert nvramShadow[..] == bytes;
    }

    /** The next byte of writeBlock. */
    method WriteByte(cnt: nat, cell: byte, status: bool) returns (ok: bool)
      requires Valid() && cnt < SIZE && phase == Programming(cnt)
      modifies this`phase, nvramNext
      ensures Valid() && Now() == Apply(old(Now()), Program(cell, status))
      ensures ok == status
    {
      nvramNext[cnt] := cell;
      phase := if status then Programming(cnt + 1) else Idle;
      return status;
    }

    /** writeBlock: device[i] is what cell i reads after its write and whether
        the status register then reported success */
    method WriteBlock(device: seq<(byte, bool)>) returns (ok: bool, ghost events: seq<Event>)
      requires Valid() && phase == Programming(0) && |device| == SIZE
      modifies this`phase, nvramNext
      ensures Valid()
      ensures IsRun(old(Now()), events) && Now() == Exec(old(Now()), events)
      ensures |events| <= SIZE
      ensures forall i :: 0 <= i < |events| ==> events[i] == Program(device[i].0, device[i].1)
      ensures phase == Idle || phase == Programming(SIZE)
      ensures ok <==> phase == Programming(SIZE) && nvramNext[..] == nvramShadow[..]
      ensures ok <==> forall i :: 0 <= i < SIZE ==> device[i] == (nvramShadow[i], true)
    {
      events := [];
      var cnt := 0;
      ok := true;
      while cnt < SIZE && ok
        invariant 0 <= cnt <= SIZE && Valid()
        invariant nvramNext == old(nvramNext) && nvramCurrent == old(nvramCurrent)
        invariant phase == if ok then Programming(cnt) else Idle
        invariant |events| == cnt
        invariant forall i :: 0 <= i < cnt ==> nvramNext[i] == device[i].0
        invariant ok ==> forall i :: 0 <= i < cnt ==> device[i].1
        invariant !ok ==> cnt > 0 && !device[cnt - 1].1
        invariant IsRun(old(Now()), events) && Now() == Exec(old(Now()), events)
        invariant forall i :: 0 <= i < cnt ==> events[i] == Program(device[i].0, device[i].1)
      {
        RunExtends(old(Now()), events, Program(device[cnt].0, device[cnt].1));
        ok := WriteByte(cnt, device[cnt].0, device[cnt].1);
        events := events + [Program(device[cnt].0, device[cnt].1)];
        cnt := cnt + 1;
      }
      if ok {
        ok := Same(nvramNext, nvramShadow);
      }
    }

    /** The part of sync that replaces the other bank and swaps the pointers;
        the banks swap exactly when the erase took and every cell reads right. */
    method Replace(erased: bool, eraseStatus: bool, device: seq<(byte, bool)>) returns (ghost events: seq<Event>)
      requires Valid() && phase == Sealed && |device| == SIZE
      modifies this`nvramCurrent, this`nvramNext, this`phase, this`attempts, nvramNext
      ensures Valid() && phase == Idle
      ensures IsRun(old(Now()), events) && Now() == Exec(old(Now()), events)
      ensures forall i :: 0 <= i < |events| ==> WithinOneSync(events[i]) || (events[i] == Finish && i == |events| - 1)
      ensures nvramCurrent == old(nvramNext) <==>
                && eraseStatus && (erased || old(Now()).Other() == Erased(SIZE))
                && forall i :: 0 <= i < SIZE ==> device[i] == (old(nvramShadow[i]), true)
    {
      hide Exec, IsRun, Validate;
      ghost var start := Now();
      NothingRuns(start);
      events := [Erase(erased, eraseStatus)];
      RunExtends(start, [], events[0]);
      assert [] + [events[0]] == events;
      var ok := EraseBlock(erased, eraseStatus);
      if !ok {
        return;
      }
      ghost var writes;
      ok, writes := WriteBlock(device);
      RunsConcat(start, events, writes);
      events := events + writes;
      if phase != Idle {
        RunExtends(start, events, Finish);
        events := events + [Finish];
        phase := Idle;
      }
      if ok {
        nvramCurrent, nvramNext := nvramNext, nvramCurrent;
        attempts := {};
      }
    }

    /** sync.  The returned events are its effects in order, so every place power
        can be lost during it is a prefix of them followed by a Crash. */
    method Sync(erased: bool, eraseStatus: bool, device: seq<(byte, bool)>) returns (ghost events: seq<Event>)
      requires Valid() && phase == Idle && |device| == SIZE
      modifies this`nvramCurrent, this`nvramNext, this`generation, this`phase, this`attempts
      modifies nvramNext, nvramShadow
      ensures Valid() && phase == Idle
      ensures IsRun(old(Now()), events) && Now() == Exec(old(Now()), events)
      ensures events == [] <==> old(Now()).shadow == old(Now()).Current()
      ensures events != [] ==> events[0] == Begin
      ensures forall i :: 1 <= i < |events| ==> WithinOneSync(events[i]) || (events[i] == Finish && i == |events| - 1)
      ensures nvramCurrent == old(nvramNext) <==>
                var sealed := Seal(old(Now()).shadow, NextGeneration(old(generation)));
                && old(Now()).shadow != old(Now()).Current()
                && eraseStatus && (erased || old(Now()).Other() == Erased(SIZE))
                && forall i :: 0 <= i < SIZE ==> device[i] == (sealed[i], true)
    {
      ghost var start := Now();
      events := [];
      var same := Same(nvramShadow, nvramCurrent);
      if same {
        return;
      }
      SealShadow();
      RunExtends(start, [], Begin);
      assert [] + [Begin] == [Begin];
      events := Replace(erased, eraseStatus, device);
      RunsConcat(start, [Begin], events);
      events := [Begin] + events;
    }
  }
}
