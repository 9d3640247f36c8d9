/** Starting and stopping an audio engine as clients come and go
    (IOAudioFamily-14.8/IOAudioDMAEngine.cpp). */
module AudioEngine {
  import opened Modulus
  import opened AudioRing

  /** The engine: its ring, its clients, and where it has been told to stop.  left
      and noted are where the head was at the two reads of the stop position. */
  datatype Engine = Engine(ring: Ring, running: bool, clients: nat,
                           stopFrame: nat, stopLoop: nat, left: nat, noted: nat)

  datatype Event =
    | Sound(e: AudioRing.Event)          // a mix, a tick of the play head, or the timer's erase
    | AddClient(starts: bool)            // whether startDMAEngine succeeds, if it is called
    | RemoveClient(drift: nat)           // the head moves by drift between the two reads
    | Flush(drift: nat, later: nat)      // the timer's check, drifting likewise; later is when it stops

  /** The head moves on n positions. */
  function Ticks(clip: Clip, r: Ring, n: nat): (r': Ring)
    requires r.buffers.Ok()
    ensures r'.buffers == r.buffers && r'.erase == r.erase && r'.writes == r.writes && r'.head == r.head + n
    decreases n
  {
    if n == 0 then r else Ticks(clip, AudioRing.Apply(clip, r, Tick), n - 1)
  }

  /** removeUserClient: the frame is read first, then the loop count. */
  function StopNoted(clip: Clip, g: Engine, drift: nat): Engine
    requires g.ring.buffers.Ok()
  {
    var r := Ticks(clip, g.ring, drift);
    g.(ring := r, stopFrame := g.ring.head % Lap(g.ring), stopLoop := r.head / Lap(g.ring) + 1,
       left := g.ring.head, noted := r.head)
  }

  /** performFlush's test: the loop count is read first, then the frame. */
  predicate MayStop(stopFrame: nat, stopLoop: nat, loop: nat, frame: nat) {
    loop > stopLoop || (loop == stopLoop && frame > stopFrame)
  }

  predicate Enabled(g: Engine, e: Event) {
    match e
    case Sound(Mix(w)) => g.running && g.clients > 0 && AudioRing.Enabled(g.ring, Mix(w))
    case Sound(Tick) => g.running && AudioRing.Enabled(g.ring, Tick)
    case Sound(Erase) => g.running
    case AddClient(_) => true
    case RemoveClient(d) => g.clients > 0 && g.ring.head + d < g.ring.erase + Lap(g.ring)
    case Flush(d, l) => g.ring.head + d + l < g.ring.erase + Lap(g.ring)
  }

  /** addUserClient starts a stopped engine: both heads at zero, nothing cleared. */
  function Restarted(g: Engine): Engine {
    Engine(Ring(g.ring.buffers, 0, 0, [], []), true, g.clients, 0, 0, 0, 0)
  }

  function Apply(clip: Clip, g: Engine, e: Event): Engine
    requires g.ring.buffers.Ok() && Enabled(g, e)
  {
    match e
    case Sound(s) => g.(ring := AudioRing.Apply(clip, g.ring, s))
    case AddClient(starts) =>
      var g' := g.(clients := g.clients + 1);
      if g.clients > 0 || g.running then g' else if starts then Restarted(g') else g
    case RemoveClient(d) =>
      var g' := g.(clients := g.clients - 1);
      if g.clients == 1 && g.running then StopNoted(clip, g', d) else g'
    case Flush(d, l) =>
      if g.clients == 0 && g.running then
        var seen := Ticks(clip, g.ring, d);
        if MayStop(g.stopFrame, g.stopLoop, g.ring.head / Lap(g.ring), seen.head % Lap(g.ring)) then
          g.(ring := AudioRing.Apply(clip, Ticks(clip, seen, l), Erase), running := false)
        else g.(ring := seen)
      else g
  }

  // ------------------------------------------------------------ the stop position

  /** Passing the noted position takes more than one whole buffer from where the
      last client left, wherever the head moved between the two reads on either
      side: a1 and a2 are the head at the removal's reads, a3 and a4 at the
      flush's. */
  lemma StopTakesALap(a1: nat, a2: nat, a3: nat, a4: nat, lap: nat)
    requires lap > 0 && a1 <= a2 <= a3 <= a4
    requires MayStop(a1 % lap, a2 / lap + 1, a3 / lap, a4 % lap)
    ensures a4 > a1 + lap
  {
    ModMonotone(a1, a2, lap);
    ModMonotone(a3, a4, lap);
    MoreThanALap(a1 / lap, a1 % lap, a4 / lap, a4 % lap, lap);
  }

  lemma MoreThanALap(q1: int, r1: int, q4: int, r4: int, lap: int)
    requires 0 <= r1 < lap && 0 <= r4 < lap
    requires q4 > q1 + 1 || (q4 == q1 + 1 && r4 > r1)
    ensures lap * q4 + r4 > lap * q1 + r1 + lap
  {
    var d := q4 - q1;
    assert lap * q4 == lap * q1 + lap * d;
    if d > 1 {
      assert lap * d >= lap * 2;
    }
  }

  /** And it does pass in the end: from two whole buffers after the last client left, at
      the latest, every check stops the engine. */
  lemma StopsInTheEnd(a1: nat, a2: nat, a3: nat, a4: nat, lap: nat)
    requires lap > 0 && a1 <= a2 && a2 + 2 * lap <= a3 <= a4
    ensures MayStop(a1 % lap, a2 / lap + 1, a3 / lap, a4 % lap)
  {
    ModUnique(a2 + 2 * lap, a2 / lap + 2, a2 % lap, lap);
    ModMonotone(a2 + 2 * lap, a3, lap);
  }

  /** So an engine that nobody uses is stopped by the first check that late. */
  lemma UnusedEngineStops(clip: Clip, g: Engine, drift: nat, later: nat)
    requires Inv(clip, g) && Enabled(g, Flush(drift, later)) && g.clients == 0 && g.running
    requires g.noted + 2 * Lap(g.ring) <= g.ring.head
    ensures !Apply(clip, g, Flush(drift, later)).running
  {
    StopsInTheEnd(g.left, g.noted, g.ring.head, g.ring.head + drift, Lap(g.ring));
    hide AudioRing.Inv, MayStop, Silent, EndsBy;
  }

  /** The test passes within one buffer of where the head was at removal. */
  predicate StopsEarly(lap: nat, a1: nat, loop: nat, a3: nat, a4: nat)
    requires lap > 0
  {
    a1 <= a3 <= a4 <= a1 + lap && MayStop(a1 % lap, loop + 1, a3 / lap, a4 % lap)
  }

  lemma NotEarly(lap: nat, a1: nat, loop: nat, a3: nat, a4: nat)
    requires lap > 0 && loop >= a1 / lap
    ensures !StopsEarly(lap, a1, loop, a3, a4)
  {
    if StopsEarly(lap, a1, loop, a3, a4) {
      ModMonotone(a3, a4, lap);
      MoreThanALap(a1 / lap, a1 % lap, a4 / lap, a4 % lap, lap);
    }
  }

  /** One whole buffer on, the frame is the same and the loop count past a noted one
      that lags. */
  lemma EarlyAfterALap(lap: nat, a1: nat, loop: nat)
    requires lap > 0 && loop < a1 / lap
    ensures StopsEarly(lap, a1, loop, a1 + lap, a1 + lap)
  {
    ModUnique(a1 + lap, a1 / lap + 1, a1 % lap, lap);
  }

  /** The stop test is safe, whenever it is made, if and only if the loop count that
      was noted does not lag behind the frame that was noted with it. */
  lemma StopIsSafeExactly(lap: nat, a1: nat, loop: nat)
    requires lap > 0
    ensures (forall a3: nat, a4: nat :: !StopsEarly(lap, a1, loop, a3, a4)) <==> loop >= a1 / lap
  {
    hide StopsEarly;
    if loop < a1 / lap {
      EarlyAfterALap(lap, a1, loop);
    } else {
      forall a3: nat, a4: nat
        ensures !StopsEarly(lap, a1, loop, a3, a4)
      {
        NotEarly(lap, a1, loop, a3, a4);
      }
    }
  }

  /** How early it may be: if the loop count lags a wrap that the frame already
      shows, one frame later is enough. */
  lemma LaggingLoopCountStopsEarly(lap: nat, a1: nat)
    requires lap > 2 && a1 % lap + 1 < lap && a1 >= lap
    ensures StopsEarly(lap, a1, a1 / lap - 1, a1 + 1, a1 + 1)
  {
    ModUnique(a1 + 1, a1 / lap, a1 % lap + 1, lap);
  }

  // ---------------------------------------------------------------- the invariant

  predicate Silent(b: Buffers) {
    && (forall k :: 0 <= k < |b.mix| ==> b.mix[k] == 0)
    && (forall k :: 0 <= k < |b.sample| ==> b.sample[k] == 0)
  }

  ghost predicate Inv(clip: Clip, g: Engine) {
    && g.ring.buffers.Ok()
    && (if g.running then AudioRing.Inv(clip, g.ring) else Silent(g.ring.buffers) && g.clients == 0)
    && (g.running && g.clients == 0 ==>
          && g.left <= g.noted <= g.ring.head
          && g.stopFrame == g.left % Lap(g.ring) && g.stopLoop == g.noted / Lap(g.ring) + 1
          && EndsBy(g.ring.writes, g.left + Lap(g.ring)))
  }

  lemma {:induction false} TicksKeepInv(clip: Clip, r: Ring, n: nat)
    requires AudioRing.Inv(clip, r) && r.head + n < r.erase + Lap(r)
    ensures AudioRing.Inv(clip, Ticks(clip, r, n))
    decreases n
  {
    if n > 0 {
      AudioRing.StepKeepsInv(clip, r, Tick);
      TicksKeepInv(clip, AudioRing.Apply(clip, r, Tick), n - 1);
    }
  }

  /** Once the head is past every contribution, the erase leaves nothing. */
  lemma EraseSilences(clip: Clip, r: Ring)
    requires AudioRing.Inv(clip, r) && EndsBy(r.writes, r.head)
    ensures var b := AudioRing.Apply(clip, r, Erase).buffers; b.Ok() && Silent(b)
  {
    var r' := AudioRing.Apply(clip, r, Erase);
    AudioRing.StepKeepsInv(clip, r, Erase);
    forall k | 0 <= k < Lap(r)
      ensures r'.buffers.mix[k] == 0 && r'.buffers.sample[k] == 0
    {
      var h := r.head % Lap(r);
      var f := if k >= h then r.head + (k - h) else r.head + (k - h) + Lap(r);
      ModOffset(r.head, f - r.head, Lap(r));
      NothingBeyond(clip, r.writes, r.head, f);
      assert Holds(clip, r'.buffers, r'.writes, f);
    }
  }

  lemma EndsByWeaker(writes: seq<Write>, limit: nat, limit': nat)
    requires EndsBy(writes, limit) && limit <= limit'
    ensures EndsBy(writes, limit')
  {
  }

  lemma FlushKeepsInv(clip: Clip, g: Engine, d: nat, l: nat)
    requires Inv(clip, g) && Enabled(g, Flush(d, l)) && g.clients == 0 && g.running
    ensures Inv(clip, Apply(clip, g, Flush(d, l)))
  {
    hide AudioRing.Inv, Ticks, MayStop, EndsBy, Silent, AudioRing.Apply;
    var lap := Lap(g.ring);
    var seen := Ticks(clip, g.ring, d);
    TicksKeepInv(clip, g.ring, d);
    if MayStop(g.stopFrame, g.stopLoop, g.ring.head / lap, seen.head % lap) {
      var stopped := Ticks(clip, seen, l);
      TicksKeepInv(clip, seen, l);
      StopTakesALap(g.left, g.noted, g.ring.head, seen.head, lap);
      EndsByWeaker(stopped.writes, g.left + lap, stopped.head);
      EraseSilences(clip, stopped);
    }
  }

  lemma RemoveKeepsInv(clip: Clip, g: Engine, d: nat)
    requires Inv(clip, g) && Enabled(g, RemoveClient(d)) && g.clients == 1 && g.running
    ensures Inv(clip, Apply(clip, g, RemoveClient(d)))
  {
    TicksKeepInv(clip, g.ring, d);
    EndsByWeaker(g.ring.writes, g.ring.erase + Lap(g.ring), g.ring.head + Lap(g.ring));
  }

  lemma StepKeepsInv(clip: Clip, g: Engine, e: Event)
    requires Inv(clip, g) && Enabled(g, e)
    ensures Inv(clip, Apply(clip, g, e))
  {
    match e
    case Sound(s) => AudioRing.StepKeepsInv(clip, g.ring, s);
    case AddClient(starts) =>
      if g.clients == 0 && !g.running {
        SilentRingIsFresh(clip, g.ring.buffers);
      }
    case RemoveClient(d) =>
      if g.clients == 1 && g.running {
        RemoveKeepsInv(clip, g, d);
      }
    case Flush(d, l) =>
      if g.clients == 0 && g.running {
        FlushKeepsInv(clip, g, d, l);
      }
  }

  lemma SilentRingIsFresh(clip: Clip, b: Buffers)
    requires b.Ok() && Silent(b)
    ensures AudioRing.Inv(clip, Ring(b, 0, 0, [], []))
  {
    var r := Ring(b, 0, 0, [], []);
    forall f | 0 <= f < |b.mix|
      ensures Holds(clip, b, [], f)
    {
    }
  }

  // --------------------------------------------------------------------- whole runs

  function Idle(lap: nat): Engine {
    Engine(Fresh(lap), false, 0, 0, 0, 0, 0)
  }

  ghost predicate Runs(clip: Clip, g: Engine, events: seq<Event>, g': Engine)
    decreases |events|
  {
    if events == [] then g' == g
    else g.ring.buffers.Ok() && Enabled(g, events[0]) && Runs(clip, Apply(clip, g, events[0]), events[1..], g')
  }

  lemma {:induction false} RunsKeepInv(clip: Clip, g: Engine, events: seq<Event>, g': Engine)
    requires Inv(clip, g) && Runs(clip, g, events, g')
    ensures Inv(clip, g')
    decreases |events|
  {
    if events != [] {
      StepKeepsInv(clip, g, events[0]);
      RunsKeepInv(clip, Apply(clip, g, events[0]), events[1..], g');
    }
  }

  /** Stopped means silent: in every run, whenever the engine is stopped both
      buffers are all zero, so a restart that clears nothing plays nothing old;
      and while it runs, what has been heard is the tape of that run. */
  lemma StoppedMeansSilent(clip: Clip, lap: nat, events: seq<Event>, g: Engine)
    requires lap > 0 && Runs(clip, Idle(lap), events, g)
    ensures !g.running ==> Silent(g.ring.buffers)
    ensures g.running ==> |g.ring.played| == g.ring.head &&
                          forall f :: 0 <= f < g.ring.head ==> g.ring.played[f] == Heard(clip, g.ring.writes, f)
  {
    RunsKeepInv(clip, Idle(lap), events, g);
  }
}
