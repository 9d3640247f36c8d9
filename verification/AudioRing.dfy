/** The output ring of an audio engine: clients mix into it ahead of the play
    head, an erase head clears what has been played
    (IOAudioFamily-14.8/IOAudioDMAEngine.cpp, IOAudioDMAEngineMixer.cpp).

    What the listener should hear is an endless tape: at every absolute position
    the clipped sum of all contributions.  The ring holds one lap of it.

    Positions count samples, a frame number times the number of channels; samples
    are integers and the subclass's clipToOutputStream is any function of one
    mixed sample. */
module AudioRing {
  import opened Modulus

  type Clip = int -> int

  /** The mix buffer and the sample buffer of one stream. */
  datatype Buffers = Buffers(mix: seq<int>, sample: seq<int>) {
    predicate Ok() {
      |mix| == |sample| > 0
    }
  }

  /** One source sample added at an absolute position, and its output remade. */
  function MixOne(clip: Clip, b: Buffers, at: nat, x: int): (b': Buffers)
    requires b.Ok()
    ensures b'.Ok() && |b'.mix| == |b.mix|
  {
    var k := at % |b.mix|;
    Buffers(b.mix[k := b.mix[k] + x], b.sample[k := clip(b.mix[k] + x)])
  }

  /** Mixing as it is meant: one sample after another, round and round. */
  function MixAll(clip: Clip, b: Buffers, at: nat, source: seq<int>): (b': Buffers)
    requires b.Ok()
    ensures b'.Ok() && |b'.mix| == |b.mix|
    decreases |source|
  {
    if source == [] then b else MixAll(clip, MixOne(clip, b, at, source[0]), at + 1, source[1..])
  }

  /** A stretch of a buffer cleared. */
  function Zeroed(s: seq<int>, lo: nat, hi: nat): (r: seq<int>)
    requires lo <= hi <= |s|
    ensures |r| == |s| && forall k :: 0 <= k < |s| ==> r[k] == if lo <= k < hi then 0 else s[k]
  {
    seq(|s|, k requires 0 <= k < |s| => if lo <= k < hi then 0 else s[k])
  }

  /** performErase on one buffer: from the erase head up to the play head. */
  function Erased(s: seq<int>, eraseHead: nat, playHead: nat): (r: seq<int>)
    requires eraseHead <= |s| && playHead <= |s|
    ensures |r| == |s|
  {
    if playHead < eraseHead then Zeroed(Zeroed(s, 0, playHead), eraseHead, |s|)
    else Zeroed(s, eraseHead, playHead)
  }

  // ------------------------------------------------------------------ the tape

  /** One client's contribution: its samples from an absolute position on. */
  datatype Write = Write(at: nat, data: seq<int>) {
    function End(): nat {
      at + |data|
    }

    predicate Covers(f: nat) {
      at <= f < End()
    }

    function Share(f: nat): int {
      if Covers(f) then data[f - at] else 0
    }
  }

  /** The sum of all contributions to position f. */
  function Tape(writes: seq<Write>, f: nat): int {
    if writes == [] then 0 else Tape(writes[..|writes| - 1], f) + writes[|writes| - 1].Share(f)
  }

  predicate Covered(writes: seq<Write>, f: nat) {
    exists i :: 0 <= i < |writes| && writes[i].Covers(f)
  }

  /** What is to be heard at position f. */
  function Heard(clip: Clip, writes: seq<Write>, f: nat): int {
    if Covered(writes, f) then clip(Tape(writes, f)) else 0
  }

  lemma {:induction false} NothingOutside(writes: seq<Write>, f: nat)
    requires !Covered(writes, f)
    ensures Tape(writes, f) == 0
  {
    if writes != [] {
      var before := writes[..|writes| - 1];
      assert forall i :: 0 <= i < |before| ==> before[i] == writes[i];
      NothingOutside(before, f);
    }
  }

  lemma OneMoreWrite(writes: seq<Write>, w: Write, f: nat)
    ensures Tape(writes + [w], f) == Tape(writes, f) + w.Share(f)
    ensures Covered(writes + [w], f) <==> Covered(writes, f) || w.Covers(f)
  {
    var after := writes + [w];
    assert after[..|writes|] == writes && after[|writes|] == w;
    if Covered(writes, f) {
      var i :| 0 <= i < |writes| && writes[i].Covers(f);
      assert after[i].Covers(f);
    }
    if Covered(after, f) && !w.Covers(f) {
      var i :| 0 <= i < |after| && after[i].Covers(f);
      assert writes[i].Covers(f);
    }
  }

  // -------------------------------------------------------------- mixing, pointwise

  /** Mixing at most one lap adds to each position its own source sample. */
  lemma {:induction false} MixAllAt(clip: Clip, b: Buffers, at: nat, source: seq<int>, f: nat)
    requires b.Ok() && |source| <= |b.mix| && at <= f < at + |b.mix|
    ensures var b', k := MixAll(clip, b, at, source), f % |b.mix|;
            if f < at + |source| then b'.mix[k] == b.mix[k] + source[f - at] && b'.sample[k] == clip(b'.mix[k])
            else b'.mix[k] == b.mix[k] && b'.sample[k] == b.sample[k]
    decreases |source|
  {
    if source != [] {
      var m := |b.mix|;
      var b1 := MixOne(clip, b, at, source[0]);
      if f == at {
        ModShift(at, 1, m);
        MixAllAt(clip, b1, at + 1, source[1..], at + m);
      } else {
        if f % m == at % m {
          ModDistinct(f, at, m);
        }
        MixAllAt(clip, b1, at + 1, source[1..], f);
      }
    }
  }

  lemma {:induction false} MixAllAppends(clip: Clip, b: Buffers, at: nat, s: seq<int>, t: seq<int>)
    requires b.Ok()
    ensures MixAll(clip, b, at, s + t) == MixAll(clip, MixAll(clip, b, at, s), at + |s|, t)
    decreases |s|
  {
    if s == [] {
      assert s + t == t;
    } else {
      assert (s + t)[1..] == s[1..] + t;
      MixAllAppends(clip, MixOne(clip, b, at, s[0]), at + 1, s[1..], t);
    }
  }

  /** Any number of laps on is the same place of the ring. */
  lemma {:induction false} MixAllWraps(clip: Clip, b: Buffers, at: nat, laps: nat, source: seq<int>)
    requires b.Ok()
    ensures at + |b.mix| * laps >= 0
    ensures MixAll(clip, b, at + |b.mix| * laps, source) == MixAll(clip, b, at, source)
    decreases |source|
  {
    MultipleIsFar(|b.mix|, laps);
    if source != [] {
      ModShift(at, laps, |b.mix|);
      MixAllWraps(clip, MixOne(clip, b, at, source[0]), at + 1, laps, source[1..]);
    }
  }

  /** Erasing clears exactly the positions that have been played. */
  lemma ErasedAt(s: seq<int>, eraseHead: nat, playHead: nat, f: nat)
    requires |s| > 0 && eraseHead <= playHead < eraseHead + |s| && eraseHead <= f < eraseHead + |s|
    ensures var m := |s|;
            Erased(s, eraseHead % m, playHead % m)[f % m] == if f < playHead then 0 else s[f % m]
  {
    ModOffset(eraseHead, playHead - eraseHead, |s|);
    ModOffset(eraseHead, f - eraseHead, |s|);
  }

  /** Why the erase head may not fall a whole lap behind: the two heads then
      coincide and nothing is erased. */
  lemma LapBehindErasesNothing(s: seq<int>, eraseHead: nat)
    requires |s| > 0
    ensures Erased(s, eraseHead % |s|, (eraseHead + |s|) % |s|) == s
  {
    ModShift(eraseHead, 1, |s|);
  }

  // ---------------------------------------------------------------- the machine

  /** head and erase are absolute; played is what the listener has heard. */
  datatype Ring = Ring(buffers: Buffers, head: nat, erase: nat, writes: seq<Write>, played: seq<int>)

  datatype Event = Mix(w: Write) | Tick | Erase

  function Lap(r: Ring): nat {
    |r.buffers.mix|
  }

  /** Clients stay between the play head and one lap past the erase head; the
      erase head is never left a whole lap behind. */
  predicate Enabled(r: Ring, e: Event) {
    match e
    case Mix(w) => r.head <= w.at && w.End() <= r.erase + Lap(r)
    case Tick => r.head + 1 < r.erase + Lap(r)
    case Erase => true
  }

  function Apply(clip: Clip, r: Ring, e: Event): Ring
    requires r.buffers.Ok()
  {
    match e
    case Mix(w) => r.(buffers := MixAll(clip, r.buffers, w.at, w.data), writes := r.writes + [w])
    case Tick => r.(head := r.head + 1, played := r.played + [r.buffers.sample[r.head % Lap(r)]])
    case Erase => r.(buffers := ErasedBuffers(r.buffers, r.erase % Lap(r), r.head % Lap(r)), erase := r.head)
  }

  function ErasedBuffers(b: Buffers, eraseHead: nat, playHead: nat): Buffers
    requires eraseHead <= |b.mix| == |b.sample| && playHead <= |b.mix|
  {
    Buffers(Erased(b.mix, eraseHead, playHead), Erased(b.sample, eraseHead, playHead))
  }

  /** The ring at position f is the tape at position f. */
  ghost predicate Holds(clip: Clip, b: Buffers, writes: seq<Write>, f: nat)
    requires b.Ok()
  {
    b.mix[f % |b.mix|] == Tape(writes, f) && b.sample[f % |b.mix|] == Heard(clip, writes, f)
  }

  ghost predicate EndsBy(writes: seq<Write>, limit: nat) {
    forall i :: 0 <= i < |writes| ==> writes[i].End() <= limit
  }

  ghost predicate Inv(clip: Clip, r: Ring) {
    && r.buffers.Ok()
    && r.erase <= r.head < r.erase + Lap(r)
    && EndsBy(r.writes, r.erase + Lap(r))
    && (forall f :: r.erase <= f < r.erase + Lap(r) ==> Holds(clip, r.buffers, r.writes, f))
    && |r.played| == r.head
    && (forall f :: 0 <= f < r.head ==> r.played[f] == Heard(clip, r.writes, f))
  }

  lemma MixKeepsInv(clip: Clip, r: Ring, w: Write)
    requires Inv(clip, r) && Enabled(r, Mix(w))
    ensures Inv(clip, Apply(clip, r, Mix(w)))
  {
    var r' := Apply(clip, r, Mix(w));
    forall f | r.erase <= f < r.erase + Lap(r)
      ensures Holds(clip, r'.buffers, r'.writes, f)
    {
      assert Holds(clip, r.buffers, r.writes, f);
      OneMoreWrite(r.writes, w, f);
      if w.at <= f {
        MixAllAt(clip, r.buffers, w.at, w.data, f);
      } else {
        ModShift(f, 1, Lap(r));
        MixAllAt(clip, r.buffers, w.at, w.data, f + Lap(r));
      }
    }
    forall f | 0 <= f < r.head
      ensures r'.played[f] == Heard(clip, r'.writes, f)
    {
      OneMoreWrite(r.writes, w, f);
    }
  }

  lemma NothingBeyond(clip: Clip, writes: seq<Write>, limit: nat, f: nat)
    requires EndsBy(writes, limit) && f >= limit
    ensures Tape(writes, f) == 0 && Heard(clip, writes, f) == 0
  {
    NothingOutside(writes, f);
  }

  lemma EraseKeepsInv(clip: Clip, r: Ring)
    requires Inv(clip, r)
    ensures Inv(clip, Apply(clip, r, Erase))
  {
    var r' := Apply(clip, r, Erase);
    forall f | r.head <= f < r.head + Lap(r)
      ensures Holds(clip, r'.buffers, r'.writes, f)
    {
      if f < r.erase + Lap(r) {
        assert Holds(clip, r.buffers, r.writes, f);
        ErasedAt(r.buffers.mix, r.erase, r.head, f);
        ErasedAt(r.buffers.sample, r.erase, r.head, f);
      } else {
        var g := f - Lap(r);
        ModShift(g, 1, Lap(r));
        ErasedAt(r.buffers.mix, r.erase, r.head, g);
        ErasedAt(r.buffers.sample, r.erase, r.head, g);
        NothingBeyond(clip, r.writes, r.erase + Lap(r), f);
      }
    }
  }

  lemma StepKeepsInv(clip: Clip, r: Ring, e: Event)
    requires Inv(clip, r) && Enabled(r, e)
    ensures Inv(clip, Apply(clip, r, e)) && Lap(Apply(clip, r, e)) == Lap(r)
  {
    match e
    case Mix(w) => MixKeepsInv(clip, r, w);
    case Tick => assert Holds(clip, r.buffers, r.writes, r.head);
    case Erase => EraseKeepsInv(clip, r);
  }

  // --------------------------------------------------------------------- whole runs

  ghost predicate Runs(clip: Clip, r: Ring, events: seq<Event>, r': Ring)
    decreases |events|
  {
    if events == [] then r' == r
    else r.buffers.Ok() && Enabled(r, events[0]) && Runs(clip, Apply(clip, r, events[0]), events[1..], r')
  }

  /** A ring at rest: silent, both heads at the start. */
  function Fresh(lap: nat): Ring {
    Ring(Buffers(seq(lap, i => 0), seq(lap, i => 0)), 0, 0, [], [])
  }

  lemma {:induction false} RunsKeepInv(clip: Clip, r: Ring, events: seq<Event>, r': Ring)
    requires Inv(clip, r) && Runs(clip, r, events, r')
    ensures Inv(clip, r') && Lap(r') == Lap(r)
    decreases |events|
  {
    if events != [] {
      StepKeepsInv(clip, r, events[0]);
      RunsKeepInv(clip, Apply(clip, r, events[0]), events[1..], r');
    }
  }

  /** The ring refines the tape: whatever the interleaving of mixes, play and
      erases, every position that has been played sounded as the clipped sum of
      all contributions ever made to it. */
  lemma RingRefinesTape(clip: Clip, lap: nat, events: seq<Event>, r: Ring)
    requires lap > 0 && Runs(clip, Fresh(lap), events, r)
    ensures |r.played| == r.head
    ensures forall f :: 0 <= f < r.head ==> r.played[f] == Heard(clip, r.writes, f)
    ensures r.buffers.Ok() && r.buffers.mix[r.head % Lap(r)] == Tape(r.writes, r.head)
  {
    assert Inv(clip, Fresh(lap));
    RunsKeepInv(clip, Fresh(lap), events, r);
    assert Holds(clip, r.buffers, r.writes, r.head);
  }
}
