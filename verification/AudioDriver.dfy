/** The audio engine's own code: the mixer's recursion and loop, erasing with
    bzero, and the client set (IOAudioFamily-14.8/IOAudioDMAEngineMixer.cpp,
    IOAudioDMAEngine.cpp). */
module AudioDriver {
  import opened Modulus
  import opened AudioRing
  import AudioEngine

  /** A stretch that does not wrap, mixed all at once and then clipped. */
  function Flat(clip: Clip, b: Buffers, at: nat, source: seq<int>): (b': Buffers)
    requires b.Ok() && at + |source| <= |b.mix|
    ensures |b'.mix| == |b.mix| && |b'.sample| == |b.sample|
  {
    var mix := seq(|b.mix|, k requires 0 <= k < |b.mix| =>
                     if at <= k < at + |source| then b.mix[k] + source[k - at] else b.mix[k]);
    Buffers(mix, seq(|mix|, k requires 0 <= k < |mix| => if at <= k < at + |source| then clip(mix[k]) else b.sample[k]))
  }

  /** Mixing first and clipping afterwards is mixing and clipping one by one. */
  lemma FlatIsMixAll(clip: Clip, b: Buffers, at: nat, source: seq<int>)
    requires b.Ok() && at + |source| <= |b.mix|
    ensures MixAll(clip, b, at, source) == Flat(clip, b, at, source)
  {
    var r, flat := MixAll(clip, b, at, source), Flat(clip, b, at, source);
    forall k | 0 <= k < |b.mix|
      ensures r.mix[k] == flat.mix[k] && r.sample[k] == flat.sample[k]
    {
      hide MixAll, Flat;
      FlatAt(clip, b, at, source, k);
    }
  }

  lemma FlatAt(clip: Clip, b: Buffers, at: nat, source: seq<int>, k: nat)
    requires b.Ok() && at + |source| <= |b.mix| && k < |b.mix|
    ensures MixAll(clip, b, at, source).mix[k] == Flat(clip, b, at, source).mix[k]
    ensures MixAll(clip, b, at, source).sample[k] == Flat(clip, b, at, source).sample[k]
  {
    hide MixAll;
    ModLap(k, |b.mix|);
    if k >= at {
      MixAllAt(clip, b, at, source, k);
    } else {
      MixAllAt(clip, b, at, source, k + |b.mix|);
    }
  }

  /** Splitting where the buffer ends and going on at its start is going round. */
  lemma SplitIsMixAll(clip: Clip, b: Buffers, at: nat, source: seq<int>, k: nat)
    requires b.Ok() && k <= |source| && at + k == |b.mix|
    ensures MixAll(clip, MixAll(clip, b, at, source[..k]), 0, source[k..]) == MixAll(clip, b, at, source)
  {
    assert source[..k] + source[k..] == source;
    MixAllAppends(clip, b, at, source[..k], source[k..]);
    MixAllWraps(clip, MixAll(clip, b, at, source[..k]), 0, 1, source[k..]);
  }

  /** The same place counted in frames and in samples. */
  lemma FramesAreSamples(frame: nat, frames: nat, channels: nat)
    requires frames > 0 && channels > 0
    ensures frames * channels > 0
    ensures frame * channels % (frames * channels) == frame % frames * channels
    ensures frame * channels / (frames * channels) == frame / frames
  {
    var q, r := frame / frames, frame % frames;
    assert frame * channels == (frames * channels) * q + r * channels;
    assert r * channels <= (frames - 1) * channels;
    ModUnique(frame * channels, q, r * channels, frames * channels);
  }

  lemma Scaled(a: nat, b: nat, c: nat)
    requires a <= b
    ensures a * c <= b * c && (b - a) * c == b * c - a * c
  {
  }

  lemma InSamples(a: nat, b: nat, n: nat, c: nat)
    requires a < n && b <= n && c > 0
    ensures a * c <= n * c && b * c <= n * c && (a < b <==> a * c < b * c)
  {
    Scaled(a, n, c);
    Scaled(b, n, c);
    if a < b {
      Scaled(a + 1, b, c);
    } else {
      Scaled(b, a, c);
    }
  }

  const UINT32 := 0x1_0000_0000

  /** A sum or a difference of two UInt32. */
  function U32(n: int): (r: nat)
    requires -UINT32 <= n < 2 * UINT32
    ensures r < UINT32
    ensures r == if n < 0 then n + UINT32 else if n < UINT32 then n else n - UINT32
  {
    n % UINT32
  }

  /** Whether mixAndClip stores inside the buffers, by its own UInt32 tests: a call that
      does not split stores frames from first on, and the first half of one that does
      is such a call. */
  predicate StaysInside(first: nat, num: nat, frames: nat)
    requires 0 < frames < UINT32 && first < UINT32 && num < UINT32
    decreases num, first
  {
    if U32(first + num) > frames then
      var part := U32(frames - first);
      first + part <= frames && StaysInside(0, U32(num - part), frames)
    else first + num <= frames
  }

  /** The first half ends at the end of the buffer as UInt32 sees it, so it is flat. */
  lemma FirstHalfIsFlat(first: nat, frames: nat)
    requires frames < UINT32 && first < UINT32
    ensures U32(first + U32(frames - first)) == frames
  {
    hide U32;
  }

  /** It does if and only if it starts inside and the sum of its two arguments does not
      wrap; even a call for no frames that starts outside stores outside. */
  lemma {:induction false} StaysInsideExactly(first: nat, num: nat, frames: nat)
    requires 0 < frames < UINT32 && first < UINT32 && num < UINT32
    ensures StaysInside(first, num, frames) <==> first <= frames && first + num < UINT32
    decreases num, first
  {
    hide U32;
    if first <= frames && first + num < UINT32 && first + num > frames {
      StaysInsideExactly(0, num - (frames - first), frames);
    }
  }

  class DmaEngine {
    const numSampleFramesPerBuffer: nat
    const fNumChannels: nat
    const clip: Clip
    const runEraseHead: bool
    const mixBuf: array<int>
    const sampleBuf: array<int>
    var fEraseHeadSampleFrame: nat
    var fCurrentLoopCount: nat
    var stopSampleFrame: nat           // dmaEngineStopPosition
    var stopLoopCount: nat
    var running: bool
    var userClients: set<nat>

    ghost predicate Valid()
      reads this
    {
      && 0 < numSampleFramesPerBuffer < UINT32 && fNumChannels > 0
      && mixBuf != sampleBuf
      && mixBuf.Length == sampleBuf.Length == numSampleFramesPerBuffer * fNumChannels
      && fEraseHeadSampleFrame <= numSampleFramesPerBuffer
    }

    ghost function Contents(): Buffers
      reads this, mixBuf, sampleBuf
    {
      Buffers(mixBuf[..], sampleBuf[..])
    }

    /** The while loop of mixAndClip. */
    method Accumulate(source: seq<int>, at: nat)
      requires at + |source| <= mixBuf.Length
      modifies mixBuf
      ensures forall k :: 0 <= k < mixBuf.Length ==>
                mixBuf[k] == old(mixBuf[k]) + if at <= k < at + |source| then source[k - at] else 0
    {
      var floatMixBuf, floatSourceBuf: nat := at, 0;
      var numSamplesLeft: nat := |source|;
      while numSamplesLeft > 0
        invariant floatSourceBuf + numSamplesLeft == |source| && floatMixBuf == at + floatSourceBuf
        invariant forall k :: 0 <= k < mixBuf.Length ==>
                    mixBuf[k] == old(mixBuf[k]) + if at <= k < floatMixBuf then source[k - at] else 0
      {
        mixBuf[floatMixBuf] := mixBuf[floatMixBuf] + source[floatSourceBuf];
        floatMixBuf, floatSourceBuf, numSamplesLeft := floatMixBuf + 1, floatSourceBuf + 1, numSamplesLeft - 1;
      }
    }

    /** The subclass's part, a sample at a time. */
    method ClipToOutputStream(at: nat, n: nat)
      requires mixBuf != sampleBuf && mixBuf.Length == sampleBuf.Length && at + n <= mixBuf.Length
      modifies sampleBuf
      ensures forall k :: 0 <= k < sampleBuf.Length ==>
                sampleBuf[k] == if at <= k < at + n then clip(mixBuf[k]) else old(sampleBuf[k])
    {
      for i := 0 to n
        invariant forall k :: 0 <= k < sampleBuf.Length ==>
                    sampleBuf[k] == if at <= k < at + i then clip(mixBuf[k]) else old(sampleBuf[k])
      {
        sampleBuf[at + i] := clip(mixBuf[at + i]);
      }
    }

    /** The case that does not wrap. */
    method MixFlat(source: seq<int>, at: nat)
      requires mixBuf != sampleBuf && mixBuf.Length == sampleBuf.Length > 0 && at + |source| <= mixBuf.Length
      modifies mixBuf, sampleBuf
      ensures old(Contents()).Ok()
      ensures Contents() == MixAll(clip, old(Contents()), at, source)
    {
      hide MixAll;
      ghost var flat := Flat(clip, Contents(), at, source);
      FlatIsMixAll(clip, Contents(), at, source);
      Accumulate(source, at);
      assert mixBuf[..] == flat.mix;
      ClipToOutputStream(at, |source|);
      assert sampleBuf[..] == flat.sample;
    }

    /** However long the source and wherever it starts, as long as it stores inside the
        buffers, the mixer's recursion does what mixing one sample after another round
        the ring does; the model stops before a store outside. */
    method MixAndClip(source: seq<int>, firstSampleFrame: nat, numSampleFrames: nat) returns (inside: bool)
      requires Valid() && firstSampleFrame < UINT32 && numSampleFrames < UINT32
      requires |source| == numSampleFrames * fNumChannels
      modifies mixBuf, sampleBuf
      ensures old(Contents()).Ok()
      ensures inside == StaysInside(firstSampleFrame, numSampleFrames, numSampleFramesPerBuffer)
      ensures inside ==> Contents() == MixAll(clip, old(Contents()), firstSampleFrame * fNumChannels, source)
      decreases numSampleFrames, firstSampleFrame, 1
    {
      hide MixAll, StaysInside;
      FramesAreSamples(0, numSampleFramesPerBuffer, fNumChannels);
      StaysInsideExactly(firstSampleFrame, numSampleFrames, numSampleFramesPerBuffer);
      if U32(firstSampleFrame + numSampleFrames) > numSampleFramesPerBuffer {
        if firstSampleFrame + U32(numSampleFramesPerBuffer - firstSampleFrame) > numSampleFramesPerBuffer {
          return false;
        }
        MixHalves(source, firstSampleFrame, numSampleFrames);
        inside := true;
      } else if firstSampleFrame + numSampleFrames > numSampleFramesPerBuffer {
        return false;
      } else {
        Scaled(firstSampleFrame + numSampleFrames, numSampleFramesPerBuffer, fNumChannels);
        MixFlat(source, firstSampleFrame * fNumChannels);
        inside := true;
      }
    }

    /** The case that wraps: up to the end of the buffers, and then from their start. */
    method MixHalves(source: seq<int>, firstSampleFrame: nat, numSampleFrames: nat)
      requires Valid() && firstSampleFrame + numSampleFrames < UINT32
      requires firstSampleFrame <= numSampleFramesPerBuffer < firstSampleFrame + numSampleFrames
      requires |source| == numSampleFrames * fNumChannels
      modifies mixBuf, sampleBuf
      ensures old(Contents()).Ok()
      ensures Contents() == MixAll(clip, old(Contents()), firstSampleFrame * fNumChannels, source)
      decreases numSampleFrames, firstSampleFrame, 0
    {
      hide MixAll, StaysInside;
      ghost var before := Contents();
      var part := U32(numSampleFramesPerBuffer - firstSampleFrame);
      var k := part * fNumChannels;
      FramesAreSamples(0, numSampleFramesPerBuffer, fNumChannels);
      Scaled(firstSampleFrame, numSampleFramesPerBuffer, fNumChannels);
      Scaled(part, numSampleFrames, fNumChannels);
      StaysInsideExactly(firstSampleFrame, part, numSampleFramesPerBuffer);
      StaysInsideExactly(0, numSampleFrames - part, numSampleFramesPerBuffer);
      var inside := MixAndClip(source[..k], firstSampleFrame, part);
      inside := MixAndClip(source[k..], 0, U32(numSampleFrames - part));
      SplitIsMixAll(clip, before, firstSampleFrame * fNumChannels, source, k);
    }

    method Bzero(a: array<int>, lo: nat, hi: nat)
      requires lo <= hi <= a.Length
      modifies a
      ensures a[..] == Zeroed(old(a[..]), lo, hi)
    {
      for i := lo to hi
        invariant forall k :: 0 <= k < a.Length ==> a[k] == if lo <= k < i then 0 else old(a[k])
      {
        a[i] := 0;
      }
    }

    /** performErase; currentSampleFrame is what getCurrentSampleFrame returns. */
    method PerformErase(currentSampleFrame: nat)
      requires Valid() && currentSampleFrame < numSampleFramesPerBuffer
      modifies this`fEraseHeadSampleFrame, mixBuf, sampleBuf
      ensures Valid()
      ensures !runEraseHead ==> Contents() == old(Contents()) && fEraseHeadSampleFrame == old(fEraseHeadSampleFrame)
      ensures runEraseHead ==> fEraseHeadSampleFrame == currentSampleFrame
      ensures runEraseHead ==>
                var e, h := old(fEraseHeadSampleFrame) * fNumChannels, currentSampleFrame * fNumChannels;
                && e <= |old(Contents()).mix| && h <= |old(Contents()).mix|
                && Contents() == ErasedBuffers(old(Contents()), e, h)
    {
      if runEraseHead {
        InSamples(currentSampleFrame, fEraseHeadSampleFrame, numSampleFramesPerBuffer, fNumChannels);
        ClearPlayed(fEraseHeadSampleFrame * fNumChannels, currentSampleFrame * fNumChannels,
                    currentSampleFrame < fEraseHeadSampleFrame);
        fEraseHeadSampleFrame := currentSampleFrame;
      }
    }

    /** The bzero calls, from the erase head e up to the play head h. */
    method ClearPlayed(e: nat, h: nat, wraps: bool)
      requires mixBuf != sampleBuf && mixBuf.Length == sampleBuf.Length
      requires e <= mixBuf.Length && h <= mixBuf.Length && (wraps <==> h < e)
      modifies mixBuf, sampleBuf
      ensures Contents() == ErasedBuffers(old(Contents()), e, h)
    {
      if wraps {
        Bzero(sampleBuf, 0, h);
        Bzero(sampleBuf, e, sampleBuf.Length);
        Bzero(mixBuf, 0, h);
        Bzero(mixBuf, e, mixBuf.Length);
      } else {
        Bzero(sampleBuf, e, h);
        Bzero(mixBuf, e, h);
      }
    }

    method ResetStatusBuffer()
      modifies this`fCurrentLoopCount, this`fEraseHeadSampleFrame, this`stopSampleFrame, this`stopLoopCount
      ensures fCurrentLoopCount == fEraseHeadSampleFrame == stopSampleFrame == stopLoopCount == 0
    {
      fCurrentLoopCount, fEraseHeadSampleFrame := 0, 0;
      stopSampleFrame, stopLoopCount := 0, 0;
    }

    /** addUserClient; starts says whether startDMAEngine succeeds. */
    method AddUserClient(client: nat, starts: bool) returns (ok: bool)
      modifies this
      ensures var restart := old(userClients) + {client} == {client} && !old(running);
              && ok == (restart ==> starts)
              && running == (old(running) || (restart && starts))
              && userClients == old(userClients) + (if ok then {client} else {}) - (if ok then {} else {client})
              && fEraseHeadSampleFrame == (if restart then 0 else old(fEraseHeadSampleFrame))
              && fCurrentLoopCount == (if restart then 0 else old(fCurrentLoopCount))
              && stopSampleFrame == (if restart then 0 else old(stopSampleFrame))
              && stopLoopCount == (if restart then 0 else old(stopLoopCount))
    {
      ok := true;
      userClients := userClients + {client};
      if |userClients| == 1 && !running {
        OnlyOne(userClients, client);
        ResetStatusBuffer();
        ok := starts;
        if ok {
          running := true;
        } else {
          userClients := userClients - {client};
        }
      }
    }

    /** removeUserClient; the two reads may see the head at different places. */
    method RemoveUserClient(client: nat, currentSampleFrame: nat, currentLoopCount: nat)
      modifies this`userClients, this`stopSampleFrame, this`stopLoopCount
      ensures userClients == old(userClients) - {client}
      ensures var last := userClients == {} && running;
              && stopSampleFrame == (if last then currentSampleFrame else old(stopSampleFrame))
              && stopLoopCount == (if last then currentLoopCount + 1 else old(stopLoopCount))
    {
      userClients := userClients - {client};
      if |userClients| == 0 && running {
        stopSampleFrame := currentSampleFrame;
        stopLoopCount := currentLoopCount + 1;
      }
    }

    /** performFlush and, when it stops the engine, the erase that _setState does;
        erasedAt is the frame that erase sees. */
    method PerformFlush(currentLoopCount: nat, currentSampleFrame: nat, erasedAt: nat)
      requires Valid() && erasedAt < numSampleFramesPerBuffer
      modifies this`running, this`fEraseHeadSampleFrame, mixBuf, sampleBuf
      ensures Valid()
      ensures var stop := userClients == {} && old(running) &&
                          AudioEngine.MayStop(stopSampleFrame, stopLoopCount, currentLoopCount, currentSampleFrame);
              && running == (old(running) && !stop)
              && (stop && runEraseHead ==>
                    var e, h := old(fEraseHeadSampleFrame) * fNumChannels, erasedAt * fNumChannels;
                    && e <= |old(Contents()).mix| && h <= |old(Contents()).mix|
                    && Contents() == ErasedBuffers(old(Contents()), e, h))
              && (stop && runEraseHead ==> fEraseHeadSampleFrame == erasedAt)
              && (!(stop && runEraseHead) ==>
                    Contents() == old(Contents()) && fEraseHeadSampleFrame == old(fEraseHeadSampleFrame))
    {
      if |userClients| == 0 && running {
        if currentLoopCount > stopLoopCount
           || (currentLoopCount == stopLoopCount && currentSampleFrame > stopSampleFrame) {
          running := false;
          PerformErase(erasedAt);
        }
      }
    }
  }

  lemma OnlyOne(s: set<nat>, x: nat)
    requires x in s && |s| == 1
    ensures s == {x}
  {
    var y :| y in s;
    assert |s - {y}| == 0;
  }
}
