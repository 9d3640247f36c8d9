/** The audio engine's code carries out the steps of the state machine: while the
    fields of the engine describe a machine state before a call, they describe the
    state after that step when it returns. */
module AudioJoin {
  import opened Modulus
  import opened AudioRing
  import opened AudioEngine
  import opened AudioDriver

  /** A frame number names the place of the ring where an absolute position is. */
  ghost predicate Frame(e: DmaEngine, frame: nat, at: nat)
    requires e.mixBuf.Length > 0
  {
    frame < e.numSampleFramesPerBuffer && frame * e.fNumChannels == at % e.mixBuf.Length
  }

  ghost predicate Refines(e: DmaEngine, g: Engine)
    reads e, e.mixBuf, e.sampleBuf
  {
    && e.Valid() && e.runEraseHead
    && e.Contents().Ok() && g.ring.buffers == e.Contents()
    && g.running == e.running && g.clients == |e.userClients|
    && (e.running ==> Frame(e, e.fEraseHeadSampleFrame, g.ring.erase))
    && (e.running && e.userClients == {} ==>
          g.stopFrame == e.stopSampleFrame * e.fNumChannels && g.stopLoop == e.stopLoopCount)
  }

  /** What is proved of the machine holds of the arrays. */
  lemma StoppedBuffersAreSilent(e: DmaEngine, lap: nat, events: seq<AudioEngine.Event>, g: Engine)
    requires lap > 0 && AudioEngine.Runs(e.clip, Idle(lap), events, g) && Refines(e, g)
    ensures !e.running ==> forall k :: 0 <= k < e.mixBuf.Length ==> e.mixBuf[k] == e.sampleBuf[k] == 0
  {
    StoppedMeansSilent(e.clip, lap, events, g);
    assert Silent(g.ring.buffers) ==> forall k :: 0 <= k < e.mixBuf.Length ==> e.mixBuf[k] == e.Contents().mix[k] == 0;
    assert Silent(g.ring.buffers) ==>
        forall k :: 0 <= k < e.mixBuf.Length ==> e.sampleBuf[k] == e.Contents().sample[k] == 0;
  }

  /** A new engine, whose buffers have been cleared. */
  lemma StartsIdle(e: DmaEngine)
    requires e.Valid() && e.runEraseHead && e.mixBuf.Length > 0
    requires Silent(e.Contents()) && !e.running && e.userClients == {}
    ensures Refines(e, Idle(e.mixBuf.Length))
  {
    assert Fresh(e.mixBuf.Length).buffers == e.Contents();
  }

  /** The test on frames is the test on samples. */
  lemma MayStopOnFrames(stopFrame: nat, stopLoop: nat, loop: nat, frame: nat, channels: nat)
    requires channels > 0
    ensures MayStop(stopFrame, stopLoop, loop, frame) <==>
            MayStop(stopFrame * channels, stopLoop, loop, frame * channels)
  {
    if stopFrame < frame {
      Scaled(stopFrame + 1, frame, channels);
    } else {
      Scaled(frame, stopFrame, channels);
    }
  }

  /** An absolute position in samples, of a whole frame: what getCurrentSampleFrame
      and the loop count then say. */
  lemma FrameAt(e: DmaEngine, absolute: nat)
    requires e.Valid() && e.mixBuf.Length > 0
    ensures Frame(e, absolute % e.numSampleFramesPerBuffer, absolute * e.fNumChannels)
    ensures absolute * e.fNumChannels / e.mixBuf.Length == absolute / e.numSampleFramesPerBuffer
  {
    FramesAreSamples(absolute, e.numSampleFramesPerBuffer, e.fNumChannels);
  }

  lemma MixAtPlace(clip: Clip, b: Buffers, at: nat, source: seq<int>)
    requires b.Ok()
    ensures MixAll(clip, b, at % |b.mix|, source) == MixAll(clip, b, at, source)
  {
    hide MixAll;
    var m := |b.mix|;
    var r, q := at % m, at / m;
    assert at == r + m * q;
    MixAllWraps(clip, b, r, q, source);
  }

  /** mixAndClip is the machine's mix, whichever lap the client's frame belongs to;
      frame and count of such a mix can only fail to stay inside by wrapping. */
  method Mixes(e: DmaEngine, ghost g: Engine, source: seq<int>, firstSampleFrame: nat, numSampleFrames: nat,
               ghost w: Write)
    returns (inside: bool)
    requires Refines(e, g) && AudioEngine.Enabled(g, Sound(Mix(w))) && numSampleFrames < UINT32
    requires Frame(e, firstSampleFrame, w.at) && w.data == source && |source| == numSampleFrames * e.fNumChannels
    modifies e.mixBuf, e.sampleBuf
    ensures inside <==> firstSampleFrame + numSampleFrames < UINT32
    ensures inside ==> Refines(e, AudioEngine.Apply(e.clip, g, Sound(Mix(w))))
  {
    MixAtPlace(e.clip, g.ring.buffers, w.at, source);
    StaysInsideExactly(firstSampleFrame, numSampleFrames, e.numSampleFramesPerBuffer);
    inside := e.MixAndClip(source, firstSampleFrame, numSampleFrames);
  }

  /** The play head is the hardware's: no field changes with it. */
  lemma Plays(e: DmaEngine, g: Engine)
    requires Refines(e, g) && AudioEngine.Enabled(g, Sound(Tick))
    ensures Refines(e, AudioEngine.Apply(e.clip, g, Sound(Tick)))
  {
  }

  /** performErase */
  method Erases(e: DmaEngine, ghost g: Engine, currentSampleFrame: nat)
    requires Refines(e, g) && AudioEngine.Enabled(g, Sound(Erase)) && Frame(e, currentSampleFrame, g.ring.head)
    modifies e`fEraseHeadSampleFrame, e.mixBuf, e.sampleBuf
    ensures Refines(e, AudioEngine.Apply(e.clip, g, Sound(Erase)))
  {
    e.PerformErase(currentSampleFrame);
  }

  /** addUserClient with a client that is new. */
  method Adds(e: DmaEngine, ghost g: Engine, client: nat, starts: bool) returns (ok: bool)
    requires Refines(e, g) && client !in e.userClients
    modifies e
    ensures Refines(e, AudioEngine.Apply(e.clip, g, AddClient(starts)))
  {
    assert e.userClients + {client} == {client} <==> e.userClients == {};
    ghost var before := e.userClients;
    ok := e.AddUserClient(client, starts);
    assert e.userClients == if ok then before + {client} else before - {client};
    assert before - {client} == before;
  }

  /** removeUserClient of a client that is there; drift is how far the head moves
      between the frame and the loop count. */
  method Removes(e: DmaEngine, ghost g: Engine, client: nat, currentSampleFrame: nat, currentLoopCount: nat,
                 ghost drift: nat)
    requires Refines(e, g) && client in e.userClients && AudioEngine.Enabled(g, RemoveClient(drift))
    requires Frame(e, currentSampleFrame, g.ring.head)
    requires currentLoopCount == (g.ring.head + drift) / e.mixBuf.Length
    modifies e`userClients, e`stopSampleFrame, e`stopLoopCount
    ensures Refines(e, AudioEngine.Apply(e.clip, g, RemoveClient(drift)))
  {
    e.RemoveUserClient(client, currentSampleFrame, currentLoopCount);
  }

  /** performFlush, with the erase of a stop. */
  method Flushes(e: DmaEngine, ghost g: Engine, currentLoopCount: nat, currentSampleFrame: nat, erasedAt: nat,
                 ghost drift: nat, ghost later: nat)
    requires Refines(e, g) && AudioEngine.Enabled(g, Flush(drift, later))
    requires currentLoopCount == g.ring.head / e.mixBuf.Length
    requires Frame(e, currentSampleFrame, g.ring.head + drift)
    requires Frame(e, erasedAt, g.ring.head + drift + later)
    modifies e`running, e`fEraseHeadSampleFrame, e.mixBuf, e.sampleBuf
    ensures Refines(e, AudioEngine.Apply(e.clip, g, Flush(drift, later)))
  {
    MayStopOnFrames(e.stopSampleFrame, e.stopLoopCount, currentLoopCount, currentSampleFrame, e.fNumChannels);
    e.PerformFlush(currentLoopCount, currentSampleFrame, erasedAt);
  }
}
