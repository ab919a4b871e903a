/** What every run of the live-voice runner guarantees, and what every run
    guarantees in which the noise gate discards only with the worker at rest. */
module VoiceTheorems {
  import opened Wrappers
  import opened VadWindows
  import opened VoiceProtocol
  import opened VoiceTrace
  import opened VoiceWellFormed
  import opened VoiceSafety

  // -------------------------------------------------------------------------
  // Order and coverage
  // -------------------------------------------------------------------------

  // Every discard of the run finds nothing queued and the worker idle: the wait
  // that the discarding branch of `commit_utterance` leaves out.
  predicate RestedDiscards(c: Config, steps: seq<Step>)
    requires Run(c, steps).Some?
  {
    if steps == [] then true
    else
      var init := steps[..|steps| - 1];
      RestedDiscards(c, init) && (steps[|steps| - 1].FailGate? ==> AtRest(Run(c, init).value))
  }

  lemma {:induction false} RunSafe(c: Config, steps: seq<Step>)
    requires Run(c, steps).Some? && RestedDiscards(c, steps)
    ensures Safe(Run(c, steps).value)
  {
    if steps == [] {
      assert PhaseOf([]) == Closed(0);
    } else {
      var init := steps[..|steps| - 1];
      RunSafe(c, init);
      StepKeepsSafe(c, Run(c, init).value, steps[|steps| - 1]);
    }
  }

  // At any moment of such a run the events are in order: ids never decrease, and
  // nothing of an utterance follows its answer or its discarding.
  lemma EventsInOrder(c: Config, steps: seq<Step>, i: nat, j: nat)
    requires Run(c, steps).Some? && RestedDiscards(c, steps)
    requires var log := Run(c, steps).value.log;
             i < j < |log| && UtteranceOf(log[i]).Some? && UtteranceOf(log[j]).Some?
    ensures var log := Run(c, steps).value.log;
            && UtteranceOf(log[i]).value <= UtteranceOf(log[j]).value
            && (Closes(log[i], UtteranceOf(log[i]).value) ==> UtteranceOf(log[i]).value < UtteranceOf(log[j]).value)
  {
    RunSafe(c, steps);
    var log := Run(c, steps).value.log;
    UtterancesNeverDecrease(log, i, j);
    if Closes(log[i], UtteranceOf(log[i]).value) {
      NothingAfterClosing(log, i, j, UtteranceOf(log[i]).value);
    }
  }

  // Every final transcript, precomputed or not, decodes its own utterance: a
  // prefix of the audio heard since it opened, at most 7680 samples short of
  // the audio the utterance ended with.
  lemma FinalIsFaithful(c: Config, steps: seq<Step>, i: nat)
    requires Run(c, steps).Some? && RestedDiscards(c, steps)
    requires i < |Run(c, steps).value.log| && Run(c, steps).value.log[i].Final?
    ensures var log := Run(c, steps).value.log;
            exists a: Audio ::
              && Ended(log[i].utterance, a) in log[..i]
              && Covers(log[i].result.job, log[i].utterance, a)
              && a <= HeardSince(log[..i])
  {
    RunSafe(c, steps);
    var log := Run(c, steps).value.log;
    FinalDecodesItsUtterance(log, i);
    PrefixAccepted(log, i);
    PhaseAudioWasHeard(log[..i]);
  }

  // With min_speech_snr <= 0 no run discards anything.
  lemma {:induction false} NoGateNoDiscard(c: Config, steps: seq<Step>)
    requires Run(c, steps).Some? && c.minSpeechSnr <= 0.0
    ensures RestedDiscards(c, steps)
    ensures forall i | 0 <= i < |steps| :: !steps[i].FailGate?
  {
    if steps != [] {
      var init := steps[..|steps| - 1];
      NoGateNoDiscard(c, init);
      assert !steps[|steps| - 1].FailGate?;
      assert forall i | 0 <= i < |init| :: steps[i] == init[i];
    }
  }

  // The preroll of the newest utterance and every block read since, from the
  // log alone.
  function HeardSince(log: seq<Event>): Audio {
    if log == [] then []
    else
      var e := log[|log| - 1];
      if e.Opened? then e.preroll
      else if e.Heard? then HeardSince(log[..|log| - 1]) + e.block
      else HeardSince(log[..|log| - 1])
  }

  lemma {:induction false} PhaseAudioWasHeard(log: seq<Event>)
    requires Accepted(log) && !PhaseOf(log).Closed?
    ensures PhaseOf(log).audio <= HeardSince(log)
    ensures PhaseOf(log).Opening? || PhaseOf(log).Open? ==> PhaseOf(log).audio == HeardSince(log)
  {
    if log != [] {
      PrefixAccepted(log, |log| - 1);
      var init := log[..|log| - 1];
      if !PhaseOf(init).Closed? {
        PhaseAudioWasHeard(init);
      }
    }
  }

  // -------------------------------------------------------------------------
  // No sample is lost, whatever is discarded
  // -------------------------------------------------------------------------

  predicate TurnIntact(s: State) {
    s.speaking ==> s.utterance + s.gapBuffer == HeardSince(s.log)
  }

  lemma {:induction false} HeardAppend(log: seq<Event>, e: Event)
    ensures HeardSince(log + [e])
         == if e.Opened? then e.preroll else if e.Heard? then HeardSince(log) + e.block else HeardSince(log)
  {
    assert (log + [e])[..|log|] == log;
  }

  lemma ReadKeepsTurn(c: Config, s: State, block: Audio, level: real, acts: seq<Activity>)
    requires WellFormed(s) && TurnIntact(s) && s.audioAt.Top?
    ensures TurnIntact(ReadBlock(c, s, block, level, acts))
  {
    HeardAppend(s.log, Heard(block, level));
    if s.speaking && s.pendingEnd {
      assert s.utterance + s.gapBuffer + block == s.utterance + (s.gapBuffer + block);
    } else if s.speaking {
      assert s.utterance + s.gapBuffer == s.utterance;
      assert (s.utterance + block) + s.gapBuffer == s.utterance + block;
    }
  }

  lemma ActivityKeepsTurn(s: State)
    requires WellFormed(s) && TurnIntact(s) && s.audioAt.Activities?
    ensures TurnIntact(HandleActivity(s))
  {
    HeardAppend(s.log, Opened(s.utteranceId + 1, s.preroll));
    assert s.preroll + [] == s.preroll;
    assert (s.utterance + s.gapBuffer) + [] == s.utterance + s.gapBuffer;
  }

  lemma WorkerKeepsTurn(s: State, step: Step)
    requires TurnIntact(s) && WorkerEnabled(s, step)
    ensures TurnIntact(ApplyWorker(s, step))
  {
    match step
    case DecodeFails => HeardAppend(s.log, Failed(s.workerAt.job));
    case EmitUpdate(kind) => HeardAppend(s.log, Update(s.workerAt.result.job.utterance, kind));
    case EmitFinal =>
      var r := s.workerAt.result;
      HeardAppend(s.log, Final(r.job.utterance, r, |r.job.audio|));
    case _ =>
  }

  lemma StepKeepsTurn(c: Config, s: State, step: Step)
    requires WellFormed(s) && TurnIntact(s) && Enabled(c, s, step)
    ensures TurnIntact(Apply(c, s, step))
  {
    match step
    case Read(block, level, acts) => ReadKeepsTurn(c, s, block, level, acts);
    case NextActivity => ActivityKeepsTurn(s);
    case EmitStarted => HeardAppend(s.log, Started(s.utteranceId));
    case _ => if IsWorkerStep(step) { WorkerKeepsTurn(s, step); }
  }

  // In every run: while an utterance is open, its audio and the audio set aside
  // during the hold are exactly its preroll and every sample read since.
  lemma {:induction false} RunLosesNothing(c: Config, steps: seq<Step>)
    requires Run(c, steps).Some?
    ensures TurnIntact(Run(c, steps).value)
  {
    if steps != [] {
      var init := steps[..|steps| - 1];
      RunLosesNothing(c, init);
      RunWellFormed(c, init);
      StepKeepsTurn(c, Run(c, init).value, steps[|steps| - 1]);
    }
  }
}
