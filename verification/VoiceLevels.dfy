/** Levels and decodes in every run of the live-voice protocol: how the noise floor
    moves, which transcripts are kept as the precomputed final and when one is used. */
module VoiceLevels {
  import opened Wrappers
  import opened VadWindows
  import opened VoiceProtocol
  import opened VoiceWellFormed
  import opened VoiceVerdicts
  import VoiceTurns

  // -------------------------------------------------------------------------
  // The noise floor
  // -------------------------------------------------------------------------

  // The levels of the blocks heard while no turn was open.
  function IdleLevels(log: seq<Event>): seq<real> {
    if log == [] then []
    else
      var init, e := log[..|log| - 1], log[|log| - 1];
      IdleLevels(init) + if e.Heard? && !TurnOpen(init) then [e.level] else []
  }

  function FloorAfter(levels: seq<real>): real {
    if levels == [] then QUIET_LEVEL else NextFloor(FloorAfter(levels[..|levels| - 1]), levels[|levels| - 1])
  }

  lemma LevelsAppend(log: seq<Event>, e: Event)
    ensures IdleLevels(log + [e]) == IdleLevels(log) + if e.Heard? && !TurnOpen(log) then [e.level] else []
  {
    assert (log + [e])[..|log|] == log;
  }

  predicate FloorRight(s: State) { s.noiseFloor == FloorAfter(IdleLevels(s.log)) }

  // An event that is no audio, logged.
  lemma LoggedFloor(s: State, t: State)
    requires FloorRight(s) && t.noiseFloor == s.noiseFloor && Grows(s.log, t.log)
    requires t.log != s.log ==> !t.log[|s.log|].Heard?
    ensures FloorRight(t)
  {
    if t.log != s.log {
      assert t.log == s.log + [t.log[|s.log|]];
      LevelsAppend(s.log, t.log[|s.log|]);
      assert IdleLevels(s.log) + [] == IdleLevels(s.log);
    }
  }

  lemma FloorStep(c: Config, s: State, step: Step)
    requires FloorRight(s) && (s.speaking <==> TurnOpen(s.log)) && Enabled(c, s, step)
    ensures FloorRight(Apply(c, s, step))
  {
    if step.Read? {
      LevelsAppend(s.log, Heard(step.block, step.level));
      var levels := IdleLevels(s.log) + [step.level];
      assert levels[..|levels| - 1] == IdleLevels(s.log) && IdleLevels(s.log) + [] == IdleLevels(s.log);
    } else if IsWorkerStep(step) {
      WorkerReports(s, step);
      LoggedFloor(s, ApplyWorker(s, step));
    } else if IsCommitStep(step) {
      CommitLogs(c, s, step);
      LoggedFloor(s, ApplyCommit(c, s, step));
    } else {
      LoggedFloor(s, ApplyTurn(c, s, step));
    }
  }

  lemma CommitLogs(c: Config, s: State, step: Step)
    requires CommitEnabled(c, s, step)
    ensures var t := ApplyCommit(c, s, step);
            t.noiseFloor == s.noiseFloor && Grows(s.log, t.log) && (t.log != s.log ==> !t.log[|s.log|].Heard?)
  {
    var t := ApplyCommit(c, s, step);
    match step
    case PassGate => assert t.log == s.log + [Ended(s.utteranceId, s.utterance)];
    case FailGate => assert t.log == s.log + [Discarded(s.utteranceId)];
    case EmitCandidate => assert t.log == s.log + [Final(s.utteranceId, s.audioAt.result, s.audioAt.samples)];
    case _ =>
  }

  // In every run the noise floor is that of the blocks heard while no turn was open.
  lemma {:induction false} RunFloor(c: Config, steps: seq<Step>)
    requires Run(c, steps).Some?
    ensures FloorRight(Run(c, steps).value)
  {
    if steps != [] {
      var init := steps[..|steps| - 1];
      RunFloor(c, init);
      RunPreroll(c, init);
      FloorStep(c, Run(c, init).value, steps[|steps| - 1]);
    }
  }

  // What is left of a distance after n blocks that each take a tenth of it off, and
  // after n that each take off one part in two hundred.
  function Tenths(x: real, n: nat): real { if n == 0 then x else 0.9 * Tenths(x, n - 1) }
  function Crept(x: real, n: nat): real { if n == 0 then x else 0.995 * Crept(x, n - 1) }

  lemma FloorAfterOne(before: seq<real>, levels: seq<real>)
    requires levels != []
    ensures FloorAfter(before + levels) == NextFloor(FloorAfter(before + levels[..|levels| - 1]), levels[|levels| - 1])
  {
    assert (before + levels)[..|before + levels| - 1] == before + levels[..|levels| - 1];
  }

  predicate AtMost(levels: seq<real>, q: real) { forall i | 0 <= i < |levels| :: levels[i] <= q }
  predicate AtLeast(levels: seq<real>, q: real) { forall i | 0 <= i < |levels| :: levels[i] >= q }

  // Blocks of at most level q take a higher floor down to q by a tenth of the way each,
  // or faster; one that is lower they bring up to q by one part in two hundred, or
  // slower.
  lemma {:induction false} QuietRoom(before: seq<real>, levels: seq<real>, q: real)
    requires AtMost(levels, q)
    ensures var f, g := FloorAfter(before), FloorAfter(before + levels);
            && (f >= q ==> g - q <= Tenths(f - q, |levels|))
            && (f <= q ==> q - g >= Crept(q - f, |levels|))
  {
    if levels == [] {
      assert before + levels == before;
    } else {
      var init, n := levels[..|levels| - 1], |levels| - 1;
      QuietRoom(before, init, q);
      FloorAfterOne(before, levels);
      assert levels[n] <= q;
      NotNegative(FloorAfter(before) - q, n);
      NotNegative(q - FloorAfter(before), n);
    }
  }

  // Blocks of at least level q take a higher floor down by no more than a tenth of the
  // way each, and bring a lower one up by at least one part in two hundred.
  lemma {:induction false} LoudRoom(before: seq<real>, levels: seq<real>, q: real)
    requires AtLeast(levels, q)
    ensures var f, g := FloorAfter(before), FloorAfter(before + levels);
            && (f >= q ==> g - q >= Tenths(f - q, |levels|))
            && (f <= q ==> q - g <= Crept(q - f, |levels|))
  {
    if levels == [] {
      assert before + levels == before;
    } else {
      var init, n := levels[..|levels| - 1], |levels| - 1;
      LoudRoom(before, init, q);
      FloorAfterOne(before, levels);
      assert levels[n] >= q;
      NotNegative(FloorAfter(before) - q, n);
      NotNegative(q - FloorAfter(before), n);
    }
  }

  lemma {:induction false} NotNegative(x: real, n: nat)
    ensures x >= 0.0 ==> Tenths(x, n) >= 0.0 && Crept(x, n) >= 0.0
  {
    if n > 0 { NotNegative(x, n - 1); }
  }

  // So in every run, for the blocks heard while no turn was open: those of at most
  // level q since some moment have taken the floor from where it was then down to q,
  // and those of at least q no further.
  lemma FloorFollowsTheRoom(c: Config, steps: seq<Step>, before: seq<real>, recent: seq<real>, q: real)
    requires Run(c, steps).Some? && IdleLevels(Run(c, steps).value.log) == before + recent
    ensures var f, g, n := FloorAfter(before), Run(c, steps).value.noiseFloor, |recent|;
            && (AtMost(recent, q) ==> (f >= q ==> g - q <= Tenths(f - q, n)) && (f <= q ==> q - g >= Crept(q - f, n)))
            && (AtLeast(recent, q) ==> (f >= q ==> g - q >= Tenths(f - q, n)) && (f <= q ==> q - g <= Crept(q - f, n)))
  {
    RunFloor(c, steps);
    if AtMost(recent, q) { QuietRoom(before, recent, q); }
    if AtLeast(recent, q) { LoudRoom(before, recent, q); }
  }

  // -------------------------------------------------------------------------
  // The precomputed final
  // -------------------------------------------------------------------------

  function Magnitude(x: real): real { if x < 0.0 then -x else x }

  // All samples are at least that loud, or all quieter.
  predicate AllLoud(audio: Audio, level: real) { forall i | 0 <= i < |audio| :: Magnitude(audio[i]) >= level }
  predicate AllQuiet(audio: Audio, level: real) { forall i | 0 <= i < |audio| :: Magnitude(audio[i]) < level }

  lemma Positive(a: real, b: real)
    requires a > 0.0 && b > 0.0
    ensures a * b > 0.0
  {
  }

  lemma Squares(x: real, level: real)
    requires level >= 0.0
    ensures Magnitude(x) >= level ==> x * x >= level * level
    ensures Magnitude(x) < level ==> x * x < level * level
  {
    var m := Magnitude(x);
    assert x * x == m * m;
    var d, e := m - level, m + level;
    assert m * m - level * level == d * e;
    if m < level { Positive(-d, e); }
  }

  lemma OneMore(n: nat, x: real)
    ensures ((n + 1) as real) * x == (n as real) * x + x
  {
  }

  lemma {:induction false} LoudEnergy(audio: Audio, level: real)
    requires level >= 0.0 && AllLoud(audio, level)
    ensures SumSquares(audio) >= (|audio| as real) * (level * level)
  {
    if audio != [] {
      var n := |audio| - 1;
      LoudEnergy(audio[..n], level);
      Squares(audio[n], level);
      OneMore(n, level * level);
    }
  }

  lemma {:induction false} QuietEnergy(audio: Audio, level: real)
    requires level >= 0.0 && AllQuiet(audio, level) && audio != []
    ensures SumSquares(audio) < (|audio| as real) * (level * level)
  {
    var n := |audio| - 1;
    Squares(audio[n], level);
    OneMore(n, level * level);
    if n > 0 {
      QuietEnergy(audio[..n], level);
    } else {
      assert SumSquares(audio[..n]) == 0.0;
    }
  }

  // The last 100 ms of a decode's audio.
  function LastTenth(audio: Audio): Audio
    requires |audio| >= 1600
  {
    audio[|audio| - 1600..]
  }

  // Both 0.004 and one and a half times the floor are below all of it.
  predicate EndsLoud(audio: Audio, floor: real) {
    |audio| >= 1600 && AllLoud(LastTenth(audio), 0.004) && AllLoud(LastTenth(audio), 1.5 * floor)
  }

  // One of them is above all of it.
  predicate EndsQuiet(audio: Audio, floor: real) {
    |audio| >= 1600 && (AllQuiet(LastTenth(audio), 0.004) || AllQuiet(LastTenth(audio), 1.5 * floor))
  }

  lemma TailByItsSamples(job: Job, floor: real)
    requires !job.candidate
    ensures |job.audio| < 1600 || EndsLoud(job.audio, floor) ==> !TailQuiet(job, floor)
    ensures EndsQuiet(job.audio, floor) ==> TailQuiet(job, floor)
  {
    if |job.audio| >= 1600 {
      var tail, quiet := LastTenth(job.audio), if 0.004 < 1.5 * floor then 1.5 * floor else 0.004;
      if EndsLoud(job.audio, floor) {
        LoudEnergy(tail, quiet);
      } else if EndsQuiet(job.audio, floor) {
        assert AllQuiet(tail, quiet);
        QuietEnergy(tail, quiet);
      }
    }
  }

  // In every run a decode is kept as the final's candidate if its text is not empty and
  // it was made for that or its last 100 ms are all quiet, and it is not if its text is
  // empty or it was not made for that and its last 100 ms are all loud or not there.
  lemma CandidateByItsTail(c: Config, steps: seq<Step>)
    requires Run(c, steps + [StoreCandidate]).Some?
    ensures Run(c, steps).Some? && Run(c, steps).value.workerAt.Store?
    ensures var s, t := Run(c, steps).value, Run(c, steps + [StoreCandidate]).value;
            var r := s.workerAt.result;
            && (r.text != "" && (r.job.candidate || EndsQuiet(r.job.audio, s.noiseFloor)) ==>
                  t.candidateValid && t.candidate == r && t.candidateSamples == |r.job.audio|)
            && (r.text == "" || (!r.job.candidate && (|r.job.audio| < 1600 || EndsLoud(r.job.audio, s.noiseFloor))) ==>
                  t.candidateValid == s.candidateValid && t.candidate == s.candidate)
  {
    assert (steps + [StoreCandidate])[..|steps|] == steps;
    var s := Run(c, steps).value;
    var job := s.workerAt.result.job;
    if !job.candidate { TailByItsSamples(job, s.noiseFloor); }
    StoredIff(s);
  }

  lemma StoredIff(s: State)
    requires s.workerAt.Store?
    ensures var r, t := s.workerAt.result, ApplyWorker(s, StoreCandidate);
            if TailQuiet(r.job, s.noiseFloor) && r.text != "" then
              t.candidateValid && t.candidate == r && t.candidateSamples == |r.job.audio|
            else t.candidateValid == s.candidateValid && t.candidate == s.candidate
  {
  }

  predicate SamplesRight(s: State) { s.candidateSamples == |s.candidate.job.audio| }

  lemma WorkerKeepsSamples(s: State, step: Step)
    requires SamplesRight(s) && WorkerEnabled(s, step)
    ensures SamplesRight(ApplyWorker(s, step))
  {
  }

  lemma {:induction false} RunSamples(c: Config, steps: seq<Step>)
    requires Run(c, steps).Some?
    ensures SamplesRight(Run(c, steps).value)
  {
    if steps != [] {
      var init, step := steps[..|steps| - 1], steps[|steps| - 1];
      RunSamples(c, init);
      var s := Run(c, init).value;
      if IsWorkerStep(step) {
        WorkerKeepsSamples(s, step);
      } else if IsCommitStep(step) {
        assert ApplyCommit(c, s, step).candidate == s.candidate;
      } else {
        assert ApplyTurn(c, s, step).candidate == s.candidate;
      }
    }
  }

  // What was decoded last is at hand and leaves at most the last 7680 samples out.
  predicate AtHand(s: State) { s.candidateValid && |s.candidate.job.audio| + 7680 >= |s.utterance| }

  // In every run a decode for the end of a turn is asked for at the hold, and once more
  // at the commit, exactly if none is at hand.
  lemma DecodesOnlyIfItMust(c: Config, steps: seq<Step>)
    requires Run(c, steps).Some?
    ensures var s := Run(c, steps).value;
            && (Enabled(c, s, SeeIdle) ==> var t := Apply(c, s, SeeIdle).audioAt; if AtHand(s) then t.Serve? else t.AskFinal?)
            && (s.audioAt.Activities? && s.audioAt.rest != [] && s.audioAt.rest[0].SpeechEnd? && s.speaking && !s.pendingEnd ==>
                  (HandleActivity(s).audioAt.AskCandidate? <==> !AtHand(s)))
  {
    RunSamples(c, steps);
  }

  // Partials decode at least min_partial_audio_ms of audio, and queue behind nothing.
  predicate LongEnough(c: Config, job: Job) { job.final || job.candidate || |job.audio| >= c.minPartialSamples }

  predicate PartialsRight(c: Config, s: State) {
    && (s.audioAt.AskPartial? ==> |s.utterance| >= c.minPartialSamples)
    && (s.pending.Some? ==> LongEnough(c, s.pending.value))
    && (s.workerAt.Decoding? ==> LongEnough(c, s.workerAt.job))
  }

  lemma {:induction false} RunPartials(c: Config, steps: seq<Step>)
    requires Run(c, steps).Some?
    ensures PartialsRight(c, Run(c, steps).value)
  {
    if steps != [] {
      var init, step := steps[..|steps| - 1], steps[|steps| - 1];
      RunPartials(c, init);
      PartialsStep(c, Run(c, init).value, step);
    }
  }

  lemma PartialsStep(c: Config, s: State, step: Step)
    requires PartialsRight(c, s) && Enabled(c, s, step)
    ensures PartialsRight(c, Apply(c, s, step))
  {
    if IsWorkerStep(step) {
      PartialsWorker(c, s, step);
    } else if IsCommitStep(step) {
      PartialsCommit(c, s, step);
    } else {
      PartialsTurn(c, s, step);
    }
  }

  lemma PartialsWorker(c: Config, s: State, step: Step)
    requires PartialsRight(c, s) && WorkerEnabled(s, step)
    ensures PartialsRight(c, ApplyWorker(s, step))
  {
  }

  lemma PartialsCommit(c: Config, s: State, step: Step)
    requires PartialsRight(c, s) && CommitEnabled(c, s, step)
    ensures PartialsRight(c, ApplyCommit(c, s, step))
  {
  }

  lemma PartialsTurn(c: Config, s: State, step: Step)
    requires PartialsRight(c, s) && TurnEnabled(c, s, step)
    ensures PartialsRight(c, ApplyTurn(c, s, step))
  {
  }

  lemma QueueStep(c: Config, s: State, step: Step)
    requires Enabled(c, s, step) && (s.audioAt.AskFinal? ==> AtRest(s))
    ensures var t := Apply(c, s, step);
            && (s.pending.Some? && t.pending != s.pending ==> step.Take? || step.QueueCandidate?)
            && (step.QueuePartial? && (s.workerBusy || s.pending.Some?) ==> t.pending == s.pending)
            && (step.QueuePartial? && !s.workerBusy && s.pending.None? ==>
                  t.pending == Some(Job(s.utteranceId, false, false, s.utterance)))
  {
    if IsWorkerStep(step) && !step.Take? {
      assert ApplyWorker(s, step).pending == s.pending;
    }
  }

  // What is queued is taken by the worker, or replaced by the decode for the end of a
  // turn; while the worker is busy or has something queued, a partial is left out.
  lemma PartialsNeverQueueBehind(c: Config, steps: seq<Step>, step: Step)
    requires Run(c, steps + [step]).Some?
    ensures Run(c, steps).Some?
    ensures var s, t := Run(c, steps).value, Run(c, steps + [step]).value;
            && (s.pending.Some? && t.pending != s.pending ==> step.Take? || step.QueueCandidate?)
            && (step.QueuePartial? && (s.workerBusy || s.pending.Some?) ==> t.pending == s.pending)
            && (step.QueuePartial? && !s.workerBusy && s.pending.None? ==>
                  t.pending == Some(Job(s.utteranceId, false, false, s.utterance)))
  {
    assert (steps + [step])[..|steps|] == steps;
    VoiceTurns.RunInTurn(c, steps);
    QueueStep(c, Run(c, steps).value, step);
  }
}
