/** Every run of the live-voice protocol, discards or not, opens, ends and answers
    its utterances one at a time. */
module VoiceTurns {
  import opened Wrappers
  import opened VadWindows
  import opened VoiceProtocol
  import opened VoiceTrace
  import opened VoiceWellFormed

  // Only the commit in progress has a final decode queued or running, and for
  // its own utterance.
  predicate FinalJobOk(s: State, job: Job) {
    job.final ==> s.audioAt.AwaitFinal? && job.utterance == s.utteranceId
  }

  predicate FinalJobsOk(s: State) {
    && (s.pending.Some? ==> FinalJobOk(s, s.pending.value))
    && (s.workerAt.Decoding? ==> FinalJobOk(s, s.workerAt.job))
    && (s.workerAt.Answer? ==> FinalJobOk(s, s.workerAt.result.job))
  }

  // The final decode is queued for an idle worker or in its hands.
  predicate FinalUnderWay(s: State) {
    || (s.pending.Some? && s.pending.value.final && s.workerAt.Idle?)
    || (s.pending.None? && s.workerAt.Decoding? && s.workerAt.job.final)
    || (s.pending.None? && s.workerAt.Answer?)
  }

  predicate FinalGiven(s: State) { s.pending.None? && (s.workerAt.Release? || s.workerAt.Idle?) }

  // Where the turns of the log must stand for each position of the audio loop.
  predicate TurnAt(s: State, q: Turn) {
    if s.audioAt.Announce? then q == Announcing(s.utteranceId)
    else if s.speaking then q == Speaking(s.utteranceId)
    else if s.audioAt.AwaitIdle? || s.audioAt.Serve? || s.audioAt.EmitServed? then q == Finishing(s.utteranceId)
    else if s.audioAt.AskFinal? then q == Finishing(s.utteranceId) && AtRest(s)
    else if s.audioAt.AwaitFinal? then
      (q == Finishing(s.utteranceId) && FinalUnderWay(s)) || (q == Between(s.utteranceId) && FinalGiven(s))
    else q == Between(s.utteranceId)
  }

  predicate InTurn(s: State) {
    WellFormed(s) && FinalJobsOk(s) && TurnAt(s, TurnOf(s.log))
  }

  lemma DecodeInTurn(s: State, step: Step)
    requires InTurn(s) && WorkerEnabled(s, step)
    requires step.Take? || step.Decode? || step.DecodeFails? || step.EmitFinal?
    ensures var t := ApplyWorker(s, step); FinalJobsOk(t) && TurnAt(t, TurnOf(t.log))
  {
    match step
    case DecodeFails => TurnAppend(s.log, Failed(s.workerAt.job));
    case EmitFinal =>
      var r := s.workerAt.result;
      TurnAppend(s.log, Final(r.job.utterance, r, |r.job.audio|));
    case _ =>
  }

  lemma ReportInTurn(s: State, step: Step)
    requires InTurn(s) && WorkerEnabled(s, step)
    requires !step.Take? && !step.Decode? && !step.DecodeFails? && !step.EmitFinal?
    ensures var t := ApplyWorker(s, step); FinalJobsOk(t) && TurnAt(t, TurnOf(t.log))
  {
    match step
    case EmitUpdate(kind) => TurnAppend(s.log, Update(s.workerAt.result.job.utterance, kind));
    case _ =>
  }

  lemma WorkerStepInTurn(s: State, step: Step)
    requires InTurn(s) && WorkerEnabled(s, step)
    ensures var t := ApplyWorker(s, step); FinalJobsOk(t) && TurnAt(t, TurnOf(t.log))
  {
    if step.Take? || step.Decode? || step.DecodeFails? || step.EmitFinal? {
      DecodeInTurn(s, step);
    } else {
      ReportInTurn(s, step);
    }
  }

  lemma CommitStepInTurn(c: Config, s: State, step: Step)
    requires InTurn(s) && CommitEnabled(c, s, step)
    ensures var t := ApplyCommit(c, s, step); FinalJobsOk(t) && TurnAt(t, TurnOf(t.log))
  {
    match step
    case PassGate => TurnAppend(s.log, Ended(s.utteranceId, s.utterance));
    case FailGate => TurnAppend(s.log, Discarded(s.utteranceId));
    case EmitCandidate => TurnAppend(s.log, Final(s.utteranceId, s.audioAt.result, s.audioAt.samples));
    case _ =>
  }

  lemma ReadInTurn(c: Config, s: State, block: Audio, level: real, acts: seq<Activity>)
    requires InTurn(s) && s.audioAt.Top?
    ensures var t := ReadBlock(c, s, block, level, acts); FinalJobsOk(t) && TurnAt(t, TurnOf(t.log))
  {
    TurnAppend(s.log, Heard(block, level));
  }

  lemma BeginInTurn(s: State, rest: seq<Activity>)
    requires InTurn(s) && s.audioAt.Activities? && !s.speaking
    ensures var t := BeginUtterance(s, rest); FinalJobsOk(t) && TurnAt(t, TurnOf(t.log))
  {
    TurnAppend(s.log, Opened(s.utteranceId + 1, s.preroll));
  }

  lemma HoldInTurn(s: State, rest: seq<Activity>)
    requires InTurn(s) && s.audioAt.Activities? && s.speaking
    ensures var t := BeginPendingEnd(s, rest); FinalJobsOk(t) && TurnAt(t, TurnOf(t.log))
    ensures var t := ResumeFromPending(s, rest); FinalJobsOk(t) && TurnAt(t, TurnOf(t.log))
  {
  }

  lemma ActivityInTurn(s: State)
    requires InTurn(s) && s.audioAt.Activities?
    ensures var t := HandleActivity(s); FinalJobsOk(t) && TurnAt(t, TurnOf(t.log))
  {
    if s.audioAt.rest != [] {
      var rest := s.audioAt.rest[1..];
      if s.speaking { HoldInTurn(s, rest); } else { BeginInTurn(s, rest); }
    }
  }

  lemma TurnStepInTurn(c: Config, s: State, step: Step)
    requires InTurn(s) && TurnEnabled(c, s, step)
    ensures var t := ApplyTurn(c, s, step); FinalJobsOk(t) && TurnAt(t, TurnOf(t.log))
  {
    match step
    case Read(block, level, acts) => ReadInTurn(c, s, block, level, acts);
    case NextActivity => ActivityInTurn(s);
    case EmitStarted => TurnAppend(s.log, Started(s.utteranceId));
    case _ =>
  }

  lemma StepInTurn(c: Config, s: State, step: Step)
    requires InTurn(s) && Enabled(c, s, step)
    ensures InTurn(Apply(c, s, step))
  {
    WellFormedStep(c, s, step);
    if IsWorkerStep(step) {
      WorkerStepInTurn(s, step);
    } else if IsCommitStep(step) {
      CommitStepInTurn(c, s, step);
    } else {
      TurnStepInTurn(c, s, step);
    }
  }

  lemma {:induction false} RunInTurn(c: Config, steps: seq<Step>)
    requires Run(c, steps).Some?
    ensures InTurn(Run(c, steps).value)
  {
    if steps != [] {
      var init := steps[..|steps| - 1];
      RunInTurn(c, init);
      StepInTurn(c, Run(c, init).value, steps[|steps| - 1]);
    }
  }

  // In every finished run every utterance has exactly one speech_started and then
  // either one speech_discarded, or one speech_ended and one answer.
  lemma EveryTurnResolvedOnce(c: Config, steps: seq<Step>, u: nat)
    requires Run(c, steps).Some?
    requires Run(c, steps).value.audioAt.Stopped? && 1 <= u <= Run(c, steps).value.utteranceId
    ensures Resolved(Milestones(Run(c, steps).value.log, u), u)
  {
    RunInTurn(c, steps);
    EachUtteranceResolvedOnce(Run(c, steps).value.log, u);
  }
}
