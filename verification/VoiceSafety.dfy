/** Order and ownership in the live-voice protocol: what every step keeps as long as
    the noise gate discards only with the decode worker at rest. */
module VoiceSafety {
  import opened Wrappers
  import opened VadWindows
  import opened VoiceProtocol
  import opened VoiceTrace
  import opened VoiceWellFormed

  // A queued or running decode belongs to the open utterance.
  predicate JobOk(s: State, job: Job) {
    && job.utterance == s.utteranceId
    && job.audio <= s.utterance
    && (job.final <==> s.audioAt.AwaitFinal?)
    && (job.final ==> job.audio == s.utterance)
  }

  predicate WorkerJobOk(s: State) {
    match s.workerAt
    case Decoding(job) => JobOk(s, job)
    case Store(r) => JobOk(s, r.job)
    case Publish(r) => JobOk(s, r.job)
    case Report(r, _) => JobOk(s, r.job)
    case Answer(r) => JobOk(s, r.job)
    case _ => true
  }

  predicate CandidateOk(s: State) {
    s.candidateValid ==>
      && s.candidate.job.utterance == s.utteranceId
      && s.candidate.job.audio <= s.utterance
      && s.candidateSamples == |s.candidate.job.audio|
  }

  // Where the log must stand for each position of the audio loop.
  predicate PhaseAt(s: State, q: Phase) {
    if q.Rejected? || q.utterance != s.utteranceId then false
    else if s.audioAt.Announce? then
      q.Opening? && q.audio == s.utterance && AtRest(s)
    else if s.speaking then
      q.Open? && q.audio == s.utterance + s.gapBuffer
    else if s.audioAt.AwaitIdle? then
      q.Ending? && q.audio == s.utterance
    else if s.audioAt.Serve? then
      q.Ending? && q.audio == s.utterance && AtRest(s) && Fresh(s)
    else if s.audioAt.EmitServed? then
      && q.Ending? && q.audio == s.utterance && AtRest(s)
      && Covers(s.audioAt.result.job, s.utteranceId, s.utterance) && s.audioAt.samples == |s.utterance|
    else if s.audioAt.AskFinal? then
      q.Ending? && q.audio == s.utterance && AtRest(s)
    else if s.audioAt.AwaitFinal? then
      if q.Ending? then
        && q.audio == s.utterance
        && (s.pending.Some? || s.workerAt.Decoding? || s.workerAt.Answer?)
        && (s.pending.Some? ==> s.workerAt.Idle?)
      else q.Closed? && s.pending.None? && (s.workerAt.Release? || s.workerAt.Idle?)
    else
      q.Closed? && AtRest(s)
  }

  // Everything but the well-formedness of the two threads.
  predicate InPhase(s: State, q: Phase) {
    && PhaseAt(s, q)
    && (s.pending.Some? ==> JobOk(s, s.pending.value))
    && WorkerJobOk(s)
    && (!q.Closed? ==> CandidateOk(s))
  }

  predicate Safe(s: State) { WellFormed(s) && InPhase(s, PhaseOf(s.log)) }

  // ---- The worker ----------------------------------------------------------

  lemma DecodeKeepsPhase(s: State, step: Step)
    requires Safe(s) && WorkerEnabled(s, step)
    requires step.Take? || step.Decode? || step.DecodeFails? || step.EmitFinal?
    ensures var t := ApplyWorker(s, step); InPhase(t, PhaseOf(t.log))
  {
    match step
    case DecodeFails => PhaseAppend(s.log, Failed(s.workerAt.job));
    case EmitFinal =>
      var r := s.workerAt.result;
      PhaseAppend(s.log, Final(r.job.utterance, r, |r.job.audio|));
    case _ =>
  }

  lemma ReportKeepsPhase(s: State, step: Step)
    requires Safe(s) && WorkerEnabled(s, step)
    requires !step.Take? && !step.Decode? && !step.DecodeFails? && !step.EmitFinal?
    ensures var t := ApplyWorker(s, step); InPhase(t, PhaseOf(t.log))
  {
    match step
    case EmitUpdate(kind) => PhaseAppend(s.log, Update(s.workerAt.result.job.utterance, kind));
    case _ =>
  }

  lemma WorkerKeepsSafe(s: State, step: Step)
    requires Safe(s) && WorkerEnabled(s, step)
    ensures Safe(ApplyWorker(s, step))
  {
    WorkerStepWellFormed(s, step);
    if step.Take? || step.Decode? || step.DecodeFails? || step.EmitFinal? {
      DecodeKeepsPhase(s, step);
    } else {
      ReportKeepsPhase(s, step);
    }
  }

  // ---- The turn ------------------------------------------------------------

  lemma ReadKeepsPhase(c: Config, s: State, block: Audio, level: real, acts: seq<Activity>)
    requires Safe(s) && s.audioAt.Top?
    ensures var t := ReadBlock(c, s, block, level, acts); InPhase(t, PhaseOf(t.log))
  {
    PhaseAppend(s.log, Heard(block, level));
    assert s.utterance + s.gapBuffer + block == s.utterance + (s.gapBuffer + block);
    if !s.pendingEnd {
      assert s.utterance + s.gapBuffer == s.utterance;
      assert (s.utterance + block) + s.gapBuffer == s.utterance + block;
    }
  }

  lemma BeginKeepsPhase(s: State, rest: seq<Activity>)
    requires Safe(s) && s.audioAt.Activities? && !s.speaking
    ensures var t := BeginUtterance(s, rest); InPhase(t, PhaseOf(t.log))
  {
    PhaseAppend(s.log, Opened(s.utteranceId + 1, s.preroll));
  }

  lemma ResumeKeepsPhase(s: State, rest: seq<Activity>)
    requires Safe(s) && s.audioAt.Activities? && s.pendingEnd
    ensures var t := ResumeFromPending(s, rest); InPhase(t, PhaseOf(t.log))
  {
    assert (s.utterance + s.gapBuffer) + [] == s.utterance + s.gapBuffer;
  }

  lemma PendingEndKeepsPhase(s: State, rest: seq<Activity>)
    requires Safe(s) && s.audioAt.Activities? && s.speaking && !s.pendingEnd
    ensures var t := BeginPendingEnd(s, rest); InPhase(t, PhaseOf(t.log))
  {
    assert s.gapBuffer == [];
  }

  lemma ActivityKeepsPhase(s: State)
    requires Safe(s) && s.audioAt.Activities?
    ensures var t := HandleActivity(s); InPhase(t, PhaseOf(t.log))
  {
    var acts := s.audioAt.rest;
    if acts == [] {
    } else if acts[0].SpeechStart? && !s.speaking {
      BeginKeepsPhase(s, acts[1..]);
    } else if acts[0].SpeechStart? && s.pendingEnd {
      ResumeKeepsPhase(s, acts[1..]);
    } else if acts[0].SpeechEnd? && s.speaking && !s.pendingEnd {
      PendingEndKeepsPhase(s, acts[1..]);
    }
  }

  lemma EndpointKeepsPhase(c: Config, s: State, step: Step)
    requires Safe(s) && TurnEnabled(c, s, step) && !step.Read? && !step.NextActivity?
    ensures var t := ApplyTurn(c, s, step); InPhase(t, PhaseOf(t.log))
  {
    if step.EmitStarted? { PhaseAppend(s.log, Started(s.utteranceId)); }
    assert s.utterance + [] == s.utterance;
  }

  lemma TurnKeepsSafe(c: Config, s: State, step: Step)
    requires Safe(s) && TurnEnabled(c, s, step)
    ensures Safe(ApplyTurn(c, s, step))
  {
    TurnStepWellFormed(c, s, step);
    match step
    case Read(block, level, acts) => ReadKeepsPhase(c, s, block, level, acts);
    case NextActivity => ActivityKeepsPhase(s);
    case _ => EndpointKeepsPhase(c, s, step);
  }

  // ---- The commit ----------------------------------------------------------

  lemma GateKeepsPhase(c: Config, s: State, step: Step)
    requires Safe(s) && CommitEnabled(c, s, step) && (step.PassGate? || step.FailGate?)
    requires step.FailGate? ==> AtRest(s)
    ensures var t := ApplyCommit(c, s, step); InPhase(t, PhaseOf(t.log))
  {
    if step.PassGate? {
      PhaseAppend(s.log, Ended(s.utteranceId, s.utterance));
    } else {
      PhaseAppend(s.log, Discarded(s.utteranceId));
    }
  }

  lemma AnswerKeepsPhase(c: Config, s: State, step: Step)
    requires Safe(s) && CommitEnabled(c, s, step) && !step.PassGate? && !step.FailGate?
    ensures var t := ApplyCommit(c, s, step); InPhase(t, PhaseOf(t.log))
  {
    if step.EmitCandidate? {
      PhaseAppend(s.log, Final(s.utteranceId, s.audioAt.result, s.audioAt.samples));
    }
  }

  lemma CommitKeepsSafe(c: Config, s: State, step: Step)
    requires Safe(s) && CommitEnabled(c, s, step) && (step.FailGate? ==> AtRest(s))
    ensures Safe(ApplyCommit(c, s, step))
  {
    CommitStepWellFormed(c, s, step);
    if step.PassGate? || step.FailGate? { GateKeepsPhase(c, s, step); } else { AnswerKeepsPhase(c, s, step); }
  }

  // ---- Every step ----------------------------------------------------------

  // Every step keeps the invariant, the discard too if it finds the worker at rest.
  lemma StepKeepsSafe(c: Config, s: State, step: Step)
    requires Safe(s) && Enabled(c, s, step) && (step.FailGate? ==> AtRest(s))
    ensures Safe(Apply(c, s, step))
  {
    if IsWorkerStep(step) {
      WorkerKeepsSafe(s, step);
    } else if IsCommitStep(step) {
      CommitKeepsSafe(c, s, step);
    } else {
      TurnKeepsSafe(c, s, step);
    }
  }
}
