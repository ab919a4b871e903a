/** Where the texts of the live-voice protocol come from: a transcript's text is what
    `transcribe` returned for its own job, and the hypothesis the hold goes by is the
    newest one. */
module VoiceTexts {
  import opened Wrappers
  import opened VadWindows
  import opened VoiceProtocol
  import opened VoiceWellFormed
  import opened VoiceVerdicts

  // -------------------------------------------------------------------------
  // Transcripts
  // -------------------------------------------------------------------------

  // At some moment of the schedule the decode of this job returned this text.
  ghost predicate Returned(c: Config, steps: seq<Step>, r: Transcript) {
    exists i :: ReturnedAt(c, steps, r, i)
  }

  predicate ReturnedAt(c: Config, steps: seq<Step>, r: Transcript, i: int) {
    && 0 <= i < |steps| && steps[i] == Decode(r.text)
    && Run(c, steps[..i]).Some? && Run(c, steps[..i]).value.workerAt == Decoding(r.job)
  }

  lemma StillReturned(c: Config, steps: seq<Step>, step: Step, r: Transcript)
    requires Returned(c, steps, r)
    ensures Returned(c, steps + [step], r)
  {
    var i :| ReturnedAt(c, steps, r, i);
    assert (steps + [step])[..i] == steps[..i];
    assert ReturnedAt(c, steps + [step], r, i);
  }

  function InHand(at: WorkerAt): Option<Transcript> {
    match at
    case Store(r) => Some(r)
    case Publish(r) => Some(r)
    case Report(r, _) => Some(r)
    case Answer(r) => Some(r)
    case _ => None
  }

  function Serving(at: AudioAt): Option<Transcript> {
    match at case EmitServed(_, r, _) => Some(r) case _ => None
  }

  predicate FinalsIn(known: iset<Transcript>, log: seq<Event>) {
    forall i | 0 <= i < |log| && log[i].Final? :: log[i].result in known
  }

  // Every transcript in use is one of these.
  predicate TextsIn(known: iset<Transcript>, s: State) {
    && (InHand(s.workerAt).Some? ==> InHand(s.workerAt).value in known)
    && (s.candidateValid || s.audioAt.Serve? ==> s.candidate in known)
    && (Serving(s.audioAt).Some? ==> Serving(s.audioAt).value in known)
    && FinalsIn(known, s.log)
  }

  lemma OneMoreIn(known: iset<Transcript>, log: seq<Event>, e: Event)
    requires FinalsIn(known, log) && (e.Final? ==> e.result in known)
    ensures FinalsIn(known, log + [e])
  {
  }

  lemma StoreTexts(known: iset<Transcript>, s: State)
    requires TextsIn(known, s) && WorkerEnabled(s, StoreCandidate)
    ensures TextsIn(known, ApplyWorker(s, StoreCandidate))
  {
    var t := ApplyWorker(s, StoreCandidate);
    assert t.candidate == s.candidate || t.candidate == s.workerAt.result;
    assert t.log == s.log && t.audioAt == s.audioAt;
  }

  lemma WorkerTexts(known: iset<Transcript>, s: State, step: Step)
    requires TextsIn(known, s) && WorkerEnabled(s, step)
    requires step.Decode? ==> Transcript(s.workerAt.job, step.text) in known
    ensures TextsIn(known, ApplyWorker(s, step))
  {
    if step.StoreCandidate? { StoreTexts(known, s); }
  }

  lemma CommitTexts(c: Config, known: iset<Transcript>, s: State, step: Step)
    requires TextsIn(known, s) && CommitEnabled(c, s, step)
    ensures TextsIn(known, ApplyCommit(c, s, step))
  {
    match step
    case PassGate => OneMoreIn(known, s.log, Ended(s.utteranceId, s.utterance));
    case FailGate => OneMoreIn(known, s.log, Discarded(s.utteranceId));
    case EmitCandidate => OneMoreIn(known, s.log, Final(s.utteranceId, s.audioAt.result, s.audioAt.samples));
    case _ =>
  }

  lemma TurnTexts(c: Config, known: iset<Transcript>, s: State, step: Step)
    requires TextsIn(known, s) && TurnEnabled(c, s, step)
    ensures TextsIn(known, ApplyTurn(c, s, step))
  {
    match step
    case Read(block, level, _) => OneMoreIn(known, s.log, Heard(block, level));
    case NextActivity => OneMoreIn(known, s.log, Opened(s.utteranceId + 1, s.preroll));
    case EmitStarted => OneMoreIn(known, s.log, Started(s.utteranceId));
    case _ =>
  }

  lemma TextsStep(c: Config, known: iset<Transcript>, s: State, step: Step)
    requires TextsIn(known, s) && Enabled(c, s, step)
    requires step.Decode? ==> Transcript(s.workerAt.job, step.text) in known
    ensures TextsIn(known, Apply(c, s, step))
  {
    if IsWorkerStep(step) {
      WorkerTexts(known, s, step);
    } else if IsCommitStep(step) {
      CommitTexts(c, known, s, step);
    } else {
      TurnTexts(c, known, s, step);
    }
  }

  ghost function AllReturned(c: Config, steps: seq<Step>): iset<Transcript> { iset r | Returned(c, steps, r) }

  lemma StillIn(c: Config, steps: seq<Step>, step: Step, s: State)
    requires TextsIn(AllReturned(c, steps), s)
    ensures TextsIn(AllReturned(c, steps + [step]), s)
  {
    forall r | r in AllReturned(c, steps) ensures r in AllReturned(c, steps + [step]) {
      StillReturned(c, steps, step, r);
    }
  }

  lemma DecodeReturns(c: Config, steps: seq<Step>, s: State, text: string)
    requires Run(c, steps) == Some(s) && s.workerAt.Decoding?
    ensures Transcript(s.workerAt.job, text) in AllReturned(c, steps + [Decode(text)])
  {
    assert (steps + [Decode(text)])[..|steps|] == steps;
    assert ReturnedAt(c, steps + [Decode(text)], Transcript(s.workerAt.job, text), |steps|);
  }

  lemma {:induction false} RunTexts(c: Config, steps: seq<Step>)
    requires Run(c, steps).Some?
    ensures TextsIn(AllReturned(c, steps), Run(c, steps).value)
  {
    if steps != [] {
      var init, step := steps[..|steps| - 1], steps[|steps| - 1];
      var s := Run(c, init).value;
      RunTexts(c, init);
      StillIn(c, init, step, s);
      assert init + [step] == steps;
      if step.Decode? { DecodeReturns(c, init, s, step.text); }
      TextsStep(c, AllReturned(c, steps), s, step);
    }
  }

  // In every run each final transcript's text is what the decode of its own job
  // returned.
  lemma FinalTextWasDecoded(c: Config, steps: seq<Step>, i: nat)
    requires Run(c, steps).Some? && i < |Run(c, steps).value.log| && Run(c, steps).value.log[i].Final?
    ensures var r := Run(c, steps).value.log[i].result;
            exists k | 0 <= k < |steps| :: steps[k] == Decode(r.text)
              && Run(c, steps[..k]).Some? && Run(c, steps[..k]).value.workerAt == Decoding(r.job)
  {
    RunTexts(c, steps);
    var r := Run(c, steps).value.log[i].result;
    var k :| ReturnedAt(c, steps, r, k);
  }

  // -------------------------------------------------------------------------
  // The hypothesis
  // -------------------------------------------------------------------------

  // What the last decode returned.
  function LastText(steps: seq<Step>): string {
    if steps == [] then ""
    else if steps[|steps| - 1].Decode? then steps[|steps| - 1].text
    else LastText(steps[..|steps| - 1])
  }

  // The text published last since a turn opened or one was dropped.
  function Hypothesis(steps: seq<Step>): string {
    if steps == [] then ""
    else
      var init, step := steps[..|steps| - 1], steps[|steps| - 1];
      if step.StoreHypothesis? then LastText(init)
      else if step.DropUtterance? || (SpeechSeen(steps) && !SpeechSeen(init)) then ""
      else Hypothesis(init)
  }

  predicate HypothesisRight(steps: seq<Step>, s: State) {
    && (InHand(s.workerAt).Some? ==> InHand(s.workerAt).value.text == LastText(steps))
    && s.latestHypothesis == Hypothesis(steps)
  }

  lemma HypothesisAppend(steps: seq<Step>, step: Step)
    ensures LastText(steps + [step]) == if step.Decode? then step.text else LastText(steps)
    ensures Hypothesis(steps + [step])
         == if step.StoreHypothesis? then LastText(steps)
            else if step.DropUtterance? || (SpeechSeen(steps + [step]) && !SpeechSeen(steps)) then ""
            else Hypothesis(steps)
  {
    assert (steps + [step])[..|steps|] == steps;
  }

  lemma StoreKeepsText(s: State)
    requires s.workerAt.Store?
    ensures var t := ApplyWorker(s, StoreCandidate);
            t.latestHypothesis == s.latestHypothesis && (InHand(t.workerAt).None? || InHand(t.workerAt) == InHand(s.workerAt))
  {
  }

  lemma HypothesisWorkerStep(steps: seq<Step>, s: State, step: Step)
    requires HypothesisRight(steps, s) && WorkerEnabled(s, step)
    ensures HypothesisRight(steps + [step], ApplyWorker(s, step))
  {
    HypothesisAppend(steps, step);
    if step.StoreCandidate? {
      StoreKeepsText(s);
    }
    assert SpeechSeen(steps + [step]) == SpeechSeen(steps) by { SchedulesAppend(steps, step); }
  }

  lemma HypothesisLoopStep(c: Config, steps: seq<Step>, s: State, step: Step)
    requires HypothesisRight(steps, s) && Follows(s, steps) && WellFormed(s) && Enabled(c, s, step) && !IsWorkerStep(step)
    ensures HypothesisRight(steps + [step], Apply(c, s, step))
  {
    HypothesisAppend(steps, step);
    SchedulesAppend(steps, step);
    assert Apply(c, s, step).workerAt == s.workerAt;
  }

  // In every run the hypothesis the hold goes by is the text published last since the
  // turn opened.
  lemma {:induction false} HypothesisIsTheNewest(c: Config, steps: seq<Step>)
    requires Run(c, steps).Some?
    ensures HypothesisRight(steps, Run(c, steps).value)
  {
    if steps != [] {
      var init, step := steps[..|steps| - 1], steps[|steps| - 1];
      var s := Run(c, init).value;
      HypothesisIsTheNewest(c, init);
      assert init + [step] == steps;
      if IsWorkerStep(step) {
        HypothesisWorkerStep(init, s, step);
      } else {
        RunFollows(c, init);
        RunWellFormed(c, init);
        HypothesisLoopStep(c, init, s, step);
      }
    }
  }

  // -------------------------------------------------------------------------
  // The updates of one decode
  // -------------------------------------------------------------------------

  // The kinds of update emitted since the last report ended.
  function Reported(steps: seq<Step>): seq<UpdateKind> {
    if steps == [] then []
    else
      var before, step := Reported(steps[..|steps| - 1]), steps[|steps| - 1];
      if step.EmitUpdate? then before + [step.kind] else if step.EndReport? then [] else before
  }

  predicate Precedes(a: UpdateKind, b: UpdateKind) { (a.Stable? && !b.Stable?) || (a.Partial? && b.EndpointLikely?) }

  predicate KindsInOrder(kinds: seq<UpdateKind>) { forall i, j | 0 <= i < j < |kinds| :: Precedes(kinds[i], kinds[j]) }

  // The rank of what may still be reported is that of what has been.
  predicate ReportRight(at: WorkerAt, kinds: seq<UpdateKind>) {
    && KindsInOrder(kinds)
    && if at.Report? then at.rank == (if kinds == [] then 0 else Rank(kinds[|kinds| - 1]) + 1) else kinds == []
  }

  lemma OneMoreKind(kinds: seq<UpdateKind>, kind: UpdateKind)
    requires KindsInOrder(kinds)
    ensures KindsInOrder(kinds + [kind]) <==> kinds == [] || Rank(kind) >= Rank(kinds[|kinds| - 1]) + 1
  {
    var more := kinds + [kind];
    assert forall i | 0 <= i < |kinds| :: more[i] == kinds[i];
    assert more[|kinds|] == kind;
    if kinds != [] { assert Precedes(more[|kinds| - 1], more[|kinds|]) <==> Rank(kind) >= Rank(kinds[|kinds| - 1]) + 1; }
  }

  lemma ReportStep(s: State, step: Step, kinds: seq<UpdateKind>)
    requires ReportRight(s.workerAt, kinds) && WorkerEnabled(s, step)
    ensures ReportRight(ApplyWorker(s, step).workerAt,
                        if step.EmitUpdate? then kinds + [step.kind] else if step.EndReport? then [] else kinds)
  {
    if step.EmitUpdate? { OneMoreKind(kinds, step.kind); }
  }

  lemma {:induction false} RunReports(c: Config, steps: seq<Step>)
    requires Run(c, steps).Some?
    ensures ReportRight(Run(c, steps).value.workerAt, Reported(steps))
  {
    if steps != [] {
      var init, step := steps[..|steps| - 1], steps[|steps| - 1];
      var s := Run(c, init).value;
      RunReports(c, init);
      if IsWorkerStep(step) {
        ReportStep(s, step, Reported(init));
      } else {
        assert Apply(c, s, step).workerAt == s.workerAt;
      }
    }
  }

  lemma MayFollow(c: Config, s: State, kinds: seq<UpdateKind>, kind: UpdateKind)
    requires s.workerAt.Report? && ReportRight(s.workerAt, kinds)
    ensures Enabled(c, s, EmitUpdate(kind)) <==> KindsInOrder(kinds + [kind])
  {
    OneMoreKind(kinds, kind);
  }

  // In every run what one decode reports is at most one update of each kind, stable
  // before partial and endpoint_likely last; and each that keeps this order can follow.
  lemma UpdatesInOrder(c: Config, steps: seq<Step>, kind: UpdateKind)
    requires Run(c, steps).Some?
    ensures KindsInOrder(Reported(steps))
    ensures var s := Run(c, steps).value;
            s.workerAt.Report? ==> (Enabled(c, s, EmitUpdate(kind)) <==> KindsInOrder(Reported(steps) + [kind]))
  {
    RunReports(c, steps);
    var s := Run(c, steps).value;
    if s.workerAt.Report? { MayFollow(c, s, Reported(steps), kind); }
  }
}
