/** What becomes of a speculation, in every run: what aborts it and what an abort stops,
    when its first sentence is synthesized, and what its outcome is. */
module SpeculationLife {
  import opened Bytes
  import opened Wrappers
  import opened Speculation

  // -------------------------------------------------------------------------
  // Aborts
  // -------------------------------------------------------------------------

  // A synthesis is under way or about to claim the audio.
  predicate Speaks(at: SynthAt) { at.Claiming? || at.Synthesizing? }

  // A worker gets tokens.
  predicate Streams(p: Spec) { p.workerAt.Streaming? }

  // What an abort seen before a step stops the step from doing.
  predicate StaysQuiet(p: Spec, q: Spec) {
    && (!Streams(p) ==> !Streams(q))
    && (!Speaks(p.early) ==> !Speaks(q.early))
    && (!Speaks(p.fallback) ==> !Speaks(q.fallback))
    && (p.fallback.NotStarted? ==> q.fallback.NotStarted?)
  }

  lemma WorkerStaysQuiet(p: Spec, step: WorkerStep)
    requires p.abort && WorkerEnabled(p, step)
    ensures var q := WorkerApply(p, step); q.abort && StaysQuiet(p, q) && (step.Token? ==> !Streams(q))
  {
  }

  lemma SynthStaysQuiet(p: Spec, which: Which, step: SynthStep)
    requires p.abort && SynthEnabled(SynthOf(p, which), step)
    ensures var q := SynthApply(p, which, step); q.abort && StaysQuiet(p, q)
  {
  }

  lemma WriterStaysQuiet(p: Spec, step: WriterStep)
    requires p.abort && WriterEnabled(p, step)
    ensures var q := WriterApply(p, step); q.abort && StaysQuiet(p, q)
  {
  }

  lemma LocalStaysQuiet(p: Spec, step: LocalStep)
    requires p.abort && LocalEnabled(p, step)
    ensures var q := LocalApply(p, step);
            q.abort && StaysQuiet(p, q) && (step.ByWorker? && step.worker.Token? ==> !Streams(q))
  {
    match step
    case ByWorker(w) => WorkerStaysQuiet(p, w);
    case BySynth(which, y) => SynthStaysQuiet(p, which, y);
    case ByWriter(r) => WriterStaysQuiet(p, r);
  }

  // In every run, whatever the step: once a speculation is aborted its worker does not
  // start to stream, no synthesis of it starts, and after one token more at most its
  // worker gets no further ones.
  lemma AbortedStaysQuiet(steps: seq<Step>, step: Step, i: nat)
    requires Run(steps + [step]).Some?
    ensures Run(steps).Some?
    ensures var s, t := Run(steps).value, Run(steps + [step]).value;
            i < |s.specs| && s.specs[i].abort ==>
              && i < |t.specs| && t.specs[i].abort && StaysQuiet(s.specs[i], t.specs[i])
              && (step.Local? && step.i == i && step.step.ByWorker? && step.step.worker.Token? ==> !Streams(t.specs[i]))
  {
    assert (steps + [step])[..|steps|] == steps;
    var s := Run(steps).value;
    if i < |s.specs| && s.specs[i].abort && step.Local? && step.i == i {
      LocalStaysQuiet(s.specs[i], step.step);
    }
  }

  // What is not aborted goes on: its worker streams and takes tokens, and a synthesis
  // that has something to say claims the audio.
  lemma OthersGoOn(p: Spec, step: LocalStep)
    requires !p.abort && LocalEnabled(p, step)
    ensures var q := LocalApply(p, step);
            match step
            case ByWorker(w) => (w.CheckAbort? || w.Token? ==> Streams(q))
            case BySynth(which, y) => (y == Settle(false) ==> SynthOf(q, which).Claiming?)
            case _ => true
  {
  }

  // It is displaced: another draft is speculated on, prewarmed or sent.
  predicate Displaces(s: Server, step: Step, i: nat)
    requires i < |s.specs|
  {
    && s.slot == Some(i)
    && match step
       case Speculate(key, _, stale) => !stale && key != s.specs[i].key
       case Prewarm(key) => key != s.specs[i].key
       case Send(key) => key != s.specs[i].key
       case _ => false
  }

  lemma WriterAborts(p: Spec, step: WriterStep)
    requires WriterEnabled(p, step)
    ensures WriterApply(p, step).abort <==> p.abort || step == ClientGone
  {
  }

  lemma LocalAborts(p: Spec, step: LocalStep)
    requires LocalEnabled(p, step)
    ensures LocalApply(p, step).abort <==> p.abort || step == ByWriter(ClientGone)
  {
    match step
    case ByWorker(w) => assert WorkerApply(p, w).abort == p.abort;
    case BySynth(which, y) => assert SynthApply(p, which, y).abort == p.abort;
    case ByWriter(r) => WriterAborts(p, r);
  }

  // In every run a step aborts a speculation exactly if it displaces it or if the
  // client its reply is told to has gone.
  lemma AbortedIff(steps: seq<Step>, step: Step, i: nat)
    requires Run(steps + [step]).Some?
    ensures Run(steps).Some?
    ensures var s, t := Run(steps).value, Run(steps + [step]).value;
            i < |s.specs| ==>
              && i < |t.specs|
              && (t.specs[i].abort <==> s.specs[i].abort || Displaces(s, step, i) || step == Local(i, ByWriter(ClientGone)))
  {
    assert (steps + [step])[..|steps|] == steps;
    var s := Run(steps).value;
    RunOwned(steps);
    if i < |s.specs| && step.Local? && step.i == i {
      LocalAborts(s.specs[i], step.step);
    }
  }

  // -------------------------------------------------------------------------
  // Syntheses and the outcome
  // -------------------------------------------------------------------------

  // The step brings text that completes a sentence.
  predicate Completes(step: LocalStep) {
    step.ByWorker? && ((step.worker.Token? && step.worker.sentence) || (step.worker.FlushText? && step.worker.sentence))
  }

  // The result the step ends the stream with.
  function Ends(step: LocalStep): Option<bool> {
    if step.ByWorker? && step.worker.StreamEnds? then Some(step.worker.result) else None
  }

  // Some text of speculation i has completed a sentence.
  predicate SentenceSeen(steps: seq<Step>, i: nat) {
    if steps == [] then false
    else
      var step := steps[|steps| - 1];
      SentenceSeen(steps[..|steps| - 1], i) || (step.Local? && step.i == i && Completes(step.step))
  }

  // How the stream of speculation i ended.
  function StreamResult(steps: seq<Step>, i: nat): Option<bool> {
    if steps == [] then None
    else
      var step := steps[|steps| - 1];
      if step.Local? && step.i == i && Ends(step.step).Some? then Ends(step.step)
      else StreamResult(steps[..|steps| - 1], i)
  }

  predicate LifeRight(p: Spec, sentence: bool, result: Option<bool>) {
    && (p.hasSentence <==> sentence)
    && (p.early.NotStarted? <==> !(p.earlyTts && sentence))
    && (p.workerAt.Flushing? || p.workerAt.Publishing? || p.workerAt.Settled? ==> Some(p.workerAt.result) == result)
    && (p.llmDone ==> Some(p.ok) == result)
    && (p.workerAt.Settled? ==> p.llmDone)
    && (!p.fallback.NotStarted? ==> p.llmDone && p.ok)
  }

  predicate AllRight(steps: seq<Step>, s: Server) {
    forall i | 0 <= i < |s.specs| :: LifeRight(s.specs[i], SentenceSeen(steps, i), StreamResult(steps, i))
  }

  lemma WorkerLife(p: Spec, step: WorkerStep, sentence: bool, result: Option<bool>)
    requires LifeRight(p, sentence, result) && WorkerOk(p) && WorkerEnabled(p, step)
    ensures LifeRight(WorkerApply(p, step), sentence || Completes(ByWorker(step)),
                      if step.StreamEnds? then Some(step.result) else result)
  {
  }

  lemma SynthLife(p: Spec, which: Which, step: SynthStep, sentence: bool, result: Option<bool>)
    requires LifeRight(p, sentence, result) && SynthEnabled(SynthOf(p, which), step)
    ensures LifeRight(SynthApply(p, which, step), sentence, result)
  {
  }

  lemma WriterLife(p: Spec, step: WriterStep, sentence: bool, result: Option<bool>)
    requires LifeRight(p, sentence, result) && WriterEnabled(p, step)
    ensures LifeRight(WriterApply(p, step), sentence, result)
  {
  }

  lemma SpecsStay(s: Server, step: Step)
    requires Enabled(s, step)
    ensures |Apply(s, step).specs| >= |s.specs|
  {
  }

  // Nothing has happened yet to a speculation that has not been made.
  lemma {:induction false} NotBefore(steps: seq<Step>, i: nat)
    requires Run(steps).Some? && i >= |Run(steps).value.specs|
    ensures !SentenceSeen(steps, i) && StreamResult(steps, i).None?
  {
    if steps != [] {
      var init := steps[..|steps| - 1];
      SpecsStay(Run(init).value, steps[|steps| - 1]);
      NotBefore(init, i);
    }
  }

  lemma LocalLife(p: Spec, step: LocalStep, sentence: bool, result: Option<bool>)
    requires LifeRight(p, sentence, result) && WorkerOk(p) && LocalEnabled(p, step)
    ensures LifeRight(LocalApply(p, step), sentence || Completes(step), if Ends(step).Some? then Ends(step) else result)
  {
    match step
    case ByWorker(w) => WorkerLife(p, w, sentence, result);
    case BySynth(which, y) => SynthLife(p, which, y, sentence, result);
    case ByWriter(r) => WriterLife(p, r, sentence, result);
  }

  lemma OthersLife(s: Server, step: Step, i: nat, sentence: bool, result: Option<bool>)
    requires Enabled(s, step) && i < |s.specs| && (step.Local? ==> step.i != i)
    requires LifeRight(s.specs[i], sentence, result)
    ensures i < |Apply(s, step).specs| && LifeRight(Apply(s, step).specs[i], sentence, result)
  {
  }

  lemma OneLife(steps: seq<Step>, step: Step, i: nat)
    requires Run(steps).Some? && Enabled(Run(steps).value, step) && Owned(Run(steps).value)
    requires AllRight(steps, Run(steps).value) && i < |Apply(Run(steps).value, step).specs|
    ensures LifeRight(Apply(Run(steps).value, step).specs[i], SentenceSeen(steps + [step], i), StreamResult(steps + [step], i))
  {
    var all, s := steps + [step], Run(steps).value;
    assert all[..|steps|] == steps;
    var sentence, result := SentenceSeen(steps, i), StreamResult(steps, i);
    if i >= |s.specs| {
      NotBefore(steps, i);
    } else if step.Local? && step.i == i {
      assert Placed(s, i);
      LocalLife(s.specs[i], step.step, sentence, result);
    } else {
      OthersLife(s, step, i, sentence, result);
    }
  }

  lemma {:induction false} RunLife(steps: seq<Step>)
    requires Run(steps).Some?
    ensures AllRight(steps, Run(steps).value)
  {
    if steps != [] {
      var init, step := steps[..|steps| - 1], steps[|steps| - 1];
      RunLife(init);
      RunOwned(init);
      assert init + [step] == steps;
      forall i | 0 <= i < |Run(steps).value.specs|
        ensures LifeRight(Run(steps).value.specs[i], SentenceSeen(steps, i), StreamResult(steps, i))
      {
        OneLife(init, step, i);
      }
    }
  }

  // In every run the early synthesis has been started exactly if one was asked for and
  // a sentence is complete, the published outcome is that of the stream, and the
  // fallback synthesis has been started only for a reply that succeeded.
  lemma LifeFollowsTheStream(steps: seq<Step>, i: nat)
    requires Run(steps).Some? && i < |Run(steps).value.specs|
    ensures var p := Run(steps).value.specs[i];
            && (p.early.NotStarted? <==> !(p.earlyTts && SentenceSeen(steps, i)))
            && (p.llmDone ==> Some(p.ok) == StreamResult(steps, i))
            && (!p.fallback.NotStarted? ==> StreamResult(steps, i) == Some(true))
  {
    RunLife(steps);
  }

  // When the worker is through with it, the fallback is started exactly if the reply
  // succeeded and nothing has aborted it by then.
  lemma FallbackIff(steps: seq<Step>, i: nat)
    requires Run(steps + [Local(i, ByWorker(Decide))]).Some?
    ensures Run(steps).Some? && i < |Run(steps).value.specs|
    ensures var s, t := Run(steps).value, Run(steps + [Local(i, ByWorker(Decide))]).value;
            i < |t.specs| && (t.specs[i].fallback == Settling <==> StreamResult(steps, i) == Some(true) && !s.specs[i].abort)
  {
    assert (steps + [Local(i, ByWorker(Decide))])[..|steps|] == steps;
    RunLife(steps);
    RunOwned(steps);
    assert Placed(Run(steps).value, i);
  }
}
