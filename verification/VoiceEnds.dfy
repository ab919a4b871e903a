/** How a live-voice session ends: with the end of its stream, and with every turn
    committed and every decode done. */
module VoiceEnds {
  import opened Wrappers
  import opened VadWindows
  import opened VoiceProtocol
  import opened VoiceWellFormed

  // Whether the commit in progress is the one of the teardown.
  function LastOf(at: AudioAt): Option<bool> {
    match at
    case Gate(last) => Some(last)
    case Drop(last) => Some(last)
    case AwaitIdle(last) => Some(last)
    case Serve(last) => Some(last)
    case EmitServed(last, _, _) => Some(last)
    case AskFinal(last) => Some(last)
    case AwaitFinal(last) => Some(last)
    case Clear(last) => Some(last)
    case _ => None
  }

  predicate InTeardown(at: AudioAt) { at.Teardown? || at.Joining? || at.Stopped? }

  predicate EndsRight(s: State, over: bool) {
    && (over <==> InTeardown(s.audioAt) || LastOf(s.audioAt) == Some(true))
    && (InTeardown(s.audioAt) ==> !s.speaking)
    && (s.quit <==> s.audioAt.Joining? || s.audioAt.Stopped?)
    && (s.workerAt.Exited? ==> s.quit && s.pending.None?)
    && (s.audioAt.Stopped? ==> s.workerAt.Exited?)
  }

  lemma EndsWorkerStep(s: State, step: Step, over: bool)
    requires EndsRight(s, over) && WorkerEnabled(s, step)
    ensures EndsRight(ApplyWorker(s, step), over)
  {
  }

  lemma EndsCommitStep(c: Config, s: State, step: Step, over: bool)
    requires EndsRight(s, over) && CommitEnabled(c, s, step) && WellFormed(s)
    ensures EndsRight(ApplyCommit(c, s, step), over)
  {
  }

  lemma EndsTurnStep(c: Config, s: State, step: Step, over: bool)
    requires EndsRight(s, over) && TurnEnabled(c, s, step)
    ensures EndsRight(ApplyTurn(c, s, step), over || step.EndOfStream?)
  {
  }

  lemma EndsStep(c: Config, s: State, step: Step, over: bool)
    requires EndsRight(s, over) && Enabled(c, s, step) && WellFormed(s)
    ensures EndsRight(Apply(c, s, step), over || step.EndOfStream?)
  {
    if IsWorkerStep(step) {
      EndsWorkerStep(s, step, over);
    } else if IsCommitStep(step) {
      EndsCommitStep(c, s, step, over);
    } else {
      EndsTurnStep(c, s, step, over);
    }
  }

  // The stream has ended.
  predicate Over(steps: seq<Step>) { exists i :: 0 <= i < |steps| && steps[i].EndOfStream? }

  lemma OverSnoc(steps: seq<Step>, step: Step)
    ensures Over(steps + [step]) <==> Over(steps) || step.EndOfStream?
  {
    var all := steps + [step];
    assert all[|steps|] == step;
    if Over(steps) {
      var i :| 0 <= i < |steps| && steps[i].EndOfStream?;
      assert all[i] == steps[i];
    }
  }

  lemma {:induction false} RunEnds(c: Config, steps: seq<Step>)
    requires Run(c, steps).Some?
    ensures EndsRight(Run(c, steps).value, Over(steps))
  {
    if steps != [] {
      var init, step := steps[..|steps| - 1], steps[|steps| - 1];
      var s := Run(c, init).value;
      RunEnds(c, init);
      RunWellFormed(c, init);
      assert init + [step] == steps;
      OverSnoc(init, step);
      EndsStep(c, s, step, Over(init));
    }
  }

  // In every run the audio loop is tearing down, or in the commit that comes before it,
  // exactly if the stream has ended; nothing is read from then on; the worker is told to
  // quit with no turn open, leaves with nothing queued, and is gone when the run stops.
  lemma EndsWithTheStream(c: Config, steps: seq<Step>, step: Step)
    requires Run(c, steps).Some?
    ensures var s := Run(c, steps).value;
            && (Over(steps) <==> InTeardown(s.audioAt) || LastOf(s.audioAt) == Some(true))
            && (Over(steps) && Enabled(c, s, step) ==> !step.Read? && !step.EndOfStream?)
            && (s.quit ==> Over(steps) && !s.speaking)
            && (s.workerAt.Exited? ==> s.quit && s.pending.None?)
            && (s.audioAt.Stopped? ==> s.workerAt.Exited?)
  {
    RunEnds(c, steps);
  }
}
