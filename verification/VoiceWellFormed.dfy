/** The joint state of the two threads in every run, and why neither wait of the
    live-voice protocol can deadlock. */
module VoiceWellFormed {
  import opened Wrappers
  import opened VadWindows
  import opened VoiceProtocol

  predicate Committing(a: AudioAt) {
    a.Drop? || a.AwaitIdle? || a.Serve? || a.EmitServed? || a.AskFinal? || a.AwaitFinal? || a.Clear?
  }

  // The busy flag, the quit flag and the worker's position agree, and the worker
  // handles a decode as what it was queued as.
  predicate WorkerWellFormed(s: State) {
    && (s.workerBusy <==> !(s.workerAt.Idle? || s.workerAt.Exited?))
    && (s.quit <==> s.audioAt.Joining? || s.audioAt.Stopped?)
    && (s.workerAt.Exited? ==> s.quit && s.pending.None?)
    && (s.audioAt.Stopped? ==> s.workerAt.Exited?)
    && (s.workerAt.Answer? ==> s.workerAt.result.job.final)
    && (s.workerAt.Store? ==> !s.workerAt.result.job.final)
    && (s.workerAt.Publish? ==> !s.workerAt.result.job.final)
    && (s.workerAt.Report? ==> !s.workerAt.result.job.final)
  }

  // The audio loop's flags agree with its position.
  predicate AudioWellFormed(s: State) {
    && (s.audioAt.Announce? || s.audioAt.AskPartial? || s.audioAt.Gate? ==> s.speaking)
    && (s.audioAt.Announce? || s.audioAt.AskPartial? ==> !s.pendingEnd)
    && (s.audioAt.AskCandidate? ==> s.pendingEnd)
    && (Committing(s.audioAt) || s.audioAt.Teardown? || s.quit ==> !s.speaking)
    && (s.pendingEnd ==> s.speaking)
    && (!s.pendingEnd ==> s.gapBuffer == [])
  }

  predicate WellFormed(s: State) { WorkerWellFormed(s) && AudioWellFormed(s) }

  lemma WorkerStepWellFormed(s: State, step: Step)
    requires WellFormed(s) && WorkerEnabled(s, step)
    ensures WellFormed(ApplyWorker(s, step))
  {
  }

  lemma CommitStepWellFormed(c: Config, s: State, step: Step)
    requires WellFormed(s) && CommitEnabled(c, s, step)
    ensures WellFormed(ApplyCommit(c, s, step))
  {
  }

  lemma ActivityWellFormed(s: State)
    requires WellFormed(s) && s.audioAt.Activities?
    ensures WellFormed(HandleActivity(s))
  {
  }

  lemma TurnStepWellFormed(c: Config, s: State, step: Step)
    requires WellFormed(s) && TurnEnabled(c, s, step)
    ensures WellFormed(ApplyTurn(c, s, step))
  {
    if step.NextActivity? { ActivityWellFormed(s); }
  }

  lemma WellFormedStep(c: Config, s: State, step: Step)
    requires WellFormed(s) && Enabled(c, s, step)
    ensures WellFormed(Apply(c, s, step))
  {
    if IsWorkerStep(step) {
      WorkerStepWellFormed(s, step);
    } else if IsCommitStep(step) {
      CommitStepWellFormed(c, s, step);
    } else {
      TurnStepWellFormed(c, s, step);
    }
  }

  lemma {:induction false} RunWellFormed(c: Config, steps: seq<Step>)
    requires Run(c, steps).Some?
    ensures WellFormed(Run(c, steps).value)
  {
    if steps != [] {
      var init := steps[..|steps| - 1];
      RunWellFormed(c, init);
      WellFormedStep(c, Run(c, init).value, steps[|steps| - 1]);
    }
  }

  // A step of the worker, when it has work in hand or queued.
  function WorkerStep(s: State): Step {
    match s.workerAt
    case Idle => if s.pending.Some? then Take else Exit
    case Decoding(_) => DecodeFails
    case Store(_) => StoreCandidate
    case Publish(_) => StoreHypothesis
    case Report(_, _) => EndReport
    case Answer(_) => EmitFinal
    case Release => GoIdle
    case Exited => Exit
  }

  // A step of the audio loop.
  function AudioStep(c: Config, s: State): Step {
    match s.audioAt
    case Top => EndOfStream
    case Activities(_) => NextActivity
    case Announce(_) => EmitStarted
    case AskCandidate(_) => QueueCandidate
    case Hold => Decide(Continue)
    case AskPartial => QueuePartial
    case Gate(_) => if BelowGate(c, s) then FailGate else PassGate
    case Drop(_) => DropUtterance
    case AwaitIdle(_) => SeeIdle
    case Serve(_) => TakeCandidate
    case EmitServed(_, _, _) => EmitCandidate
    case AskFinal(_) => QueueFinal
    case AwaitFinal(_) => SeeFinalDone
    case Clear(_) => ClearUtterance
    case Teardown => Quit
    case Joining => Join
    case Stopped => Join
  }

  // Neither wait can last for ever: short of the end of the run, one of the two
  // threads always has a step to take.
  lemma SomeStepEnabled(c: Config, s: State)
    requires WellFormed(s) && !s.audioAt.Stopped?
    ensures Enabled(c, s, WorkerStep(s)) || Enabled(c, s, AudioStep(c, s))
  {
  }

  // No schedule ever wedges: until the run is over some step can be taken.
  lemma RunNeverStuck(c: Config, steps: seq<Step>)
    requires Run(c, steps).Some? && !Run(c, steps).value.audioAt.Stopped?
    ensures exists step :: Run(c, steps + [step]).Some?
  {
    var s := Run(c, steps).value;
    RunWellFormed(c, steps);
    SomeStepEnabled(c, s);
    var step := if Enabled(c, s, WorkerStep(s)) then WorkerStep(s) else AudioStep(c, s);
    RunExtends(c, steps, step);
  }

  // Nothing queued, nothing running.
  predicate AtRest(s: State) { s.pending.None? && (s.workerAt.Idle? || s.workerAt.Exited?) }
}
