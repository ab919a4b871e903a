/** Every speculation can wind down, in every run: the threads never wait for each other
    in a circle, and what they still have to do is finite. */
module SpeculationEnds {
  import opened Bytes
  import opened Wrappers
  import opened Speculation

  predicate Busy(at: SynthAt) { !at.NotStarted? && !at.Over? }

  // Its threads have all returned.
  predicate Through(p: Spec) { p.workerAt.Gone? && !Busy(p.early) && !Busy(p.fallback) }

  // What the worker and a synthesis do next when the model and the clock give nothing more.
  function WorkerNext(at: WorkerAt): WorkerStep
    requires !at.Gone? && !at.Waiting?
  {
    match at
    case Holding => CheckAbort
    case Streaming => StreamEnds(false)
    case Stopping => StreamEnds(false)
    case Flushing(_) => FlushText(false)
    case Publishing(_) => Publish
    case Settled(_) => Decide
  }

  function SynthNext(at: SynthAt): SynthStep
    requires Busy(at)
  {
    match at
    case Settling => Settle(false)
    case Claiming => Claim
    case Synthesizing => SynthDone
  }

  function NextFor(p: Spec): LocalStep
    requires !Through(p) && !p.workerAt.Waiting?
  {
    if !p.workerAt.Gone? then ByWorker(WorkerNext(p.workerAt))
    else if Busy(p.early) then BySynth(Early, SynthNext(p.early))
    else BySynth(Fallback, SynthNext(p.fallback))
  }

  // How much is left to do.
  function WorkerLeft(at: WorkerAt): nat {
    match at
    case Waiting => 6
    case Holding => 5
    case Streaming => 4
    case Stopping => 4
    case Flushing(_) => 3
    case Publishing(_) => 2
    case Settled(_) => 1
    case Gone => 0
  }

  function SynthLeft(at: SynthAt): nat {
    match at
    case NotStarted => 4
    case Settling => 3
    case Claiming => 2
    case Synthesizing => 1
    case Over => 0
  }

  function SynthsLeft(p: Spec): nat { SynthLeft(p.early) + SynthLeft(p.fallback) }

  predicate Less(q: Spec, p: Spec) {
    || WorkerLeft(q.workerAt) < WorkerLeft(p.workerAt)
    || (WorkerLeft(q.workerAt) == WorkerLeft(p.workerAt) && SynthsLeft(q) < SynthsLeft(p))
  }

  lemma NextIsLess(p: Spec)
    requires !Through(p) && !p.workerAt.Waiting?
    ensures LocalEnabled(p, NextFor(p))
    ensures var q := LocalApply(p, NextFor(p)); Less(q, p) && !q.workerAt.Waiting?
  {
    if !p.workerAt.Gone? {
      WorkerIsLess(p);
    } else {
      SynthIsLess(p, if Busy(p.early) then Early else Fallback);
    }
  }

  lemma WorkerIsLess(p: Spec)
    requires !p.workerAt.Gone? && !p.workerAt.Waiting?
    ensures WorkerEnabled(p, WorkerNext(p.workerAt))
    ensures WorkerLeft(WorkerApply(p, WorkerNext(p.workerAt)).workerAt) < WorkerLeft(p.workerAt)
  {
  }

  // The other synthesis and the worker stay where they are.
  lemma EarlyIsLess(p: Spec)
    requires Busy(p.early)
    ensures SynthEnabled(p.early, SynthNext(p.early))
    ensures var q := SynthApply(p, Early, SynthNext(p.early));
            q.workerAt == p.workerAt && q.fallback == p.fallback && SynthLeft(q.early) < SynthLeft(p.early)
  {
  }

  lemma FallbackIsLess(p: Spec)
    requires Busy(p.fallback)
    ensures SynthEnabled(p.fallback, SynthNext(p.fallback))
    ensures var q := SynthApply(p, Fallback, SynthNext(p.fallback));
            q.workerAt == p.workerAt && q.early == p.early && SynthLeft(q.fallback) < SynthLeft(p.fallback)
  {
  }

  lemma SynthIsLess(p: Spec, which: Which)
    requires Busy(SynthOf(p, which))
    ensures SynthEnabled(SynthOf(p, which), SynthNext(SynthOf(p, which)))
    ensures var q := SynthApply(p, which, SynthNext(SynthOf(p, which)));
            q.workerAt == p.workerAt && SynthsLeft(q) < SynthsLeft(p)
  {
    if which.Early? { EarlyIsLess(p); } else { FallbackIsLess(p); }
  }

  // Only speculation i has moved, and it holds the stream no more.
  predicate OnlyMoved(s: Server, t: Server, i: nat) {
    && |t.specs| == |s.specs| && t.slot == s.slot && t.sends == s.sends
    && (forall k | 0 <= k < |s.specs| && k != i :: t.specs[k] == s.specs[k])
    && t.streamLock == (if s.streamLock == Some(i) then None else s.streamLock)
  }

  lemma {:induction false} RunConcat(steps: seq<Step>, more: seq<Step>, step: Step)
    requires Run(steps).Some? && Enabled(Run(steps).value, step)
    ensures Run(steps + [step]) == Some(Apply(Run(steps).value, step))
    ensures (steps + [step]) + more == steps + ([step] + more)
  {
    assert (steps + [step])[..|steps|] == steps;
  }

  // A speculation whose worker has had the stream winds down by its own threads' steps.
  lemma {:induction false} GoesOn(steps: seq<Step>, i: nat) returns (more: seq<Step>)
    requires Run(steps).Some? && i < |Run(steps).value.specs| && !Run(steps).value.specs[i].workerAt.Waiting?
    ensures Run(steps + more).Some? && OnlyMoved(Run(steps).value, Run(steps + more).value, i)
    ensures Through(Run(steps + more).value.specs[i])
    ensures forall step <- more :: step.Local? && step.i == i
    decreases WorkerLeft(Run(steps).value.specs[i].workerAt), SynthsLeft(Run(steps).value.specs[i])
  {
    var s := Run(steps).value;
    RunOwned(steps);
    assert Placed(s, i);
    if Through(s.specs[i]) {
      more := [];
      assert steps + more == steps;
    } else {
      var step := Local(i, NextFor(s.specs[i]));
      NextIsLess(s.specs[i]);
      RunConcat(steps, [], step);
      var t := Apply(s, step);
      assert t.specs[i] == LocalApply(s.specs[i], NextFor(s.specs[i]));
      RunOwned(steps + [step]);
      assert Placed(t, i);
      var rest := GoesOn(steps + [step], i);
      RunConcat(steps, rest, step);
      more := [step] + rest;
    }
  }

  // Whoever holds the stream can be done with it; a worker that waits for it still does.
  lemma FreesTheStream(steps: seq<Step>, i: nat) returns (more: seq<Step>)
    requires Run(steps).Some? && i < |Run(steps).value.specs| && Run(steps).value.specs[i].workerAt.Waiting?
    ensures Run(steps + more).Some? && Run(steps + more).value.streamLock.None?
    ensures i < |Run(steps + more).value.specs| && Run(steps + more).value.specs[i].workerAt.Waiting?
    ensures forall step <- more :: step.Local?
  {
    var s := Run(steps).value;
    RunOwned(steps);
    assert Placed(s, i);
    if s.streamLock.None? {
      more := [];
      assert steps + more == steps;
    } else {
      assert Placed(s, s.streamLock.value);
      more := GoesOn(steps, s.streamLock.value);
    }
  }

  // A waiting worker that finds the stream free takes it, and winds down.
  lemma TakesTheStream(steps: seq<Step>, i: nat) returns (more: seq<Step>)
    requires Run(steps).Some? && i < |Run(steps).value.specs| && Run(steps).value.specs[i].workerAt.Waiting?
    requires Run(steps).value.streamLock.None?
    ensures Run(steps + more).Some? && i < |Run(steps + more).value.specs| && Through(Run(steps + more).value.specs[i])
    ensures forall step <- more :: step.LockStream? || step.Local?
  {
    var step := LockStream(i);
    RunOwned(steps);
    RunConcat(steps, [], step);
    var rest := GoesOn(steps + [step], i);
    RunConcat(steps, rest, step);
    more := [step] + rest;
  }

  // In every run every speculation can come to its end, whoever has the stream: by steps
  // of its own threads and of the worker that holds it, with no synthesis left running.
  lemma EverySpeculationEnds(steps: seq<Step>, i: nat) returns (more: seq<Step>)
    requires Run(steps).Some? && i < |Run(steps).value.specs|
    ensures Run(steps + more).Some? && i < |Run(steps + more).value.specs|
    ensures Through(Run(steps + more).value.specs[i])
    ensures forall step <- more :: step.LockStream? || step.Local?
  {
    if Run(steps).value.specs[i].workerAt.Waiting? {
      var first := FreesTheStream(steps, i);
      var rest := TakesTheStream(steps + first, i);
      more := first + rest;
      assert steps + more == (steps + first) + rest;
    } else {
      more := GoesOn(steps, i);
    }
  }

  // A writer that follows its audio is then served or on its own after two looks.
  lemma WriterIsNotLeftWaiting(steps: seq<Step>, i: nat)
    requires Run(steps).Some? && i < |Run(steps).value.specs| && Through(Run(steps).value.specs[i])
    ensures var p := Run(steps).value.specs[i];
            && !p.audioState.Running?
            && (p.writerAt.Following? ==> WriterApply(p, ReadChunks).writerAt.Checking?)
            && (p.writerAt.Checking? ==> WriterApply(p, CheckAudio).writerAt.Served? || WriterApply(p, CheckAudio).writerAt.Own?)
  {
    RunOwned(steps);
    assert Placed(Run(steps).value, i);
  }
}
