/** Every reply can be told to its end: in every run, as long as no write has failed, the
    worker, the reader and the writer can go on until the writer has left. */
module ReplyEnds {
  import opened Bytes
  import opened Wrappers
  import opened ReplyWriter
  import R = Replay

  // ---- The reader ----------------------------------------------------------

  function ReaderNext(at: R.ReaderAt): R.Step
    requires !at.Finished? && !at.Aborted?
  {
    match at
    case Looking => R.Look
    case Pushing(_, _) => R.Push
    case ReadOutcome(_) => R.FetchOutcome
    case PushDone(_, _) => R.PushLast
  }

  // What is left once the reply is there: stages, and events to push.
  function StagesLeft(at: R.ReaderAt): nat {
    match at
    case Pushing(_, finish) => if finish.None? then 5 else 3
    case Looking => 4
    case ReadOutcome(_) => 2
    case PushDone(_, _) => 1
    case Finished => 0
    case Aborted => 0
  }

  function BatchLeft(at: R.ReaderAt): nat { if at.Pushing? then |at.batch| else 0 }

  lemma ReaderMoves(c: R.Config, s: R.State)
    requires c.options.max >= 1 && s.llmDone && !s.readerAt.Finished? && !s.readerAt.Aborted?
    ensures var step := ReaderNext(s.readerAt); R.Enabled(s, step) && !step.ClientGone?
    ensures var t := R.Apply(c, s, ReaderNext(s.readerAt));
            && t.llmDone && !t.readerAt.Aborted?
            && (|| StagesLeft(t.readerAt) < StagesLeft(s.readerAt)
                || (StagesLeft(t.readerAt) == StagesLeft(s.readerAt) && BatchLeft(t.readerAt) < BatchLeft(s.readerAt)))
  {
  }

  // ---- Steps ---------------------------------------------------------------

  lemma Extend(c: Config, steps: seq<Step>, step: Step, more: seq<Step>)
    requires c.replay.options.max >= 1 && Run(c, steps).Some? && Enabled(Run(c, steps).value, step)
    ensures Run(c, steps + [step]) == Some(Apply(c, Run(c, steps).value, step))
    ensures (steps + [step]) + more == steps + ([step] + more)
  {
    RunExtends(c, steps, step);
  }

  // A step by which a reply goes on: no write fails and nobody leaves early.
  predicate GoesOn(step: Step) { !step.Fail? && (step.Replaying? ==> !step.step.ClientGone?) }

  predicate AllGoOn(steps: seq<Step>) { forall i | 0 <= i < |steps| :: GoesOn(steps[i]) }

  lemma OneAfter(steps: seq<Step>, first: seq<Step>, rest: seq<Step>)
    requires AllGoOn(first) && AllGoOn(rest)
    ensures steps + (first + rest) == (steps + first) + rest && AllGoOn(first + rest)
  {
  }

  lemma {:induction false} ReaderEnds(c: Config, steps: seq<Step>) returns (more: seq<Step>)
    requires c.replay.options.max >= 1 && Run(c, steps).Some?
    requires Run(c, steps).value.replay.llmDone && !Run(c, steps).value.replay.readerAt.Aborted?
    ensures Run(c, steps + more).Some? && Run(c, steps + more).value.replay.readerAt.Finished?
    ensures Run(c, steps + more).value.writer == Run(c, steps).value.writer
    ensures AllGoOn(more)
    decreases StagesLeft(Run(c, steps).value.replay.readerAt), BatchLeft(Run(c, steps).value.replay.readerAt)
  {
    var s := Run(c, steps).value;
    if s.replay.readerAt.Finished? {
      more := [];
      assert steps + more == steps;
    } else {
      var step := Replaying(ReaderNext(s.replay.readerAt));
      ReaderMoves(c.replay, s.replay);
      Extend(c, steps, step, []);
      var rest := ReaderEnds(c, steps + [step]);
      Extend(c, steps, step, rest);
      more := [step] + rest;
    }
  }

  // ---- The writer ----------------------------------------------------------

  function WriterNext(s: State): Step
    requires !s.writer.at.Left? && !s.writer.at.Failed?
  {
    match s.writer.at
    case Waiting => if Waits(s) then Leave else Pop
    case Speaking => Spoken
    case Announcing(_) => Prime
  }

  function EventsLeft(s: State): int { |s.replay.pushed| - s.writer.taken }

  function WriterLeft(at: WriterAt): nat {
    match at
    case Speaking => 2
    case Announcing(_) => 2
    case Waiting => 1
    case Left => 0
    case Failed => 0
  }

  lemma WriterMoves(c: Config, s: State)
    requires c.replay.options.max >= 1 && !s.writer.at.Left? && !s.writer.at.Failed? && s.writer.taken <= |s.replay.pushed|
    requires Waits(s) ==> s.writer.llmFinished
    ensures Enabled(s, WriterNext(s)) && GoesOn(WriterNext(s))
    ensures var t := Apply(c, s, WriterNext(s));
            && t.replay == s.replay && !t.writer.at.Failed?
            && (|| EventsLeft(t) < EventsLeft(s)
                || (EventsLeft(t) == EventsLeft(s) && WriterLeft(t.writer.at) < WriterLeft(s.writer.at)))
  {
  }

  lemma {:induction false} WriterEnds(c: Config, steps: seq<Step>) returns (more: seq<Step>)
    requires c.replay.options.max >= 1 && Run(c, steps).Some?
    requires Run(c, steps).value.replay.readerAt.Finished? && !Run(c, steps).value.writer.at.Failed?
    ensures Run(c, steps + more).Some? && Run(c, steps + more).value.writer.at.Left?
    ensures AllGoOn(more)
    decreases EventsLeft(Run(c, steps).value), WriterLeft(Run(c, steps).value.writer.at)
  {
    var s := Run(c, steps).value;
    if s.writer.at.Left? {
      more := [];
      assert steps + more == steps;
    } else {
      RunInv(c, steps);
      WriterSeesTheEnd(c, steps);
      WriterMoves(c, s);
      Extend(c, steps, WriterNext(s), []);
      RunInv(c, steps + [WriterNext(s)]);
      var rest := WriterEnds(c, steps + [WriterNext(s)]);
      Extend(c, steps, WriterNext(s), rest);
      more := [WriterNext(s)] + rest;
    }
  }

  // ---- The whole -----------------------------------------------------------

  lemma ModelEnds(c: Config, steps: seq<Step>) returns (more: seq<Step>)
    requires c.replay.options.max >= 1 && Run(c, steps).Some?
    ensures Run(c, steps + more).Some? && Run(c, steps + more).value.replay.llmDone
    ensures Run(c, steps + more).value.replay.readerAt == Run(c, steps).value.replay.readerAt
    ensures Run(c, steps + more).value.writer == Run(c, steps).value.writer
    ensures AllGoOn(more)
  {
    if Run(c, steps).value.replay.llmDone {
      more := [];
      assert steps + more == steps;
    } else {
      more := [Replaying(R.Finish(false, []))];
      Extend(c, steps, more[0], []);
    }
  }

  lemma ReaderIsThere(c: Config, steps: seq<Step>)
    requires c.replay.options.max >= 1 && Run(c, steps).Some? && !Run(c, steps).value.writer.at.Failed?
    ensures !Run(c, steps).value.replay.readerAt.Aborted?
  {
    RunInv(c, steps);
  }

  lemma WrittenOut(c: Config, steps: seq<Step>) returns (more: seq<Step>)
    requires c.replay.options.max >= 1 && Run(c, steps).Some? && !Run(c, steps).value.writer.at.Failed?
    requires Run(c, steps).value.replay.llmDone
    ensures Run(c, steps + more).Some? && Run(c, steps + more).value.writer.at.Left?
    ensures AllGoOn(more)
  {
    ReaderIsThere(c, steps);
    var first := ReaderEnds(c, steps);
    var rest := WriterEnds(c, steps + first);
    OneAfter(steps, first, rest);
    more := first + rest;
  }

  // In every run in which no write has failed, the reply can be told to its end: the
  // writer leaves, with everything popped.
  lemma EveryReplyEnds(c: Config, steps: seq<Step>) returns (more: seq<Step>)
    requires c.replay.options.max >= 1 && Run(c, steps).Some? && !Run(c, steps).value.writer.at.Failed?
    ensures Run(c, steps + more).Some? && Run(c, steps + more).value.writer.at.Left?
    ensures AllGoOn(more)
  {
    var first := ModelEnds(c, steps);
    var rest := WrittenOut(c, steps + first);
    OneAfter(steps, first, rest);
    more := first + rest;
  }
}
