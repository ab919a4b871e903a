/** What the worker of a speculation has put into its buffer (app/server/runtime.cpp), said
    of the schedule, and so what a replay tells the client of what the model wrote. */
module ReplayBuffer {
  import opened Bytes
  import opened Wrappers
  import Seg = Segmenter
  import opened Replay

  // The texts emitted so far, and how the stream ended if it has.
  function Emitted(steps: seq<Step>): seq<bytes> {
    if steps == [] then []
    else
      var step := steps[|steps| - 1];
      Emitted(steps[..|steps| - 1]) + if step.Emit? then [step.clean] else []
  }

  datatype Outcome = Outcome(ok: bool, finishReason: bytes)

  function Ended(steps: seq<Step>): Option<Outcome> {
    if steps == [] then None
    else
      var step := steps[|steps| - 1];
      if step.Finish? then Some(Outcome(step.ok, step.finishReason)) else Ended(steps[..|steps| - 1])
  }

  // The segments of those texts.
  function Segments(c: Config, steps: seq<Step>): Seg.Taken
    requires c.options.max >= 1
  {
    Seg.FeedAll(c.options, Seg.State([], false), Emitted(steps))
  }

  predicate BufferRight(c: Config, steps: seq<Step>, s: State)
    requires c.options.max >= 1
  {
    var t := Segments(c, steps);
    && s.text == Flatten(Emitted(steps)) && s.sentences == t.ready
    && (s.llmDone <==> Ended(steps).Some?)
    && (if s.llmDone then Ended(steps) == Some(Outcome(s.ok, s.finishReason)) && s.rest == Trim(t.pending)
        else s.seg == Seg.State(t.pending, t.emitted))
  }

  lemma ScheduleAppend(steps: seq<Step>, step: Step)
    ensures Emitted(steps + [step]) == Emitted(steps) + if step.Emit? then [step.clean] else []
    ensures Ended(steps + [step]) == if step.Finish? then Some(Outcome(step.ok, step.finishReason)) else Ended(steps)
  {
    assert (steps + [step])[..|steps|] == steps;
  }

  // Feeding one text more.
  lemma {:induction false} FeedOneMore(o: Seg.Options, s: Seg.State, texts: seq<bytes>, more: bytes)
    requires o.max >= 1
    ensures var before := Seg.FeedAll(o, s, texts);
            var t := Seg.TakeReady(o, before.emitted, before.pending + more);
            Seg.FeedAll(o, s, texts + [more]) == Seg.Taken(before.ready + t.ready, t.emitted, t.pending)
    decreases |texts|
  {
    var all := texts + [more];
    if texts == [] {
      assert all == [more] && all[1..] == [];
      var t := Seg.TakeReady(o, s.emitted, s.pending + more);
      assert t.ready + [] == t.ready && [] + t.ready == t.ready;
    } else {
      assert all[0] == texts[0] && all[1..] == texts[1..] + [more];
      var first := Seg.TakeReady(o, s.emitted, s.pending + texts[0]);
      FeedOneMore(o, Seg.State(first.pending, first.emitted), texts[1..], more);
      SegmentsAssoc(first.ready, Seg.FeedAll(o, Seg.State(first.pending, first.emitted), texts[1..]).ready);
    }
  }

  lemma SegmentsAssoc(a: seq<bytes>, b: seq<bytes>)
    ensures forall c: seq<bytes> :: a + (b + c) == (a + b) + c
  {
  }

  lemma EmitFills(c: Config, steps: seq<Step>, s: State, clean: bytes)
    requires c.options.max >= 1 && BufferRight(c, steps, s) && !s.llmDone
    ensures BufferRight(c, steps + [Emit(clean)], EmitClean(c, s, clean))
  {
    ScheduleAppend(steps, Emit(clean));
    FeedOneMore(c.options, Seg.State([], false), Emitted(steps), clean);
    FlattenAppend(Emitted(steps), [clean]);
    assert Flatten([clean]) == clean + [] == clean;
  }

  lemma FillStep(c: Config, steps: seq<Step>, s: State, step: Step)
    requires c.options.max >= 1 && BufferRight(c, steps, s) && Enabled(s, step)
    ensures BufferRight(c, steps + [step], Apply(c, s, step))
  {
    ScheduleAppend(steps, step);
    if step.Emit? {
      EmitFills(c, steps, s, step.clean);
    } else {
      assert Emitted(steps) + [] == Emitted(steps);
    }
  }

  lemma {:induction false} RunFills(c: Config, steps: seq<Step>)
    requires c.options.max >= 1 && Run(c, steps).Some?
    ensures BufferRight(c, steps, Run(c, steps).value)
  {
    if steps != [] {
      var init, step := steps[..|steps| - 1], steps[|steps| - 1];
      RunFills(c, init);
      FillStep(c, init, Run(c, init).value, step);
      assert init + [step] == steps;
    }
  }

  // In every run, a replay that has come to its end has shown all the texts the model
  // wrote, has voiced their segments and their tail, and has told how it ended. The tail
  // is left out if it is empty, or if the token ceiling cut it off before a sentence's end.
  lemma ReplayTellsWhatWasWritten(c: Config, steps: seq<Step>)
    requires c.options.max >= 1 && Run(c, steps).Some? && Run(c, steps).value.readerAt.Finished?
    ensures Ended(steps).Some?
    ensures var pushed, end := Run(c, steps).value.pushed, Ended(steps).value;
            var t := Segments(c, steps);
            var tail := Trim(t.pending);
            var cutOff := end.finishReason == [108, 101, 110, 103, 116, 104] && !c.endsSpoken(tail);
            && Shown(pushed) == Flatten(Emitted(steps))
            && Voiced(pushed) == t.ready + (if tail == [] || cutOff then [] else [tail])
            && pushed != [] && pushed[|pushed| - 1] == LlmDone(end.finishReason, end.ok)
  {
    RunFills(c, steps);
    ReplayIsComplete(c, steps);
  }
}
