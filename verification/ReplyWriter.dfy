/** The writer loop of `chat_orchestrate` (app/server/runtime.cpp) beside the replay it
    is fed by: three threads, the worker, the reader and the writer. The writer pops
    the reader's events, drains tokens while a sentence is being spoken, gathers the
    reply's text, and queues the re-priming of the model when the reply is done. */
module ReplyWriter {
  import opened Bytes
  import opened Wrappers
  import Seg = Segmenter
  import R = Replay

  // `primes`: the request came with the prefix of a body to re-prime with.
  datatype Config = Config(replay: R.Config, primes: bool)

  datatype WriterAt =
    | Waiting
    | Speaking                // inside the synthesis of a sentence
    | Announcing(llmOk: bool) // about to write llm_done
    | Left
    | Failed                  // a write has thrown; `abort` is set

  // `taken` events have been popped; `primed` is the text the re-priming was
  // queued with.
  datatype Writer = Writer(at: WriterAt, taken: nat, replyText: bytes, llmFinished: bool, primed: Option<bytes>)

  datatype State = State(replay: R.State, writer: Writer)

  function Initial(): State { State(R.Initial(), Writer(Waiting, 0, [], false, None)) }

  datatype Step =
    | Replaying(step: R.Step)
    | Pop
    | Drain
    | Spoken
    | Prime
    | Leave
    | Fail

  predicate Waits(s: State) { s.writer.at.Waiting? && s.writer.taken >= |s.replay.pushed| }

  predicate Enabled(s: State, step: Step) {
    match step
    case Replaying(r) => R.Enabled(s.replay, r) && (r.ClientGone? ==> s.writer.at.Failed?)
    case Pop => s.writer.at.Waiting? && s.writer.taken < |s.replay.pushed|
    case Drain => s.writer.at.Speaking?
    case Spoken => s.writer.at.Speaking?
    case Prime => s.writer.at.Announcing?
    case Leave => Waits(s) && s.writer.llmFinished
    case Fail => s.writer.at.Waiting? || s.writer.at.Speaking? || s.writer.at.Announcing?
  }

  // How many events at the front of the queue are tokens.
  function Tokens(queue: seq<R.Event>): (n: nat)
    ensures n <= |queue|
  {
    if queue == [] || !queue[0].Token? then 0 else 1 + Tokens(queue[1..])
  }

  function Queue(s: State): seq<R.Event> {
    if s.writer.taken <= |s.replay.pushed| then s.replay.pushed[s.writer.taken..] else []
  }

  function Handle(w: Writer, e: R.Event): Writer {
    match e
    case Token(text) => w.(taken := w.taken + 1, replyText := w.replyText + text)
    case Sentence(_) => w.(taken := w.taken + 1, at := Speaking)
    case LlmDone(_, ok) => w.(taken := w.taken + 1, llmFinished := true, at := Announcing(ok))
  }

  // llm_done is written.
  function Primed(c: Config, w: Writer): Writer
    requires w.at.Announcing?
  {
    w.(at := Waiting, primed := if w.at.llmOk && c.primes && w.replyText != [] then Some(w.replyText) else w.primed)
  }

  function Drained(s: State): Writer {
    var n := Tokens(Queue(s));
    s.writer.(taken := s.writer.taken + n, replyText := s.writer.replyText + R.Shown(Queue(s)[..n]))
  }

  function Apply(c: Config, s: State, step: Step): State
    requires c.replay.options.max >= 1 && Enabled(s, step)
  {
    match step
    case Replaying(r) => s.(replay := R.Apply(c.replay, s.replay, r))
    case Pop => s.(writer := Handle(s.writer, s.replay.pushed[s.writer.taken]))
    case Drain => s.(writer := Drained(s))
    case Spoken => s.(writer := s.writer.(at := Waiting))
    case Prime => s.(writer := Primed(c, s.writer))
    case Leave => s.(writer := s.writer.(at := Left))
    case Fail => s.(writer := s.writer.(at := Failed))
  }

  function Run(c: Config, steps: seq<Step>): Option<State>
    requires c.replay.options.max >= 1
  {
    if steps == [] then Some(Initial())
    else
      var before := Run(c, steps[..|steps| - 1]);
      var step := steps[|steps| - 1];
      if before.Some? && Enabled(before.value, step) then Some(Apply(c, before.value, step)) else None
  }

  lemma RunExtends(c: Config, steps: seq<Step>, step: Step)
    requires c.replay.options.max >= 1
    requires Run(c, steps).Some? && Enabled(Run(c, steps).value, step)
    ensures Run(c, steps + [step]) == Some(Apply(c, Run(c, steps).value, step))
  {
    assert (steps + [step])[..|steps|] == steps;
  }

  // ---- The invariant -------------------------------------------------------

  predicate MayPrime(c: Config, r: R.State) { r.ok && c.primes && r.text != [] }

  // The text gathered is what the popped events show. The outcome is popped last,
  // and what is primed with is the whole speculated text, if it may be primed. Only a
  // write that fails before can keep it from that.
  predicate WriterOk(c: Config, r: R.State, w: Writer) {
    && w.taken <= |r.pushed|
    && (!w.at.Failed? ==> w.replyText == R.Shown(r.pushed[..w.taken]))
    && (if w.llmFinished then r.readerAt.Finished? && w.taken == |r.pushed| else R.NoDone(r.pushed[..w.taken]))
    && (w.llmFinished ==> !w.at.Speaking?)
    && (w.llmFinished && !w.at.Failed? ==> w.replyText == r.text)
    && (w.at.Announcing? ==> w.llmFinished && w.at.llmOk == r.ok && w.primed.None?)
    && (w.primed.Some? ==> w.llmFinished && MayPrime(c, r) && w.primed.value == r.text)
    && (Announced(w) ==> (w.primed.Some? <==> MayPrime(c, r)))
  }

  // llm_done has been written, and nothing has failed.
  predicate Announced(w: Writer) { w.llmFinished && !w.at.Announcing? && !w.at.Failed? }

  ghost predicate Inv(c: Config, s: State)
    requires c.replay.options.max >= 1
  {
    R.Inv(c.replay, s.replay) && WriterOk(c, s.replay, s.writer)
  }

  // The other two threads only add events, and none once the outcome is out.
  lemma ReplayGrows(c: R.Config, s: R.State, step: R.Step)
    requires c.options.max >= 1 && R.Enabled(s, step)
    ensures var t := R.Apply(c, s, step);
            && |s.pushed| <= |t.pushed| && t.pushed[..|s.pushed|] == s.pushed
            && (s.readerAt.Finished? ==> t.readerAt.Finished? && t.pushed == s.pushed)
            && (s.llmDone ==> t.text == s.text && t.ok == s.ok)
  {
  }

  lemma ReplayingKeeps(c: Config, s: State, r: R.Step)
    requires c.replay.options.max >= 1 && Inv(c, s) && R.Enabled(s.replay, r)
    ensures WriterOk(c, R.Apply(c.replay, s.replay, r), s.writer)
  {
    var t := R.Apply(c.replay, s.replay, r);
    ReplayGrows(c.replay, s.replay, r);
    assert t.pushed[..s.writer.taken] == s.replay.pushed[..s.writer.taken] by {
      assert t.pushed[..s.writer.taken] == t.pushed[..|s.replay.pushed|][..s.writer.taken];
    }
  }

  lemma TakeOne(pushed: seq<R.Event>, n: nat)
    requires n < |pushed|
    ensures R.Shown(pushed[..n + 1]) == R.Shown(pushed[..n]) + (if pushed[n].Token? then pushed[n].text else [])
    ensures R.NoDone(pushed[..n]) && !pushed[n].LlmDone? ==> R.NoDone(pushed[..n + 1])
  {
    assert pushed[..n + 1][..n] == pushed[..n];
    assert pushed[..n + 1] == pushed[..n] + [pushed[n]];
  }

  // Before the reader has finished no outcome is queued, and then it is the last.
  lemma OutcomeIsLast(c: R.Config, s: R.State, n: nat)
    requires c.options.max >= 1 && R.Inv(c, s) && n < |s.pushed| && s.pushed[n].LlmDone?
    ensures s.readerAt.Finished? || s.readerAt.Aborted?
    ensures s.readerAt.Finished? ==> n + 1 == |s.pushed| && s.pushed[n].ok == s.ok && R.Shown(s.pushed) == s.text
  {
    assert s.pushed[n] in s.pushed;
    if s.readerAt.Finished? {
      var init := s.pushed[..|s.pushed| - 1];
      forall k | 0 <= k < |init| ensures !s.pushed[k].LlmDone? { assert init[k] in init; }
    }
  }

  lemma PopKeeps(c: Config, s: State)
    requires c.replay.options.max >= 1 && Inv(c, s) && Enabled(s, Pop) && !s.replay.readerAt.Aborted?
    ensures WriterOk(c, s.replay, Apply(c, s, Pop).writer)
  {
    var n := s.writer.taken;
    TakeOne(s.replay.pushed, n);
    assert s.writer.replyText + [] == s.writer.replyText;
    if s.replay.pushed[n].LlmDone? {
      OutcomeIsLast(c.replay, s.replay, n);
      assert s.replay.pushed[..n + 1] == s.replay.pushed;
    }
  }

  lemma {:induction false} TokensAreTokens(queue: seq<R.Event>)
    ensures R.NoDone(queue[..Tokens(queue)])
  {
    if queue != [] && queue[0].Token? {
      TokensAreTokens(queue[1..]);
      var n := Tokens(queue[1..]);
      assert queue[..n + 1] == [queue[0]] + queue[1..][..n];
    }
  }

  lemma DrainKeeps(c: Config, s: State)
    requires c.replay.options.max >= 1 && Inv(c, s) && s.writer.at.Speaking?
    ensures WriterOk(c, s.replay, Drained(s))
  {
    var k, n := s.writer.taken, Tokens(Queue(s));
    TokensAreTokens(Queue(s));
    R.ShownAppend(s.replay.pushed[..k], Queue(s)[..n]);
    assert s.replay.pushed[..k + n] == s.replay.pushed[..k] + Queue(s)[..n];
  }

  // The reader only gives up once the writer has failed.
  predicate AbortedByWriter(s: State) { s.replay.readerAt.Aborted? ==> s.writer.at.Failed? }

  lemma StepKeeps(c: Config, s: State, step: Step)
    requires c.replay.options.max >= 1 && Inv(c, s) && AbortedByWriter(s) && Enabled(s, step)
    ensures Inv(c, Apply(c, s, step)) && AbortedByWriter(Apply(c, s, step))
  {
    match step
    case Replaying(r) =>
      R.StepKeeps(c.replay, s.replay, r);
      ReplayingKeeps(c, s, r);
    case Pop => PopKeeps(c, s);
    case Drain => DrainKeeps(c, s);
    case _ =>
  }

  lemma {:induction false} RunInv(c: Config, steps: seq<Step>)
    requires c.replay.options.max >= 1 && Run(c, steps).Some?
    ensures Inv(c, Run(c, steps).value) && AbortedByWriter(Run(c, steps).value)
  {
    if steps == [] {
      R.RunInv(c.replay, []);
    } else {
      RunInv(c, steps[..|steps| - 1]);
      StepKeeps(c, Run(c, steps[..|steps| - 1]).value, steps[|steps| - 1]);
    }
  }

  // ---- What that means, over every interleaving ----------------------------

  // Until a write fails, the text gathered is what the popped events show.
  lemma ReplyTextIsShown(c: Config, steps: seq<Step>)
    requires c.replay.options.max >= 1 && Run(c, steps).Some? && !Run(c, steps).value.writer.at.Failed?
    ensures var s := Run(c, steps).value;
            s.writer.taken <= |s.replay.pushed| && s.writer.replyText == R.Shown(s.replay.pushed[..s.writer.taken])
  {
    RunInv(c, steps);
  }

  lemma {:induction false} TokensStop(queue: seq<R.Event>)
    ensures forall i | 0 <= i < Tokens(queue) :: queue[i].Token?
    ensures Tokens(queue) < |queue| ==> !queue[Tokens(queue)].Token?
  {
    if queue != [] && queue[0].Token? { TokensStop(queue[1..]); }
  }

  // Draining takes tokens only, and all that stand at the front of the queue.
  lemma DrainTakesTheTokens(c: Config, steps: seq<Step>)
    requires c.replay.options.max >= 1 && Run(c, steps + [Drain]).Some?
    ensures Run(c, steps).Some?
    ensures var s, t := Run(c, steps).value, Run(c, steps + [Drain]).value;
            && t.replay == s.replay && s.writer.taken <= t.writer.taken <= |s.replay.pushed|
            && (forall i | s.writer.taken <= i < t.writer.taken :: s.replay.pushed[i].Token?)
            && (t.writer.taken < |s.replay.pushed| ==> !s.replay.pushed[t.writer.taken].Token?)
  {
    assert (steps + [Drain])[..|steps|] == steps;
    var s := Run(c, steps).value;
    RunInv(c, steps);
    TokensStop(Queue(s));
    assert forall i | 0 <= i < |Queue(s)| :: Queue(s)[i] == s.replay.pushed[s.writer.taken + i];
    assert forall i | s.writer.taken <= i < |s.replay.pushed| :: s.replay.pushed[i] == Queue(s)[i - s.writer.taken];
  }

  // The re-priming is queued with the whole speculated text or not at all, at every
  // moment; and once llm_done has been written, and as long as no write has failed, it
  // is queued exactly if the reply succeeded, is not empty and a prefix was given.
  lemma PrimedWithWholeReply(c: Config, steps: seq<Step>)
    requires c.replay.options.max >= 1 && Run(c, steps).Some?
    ensures var s := Run(c, steps).value;
            && (s.writer.primed.Some? ==> s.replay.llmDone && s.replay.ok && s.writer.primed.value == s.replay.text)
            && (Announced(s.writer) ==> (s.writer.primed.Some? <==> s.replay.ok && c.primes && s.replay.text != []))
            && (s.writer.llmFinished && !s.writer.at.Failed? ==> s.writer.replyText == s.replay.text)
  {
    RunInv(c, steps);
  }

  lemma Do(c: Config, steps: seq<Step>, s: State, step: Step) returns (steps': seq<Step>, s': State)
    requires c.replay.options.max >= 1 && Run(c, steps) == Some(s) && Enabled(s, step)
    ensures Run(c, steps') == Some(s') && s' == Apply(c, s, step)
  {
    RunExtends(c, steps, step);
    steps', s' := steps + [step], Apply(c, s, step);
  }

  lemma LetterIsPending(o: Seg.Options)
    requires o == Seg.Options(40, 64, 300)
    ensures Seg.TakeReady(o, false, [97]) == Seg.Taken([], false, [97]) && Trim([97]) == [97]
  {
    assert Seg.SentenceCut([97], 0) == None;
  }

  lemma ReplyIsPublished(c: Config) returns (steps: seq<Step>, s: State)
    requires c.replay.options == Seg.Options(40, 64, 300)
    ensures Run(c, steps) == Some(s) && s.writer == Initial().writer
    ensures s.replay == R.State([97], [], [97], true, true, [], Seg.State([], false), R.Looking, 0, 0, [])
  {
    LetterIsPending(c.replay.options);
    assert [] + [97] == [97];
    steps, s := [], Initial();
    steps, s := Do(c, steps, s, Replaying(R.Emit([97])));
    steps, s := Do(c, steps, s, Replaying(R.Finish(true, [])));
  }

  lemma LookTakesReply(c: R.Config, s: R.State)
    requires s == R.State([97], [], [97], true, true, [], Seg.State([], false), R.Looking, 0, 0, [])
    ensures R.LookAt(c, s).readerAt == R.Pushing([R.Token([97]), R.Sentence([97])], Some([]))
  {
    assert R.Tail(c, [97], []) == [[97]];
    assert [97][0..] == [97] && [] + [[97]] == [[97]] && [[97]][1..] == [];
    assert R.SentencesOf([[97]]) == [R.Sentence([97])];
  }

  lemma ReplyIsTaken(c: Config) returns (steps: seq<Step>, s: State)
    requires c.replay.options == Seg.Options(40, 64, 300)
    ensures Run(c, steps) == Some(s) && s.writer == Initial().writer && s.replay.ok && s.replay.text == [97]
    ensures s.replay.readerAt == R.Pushing([R.Token([97]), R.Sentence([97])], Some([])) && s.replay.pushed == []
  {
    steps, s := ReplyIsPublished(c);
    LookTakesReply(c.replay, s.replay);
    steps, s := Do(c, steps, s, Replaying(R.Look));
  }

  lemma ReplyIsQueued(c: Config) returns (steps: seq<Step>, s: State)
    requires c.replay.options == Seg.Options(40, 64, 300)
    ensures Run(c, steps) == Some(s) && s.writer == Initial().writer && s.replay.ok && s.replay.text == [97]
    ensures s.replay.pushed == [R.Token([97]), R.Sentence([97]), R.LlmDone([], true)]
  {
    steps, s := ReplyIsTaken(c);
    steps, s := Do(c, steps, s, Replaying(R.Push));
    steps, s := Do(c, steps, s, Replaying(R.Push));
    steps, s := Do(c, steps, s, Replaying(R.Push));
    steps, s := Do(c, steps, s, Replaying(R.FetchOutcome));
    steps, s := Do(c, steps, s, Replaying(R.PushLast));
  }

  // A write that fails in between does keep it from that: the reply "a" has succeeded
  // and been popped with its outcome, and writing llm_done throws.
  lemma FailureBeforePriming(c: Config) returns (steps: seq<Step>)
    requires c.replay.options == Seg.Options(40, 64, 300) && c.primes
    ensures Run(c, steps).Some?
    ensures var s := Run(c, steps).value;
            && s.writer.llmFinished && s.replay.ok && s.replay.text == s.writer.replyText == [97]
            && s.writer.at.Failed? && s.writer.primed.None?
  {
    var s: State;
    steps, s := ReplyIsQueued(c);
    steps, s := Do(c, steps, s, Pop);
    steps, s := Do(c, steps, s, Pop);
    steps, s := Do(c, steps, s, Spoken);
    steps, s := Do(c, steps, s, Pop);
    steps, s := Do(c, steps, s, Fail);
  }

  // The writer never leaves before the whole reply has been popped, and never waits
  // on an empty queue once the reader is through.
  lemma WriterSeesTheEnd(c: Config, steps: seq<Step>)
    requires c.replay.options.max >= 1 && Run(c, steps).Some?
    ensures var s := Run(c, steps).value;
            && (s.writer.at.Left? ==> R.Complete(c.replay, s.replay) && s.writer.taken == |s.replay.pushed|)
            && (Waits(s) && s.replay.readerAt.Finished? ==> s.writer.llmFinished)
  {
    RunInv(c, steps);
    RunLeft(c, steps);
    var s := Run(c, steps).value;
    if s.replay.readerAt.Finished? && s.writer.taken == |s.replay.pushed| {
      assert s.replay.pushed[..s.writer.taken] == s.replay.pushed;
      assert s.replay.pushed[|s.replay.pushed| - 1] in s.replay.pushed;
    }
  }

  lemma {:induction false} RunLeft(c: Config, steps: seq<Step>)
    requires c.replay.options.max >= 1 && Run(c, steps).Some?
    ensures Run(c, steps).value.writer.at.Left? ==> Run(c, steps).value.writer.llmFinished
  {
    if steps != [] { RunLeft(c, steps[..|steps| - 1]); }
  }

  // ---- The object ----------------------------------------------------------

  // The speculation's buffer with the worker that fills it, the queue between
  // reader and writer, and the locals of both. The ghost fields are the events
  // popped so far and the schedule that brought the object where it is.
  class ChatReply {
    const config: Config
    const segmenter: Seg.SentenceSegmenter
    // The buffer.
    var text: bytes
    var sentences: seq<bytes>
    var rest: bytes
    var llmDone: bool
    var ok: bool
    var finishReason: bytes
    // The reader.
    var readerAt: R.ReaderAt
    var textPos: nat
    var sentencePos: nat
    // Guarded by queue_mutex.
    var queue: seq<R.Event>
    // The writer.
    var writerAt: WriterAt
    var replyText: bytes
    var llmFinished: bool
    var primed: Option<bytes>

    ghost var popped: seq<R.Event>
    ghost var steps: seq<Step>

    function Replay(pushed: seq<R.Event>): R.State
      reads this, segmenter
    {
      R.State(text, sentences, rest, llmDone, ok, finishReason, Seg.State(segmenter.pending, segmenter.firstEmitted),
              readerAt, textPos, sentencePos, pushed)
    }

    ghost function View(): State
      reads this, segmenter
    {
      State(Replay(popped + queue), Writer(writerAt, |popped|, replyText, llmFinished, primed))
    }

    // A segmenter of the configured options.
    ghost predicate Configured()
      reads this
    {
      config.replay.options.max >= 1 && segmenter.options == config.replay.options
    }

    // The object is where its schedule leads.
    ghost predicate Valid()
      reads this, segmenter
    {
      Configured() && Run(config, steps) == Some(View())
    }

    twostate predicate Took(step: Step)
      reads this, segmenter
    {
      Valid() && steps == old(steps) + [step]
    }

    // So at every moment everything proved of all runs holds of its fields.
    lemma Holds()
      requires Valid()
      ensures Inv(config, View()) && AbortedByWriter(View())
    {
      RunInv(config, steps);
    }

    constructor (config: Config)
      requires config.replay.options.max >= 1
      ensures Valid() && this.config == config && steps == [] && fresh(segmenter)
    {
      this.config := config;
      segmenter := new Seg.SentenceSegmenter(config.replay.options);
      text, sentences, rest, llmDone, ok, finishReason := [], [], [], false, false, [];
      readerAt, textPos, sentencePos, queue := R.Looking, 0, 0, [];
      writerAt, replyText, llmFinished, primed := Waiting, [], false, None;
      popped, steps := [], [];
      new;
      assert popped + queue == [];
    }

    // ---- The worker --------------------------------------------------------

    method Segment(clean: bytes) returns (ready: seq<bytes>)
      requires Configured()
      modifies segmenter
      ensures Seg.Taken(ready, segmenter.firstEmitted, segmenter.pending)
           == Seg.TakeReady(config.replay.options, old(segmenter.firstEmitted), old(segmenter.pending) + clean)
    {
      ready := segmenter.Feed(clean);
    }

    method EmitClean(clean: bytes)
      requires Configured() && R.Enabled(View().replay, R.Emit(clean))
      modifies this, segmenter
      ensures View() == Apply(config, old(View()), Replaying(R.Emit(clean))) && steps == old(steps)
    {
      var ready := Segment(clean);
      text := text + clean;
      sentences := sentences + ready;
    }

    method Publish(ok: bool, finishReason: bytes)
      requires Configured() && R.Enabled(View().replay, R.Finish(ok, finishReason))
      modifies this, segmenter
      ensures View() == Apply(config, old(View()), Replaying(R.Finish(ok, finishReason))) && steps == old(steps)
    {
      rest := segmenter.Flush();
      this.ok := ok;
      this.finishReason := finishReason;
      llmDone := true;
    }

    // ---- The reader --------------------------------------------------------

    // The reader's lock region and the events it makes of what it copied.
    method LookAtBuffer()
      requires Configured() && R.Enabled(View().replay, R.Look)
      requires textPos <= |text| && sentencePos <= |sentences|
      modifies this
      ensures View() == Apply(config, old(View()), Replaying(R.Look)) && steps == old(steps)
    {
      var newText: bytes := [];
      if |text| > textPos {
        newText := text[textPos..];
        textPos := |text|;
      }
      var voiced := sentences[sentencePos..];
      sentencePos := |sentences|;
      var finish := None;
      if llmDone && textPos == |text| && sentencePos == |sentences| {
        finish := Some(finishReason);
        voiced := voiced + R.Tail(config.replay, rest, finishReason);
      }
      assert voiced + [] == voiced;
      readerAt := R.Pushing(R.TokenOf(newText) + R.SentencesOf(voiced), finish);
    }

    method PushNext()
      requires Configured() && readerAt.Pushing?
      modifies this
      ensures View() == Apply(config, old(View()), Replaying(R.Push)) && steps == old(steps)
    {
      var batch := readerAt.batch;
      if batch != [] {
        queue := queue + [batch[0]];
        readerAt := R.Pushing(batch[1..], readerAt.finish);
        assert popped + queue == old(popped + queue) + [batch[0]];
      } else if readerAt.finish.Some? {
        readerAt := R.ReadOutcome(readerAt.finish.value);
      } else {
        readerAt := R.Looking;
      }
    }

    method Fetch()
      requires Configured() && readerAt.ReadOutcome?
      modifies this
      ensures View() == Apply(config, old(View()), Replaying(R.FetchOutcome)) && steps == old(steps)
    {
      readerAt := R.PushDone(readerAt.reason, ok);
    }

    method PushOutcome()
      requires Configured() && readerAt.PushDone?
      modifies this
      ensures View() == Apply(config, old(View()), Replaying(R.PushLast)) && steps == old(steps)
    {
      var last := R.LlmDone(readerAt.reason, readerAt.ok);
      queue := queue + [last];
      readerAt := R.Finished;
      assert popped + queue == old(popped + queue) + [last];
    }

    method StopReading()
      requires Configured() && readerAt.Looking? && writerAt.Failed?
      modifies this
      ensures View() == Apply(config, old(View()), Replaying(R.ClientGone)) && steps == old(steps)
    {
      readerAt := R.Aborted;
    }

    // ---- The writer --------------------------------------------------------

    // One turn of the writer's loop, up to the synthesis if it is a sentence.
    method PopEvent()
      requires Configured() && writerAt.Waiting? && queue != []
      modifies this
      ensures View() == Apply(config, old(View()), Pop) && steps == old(steps)
    {
      var event := queue[0];
      queue := queue[1..];
      popped := popped + [event];
      assert popped + queue == old(popped + queue);
      match event
      case Token(delta) => replyText := replyText + delta;
      case Sentence(_) => writerAt := Speaking;
      case LlmDone(_, llmOk) =>
        llmFinished := true;
        writerAt := Announcing(llmOk);
    }

    // After llm_done is out.
    method QueuePriming()
      requires Configured() && writerAt.Announcing?
      modifies this
      ensures View() == Apply(config, old(View()), Prime) && steps == old(steps)
    {
      if writerAt.llmOk && config.primes && replyText != [] { primed := Some(replyText); }
      writerAt := Waiting;
    }

    lemma QueueIs()
      ensures Queue(View()) == queue
    {
      assert (popped + queue)[|popped|..] == queue;
    }

    // The tokens at the front of the queue, popped in one lock region.
    method TakeTokens() returns (tokens: seq<R.Event>)
      modifies this`queue, this`popped
      ensures tokens == old(queue)[..Tokens(old(queue))] && queue == old(queue)[Tokens(old(queue))..]
      ensures popped == old(popped) + tokens && forall e <- tokens :: e.Token?
      ensures popped + queue == old(popped + queue)
    {
      tokens := [];
      ghost var before := queue;
      while queue != [] && queue[0].Token?
        invariant |tokens| <= |before| && tokens == before[..|tokens|] && queue == before[|tokens|..]
        invariant Tokens(before) == |tokens| + Tokens(queue)
        invariant popped == old(popped) + tokens && forall e <- tokens :: e.Token?
        decreases |queue|
      {
        assert before[..|tokens| + 1] == before[..|tokens|] + [before[|tokens|]];
        tokens := tokens + [queue[0]];
        popped := popped + [queue[0]];
        queue := queue[1..];
      }
    }

    method WriteTokens(tokens: seq<R.Event>)
      requires forall e <- tokens :: e.Token?
      modifies this`replyText
      ensures replyText == old(replyText) + R.Shown(tokens)
    {
      assert replyText + R.Shown(tokens[..0]) == replyText;
      for i := 0 to |tokens|
        invariant replyText == old(replyText) + R.Shown(tokens[..i])
      {
        R.ShownAppend(tokens[..i], [tokens[i]]);
        R.OneEvent(tokens[i]);
        assert tokens[..i + 1] == tokens[..i] + [tokens[i]];
        assert tokens[i] in tokens;
        Assoc(old(replyText), R.Shown(tokens[..i]), tokens[i].text);
        replyText := replyText + tokens[i].text;
      }
      assert tokens[..|tokens|] == tokens;
    }

    // Tokens that arrive during a synthesis are popped at once, not after it.
    method DrainTokens()
      requires Configured() && writerAt.Speaking?
      modifies this
      ensures View() == Apply(config, old(View()), Drain) && steps == old(steps)
    {
      QueueIs();
      var tokens := TakeTokens();
      WriteTokens(tokens);
    }

    method MoveWriter(at: WriterAt)
      modifies this`writerAt
      ensures View() == old(View()).(writer := old(View()).writer.(at := at))
    {
      writerAt := at;
    }

    // ---- All three threads -------------------------------------------------

    predicate Ready(step: Step)
      reads this, segmenter
    {
      match step
      case Replaying(r) => R.Enabled(Replay(queue), r) && (r.ClientGone? ==> writerAt.Failed?)
      case Pop => writerAt.Waiting? && queue != []
      case Drain => writerAt.Speaking?
      case Spoken => writerAt.Speaking?
      case Prime => writerAt.Announcing?
      case Leave => writerAt.Waiting? && queue == [] && llmFinished
      case Fail => writerAt.Waiting? || writerAt.Speaking? || writerAt.Announcing?
    }

    lemma ReadyIff(step: Step)
      requires Valid()
      ensures Ready(step) <==> Enabled(View(), step)
    {
    }

    // The end of the loop: the whole text was gathered and shown.
    lemma HasAll()
      requires Valid() && writerAt.Left?
      ensures replyText == text == R.Shown(popped) && queue == []
    {
      Holds();
      RunLeft(config, steps);
      assert (popped + queue)[..|popped|] == popped;
    }

    method DispatchReplay(r: R.Step)
      requires Configured() && Ready(Replaying(r))
      requires textPos <= |text| && sentencePos <= |sentences|
      modifies this, segmenter
      ensures View() == Apply(config, old(View()), Replaying(r)) && steps == old(steps)
    {
      match r
      case Emit(clean) => EmitClean(clean);
      case Finish(ok, finishReason) => Publish(ok, finishReason);
      case Look => LookAtBuffer();
      case Push => PushNext();
      case FetchOutcome => Fetch();
      case PushLast => PushOutcome();
      case ClientGone => StopReading();
    }

    method Dispatch(step: Step)
      requires Configured() && Ready(step)
      requires textPos <= |text| && sentencePos <= |sentences|
      modifies this, segmenter
      ensures View() == Apply(config, old(View()), step) && steps == old(steps)
    {
      match step
      case Replaying(r) => DispatchReplay(r);
      case Pop => PopEvent();
      case Drain => DrainTokens();
      case Spoken => MoveWriter(Waiting);
      case Prime => QueuePriming();
      case Leave => MoveWriter(Left);
      case Fail => MoveWriter(Failed);
    }

    method Advance(step: Step)
      requires Valid() && Ready(step) && textPos <= |text| && sentencePos <= |sentences|
      modifies this, segmenter
      ensures Took(step)
    {
      RunExtends(config, steps, step);
      Dispatch(step);
      steps := steps + [step];
    }

    // Whatever step is due. After it, unless a write has failed, the reply gathered
    // is what the popped events show. What was primed with is the whole text, and once
    // llm_done is out and nothing has failed, it was if it may be.
    method Perform(step: Step)
      requires Valid() && Ready(step)
      modifies this, segmenter
      ensures Took(step)
      ensures !writerAt.Failed? ==> replyText == R.Shown(popped)
      ensures primed.Some? ==> llmFinished && ok && primed.value == text
      ensures llmFinished && !writerAt.Announcing? && !writerAt.Failed? ==>
                (primed.Some? <==> ok && config.primes && text != [])
    {
      Holds();
      Advance(step);
      Holds();
      assert (popped + queue)[..|popped|] == popped;
    }
  }

  // The object follows every schedule for as long as its next step is due, and when
  // its writer has left, the whole text was gathered and all of it was shown.
  method Drive(config: Config, schedule: seq<Step>) returns (reply: ChatReply, n: nat)
    requires config.replay.options.max >= 1
    ensures fresh(reply) && reply.config == config && reply.Valid()
    ensures n <= |schedule| && reply.steps == schedule[..n]
    ensures n < |schedule| ==> !Enabled(reply.View(), schedule[n])
    ensures reply.writerAt.Left? ==> reply.replyText == reply.text == R.Shown(reply.popped) && reply.queue == []
  {
    reply := new ChatReply(config);
    n := 0;
    while n < |schedule| && reply.Ready(schedule[n])
      invariant fresh(reply) && fresh(reply.segmenter) && reply.config == config && reply.Valid()
      invariant n <= |schedule| && reply.steps == schedule[..n]
      decreases |schedule| - n
    {
      reply.Perform(schedule[n]);
      assert schedule[..n + 1] == schedule[..n] + [schedule[n]];
      n := n + 1;
    }
    if n < |schedule| { reply.ReadyIff(schedule[n]); }
    if reply.writerAt.Left? { reply.HasAll(); }
  }
}
