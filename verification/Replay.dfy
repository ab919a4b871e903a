/** Replaying a speculation to the client that sent it (app/server/runtime.cpp): the
    reader thread of `chat_orchestrate` follows a buffer the worker of
    `start_chat_speculation` may still be filling. */
module Replay {
  import opened Bytes
  import opened Wrappers
  import Seg = Segmenter

  datatype Event = Token(text: bytes) | Sentence(text: bytes) | LlmDone(finish: bytes, ok: bool)

  const LENGTH: bytes := [108, 101, 110, 103, 116, 104]

  // `endsSpoken`: ends_with_sentence_terminal of the text stripped of markup.
  datatype Config = Config(options: Seg.Options, endsSpoken: bytes -> bool)

  datatype ReaderAt =
    | Looking
    | Pushing(batch: seq<Event>, finish: Option<bytes>)
    | ReadOutcome(reason: bytes)
    | PushDone(reason: bytes, ok: bool)
    | Finished
    | Aborted

  datatype State = State(
    // The buffer, guarded by the speculation's mutex.
    text: bytes,
    sentences: seq<bytes>,
    rest: bytes,
    llmDone: bool,
    ok: bool,
    finishReason: bytes,
    // The worker's segmenter.
    seg: Seg.State,
    // The reader, and the events it has pushed to the writer's queue.
    readerAt: ReaderAt,
    textPos: nat,
    sentencePos: nat,
    pushed: seq<Event>)

  function Initial(): State { State([], [], [], false, false, [], Seg.State([], false), Looking, 0, 0, []) }

  datatype Step =
    | Emit(clean: bytes)
    | Finish(ok: bool, finishReason: bytes)
    | Look
    | Push
    | FetchOutcome
    | PushLast
    | ClientGone

  predicate Enabled(s: State, step: Step) {
    match step
    case Emit(clean) => !s.llmDone && clean != []
    case Finish(_, _) => !s.llmDone
    case Look => s.readerAt.Looking?
    case Push => s.readerAt.Pushing?
    case FetchOutcome => s.readerAt.ReadOutcome?
    case PushLast => s.readerAt.PushDone?
    case ClientGone => s.readerAt.Looking?
  }

  function SentencesOf(sentences: seq<bytes>): seq<Event> {
    if sentences == [] then [] else [Sentence(sentences[0])] + SentencesOf(sentences[1..])
  }

  // A reply cut off by the token ceiling keeps its dangling end out of the audio.
  predicate Truncated(c: Config, rest: bytes, finish: bytes) { finish == LENGTH && !c.endsSpoken(rest) }

  function Tail(c: Config, rest: bytes, finish: bytes): seq<bytes> {
    if rest == [] || Truncated(c, rest, finish) then [] else [rest]
  }

  function TokenOf(text: bytes): seq<Event> { if text == [] then [] else [Token(text)] }

  // One lock region: everything new in the buffer, and whether that is all.
  function LookAt(c: Config, s: State): State {
    var newText := if |s.text| > s.textPos then s.text[s.textPos..] else [];
    var newSentences := if |s.sentences| > s.sentencePos then s.sentences[s.sentencePos..] else [];
    var tail := if s.llmDone then Tail(c, s.rest, s.finishReason) else [];
    s.(readerAt := Pushing(TokenOf(newText) + SentencesOf(newSentences + tail),
                           if s.llmDone then Some(s.finishReason) else None),
       textPos := |s.text|, sentencePos := |s.sentences|)
  }

  function EmitClean(c: Config, s: State, clean: bytes): State
    requires c.options.max >= 1
  {
    var t := Seg.TakeReady(c.options, s.seg.emitted, s.seg.pending + clean);
    s.(text := s.text + clean, sentences := s.sentences + t.ready, seg := Seg.State(t.pending, t.emitted))
  }

  function Apply(c: Config, s: State, step: Step): State
    requires c.options.max >= 1 && Enabled(s, step)
  {
    match step
    case Emit(clean) => EmitClean(c, s, clean)
    case Finish(ok, finishReason) =>
      s.(rest := Trim(s.seg.pending), llmDone := true, ok := ok, finishReason := finishReason,
         seg := Seg.State([], s.seg.emitted))
    case Look => LookAt(c, s)
    case Push =>
      var batch := s.readerAt.batch;
      if batch != [] then
        s.(readerAt := Pushing(batch[1..], s.readerAt.finish), pushed := s.pushed + [batch[0]])
      else if s.readerAt.finish.Some? then s.(readerAt := ReadOutcome(s.readerAt.finish.value))
      else s.(readerAt := Looking)
    case FetchOutcome => s.(readerAt := PushDone(s.readerAt.reason, s.ok))
    case PushLast => s.(readerAt := Finished, pushed := s.pushed + [LlmDone(s.readerAt.reason, s.readerAt.ok)])
    case ClientGone => s.(readerAt := Aborted)
  }

  function Run(c: Config, steps: seq<Step>): Option<State>
    requires c.options.max >= 1
  {
    if steps == [] then Some(Initial())
    else
      var before := Run(c, steps[..|steps| - 1]);
      var step := steps[|steps| - 1];
      if before.Some? && Enabled(before.value, step) then Some(Apply(c, before.value, step)) else None
  }

  // ---- What a list of events says ------------------------------------------

  function Shown(events: seq<Event>): bytes {
    if events == [] then []
    else
      var e := events[|events| - 1];
      Shown(events[..|events| - 1]) + (if e.Token? then e.text else [])
  }

  function Voiced(events: seq<Event>): seq<bytes> {
    if events == [] then []
    else
      var e := events[|events| - 1];
      Voiced(events[..|events| - 1]) + (if e.Sentence? then [e.text] else [])
  }

  lemma {:induction false} ShownAppend(a: seq<Event>, b: seq<Event>)
    ensures Shown(a + b) == Shown(a) + Shown(b)
    decreases |b|
  {
    if b == [] {
      assert a + b == a && Shown(a) + [] == Shown(a);
    } else {
      var init := b[..|b| - 1];
      assert (a + b)[..|a + b| - 1] == a + init;
      ShownAppend(a, init);
      Assoc(Shown(a), Shown(init), if b[|b| - 1].Token? then b[|b| - 1].text else []);
    }
  }

  lemma {:induction false} VoicedAppend(a: seq<Event>, b: seq<Event>)
    ensures Voiced(a + b) == Voiced(a) + Voiced(b)
    decreases |b|
  {
    if b == [] {
      assert a + b == a && Voiced(a) + [] == Voiced(a);
    } else {
      var init := b[..|b| - 1];
      assert (a + b)[..|a + b| - 1] == a + init;
      VoicedAppend(a, init);
    }
  }

  lemma OneEvent(e: Event)
    ensures Shown([e]) == (if e.Token? then e.text else []) && Voiced([e]) == (if e.Sentence? then [e.text] else [])
  {
    assert [e][..0] == [];
    assert [] + Shown([e]) == Shown([e]);
  }

  predicate NoTokens(events: seq<Event>) { forall e <- events :: !e.Token? }
  predicate NoDone(events: seq<Event>) { forall e <- events :: !e.LlmDone? }

  lemma {:induction false} SentencesAreSentences(sentences: seq<bytes>)
    ensures NoTokens(SentencesOf(sentences)) && NoDone(SentencesOf(sentences))
  {
    if sentences != [] { SentencesAreSentences(sentences[1..]); }
  }

  lemma {:induction false} SentencesShowNothing(sentences: seq<bytes>)
    ensures Shown(SentencesOf(sentences)) == []
  {
    if sentences != [] {
      SentencesShowNothing(sentences[1..]);
      ShownAppend([Sentence(sentences[0])], SentencesOf(sentences[1..]));
      OneEvent(Sentence(sentences[0]));
    }
  }

  lemma {:induction false} SentencesAreVoiced(sentences: seq<bytes>)
    ensures Voiced(SentencesOf(sentences)) == sentences
  {
    if sentences != [] {
      SentencesAreVoiced(sentences[1..]);
      VoicedAppend([Sentence(sentences[0])], SentencesOf(sentences[1..]));
      OneEvent(Sentence(sentences[0]));
    }
  }

  lemma SentencesVoice(sentences: seq<bytes>)
    ensures Shown(SentencesOf(sentences)) == [] && Voiced(SentencesOf(sentences)) == sentences
    ensures NoTokens(SentencesOf(sentences)) && NoDone(SentencesOf(sentences))
  {
    SentencesAreSentences(sentences);
    SentencesShowNothing(sentences);
    SentencesAreVoiced(sentences);
  }

  lemma {:induction false} NoTokensShowNothing(events: seq<Event>)
    requires NoTokens(events)
    ensures Shown(events) == []
  {
    if events != [] { NoTokensShowNothing(events[..|events| - 1]); }
  }

  lemma BatchSays(newText: bytes, voiced: seq<bytes>)
    ensures var batch := TokenOf(newText) + SentencesOf(voiced);
            && Shown(batch) == newText && Voiced(batch) == voiced && NoDone(batch)
            && (batch != [] ==> NoTokens(batch[1..]))
  {
    SentencesVoice(voiced);
    ShownAppend(TokenOf(newText), SentencesOf(voiced));
    VoicedAppend(TokenOf(newText), SentencesOf(voiced));
    if newText == [] {
      assert TokenOf(newText) + SentencesOf(voiced) == SentencesOf(voiced);
    } else {
      OneEvent(Token(newText));
      assert newText + [] == newText && [] + voiced == voiced;
    }
  }

  // ---- The invariant -------------------------------------------------------

  // The sentences voiced are text already shown, white space apart.
  ghost predicate Covered(voiced: seq<bytes>, shown: bytes) { exists rest :: Seg.Spaced(voiced, rest, shown) }

  lemma {:induction false} CoveredPrefix(voiced: seq<bytes>, more: seq<bytes>, shown: bytes)
    requires Covered(voiced + more, shown)
    ensures Covered(voiced, shown)
    decreases |voiced|
  {
    var rest :| Seg.Spaced(voiced + more, rest, shown);
    if voiced == [] {
      Seg.NoneSpaced([], shown);
      assert [] + shown == shown;
    } else {
      var pad, tail := Seg.UnconsSpaced(voiced + more, rest, shown);
      assert (voiced + more)[1..] == voiced[1..] + more;
      CoveredPrefix(voiced[1..], more, tail);
      var r :| Seg.Spaced(voiced[1..], r, tail);
      Seg.ConsSpaced(pad, voiced[0], voiced[1..], r, tail);
      assert [voiced[0]] + voiced[1..] == voiced;
    }
  }

  // The worker: its sentences and what its segmenter holds are its text.
  ghost predicate WorkerOk(s: State) {
    if s.llmDone then Seg.Spaced(s.sentences + (if s.rest == [] then [] else [s.rest]), [], s.text)
    else Seg.Spaced(s.sentences, s.seg.pending, s.text)
  }

  function Wanted(c: Config, s: State): seq<bytes> { s.sentences + Tail(c, s.rest, s.finishReason) }

  // The reader: what is pushed and about to be pushed is what it has looked at.
  predicate ReaderOk(c: Config, s: State) {
    s.textPos <= |s.text| && s.sentencePos <= |s.sentences| &&
    match s.readerAt
    case Looking =>
      && NoDone(s.pushed)
      && Shown(s.pushed) == s.text[..s.textPos] && Voiced(s.pushed) == s.sentences[..s.sentencePos]
    case Pushing(batch, finish) =>
      && NoDone(s.pushed) && NoDone(batch) && (batch != [] ==> NoTokens(batch[1..]))
      && Shown(s.pushed + batch) == s.text[..s.textPos]
      && (finish.None? ==> Voiced(s.pushed + batch) == s.sentences[..s.sentencePos])
      && (finish.Some? ==> s.llmDone && finish.value == s.finishReason && Shown(s.pushed + batch) == s.text
                           && Voiced(s.pushed + batch) == Wanted(c, s))
    case ReadOutcome(finish) =>
      NoDone(s.pushed) && s.llmDone && finish == s.finishReason && Shown(s.pushed) == s.text && Voiced(s.pushed) == Wanted(c, s)
    case PushDone(finish, ok) =>
      && NoDone(s.pushed) && s.llmDone && finish == s.finishReason && ok == s.ok
      && Shown(s.pushed) == s.text && Voiced(s.pushed) == Wanted(c, s)
    case Finished => Complete(c, s)
    case Aborted => true
  }

  // The whole reply: every byte of the text, every sentence once and in order and
  // the tail unless it was cut off, and the outcome last.
  predicate Complete(c: Config, s: State) {
    && s.llmDone && s.pushed != []
    && s.pushed[|s.pushed| - 1] == LlmDone(s.finishReason, s.ok)
    && NoDone(s.pushed[..|s.pushed| - 1])
    && Shown(s.pushed) == s.text && Voiced(s.pushed) == Wanted(c, s)
  }

  ghost predicate VoicedIsShown(s: State) {
    && Covered(Voiced(s.pushed), Shown(s.pushed))
    && (s.readerAt.Pushing? ==> Covered(Voiced(s.pushed + s.readerAt.batch), Shown(s.pushed + s.readerAt.batch)))
  }

  function TailNow(c: Config, s: State): seq<bytes> { if s.llmDone then Tail(c, s.rest, s.finishReason) else [] }

  lemma Regroup(sentences: seq<bytes>, k: nat, tail: seq<bytes>)
    requires k <= |sentences|
    ensures sentences[..k] + (sentences[k..] + tail) == sentences + tail
  {
    assert sentences == sentences[..k] + sentences[k..];
  }

  lemma BatchCatchesUp(pushed: seq<Event>, text: bytes, n: nat, sentences: seq<bytes>, k: nat, tail: seq<bytes>)
    requires n <= |text| && k <= |sentences| && Shown(pushed) == text[..n] && Voiced(pushed) == sentences[..k]
    ensures var batch := TokenOf(text[n..]) + SentencesOf(sentences[k..] + tail);
            && NoDone(batch) && (batch != [] ==> NoTokens(batch[1..]))
            && Shown(pushed + batch) == text && Voiced(pushed + batch) == sentences + tail
  {
    var batch := TokenOf(text[n..]) + SentencesOf(sentences[k..] + tail);
    BatchSays(text[n..], sentences[k..] + tail);
    ShownAppend(pushed, batch);
    VoicedAppend(pushed, batch);
    assert text == text[..n] + text[n..];
    Regroup(sentences, k, tail);
  }

  lemma LookSays(c: Config, s: State)
    requires s.readerAt.Looking? && ReaderOk(c, s)
    ensures var batch := LookAt(c, s).readerAt.batch;
            && NoDone(batch) && (batch != [] ==> NoTokens(batch[1..]))
            && Shown(s.pushed + batch) == s.text && Voiced(s.pushed + batch) == s.sentences + TailNow(c, s)
  {
    BatchCatchesUp(s.pushed, s.text, s.textPos, s.sentences, s.sentencePos, TailNow(c, s));
    assert |s.text| == s.textPos ==> s.text[s.textPos..] == [];
    assert |s.sentences| == s.sentencePos ==> s.sentences[s.sentencePos..] == [];
  }

  lemma NowCovered(c: Config, s: State)
    requires WorkerOk(s)
    ensures Covered(s.sentences + TailNow(c, s), s.text)
  {
    assert s.sentences + [] == s.sentences;
    if s.llmDone {
      CoveredPrefix(s.sentences, if s.rest == [] then [] else [s.rest], s.text);
    }
  }

  lemma LookKeeps(c: Config, s: State)
    requires c.options.max >= 1 && s.readerAt.Looking? && WorkerOk(s) && ReaderOk(c, s)
    ensures ReaderOk(c, LookAt(c, s))
    ensures var b := s.pushed + LookAt(c, s).readerAt.batch; Covered(Voiced(b), Shown(b))
  {
    LookSays(c, s);
    NowCovered(c, s);
    assert s.text[..|s.text|] == s.text && s.sentences[..|s.sentences|] == s.sentences;
    assert s.sentences + [] == s.sentences;
  }

  // Pushing the first event of a batch whose other events show nothing.
  lemma PushOne(pushed: seq<Event>, batch: seq<Event>)
    requires batch != [] && NoTokens(batch[1..])
    ensures var now := pushed + [batch[0]];
            now + batch[1..] == pushed + batch && Shown(now) == Shown(pushed + batch)
    ensures Covered(Voiced(pushed + batch), Shown(pushed + batch)) ==>
              Covered(Voiced(pushed + [batch[0]]), Shown(pushed + [batch[0]]))
  {
    var now, tail := pushed + [batch[0]], batch[1..];
    assert now + tail == pushed + batch;
    ShownAppend(now, tail);
    VoicedAppend(now, tail);
    NoTokensShowNothing(tail);
    assert Shown(now) + [] == Shown(now);
    if Covered(Voiced(pushed + batch), Shown(pushed + batch)) { CoveredPrefix(Voiced(now), Voiced(tail), Shown(now)); }
  }

  lemma PushKeeps(c: Config, s: State)
    requires c.options.max >= 1 && s.readerAt.Pushing? && ReaderOk(c, s) && VoicedIsShown(s)
    ensures ReaderOk(c, Apply(c, s, Push)) && VoicedIsShown(Apply(c, s, Push))
  {
    var batch := s.readerAt.batch;
    if batch == [] {
      assert s.pushed + batch == s.pushed;
    } else {
      PushOne(s.pushed, batch);
    }
  }

  lemma EmitKeeps(c: Config, s: State, clean: bytes)
    requires c.options.max >= 1 && Enabled(s, Emit(clean)) && WorkerOk(s) && ReaderOk(c, s)
    ensures WorkerOk(EmitClean(c, s, clean)) && ReaderOk(c, EmitClean(c, s, clean))
  {
    var t := EmitClean(c, s, clean);
    var taken := Seg.TakeReady(c.options, s.seg.emitted, s.seg.pending + clean);
    Seg.TakeReadyLosesNothing(c.options, s.seg.emitted, s.seg.pending + clean);
    Seg.SpacedExtend(s.sentences, s.seg.pending, s.text, clean);
    Seg.SpacedCompose(s.sentences, taken.ready, s.seg.pending + clean, taken.pending, s.text + clean);
    assert t.text[..s.textPos] == s.text[..s.textPos] && t.sentences[..s.sentencePos] == s.sentences[..s.sentencePos];
  }

  lemma FinishKeeps(c: Config, s: State, ok: bool, finishReason: bytes)
    requires c.options.max >= 1 && !s.llmDone && WorkerOk(s) && ReaderOk(c, s)
    ensures WorkerOk(Apply(c, s, Finish(ok, finishReason))) && ReaderOk(c, Apply(c, s, Finish(ok, finishReason)))
  {
    Seg.SegmentSpaced(s.seg.pending, []);
    assert s.seg.pending + [] == s.seg.pending;
    Seg.SpacedCompose(s.sentences, if Trim(s.seg.pending) == [] then [] else [Trim(s.seg.pending)], s.seg.pending, [], s.text);
  }

  lemma LastKeeps(c: Config, s: State)
    requires c.options.max >= 1 && s.readerAt.PushDone? && ReaderOk(c, s) && VoicedIsShown(s)
    ensures ReaderOk(c, Apply(c, s, PushLast)) && VoicedIsShown(Apply(c, s, PushLast))
  {
    var e := LlmDone(s.readerAt.reason, s.readerAt.ok);
    OneEvent(e);
    ShownAppend(s.pushed, [e]);
    VoicedAppend(s.pushed, [e]);
    assert Shown(s.pushed) + [] == Shown(s.pushed) && Voiced(s.pushed) + [] == Voiced(s.pushed);
    assert (s.pushed + [e])[..|s.pushed|] == s.pushed;
  }

  ghost predicate Inv(c: Config, s: State) { WorkerOk(s) && ReaderOk(c, s) && VoicedIsShown(s) }

  lemma StepKeeps(c: Config, s: State, step: Step)
    requires c.options.max >= 1 && Inv(c, s) && Enabled(s, step)
    ensures Inv(c, Apply(c, s, step))
  {
    match step
    case Emit(clean) => EmitKeeps(c, s, clean);
    case Finish(ok, finishReason) => FinishKeeps(c, s, ok, finishReason);
    case Look => LookKeeps(c, s);
    case Push => PushKeeps(c, s);
    case FetchOutcome =>
    case PushLast => LastKeeps(c, s);
    case ClientGone =>
  }

  lemma {:induction false} RunInv(c: Config, steps: seq<Step>)
    requires c.options.max >= 1 && Run(c, steps).Some?
    ensures Inv(c, Run(c, steps).value)
  {
    if steps == [] {
      Seg.NoneSpaced([], []);
      assert Seg.Spaced([], [], [] + []);
    } else {
      RunInv(c, steps[..|steps| - 1]);
      StepKeeps(c, Run(c, steps[..|steps| - 1]).value, steps[|steps| - 1]);
    }
  }

  // Whatever the interleaving with the worker, a replay that is not aborted tells
  // the client the whole reply: its text, its sentences each once and in order, the
  // tail unless it was truncated, then the outcome. Unless it was truncated, what is
  // voiced is the text itself, white space apart.
  lemma ReplayIsComplete(c: Config, steps: seq<Step>)
    requires c.options.max >= 1 && Run(c, steps).Some? && Run(c, steps).value.readerAt.Finished?
    ensures var s := Run(c, steps).value;
            && Complete(c, s)
            && (!Truncated(c, s.rest, s.finishReason) ==> Seg.Spaced(Voiced(s.pushed), [], Shown(s.pushed)))
  {
    RunInv(c, steps);
  }

  // The tail of a reply that was cut off at the token ceiling is voiced exactly if it
  // ends a sentence as spoken; the tail of any other reply always is.
  lemma TailIsVoicedIff(c: Config, steps: seq<Step>)
    requires c.options.max >= 1 && Run(c, steps).Some? && Run(c, steps).value.readerAt.Finished?
    ensures var s := Run(c, steps).value;
            && (s.rest != [] && s.finishReason == [108, 101, 110, 103, 116, 104] ==>
                  (Voiced(s.pushed) == s.sentences + [s.rest] <==> c.endsSpoken(s.rest))
                  && (Voiced(s.pushed) == s.sentences <==> !c.endsSpoken(s.rest)))
            && (s.rest != [] && s.finishReason != [108, 101, 110, 103, 116, 104] ==>
                  Voiced(s.pushed) == s.sentences + [s.rest])
            && (s.rest == [] ==> Voiced(s.pushed) == s.sentences)
  {
    RunInv(c, steps);
    var s := Run(c, steps).value;
    assert s.sentences + [] == s.sentences && |s.sentences + [s.rest]| == |s.sentences| + 1;
  }

  // At every moment, nothing has been voiced that was not shown first.
  lemma NothingVoicedUnshown(c: Config, steps: seq<Step>)
    requires c.options.max >= 1 && Run(c, steps).Some?
    ensures var s := Run(c, steps).value; Covered(Voiced(s.pushed), Shown(s.pushed))
  {
    RunInv(c, steps);
  }
}
