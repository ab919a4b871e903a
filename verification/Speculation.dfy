/** Speculative replies (app/server/runtime.cpp): who owns a speculation, which worker
    may stream, and who may synthesize its first sentence.

    A step is one lock region, or one atomic load with what follows from it. The
    server's own choices of moment, the sidecar's tokens and results, the synthesizer's
    chunks and failures, and the zombie test on the clock are arguments of the steps. */
module Speculation {
  import opened Bytes
  import opened Wrappers

  type Key = bytes
  type Chunk = bytes

  datatype AudioState = NoAudio | Running | DoneAudio | FailedAudio

  // The detached worker of `start_chat_speculation`.
  datatype WorkerAt =
    | Waiting                 // for the stream mutex
    | Holding                 // got it; the abort flag is read next
    | Streaming
    | Stopping                // the token handler has seen the abort flag
    | Flushing(result: bool)    // the mutex is released again
    | Publishing(result: bool)  // what the scrubber held back is out
    | Settled(result: bool)     // llm_done is published
    | Gone

  // One run of `synthesize_first`: the early thread's, or the worker's own.
  datatype SynthAt = NotStarted | Settling | Claiming | Synthesizing | Over

  // The writer loop of the send that was handed this speculation.
  datatype WriterAt =
    | NoSend
    | Replaying
    | Following(delivered: seq<Chunk>)
    | Checking(delivered: seq<Chunk>)
    | Own(delivered: seq<Chunk>)      // synthesizes the first sentence itself
    | Served(delivered: seq<Chunk>)

  datatype Which = Early | Fallback

  datatype Spec = Spec(
    key: Key,
    earlyTts: bool,
    abort: bool,
    llmDone: bool,
    ok: bool,
    hasSentence: bool,
    audioState: AudioState,
    chunks: seq<Chunk>,
    workerAt: WorkerAt,
    early: SynthAt,
    fallback: SynthAt,
    writerAt: WriterAt,
    runs: nat)        // how many synthesis runs entered Running

  function NewSpec(key: Key, earlyTts: bool): Spec {
    Spec(key, earlyTts, false, false, false, false, NoAudio, [], Waiting, NotStarted, NotStarted, NoSend, 0)
  }

  // ---- Steps of one speculation --------------------------------------------

  datatype WorkerStep =
    | CheckAbort
    | Token(sentence: bool)
    | StreamEnds(result: bool)
    | FlushText(sentence: bool)
    | Publish
    | Decide

  datatype SynthStep =
    | Settle(skip: bool)
    | Claim
    | AddChunk(chunk: Chunk)
    | SynthDone
    | SynthFails

  datatype WriterStep = FirstSentence | ReadChunks | CheckAudio | ClientGone

  datatype LocalStep = ByWorker(worker: WorkerStep) | BySynth(which: Which, synth: SynthStep) | ByWriter(writer: WriterStep)

  function SynthOf(p: Spec, which: Which): SynthAt { if which.Early? then p.early else p.fallback }

  function WithSynth(p: Spec, which: Which, at: SynthAt): Spec {
    if which.Early? then p.(early := at) else p.(fallback := at)
  }

  predicate WorkerEnabled(p: Spec, step: WorkerStep) {
    match step
    case CheckAbort => p.workerAt.Holding?
    case Token(_) => p.workerAt.Streaming?
    case StreamEnds(_) => p.workerAt.Streaming? || p.workerAt.Stopping?
    case FlushText(_) => p.workerAt.Flushing?
    case Publish => p.workerAt.Publishing?
    case Decide => p.workerAt.Settled?
  }

  predicate SynthEnabled(at: SynthAt, step: SynthStep) {
    match step
    case Settle(_) => at.Settling?
    case Claim => at.Claiming?
    case _ => at.Synthesizing?
  }

  predicate WriterEnabled(p: Spec, step: WriterStep) {
    match step
    case FirstSentence => p.writerAt.Replaying?
    case ReadChunks => p.writerAt.Following?
    case CheckAudio => p.writerAt.Checking?
    case ClientGone => !p.writerAt.NoSend?
  }

  predicate LocalEnabled(p: Spec, step: LocalStep) {
    match step
    case ByWorker(w) => WorkerEnabled(p, w)
    case BySynth(which, y) => SynthEnabled(SynthOf(p, which), y)
    case ByWriter(r) => WriterEnabled(p, r)
  }

  // emit: a sentence may complete, and the first one triggers the early thread.
  function Emit(p: Spec, sentence: bool): Spec {
    p.(hasSentence := p.hasSentence || sentence,
       early := if p.earlyTts && (p.hasSentence || sentence) && p.early.NotStarted? then Settling else p.early)
  }

  function WorkerApply(p: Spec, step: WorkerStep): Spec
    requires WorkerEnabled(p, step)
  {
    match step
    case CheckAbort => p.(workerAt := if p.abort then Gone else Streaming)
    case Token(sentence) => Emit(p, sentence).(workerAt := if p.abort then Stopping else Streaming)
    case StreamEnds(result) => p.(workerAt := Flushing(result))
    case FlushText(sentence) => Emit(p, sentence).(workerAt := Publishing(p.workerAt.result))
    case Publish => p.(workerAt := Settled(p.workerAt.result), llmDone := true, ok := p.workerAt.result)
    case Decide =>
      p.(workerAt := Gone, fallback := if !p.workerAt.result || p.abort then NotStarted else Settling)
  }

  function SynthApply(p: Spec, which: Which, step: SynthStep): Spec
    requires SynthEnabled(SynthOf(p, which), step)
  {
    match step
    case Settle(skip) => WithSynth(p, which, if p.abort || skip then Over else Claiming)
    case Claim =>
      if p.audioState.NoAudio? then WithSynth(p, which, Synthesizing).(audioState := Running, runs := p.runs + 1)
      else WithSynth(p, which, Over)
    case AddChunk(chunk) => p.(chunks := p.chunks + [chunk])
    case SynthDone => WithSynth(p, which, Over).(audioState := DoneAudio)
    case SynthFails => WithSynth(p, which, Over).(audioState := FailedAudio, chunks := [])
  }

  function WriterApply(p: Spec, step: WriterStep): Spec
    requires WriterEnabled(p, step)
  {
    match step
    case FirstSentence =>
      if p.audioState.NoAudio? then p.(audioState := FailedAudio, writerAt := Own([]))
      else if p.audioState.FailedAudio? then p.(writerAt := Own([]))
      else p.(writerAt := Following([]))
    case ReadChunks =>
      var seen := p.writerAt.delivered;
      if p.audioState.FailedAudio? then p.(writerAt := Checking(seen))
      else
        var now := if |seen| <= |p.chunks| then seen + p.chunks[|seen|..] else seen;
        p.(writerAt := if p.audioState.Running? then Following(now) else Checking(now))
    case CheckAudio =>
      var seen := p.writerAt.delivered;
      p.(writerAt := if p.chunks != [] && p.audioState.DoneAudio? then Served(seen) else Own(seen))
    case ClientGone => p.(abort := true)
  }

  function LocalApply(p: Spec, step: LocalStep): Spec
    requires LocalEnabled(p, step)
  {
    match step
    case ByWorker(w) => WorkerApply(p, w)
    case BySynth(which, y) => SynthApply(p, which, y)
    case ByWriter(r) => WriterApply(p, r)
  }

  // ---- The server ----------------------------------------------------------

  datatype Server = Server(slot: Option<nat>, streamLock: Option<nat>, specs: seq<Spec>, sends: seq<Option<nat>>)

  datatype Step =
    | Speculate(key: Key, earlyTts: bool, stale: bool)
    | Prewarm(key: Key)
    | Send(key: Key)
    | LockStream(i: nat)
    | Local(i: nat, step: LocalStep)

  function Initial(): Server { Server(None, None, [], []) }

  // A worker holds the stream mutex from `LockStream` to its release.
  predicate HoldsStream(p: Spec) { p.workerAt.Holding? || p.workerAt.Streaming? || p.workerAt.Stopping? }

  predicate Enabled(s: Server, step: Step) {
    && (s.slot.Some? ==> s.slot.value < |s.specs|)
    && match step
       case LockStream(i) => i < |s.specs| && s.specs[i].workerAt.Waiting? && s.streamLock.None?
       case Local(i, local) => i < |s.specs| && LocalEnabled(s.specs[i], local)
       case _ => true
  }

  function Abort(specs: seq<Spec>, i: nat): seq<Spec>
    requires i < |specs|
  {
    specs[i := specs[i].(abort := true)]
  }

  // What a send gets: the registered speculation if it may be attached to.
  function TakeMatching(s: Server, key: Key): (Server, Option<nat>)
    requires s.slot.Some? ==> s.slot.value < |s.specs|
  {
    if s.slot.None? then (s, None)
    else
      var i := s.slot.value;
      var p := s.specs[i];
      if p.key != key || p.abort then (s.(slot := None, specs := Abort(s.specs, i)), None)
      else if p.llmDone && !p.ok then (s.(slot := None), None)
      else (s.(slot := None, specs := s.specs[i := p.(writerAt := Replaying)]), Some(i))
  }

  function Apply(s: Server, step: Step): Server
    requires Enabled(s, step)
  {
    match step
    case Speculate(key, earlyTts, stale) =>
      if stale || (s.slot.Some? && s.specs[s.slot.value].key == key) then s
      else
        var specs := if s.slot.Some? then Abort(s.specs, s.slot.value) else s.specs;
        s.(slot := Some(|specs|), specs := specs + [NewSpec(key, earlyTts)])
    case Prewarm(key) =>
      if s.slot.Some? && s.specs[s.slot.value].key != key then s.(slot := None, specs := Abort(s.specs, s.slot.value))
      else s
    case Send(key) =>
      var (t, taken) := TakeMatching(s, key);
      t.(sends := s.sends + [taken])
    case LockStream(i) =>
      s.(streamLock := Some(i), specs := s.specs[i := s.specs[i].(workerAt := Holding)])
    case Local(i, local) =>
      var q := LocalApply(s.specs[i], local);
      s.(specs := s.specs[i := q],
         streamLock := if HoldsStream(s.specs[i]) && !HoldsStream(q) then None else s.streamLock)
  }

  function Run(steps: seq<Step>): Option<Server> {
    if steps == [] then Some(Initial())
    else
      var before := Run(steps[..|steps| - 1]);
      var step := steps[|steps| - 1];
      if before.Some? && Enabled(before.value, step) then Some(Apply(before.value, step)) else None
  }

  // -------------------------------------------------------------------------
  // The first sentence's audio
  // -------------------------------------------------------------------------

  function Active(at: SynthAt): nat { if at.Synthesizing? then 1 else 0 }

  predicate WorkerOk(p: Spec) {
    && (p.llmDone ==> p.workerAt.Settled? || p.workerAt.Gone?)
    && (!p.workerAt.Gone? ==> p.fallback.NotStarted?)
  }

  // Exactly one run is inside `Running`, and at most one ever entered it.
  predicate RunsOk(p: Spec) {
    && Active(p.early) + Active(p.fallback) == (if p.audioState.Running? then 1 else 0)
    && p.runs <= 1
    && (p.audioState.NoAudio? ==> p.runs == 0)
    && (p.audioState.Running? || p.audioState.DoneAudio? ==> p.runs == 1)
    && (p.audioState.NoAudio? || p.audioState.FailedAudio? ==> p.chunks == [])
  }

  // What the writer has delivered, and when it speaks the sentence itself.
  predicate WriterOk(p: Spec) {
    match p.writerAt
    case Following(seen) => p.runs == 1 && !p.audioState.NoAudio? && (p.audioState.FailedAudio? || seen <= p.chunks)
    case Checking(seen) => (p.audioState.FailedAudio? && p.runs == 1) || (p.audioState.DoneAudio? && seen == p.chunks)
    case Own(seen) => p.audioState.FailedAudio? || (p.audioState.DoneAudio? && p.chunks == [] && seen == [])
    case Served(seen) => p.audioState.DoneAudio? && seen == p.chunks && seen != []
    case _ => true
  }

  predicate AudioOk(p: Spec) { WorkerOk(p) && RunsOk(p) && WriterOk(p) }

  // One look of the writer at a run that has not failed.
  lemma ReadChunksOk(p: Spec)
    requires AudioOk(p) && p.writerAt.Following? && !p.audioState.FailedAudio?
    ensures AudioOk(WriterApply(p, ReadChunks))
  {
    var seen := p.writerAt.delivered;
    assert seen + p.chunks[|seen|..] == p.chunks;
  }

  lemma WriterStepOk(p: Spec, step: WriterStep)
    requires AudioOk(p) && WriterEnabled(p, step)
    ensures AudioOk(WriterApply(p, step))
  {
    if step.ReadChunks? && !p.audioState.FailedAudio? { ReadChunksOk(p); }
  }

  // The claim that wins: no writer has asked for the audio yet.
  lemma ClaimOk(p: Spec, which: Which)
    requires AudioOk(p) && SynthOf(p, which).Claiming? && p.audioState.NoAudio?
    ensures AudioOk(WithSynth(p, which, Synthesizing).(audioState := Running, runs := p.runs + 1))
  {
    assert p.writerAt.NoSend? || p.writerAt.Replaying?;
    if which.Early? { assert Active(p.fallback) == 0; } else { assert Active(p.early) == 0; }
  }

  lemma SynthStepOk(p: Spec, which: Which, step: SynthStep)
    requires AudioOk(p) && SynthEnabled(SynthOf(p, which), step)
    ensures AudioOk(SynthApply(p, which, step))
  {
    if step.Claim? && p.audioState.NoAudio? { ClaimOk(p, which); }
  }

  lemma WorkerStepOk(p: Spec, step: WorkerStep)
    requires AudioOk(p) && WorkerEnabled(p, step)
    ensures AudioOk(WorkerApply(p, step))
  {
  }

  lemma AudioStepOk(p: Spec, step: LocalStep)
    requires AudioOk(p) && LocalEnabled(p, step)
    ensures AudioOk(LocalApply(p, step))
  {
    match step
    case ByWorker(w) => WorkerStepOk(p, w);
    case BySynth(which, y) => SynthStepOk(p, which, y);
    case ByWriter(r) => WriterStepOk(p, r);
  }

  // -------------------------------------------------------------------------
  // Ownership
  // -------------------------------------------------------------------------

  predicate Handed(s: Server, i: nat) { Some(i) in s.sends }

  // What a speculation that is neither registered nor handed out has come to.
  predicate Dead(p: Spec) { p.abort || (p.llmDone && !p.ok) }

  predicate DistinctSends(sends: seq<Option<nat>>) {
    forall j, k | 0 <= j < k < |sends| && sends[j].Some? :: sends[j] != sends[k]
  }

  // Speculation i is registered, handed to one send, or dead.
  predicate Placed(s: Server, i: nat)
    requires i < |s.specs|
  {
    var p := s.specs[i];
    && AudioOk(p)
    && (HoldsStream(p) <==> s.streamLock == Some(i))
    && (!p.writerAt.NoSend? <==> Handed(s, i))
    && (s.slot == Some(i) || Handed(s, i) || Dead(p))
  }

  ghost predicate Owned(s: Server) {
    && (s.slot.Some? ==> s.slot.value < |s.specs| && !s.specs[s.slot.value].abort && !Handed(s, s.slot.value))
    && (s.streamLock.Some? ==> s.streamLock.value < |s.specs|)
    && (forall k | 0 <= k < |s.sends| && s.sends[k].Some? :: s.sends[k].value < |s.specs|)
    && DistinctSends(s.sends)
    && (forall i | 0 <= i < |s.specs| :: Placed(s, i))
  }

  predicate Advances(p: Spec, q: Spec) {
    && (p.abort ==> q.abort)
    && (q.abort && !p.abort ==> !p.writerAt.NoSend?)
    && (p.writerAt.NoSend? <==> q.writerAt.NoSend?)
    && (p.llmDone ==> q.llmDone && q.ok == p.ok)
    && (HoldsStream(q) ==> HoldsStream(p))
  }

  lemma WorkerAdvances(p: Spec, step: WorkerStep)
    requires WorkerOk(p) && WorkerEnabled(p, step)
    ensures Advances(p, WorkerApply(p, step))
  {
  }

  lemma SynthAdvances(p: Spec, which: Which, step: SynthStep)
    requires SynthEnabled(SynthOf(p, which), step)
    ensures Advances(p, SynthApply(p, which, step))
  {
  }

  lemma WriterAdvances(p: Spec, step: WriterStep)
    requires WriterEnabled(p, step)
    ensures Advances(p, WriterApply(p, step))
  {
  }

  lemma LocalAdvances(p: Spec, step: LocalStep)
    requires WorkerOk(p) && LocalEnabled(p, step)
    ensures Advances(p, LocalApply(p, step))
  {
    match step
    case ByWorker(w) => WorkerAdvances(p, w);
    case BySynth(which, y) => SynthAdvances(p, which, y);
    case ByWriter(r) => WriterAdvances(p, r);
  }

  lemma LocalKeepsOwned(s: Server, i: nat, local: LocalStep)
    requires Owned(s) && Enabled(s, Local(i, local))
    ensures Owned(Apply(s, Local(i, local)))
  {
    var t := Apply(s, Local(i, local));
    assert Placed(s, i);
    AudioStepOk(s.specs[i], local);
    LocalAdvances(s.specs[i], local);
    forall k | 0 <= k < |t.specs| ensures Placed(t, k) {
      assert Placed(s, k);
    }
  }

  lemma SpeculateKeepsOwned(s: Server, key: Key, earlyTts: bool, stale: bool)
    requires Owned(s)
    ensures Owned(Apply(s, Speculate(key, earlyTts, stale)))
  {
    var t := Apply(s, Speculate(key, earlyTts, stale));
    if t != s {
      assert !Handed(s, |s.specs|);
      forall k | 0 <= k < |t.specs| ensures Placed(t, k) {
        if k < |s.specs| { assert Placed(s, k); }
      }
    }
  }

  lemma SendsGrow(sends: seq<Option<nat>>, taken: Option<nat>)
    ensures forall k: nat {:trigger Some(k) in sends} :: Some(k) in sends + [taken] <==> Some(k) in sends || taken == Some(k)
    ensures DistinctSends(sends) && (taken.Some? ==> taken !in sends) ==> DistinctSends(sends + [taken])
  {
    assert forall k: nat :: Some(k) in sends + [taken] <==> Some(k) in sends || taken == Some(k);
  }

  lemma TakenPlaces(s: Server, key: Key, k: nat)
    requires Owned(s) && k < |s.specs| && s.slot == Some(k)
    ensures Placed(Apply(s, Send(key)), k)
  {
    SendsGrow(s.sends, TakeMatching(s, key).1);
    assert Placed(s, k);
  }

  lemma SendPlaces(s: Server, key: Key, k: nat)
    requires Owned(s) && k < |s.specs|
    ensures Placed(Apply(s, Send(key)), k)
  {
    if s.slot == Some(k) {
      TakenPlaces(s, key, k);
    } else {
      SendsGrow(s.sends, TakeMatching(s, key).1);
      assert Placed(s, k);
    }
  }

  lemma SendKeepsOwned(s: Server, key: Key)
    requires Owned(s)
    ensures Owned(Apply(s, Send(key)))
  {
    var (t, taken) := TakeMatching(s, key);
    SendsGrow(s.sends, taken);
    forall k | 0 <= k < |t.specs| ensures Placed(Apply(s, Send(key)), k) {
      SendPlaces(s, key, k);
    }
  }

  lemma PrewarmKeepsOwned(s: Server, key: Key)
    requires Owned(s)
    ensures Owned(Apply(s, Prewarm(key)))
  {
    var t := Apply(s, Prewarm(key));
    forall k | 0 <= k < |t.specs| ensures Placed(t, k) {
      assert Placed(s, k);
    }
  }

  lemma LockKeepsOwned(s: Server, i: nat)
    requires Owned(s) && Enabled(s, LockStream(i))
    ensures Owned(Apply(s, LockStream(i)))
  {
    var t := Apply(s, LockStream(i));
    forall k | 0 <= k < |t.specs| ensures Placed(t, k) {
      assert Placed(s, k);
    }
  }

  lemma StepKeepsOwned(s: Server, step: Step)
    requires Owned(s) && Enabled(s, step)
    ensures Owned(Apply(s, step))
  {
    match step
    case Speculate(key, earlyTts, stale) => SpeculateKeepsOwned(s, key, earlyTts, stale);
    case Send(key) => SendKeepsOwned(s, key);
    case Local(i, local) => LocalKeepsOwned(s, i, local);
    case Prewarm(key) => PrewarmKeepsOwned(s, key);
    case LockStream(i) => LockKeepsOwned(s, i);
  }

  lemma {:induction false} RunOwned(steps: seq<Step>)
    requires Run(steps).Some?
    ensures Owned(Run(steps).value)
  {
    if steps != [] {
      RunOwned(steps[..|steps| - 1]);
      StepKeepsOwned(Run(steps[..|steps| - 1]).value, steps[|steps| - 1]);
    }
  }

  // -------------------------------------------------------------------------
  // What that means, over every run
  // -------------------------------------------------------------------------

  // The registered speculation is never aborted and never handed out; no
  // speculation is handed to two sends; every other one is dead.
  lemma EachSpeculationHasOneFate(steps: seq<Step>, i: nat)
    requires Run(steps).Some? && i < |Run(steps).value.specs|
    ensures var s := Run(steps).value;
            && (s.slot == Some(i) ==> !s.specs[i].abort && !Handed(s, i))
            && (forall j, k | 0 <= j < |s.sends| && 0 <= k < |s.sends| :: s.sends[j] == s.sends[k] == Some(i) ==> j == k)
            && (s.slot != Some(i) && !Handed(s, i) ==> Dead(s.specs[i]))
  {
    RunOwned(steps);
    var s := Run(steps).value;
    assert Placed(s, i) && DistinctSends(s.sends);
  }

  // A send is only ever given a speculation made for its own key, still good.
  lemma SendGetsItsOwn(steps: seq<Step>, key: Key)
    requires Run(steps).Some?
    ensures var s := Run(steps).value;
            (s.slot.Some? ==> s.slot.value < |s.specs|) &&
            var (t, taken) := TakeMatching(s, key);
            && t.slot.None?
            && (taken.Some? <==> s.slot.Some? && s.specs[s.slot.value].key == key
                                 && !(s.specs[s.slot.value].llmDone && !s.specs[s.slot.value].ok))
            && (taken.Some? ==> taken == s.slot && !t.specs[taken.value].abort)
  {
    RunOwned(steps);
  }

  lemma OneWorkerStreams(steps: seq<Step>, i: nat, j: nat)
    requires Run(steps).Some? && i < |Run(steps).value.specs| && j < |Run(steps).value.specs|
    requires var p, q := Run(steps).value.specs[i].workerAt, Run(steps).value.specs[j].workerAt;
             (p.Streaming? || p.Stopping?) && (q.Streaming? || q.Stopping?)
    ensures i == j
  {
    RunOwned(steps);
    assert Placed(Run(steps).value, i) && Placed(Run(steps).value, j);
  }

  // One synthesis of the first sentence at most, and never two voices at once:
  // when the writer speaks it itself, no speculative run is under way. If it is
  // served from the speculation, every chunk of the finished run was delivered.
  // Once some of it has been delivered, the writer says it again exactly if the
  // run failed.
  lemma OneVoice(steps: seq<Step>, i: nat)
    requires Run(steps).Some? && i < |Run(steps).value.specs|
    ensures var p := Run(steps).value.specs[i];
            && p.runs <= 1
            && !(p.early.Synthesizing? && p.fallback.Synthesizing?)
            && (p.writerAt.Own? ==> !p.early.Synthesizing? && !p.fallback.Synthesizing? && !p.audioState.NoAudio?)
            && (p.writerAt.Served? ==> p.audioState.DoneAudio? && p.writerAt.delivered == p.chunks != [])
            && ((p.writerAt.Own? || p.writerAt.Served?) && p.writerAt.delivered != [] ==>
                  (p.writerAt.Own? <==> p.audioState.FailedAudio?))
  {
    RunOwned(steps);
    assert Placed(Run(steps).value, i);
  }

  lemma RunExtends(steps: seq<Step>, step: Step)
    requires Run(steps).Some? && Enabled(Run(steps).value, step)
    ensures Run(steps + [step]) == Some(Apply(Run(steps).value, step))
  {
    assert (steps + [step])[..|steps|] == steps;
  }

  // A schedule that has led to a server with one speculation.
  predicate Only(steps: seq<Step>, s: Server, p: Spec) { Run(steps) == Some(s) && s.specs == [p] }

  lemma DoLocal(steps: seq<Step>, s: Server, p: Spec, local: LocalStep)
    returns (steps': seq<Step>, s': Server, p': Spec)
    requires Only(steps, s, p) && s.slot in [None, Some(0)] && LocalEnabled(p, local)
    ensures Only(steps', s', p') && p' == LocalApply(p, local) && s'.slot == s.slot
  {
    RunExtends(steps, Local(0, local));
    steps', s', p' := steps + [Local(0, local)], Apply(s, Local(0, local)), LocalApply(p, local);
    assert s'.specs == [p'];
  }

  const KEY: Key := [107]
  const PCM: Chunk := [1]

  lemma WorkerStreams() returns (steps: seq<Step>, s: Server, p: Spec)
    ensures Only(steps, s, p) && s.slot == Some(0)
    ensures p == NewSpec(KEY, true).(workerAt := Streaming)
  {
    RunExtends([], Speculate(KEY, true, false));
    steps, s := [Speculate(KEY, true, false)], Apply(Initial(), Speculate(KEY, true, false));
    RunExtends(steps, LockStream(0));
    steps, s := steps + [LockStream(0)], Apply(s, LockStream(0));
    p := NewSpec(KEY, true).(workerAt := Holding);
    assert s.specs == [p];
    steps, s, p := DoLocal(steps, s, p, ByWorker(CheckAbort));
  }

  lemma SynthesisIsRunning() returns (steps: seq<Step>, s: Server, p: Spec)
    ensures Only(steps, s, p) && s.slot == Some(0)
    ensures p.key == KEY && !p.abort && !p.llmDone && p.early.Synthesizing? && p.audioState.Running? && p.chunks == [PCM]
  {
    steps, s, p := WorkerStreams();
    steps, s, p := DoLocal(steps, s, p, ByWorker(Token(true)));
    steps, s, p := DoLocal(steps, s, p, BySynth(Early, Settle(false)));
    steps, s, p := DoLocal(steps, s, p, BySynth(Early, Claim));
    steps, s, p := DoLocal(steps, s, p, BySynth(Early, AddChunk(PCM)));
  }

  // The writer speaks that chunk.
  lemma FirstChunkIsSpoken() returns (steps: seq<Step>, s: Server, p: Spec)
    ensures Only(steps, s, p) && s.slot == None
    ensures p.early.Synthesizing? && p.audioState.Running? && p.writerAt == Following([PCM])
  {
    steps, s, p := SynthesisIsRunning();
    RunExtends(steps, Send(KEY));
    steps, s, p := steps + [Send(KEY)], Apply(s, Send(KEY)), p.(writerAt := Replaying);
    assert s.specs == [p];
    steps, s, p := DoLocal(steps, s, p, ByWriter(FirstSentence));
    steps, s, p := DoLocal(steps, s, p, ByWriter(ReadChunks));
  }

  // What is not promised: a run that fails after some of its chunks went out makes
  // the writer speak the whole sentence again.
  lemma FailedRunIsSpokenTwice() returns (steps: seq<Step>)
    ensures Run(steps).Some? && |Run(steps).value.specs| == 1
    ensures Run(steps).value.specs[0].writerAt == Own([PCM])
  {
    var s: Server, p: Spec;
    steps, s, p := FirstChunkIsSpoken();
    steps, s, p := DoLocal(steps, s, p, BySynth(Early, SynthFails));
    steps, s, p := DoLocal(steps, s, p, ByWriter(ReadChunks));
    steps, s, p := DoLocal(steps, s, p, ByWriter(CheckAudio));
  }
}
