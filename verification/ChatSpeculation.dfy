/** The shared objects of the speculation protocol: `ChatSpeculation`
    (app/server/runtime.h) and the part of `ServerState` that owns them
    (app/server/runtime.cpp). Each method is one lock region of the code it is named
    after. The ghost field `steps` records the schedule that brought the server and
    its speculations where they are. */
module ChatSpeculation {
  import opened Bytes
  import opened Wrappers
  import P = Speculation
  import Life = SpeculationLife

  class Chat {
    const key: P.Key
    const earlyTts: bool
    var abort: bool
    var llmDone: bool
    var ok: bool
    var hasSentence: bool
    var audioState: P.AudioState
    var firstAudioChunks: seq<P.Chunk>
    var workerAt: P.WorkerAt
    var early: P.SynthAt
    var fallback: P.SynthAt
    var writerAt: P.WriterAt
    var runs: nat

    function View(): P.Spec
      reads this
    {
      P.Spec(key, earlyTts, abort, llmDone, ok, hasSentence, audioState, firstAudioChunks, workerAt, early, fallback,
             writerAt, runs)
    }

    constructor (key: P.Key, earlyTts: bool)
      ensures View() == P.NewSpec(key, earlyTts)
    {
      this.key, this.earlyTts := key, earlyTts;
      abort, llmDone, ok, hasSentence := false, false, false, false;
      audioState, firstAudioChunks := P.NoAudio, [];
      workerAt, early, fallback, writerAt, runs := P.Waiting, P.NotStarted, P.NotStarted, P.NoSend, 0;
    }

    // ---- The worker --------------------------------------------------------

    predicate HoldsStream()
      reads this
    {
      workerAt.Holding? || workerAt.Streaming? || workerAt.Stopping?
    }

    method BeginStream()
      requires P.WorkerEnabled(View(), P.CheckAbort)
      modifies this
      ensures View() == P.WorkerApply(old(View()), P.CheckAbort)
    {
      workerAt := if abort then P.Gone else P.Streaming;
    }

    method Emit(sentence: bool)
      modifies this`hasSentence, this`early
      ensures View() == P.Emit(old(View()), sentence)
    {
      hasSentence := hasSentence || sentence;
      if earlyTts && early.NotStarted? && hasSentence {
        early := P.Settling;
      }
    }

    // The handler of a token: whether to go on is asked once it has been emitted.
    method TakeToken(sentence: bool)
      requires P.WorkerEnabled(View(), P.Token(sentence))
      modifies this
      ensures View() == P.WorkerApply(old(View()), P.Token(sentence))
    {
      Emit(sentence);
      workerAt := if abort then P.Stopping else P.Streaming;
    }

    method EndStream(result: bool)
      requires P.WorkerEnabled(View(), P.StreamEnds(result))
      modifies this
      ensures View() == P.WorkerApply(old(View()), P.StreamEnds(result))
    {
      workerAt := P.Flushing(result);
    }

    method FlushText(sentence: bool)
      requires P.WorkerEnabled(View(), P.FlushText(sentence))
      modifies this
      ensures View() == P.WorkerApply(old(View()), P.FlushText(sentence))
    {
      Emit(sentence);
      workerAt := P.Publishing(workerAt.result);
    }

    method PublishResult()
      requires P.WorkerEnabled(View(), P.Publish)
      modifies this
      ensures View() == P.WorkerApply(old(View()), P.Publish)
    {
      ok := workerAt.result;
      llmDone := true;
      workerAt := P.Settled(workerAt.result);
    }

    method StartFallback()
      requires P.WorkerEnabled(View(), P.Decide)
      modifies this
      ensures View() == P.WorkerApply(old(View()), P.Decide)
    {
      fallback := if !workerAt.result || abort then P.NotStarted else P.Settling;
      workerAt := P.Gone;
    }

    // ---- synthesize_first --------------------------------------------------

    method MoveSynth(which: P.Which, at: P.SynthAt)
      modifies this`early, this`fallback
      ensures View() == P.WithSynth(old(View()), which, at)
    {
      if which.Early? { early := at; } else { fallback := at; }
    }

    method AfterSettling(which: P.Which, skip: bool)
      requires P.SynthEnabled(P.SynthOf(View(), which), P.Settle(skip))
      modifies this
      ensures View() == P.SynthApply(old(View()), which, P.Settle(skip))
    {
      MoveSynth(which, if abort || skip then P.Over else P.Claiming);
    }

    method ClaimAudio(which: P.Which) returns (won: bool)
      requires P.SynthEnabled(P.SynthOf(View(), which), P.Claim)
      modifies this
      ensures View() == P.SynthApply(old(View()), which, P.Claim)
      ensures won <==> old(audioState).NoAudio?
    {
      if !audioState.NoAudio? {
        MoveSynth(which, P.Over);
        return false;
      }
      MoveSynth(which, P.Synthesizing);
      audioState := P.Running;
      runs := runs + 1;
      return true;
    }

    method AddChunk(which: P.Which, pcm: P.Chunk)
      requires P.SynthEnabled(P.SynthOf(View(), which), P.AddChunk(pcm))
      modifies this
      ensures View() == P.SynthApply(old(View()), which, P.AddChunk(pcm))
    {
      firstAudioChunks := firstAudioChunks + [pcm];
    }

    method FinishAudio(which: P.Which, failed: bool)
      requires P.SynthEnabled(P.SynthOf(View(), which), P.SynthDone)
      modifies this
      ensures View() == P.SynthApply(old(View()), which, if failed then P.SynthFails else P.SynthDone)
    {
      if failed {
        audioState := P.FailedAudio;
        firstAudioChunks := [];
      } else {
        audioState := P.DoneAudio;
      }
      MoveSynth(which, P.Over);
    }

    // ---- The writer of the send --------------------------------------------

    method UseSpeculativeAudio() returns (use: bool)
      requires P.WriterEnabled(View(), P.FirstSentence)
      modifies this
      ensures View() == P.WriterApply(old(View()), P.FirstSentence)
      ensures use <==> old(audioState).Running? || old(audioState).DoneAudio?
    {
      if audioState.NoAudio? {
        audioState := P.FailedAudio;
        writerAt := P.Own([]);
        return false;
      }
      use := audioState.Running? || audioState.DoneAudio?;
      writerAt := if use then P.Following([]) else P.Own([]);
    }

    // The chunks that arrived since the last look, and whether that was all.
    method ReadChunks() returns (chunks: seq<P.Chunk>, finished: bool)
      requires P.WriterEnabled(View(), P.ReadChunks)
      modifies this
      ensures View() == P.WriterApply(old(View()), P.ReadChunks)
      ensures writerAt.delivered == old(writerAt).delivered + chunks && (finished <==> writerAt.Checking?)
    {
      var seen := writerAt.delivered;
      chunks := if |seen| <= |firstAudioChunks| then firstAudioChunks[|seen|..] else [];
      finished := !audioState.Running?;
      if audioState.FailedAudio? {
        chunks := [];
      }
      assert seen + [] == seen;
      writerAt := if finished then P.Checking(seen + chunks) else P.Following(seen + chunks);
    }

    method HadAudio() returns (had: bool)
      requires P.WriterEnabled(View(), P.CheckAudio)
      modifies this
      ensures View() == P.WriterApply(old(View()), P.CheckAudio)
      ensures had <==> writerAt.Served?
    {
      had := firstAudioChunks != [] && audioState.DoneAudio?;
      writerAt := if had then P.Served(writerAt.delivered) else P.Own(writerAt.delivered);
    }

    method AbortReply()
      modifies this`abort
      ensures View() == old(View()).(abort := true)
    {
      abort := true;
    }

    // ---- Whose step it is --------------------------------------------------

    method AdvanceWorker(step: P.WorkerStep)
      requires P.WorkerEnabled(View(), step)
      modifies this
      ensures View() == P.WorkerApply(old(View()), step)
    {
      match step
      case CheckAbort => BeginStream();
      case Token(sentence) => TakeToken(sentence);
      case StreamEnds(result) => EndStream(result);
      case FlushText(sentence) => FlushText(sentence);
      case Publish => PublishResult();
      case Decide => StartFallback();
    }

    method AdvanceSynth(which: P.Which, step: P.SynthStep)
      requires P.SynthEnabled(P.SynthOf(View(), which), step)
      modifies this
      ensures View() == P.SynthApply(old(View()), which, step)
    {
      match step
      case Settle(skip) => AfterSettling(which, skip);
      case Claim => var _ := ClaimAudio(which);
      case AddChunk(chunk) => AddChunk(which, chunk);
      case SynthDone => FinishAudio(which, false);
      case SynthFails => FinishAudio(which, true);
    }

    method AdvanceWriter(step: P.WriterStep)
      requires P.WriterEnabled(View(), step)
      modifies this
      ensures View() == P.WriterApply(old(View()), step)
    {
      match step
      case FirstSentence => var _ := UseSpeculativeAudio();
      case ReadChunks => var _, _ := ReadChunks();
      case CheckAudio => var _ := HadAudio();
      case ClientGone => AbortReply();
    }

    method Advance(local: P.LocalStep)
      requires P.LocalEnabled(View(), local)
      modifies this
      ensures View() == P.LocalApply(old(View()), local)
    {
      match local
      case ByWorker(step) => AdvanceWorker(step);
      case BySynth(which, step) => AdvanceSynth(which, step);
      case ByWriter(step) => AdvanceWriter(step);
    }
  }

  // What ServerState keeps of speculations: the slot guarded by
  // chat_speculation_mutex_ and the stream mutex. `chats` are all speculations ever
  // started, `slot` and `streamLock` places in it, and `sends` what each send got.
  class ServerState {
    var chats: seq<Chat>
    var slot: Option<nat>
    var streamLock: Option<nat>
    var sends: seq<Option<nat>>

    ghost var steps: seq<P.Step>

    ghost function Specs(): seq<P.Spec>
      reads this, chats
    {
      seq(|chats|, i requires 0 <= i < |chats| reads this, chats => chats[i].View())
    }

    ghost function View(): P.Server
      reads this, chats
    {
      P.Server(slot, streamLock, Specs(), sends)
    }

    ghost predicate Apart()
      reads this
    {
      forall i, j | 0 <= i < j < |chats| :: chats[i] != chats[j]
    }

    // The server is where its schedule leads.
    ghost predicate Valid()
      reads this, chats
    {
      Apart() && P.Run(steps) == Some(View())
    }

    twostate predicate Took(step: P.Step)
      reads this, chats
    {
      Valid() && steps == old(steps) + [step]
    }

    // So at every moment everything proved of all runs holds of its objects.
    lemma Holds()
      requires Valid()
      ensures P.Owned(View())
      ensures forall i | 0 <= i < |chats| :: P.AudioOk(chats[i].View())
    {
      P.RunOwned(steps);
      forall i | 0 <= i < |chats| ensures P.AudioOk(chats[i].View()) {
        assert P.Placed(View(), i) && View().specs[i] == chats[i].View();
      }
    }

    constructor ()
      ensures Valid() && steps == [] && chats == []
    {
      chats, slot, streamLock, sends, steps := [], None, None, [], [];
      new;
      assert Specs() == [];
    }

    // After one of the speculations has changed.
    ghost method Record(before: P.Server, step: P.Step)
      requires Apart() && P.Run(steps) == Some(before) && P.Enabled(before, step)
      requires View() == P.Apply(before, step)
      modifies this`steps
      ensures Took(step) && View() == old(View())
    {
      P.RunExtends(steps, step);
      steps := steps + [step];
      assert Specs() == old(Specs());
    }

    method AbortSlot()
      requires Apart() && slot.Some? && slot.value < |chats|
      modifies chats
      ensures Specs() == P.Abort(old(Specs()), slot.value)
    {
      chats[slot.value].AbortReply();
    }

    method HandOver()
      requires Apart() && slot.Some? && slot.value < |chats|
      modifies chats
      ensures Specs() == old(Specs())[slot.value := old(Specs())[slot.value].(writerAt := P.Replaying)]
    {
      chats[slot.value].writerAt := P.Replaying;
    }

    method Register(key: P.Key, earlyTts: bool)
      requires Apart()
      modifies this`chats, this`slot
      ensures Apart() && Specs() == old(Specs()) + [P.NewSpec(key, earlyTts)]
      ensures |chats| == |old(chats)| + 1 && chats[..|old(chats)|] == old(chats) && fresh(chats[|old(chats)|])
      ensures slot == Some(|old(chats)|)
    {
      var spec := new Chat(key, earlyTts);
      slot := Some(|chats|);
      chats := chats + [spec];
    }

    // The lock region of start_chat_speculation: true if a worker is to be started.
    // The same draft keeps its speculation, any other one is aborted.
    method Start(key: P.Key, earlyTts: bool, stale: bool) returns (started: bool)
      requires Valid()
      modifies this, chats
      ensures Took(P.Speculate(key, earlyTts, stale))
      ensures forall i | 0 <= i < |chats| :: if i < |old(chats)| then chats[i] == old(chats)[i] else fresh(chats[i])
      ensures started <==> !stale && !(old(slot).Some? && old(View()).specs[old(slot).value].key == key)
      ensures if started then slot == Some(|old(chats)|) && |chats| == |old(chats)| + 1 else chats == old(chats) && slot == old(slot)
    {
      Holds();
      ghost var before := View();
      ghost var step := P.Speculate(key, earlyTts, stale);
      if stale || (slot.Some? && chats[slot.value].key == key) {
        Record(before, step);
        return false;
      }
      if slot.Some? { AbortSlot(); }
      Register(key, earlyTts);
      Record(before, step);
      return true;
    }

    // A prewarm of another draft kills the registered speculation.
    method Prewarm(key: P.Key)
      requires Valid()
      modifies this, chats
      ensures Took(P.Prewarm(key)) && chats == old(chats)
      ensures slot == if old(slot).Some? && old(View()).specs[old(slot).value].key != key then None else old(slot)
    {
      Holds();
      ghost var before := View();
      if slot.Some? && chats[slot.value].key != key {
        AbortSlot();
        slot := None;
      }
      Record(before, P.Prewarm(key));
    }

    // What becomes of the registered speculation when a send arrives.
    method Detach(key: P.Key) returns (taken: Option<nat>)
      requires Apart() && (slot.Some? ==> slot.value < |chats|)
      modifies this`slot, chats
      ensures (View(), taken) == P.TakeMatching(old(View()), key)
    {
      taken := None;
      if slot.Some? {
        var spec := chats[slot.value];
        if spec.key != key || spec.abort {
          AbortSlot();
        } else if !(spec.llmDone && !spec.ok) {
          taken := slot;
          HandOver();
        }
        ghost var specs := Specs();
        slot := None;
        assert Specs() == specs;
      }
    }

    // A send takes what is registered out of the slot. It gets it exactly if it was
    // made for this key and has not failed, and no other send ever gets it.
    method TakeMatching(key: P.Key) returns (taken: Option<nat>)
      requires Valid()
      modifies this, chats
      ensures Took(P.Send(key)) && chats == old(chats) && slot == None
      ensures taken.Some? <==> old(slot).Some? && var p := old(View()).specs[old(slot).value]; p.key == key && !(p.llmDone && !p.ok)
      ensures taken.Some? ==> taken == old(slot) && Some(taken.value) !in old(sends) && !chats[taken.value].abort
    {
      Holds();
      ghost var before := View();
      P.SendGetsItsOwn(steps, key);
      taken := Detach(key);
      ghost var after := View();
      sends := sends + [taken];
      assert View() == after.(sends := sends);
      Record(before, P.Send(key));
    }

    // The worker of speculation i gets the stream mutex.
    method LockStream(i: nat)
      requires Valid() && P.Enabled(View(), P.LockStream(i))
      modifies this, chats
      ensures Took(P.LockStream(i)) && chats == old(chats)
    {
      ghost var before := View();
      chats[i].workerAt := P.Holding;
      streamLock := Some(i);
      Record(before, P.LockStream(i));
    }

    method AdvanceChat(i: nat, local: P.LocalStep)
      requires Apart() && i < |chats| && P.LocalEnabled(chats[i].View(), local)
      modifies this`streamLock, chats
      ensures var p := old(Specs())[i];
              var q := P.LocalApply(p, local);
              && Specs() == old(Specs())[i := q]
              && streamLock == if P.HoldsStream(p) && !P.HoldsStream(q) then None else old(streamLock)
    {
      var held := chats[i].HoldsStream();
      chats[i].Advance(local);
      if held && !chats[i].HoldsStream() { streamLock := None; }
    }

    // A step of the threads of speculation i. The mutex is free again once its
    // worker has left the stream. No aborted speculation starts to stream or to speak.
    method Advance(i: nat, local: P.LocalStep)
      requires Valid() && P.Enabled(View(), P.Local(i, local))
      modifies this, chats
      ensures Took(P.Local(i, local)) && chats == old(chats)
      ensures forall k | 0 <= k < |chats| && old(chats[k].abort) :: Life.StaysQuiet(old(chats[k].View()), chats[k].View())
    {
      ghost var before := View();
      AdvanceChat(i, local);
      Record(before, P.Local(i, local));
      forall k | 0 <= k < |chats| && old(chats[k].abort)
        ensures Life.StaysQuiet(old(chats[k].View()), chats[k].View())
      {
        assert before.specs[k] == old(chats[k].View()) && View().specs[k] == chats[k].View();
        Life.AbortedStaysQuiet(old(steps), P.Local(i, local), k);
      }
    }

    predicate Ready(step: P.Step)
      reads this, chats
    {
      match step
      case LockStream(i) => i < |chats| && chats[i].workerAt.Waiting? && streamLock.None?
      case Local(i, local) => i < |chats| && P.LocalEnabled(chats[i].View(), local)
      case _ => true
    }

    // Whatever step is due.
    method Perform(step: P.Step)
      requires Valid() && Ready(step)
      modifies this, chats
      ensures Took(step)
      ensures forall i | 0 <= i < |chats| :: if i < |old(chats)| then chats[i] == old(chats)[i] else fresh(chats[i])
    {
      match step
      case Speculate(key, earlyTts, stale) => var _ := Start(key, earlyTts, stale);
      case Prewarm(key) => Prewarm(key);
      case Send(key) => var _ := TakeMatching(key);
      case LockStream(i) =>
        Holds();
        LockStream(i);
      case Local(i, local) =>
        Holds();
        Advance(i, local);
    }
  }

  // The server follows every schedule for as long as its next step is due.
  method Drive(schedule: seq<P.Step>) returns (server: ServerState, n: nat)
    ensures fresh(server) && server.Valid()
    ensures n <= |schedule| && server.steps == schedule[..n]
    ensures n < |schedule| ==> !P.Enabled(server.View(), schedule[n])
    ensures P.Owned(server.View())
    ensures forall i | 0 <= i < |server.chats| :: P.AudioOk(server.chats[i].View())
  {
    server := new ServerState();
    n := 0;
    while n < |schedule| && server.Ready(schedule[n])
      invariant fresh(server) && server.Valid() && forall i | 0 <= i < |server.chats| :: fresh(server.chats[i])
      invariant n <= |schedule| && server.steps == schedule[..n]
      decreases |schedule| - n
    {
      server.Perform(schedule[n]);
      assert schedule[..n + 1] == schedule[..n] + [schedule[n]];
      n := n + 1;
    }
    server.Holds();
  }
}
