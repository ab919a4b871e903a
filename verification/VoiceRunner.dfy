/** `VoiceLiveRunner::Impl` as an object whose fields the two threads update. Each
    method is one step of the protocol: what runs inside one lock region, or
    between two of them on the thread that owns the fields. The `audioAt` and
    `workerAt` fields stand for the two threads' program counters, and the ghost
    field `steps` records the schedule that brought the object where it is:
    `Perform` is the way in, and keeps it. */
module VoiceRunner {
  import opened Wrappers
  import opened VadWindows
  import opened VoiceProtocol
  import opened VoiceTrace
  import opened VoiceWellFormed
  import opened VoiceSafety
  import opened VoiceTheorems
  import VoiceTurns
  import VoiceHearing
  import VoiceVerdicts
  import VoiceLevels
  import VoiceTexts

  class Runner {
    const config: Config

    // Owned by the audio loop.
    var audioAt: AudioAt
    var speaking: bool
    var pendingEnd: bool
    var utteranceId: nat
    var preroll: Audio
    var gapBuffer: Audio
    var vadPending: Audio
    var vadSample: nat
    var noiseFloor: real
    var peak: real
    // Owned by the worker.
    var workerAt: WorkerAt
    // Guarded by decode_mutex.
    var utterance: Audio
    var candidate: Transcript
    var candidateValid: bool
    var candidateSamples: nat
    var latestHypothesis: string
    var pending: Option<Job>
    var workerBusy: bool
    var quit: bool
    // What the VAD was fed, and the log of the run.
    var windows: seq<Window>
    var log: seq<Event>

    ghost var steps: seq<Step>

    function VadView(): Vad
      reads this
    {
      Vad(vadPending, vadSample, windows)
    }

    function View(): State
      reads this
    {
      State(audioAt, speaking, pendingEnd, utteranceId, preroll, gapBuffer, VadView(), noiseFloor, peak, workerAt,
            utterance, candidate, candidateValid, candidateSamples, latestHypothesis, pending, workerBusy, quit, log)
    }

    // The object is where its schedule leads.
    ghost predicate Valid()
      reads this
    {
      Run(config, steps) == Some(View())
    }

    // The object has taken one more step.
    twostate predicate Took(step: Step)
      reads this
    {
      Valid() && steps == old(steps) + [step]
    }

    // So at every moment everything proved of all runs holds of its fields.
    lemma Holds()
      requires Valid()
      ensures WellFormed(View()) && VoiceTurns.InTurn(View()) && VoiceHearing.HeardRight(View()) && TurnIntact(View())
      ensures VoiceVerdicts.PrerollRight(config, View()) && VoiceVerdicts.Follows(View(), steps)
      ensures VoiceLevels.FloorRight(View()) && VoiceLevels.PartialsRight(config, View())
      ensures VoiceTexts.HypothesisRight(steps, View())
      ensures RestedDiscards(config, steps) ==> Safe(View())
    {
      VoiceVerdicts.RunPreroll(config, steps);
      VoiceVerdicts.RunFollows(config, steps);
      VoiceLevels.RunFloor(config, steps);
      VoiceLevels.RunPartials(config, steps);
      VoiceTexts.HypothesisIsTheNewest(config, steps);
      RunWellFormed(config, steps);
      VoiceTurns.RunInTurn(config, steps);
      VoiceHearing.RunHears(config, steps);
      RunLosesNothing(config, steps);
      if RestedDiscards(config, steps) { RunSafe(config, steps); }
    }

    constructor (config: Config)
      ensures this.config == config && Valid() && steps == []
    {
      this.config := config;
      audioAt, speaking, pendingEnd, utteranceId := Top, false, false, 0;
      preroll, gapBuffer, vadPending, vadSample := [], [], [], 0;
      noiseFloor, peak := QUIET_LEVEL, 0.0;
      workerAt, utterance, candidate, candidateValid, candidateSamples := Idle, [], NO_TRANSCRIPT, false, 0;
      latestHypothesis, pending, workerBusy, quit := "", None, false, false;
      windows, log := [], [];
      steps := [];
    }

    // ---- The audio loop ----------------------------------------------------

    // The VAD consumes exactly 512-sample windows; the rest waits.
    method FeedVad(block: Audio)
      modifies this`vadPending, this`vadSample, this`windows
      ensures VadView() == Feed(old(VadView()), block)
    {
      vadPending := vadPending + block;
      ghost var (found, rest) := WindowsOf(vadPending, vadSample);
      ghost var done := 0;
      while |vadPending| >= VAD_WINDOW
        invariant done <= |found|
        invariant WindowsOf(vadPending, vadSample) == (found[done..], rest)
        invariant windows == old(windows) + found[..done]
        invariant vadSample == old(vadSample) + VAD_WINDOW * done
        decreases |vadPending|
      {
        ghost var tail := found[done..];
        windows := windows + [Window(vadSample, vadPending[..VAD_WINDOW])];
        vadPending := vadPending[VAD_WINDOW..];
        vadSample := vadSample + VAD_WINDOW;
        assert tail[1..] == found[done + 1..];
        assert found[..done + 1] == found[..done] + [found[done]];
        done := done + 1;
      }
      assert found[..done] == found;
    }

    // One block: to the VAD, to peak or noise floor, and to gap, utterance or preroll.
    method ReadBlock(block: Audio, level: real, activity: seq<Activity>)
      modifies this
      ensures View() == VoiceProtocol.ReadBlock(config, old(View()), block, level, activity) && steps == old(steps)
    {
      FeedVad(block);
      Absorb(block, level);
      log := log + [Heard(block, level)];
      audioAt := Activities(activity);
    }

    // Everything but the VAD.
    method Absorb(block: Audio, level: real)
      modifies this`peak, this`noiseFloor, this`gapBuffer, this`utterance, this`preroll
      ensures peak == if speaking then Louder(old(peak), level) else old(peak)
      ensures noiseFloor == if speaking then old(noiseFloor) else NextFloor(old(noiseFloor), level)
      ensures gapBuffer == if speaking && pendingEnd then old(gapBuffer) + block else old(gapBuffer)
      ensures utterance == if speaking && !pendingEnd then old(utterance) + block else old(utterance)
      ensures preroll == if speaking then old(preroll) else KeepLast(old(preroll) + block, config.prerollSamples)
    {
      TrackLevel(level);
      CaptureBlock(block);
    }

    method TrackLevel(level: real)
      modifies this`peak, this`noiseFloor
      ensures peak == if speaking then Louder(old(peak), level) else old(peak)
      ensures noiseFloor == if speaking then old(noiseFloor) else NextFloor(old(noiseFloor), level)
    {
      if speaking {
        peak := if peak < level then level else peak;
      } else if level < noiseFloor {
        noiseFloor := 0.9 * noiseFloor + 0.1 * level;
      } else {
        noiseFloor := 0.995 * noiseFloor + 0.005 * level;
      }
    }

    method CaptureBlock(block: Audio)
      modifies this`gapBuffer, this`utterance, this`preroll
      ensures gapBuffer == if speaking && pendingEnd then old(gapBuffer) + block else old(gapBuffer)
      ensures utterance == if speaking && !pendingEnd then old(utterance) + block else old(utterance)
      ensures preroll == if speaking then old(preroll) else KeepLast(old(preroll) + block, config.prerollSamples)
    {
      if speaking && pendingEnd {
        gapBuffer := gapBuffer + block;
      } else if speaking {
        utterance := utterance + block;
      } else {
        preroll := preroll + block;
        if |preroll| > config.prerollSamples {
          preroll := preroll[|preroll| - config.prerollSamples..];
        }
      }
    }

    method StreamOver()
      requires TurnEnabled(config, View(), EndOfStream)
      modifies this
      ensures View() == ApplyTurn(config, old(View()), EndOfStream) && steps == old(steps)
    {
      audioAt := if speaking then Gate(true) else Teardown;
    }

    // One VAD activity opens, resumes or holds the turn, or none is left.
    method NextActivity()
      requires audioAt.Activities?
      modifies this
      ensures View() == HandleActivity(old(View())) && steps == old(steps)
    {
      var acts := audioAt.rest;
      if acts == [] {
        audioAt := Hold;
        return;
      }
      audioAt := Activities(acts[1..]);
      if acts[0].SpeechStart? {
        if !speaking {
          BeginUtterance(acts[1..]);
        } else if pendingEnd {
          ResumeFromPending();
        }
      } else if speaking && !pendingEnd {
        BeginPendingEnd(acts[1..]);
      }
    }

    method BeginUtterance(rest: seq<Activity>)
      modifies this
      ensures View() == VoiceProtocol.BeginUtterance(old(View()), rest) && steps == old(steps)
    {
      ResetTurn();
      utterance := preroll;
      candidateValid := false;
      latestHypothesis := "";
      log := log + [Opened(utteranceId, preroll)];
      audioAt := Announce(rest);
    }

    method ResetTurn()
      modifies this`speaking, this`pendingEnd, this`gapBuffer, this`utteranceId, this`peak
      ensures speaking && !pendingEnd && gapBuffer == [] && utteranceId == old(utteranceId) + 1 && peak == 0.0
    {
      speaking := true;
      pendingEnd := false;
      gapBuffer := [];
      utteranceId := utteranceId + 1;
      peak := 0.0;
    }

    method BeginPendingEnd(rest: seq<Activity>)
      modifies this
      ensures View() == VoiceProtocol.BeginPendingEnd(old(View()), rest) && steps == old(steps)
    {
      pendingEnd := true;
      gapBuffer := [];
      var haveCandidate := candidateValid && candidateSamples + CANDIDATE_SLACK >= |utterance|;
      audioAt := if haveCandidate then Activities(rest) else AskCandidate(rest);
    }

    method ResumeFromPending()
      requires audioAt.Activities?
      modifies this
      ensures View() == VoiceProtocol.ResumeFromPending(old(View()), old(audioAt).rest) && steps == old(steps)
    {
      pendingEnd := false;
      utterance := utterance + gapBuffer;
      candidateValid := false;
      gapBuffer := [];
    }

    method AnnounceUtterance()
      requires TurnEnabled(config, View(), EmitStarted)
      modifies this
      ensures View() == ApplyTurn(config, old(View()), EmitStarted) && steps == old(steps)
    {
      log := log + [Started(utteranceId)];
      audioAt := Activities(audioAt.rest);
    }

    method DecideEndpoint(verdict: Verdict)
      requires TurnEnabled(config, View(), Decide(verdict))
      modifies this
      ensures View() == ApplyTurn(config, old(View()), Decide(verdict)) && steps == old(steps)
    {
      match verdict {
        case CommitNow => audioAt := Gate(false);
        case Runaway => audioAt := Gate(false);
        case DuePartial => audioAt := AskPartial;
        case Continue => audioAt := Top;
      }
    }

    // The lock region of `enqueue_decode`, entered once its wait (if any) is over.
    method EnqueueDecode(final: bool, candidateJob: bool)
      requires !(final && candidateJob)
      requires Enabled(config, View(), if final then QueueFinal else if candidateJob then QueueCandidate else QueuePartial)
      modifies this
      ensures View() == Apply(config, old(View()),
                              if final then QueueFinal else if candidateJob then QueueCandidate else QueuePartial)
      ensures steps == old(steps)
    {
      var job := Job(utteranceId, final, candidateJob, utterance);
      if candidateJob {
        pending := None;
      } else if !final && (workerBusy || pending.Some?) {
        audioAt := Top;
        return;
      }
      pending := Some(job);
      audioAt := if final then AwaitFinal(audioAt.last) else if candidateJob then Activities(audioAt.rest) else Top;
    }

    method LeaveTurn()
      modifies this`speaking, this`pendingEnd, this`gapBuffer
      ensures !speaking && !pendingEnd && gapBuffer == []
    {
      speaking := false;
      pendingEnd := false;
      gapBuffer := [];
    }

    // The noise gate.
    method MeasureGate() returns (below: bool)
      ensures below == BelowGate(config, View())
    {
      var gate := config.minSpeechRms;
      if gate < config.minSpeechSnr * noiseFloor { gate := config.minSpeechSnr * noiseFloor; }
      below := config.minSpeechSnr > 0.0 && peak < gate;
    }

    method Discard()
      requires CommitEnabled(config, View(), FailGate)
      modifies this
      ensures View() == ApplyCommit(config, old(View()), FailGate) && steps == old(steps)
    {
      LeaveTurn();
      log := log + [Discarded(utteranceId)];
      audioAt := Drop(audioAt.last);
    }

    method EndSpeech()
      requires CommitEnabled(config, View(), PassGate)
      modifies this
      ensures View() == ApplyCommit(config, old(View()), PassGate) && steps == old(steps)
    {
      LeaveTurn();
      log := log + [Ended(utteranceId, utterance)];
      audioAt := AwaitIdle(audioAt.last);
    }

    method CommitUtterance()
      requires audioAt.Gate?
      modifies this
      ensures View() == ApplyCommit(config, old(View()), if old(BelowGate(config, View())) then FailGate else PassGate)
      ensures steps == old(steps)
    {
      var below := MeasureGate();
      if below { Discard(); } else { EndSpeech(); }
    }

    method Forget()
      modifies this`utterance, this`candidateValid, this`latestHypothesis
      ensures utterance == [] && !candidateValid && latestHypothesis == ""
    {
      utterance := [];
      candidateValid := false;
      latestHypothesis := "";
    }

    method DropUtterance()
      requires CommitEnabled(config, View(), Step.DropUtterance)
      modifies this
      ensures View() == ApplyCommit(config, old(View()), Step.DropUtterance) && steps == old(steps)
    {
      Forget();
      audioAt := Resume(audioAt.last);
    }

    method ChooseFinal()
      requires CommitEnabled(config, View(), SeeIdle)
      modifies this
      ensures View() == ApplyCommit(config, old(View()), SeeIdle) && steps == old(steps)
    {
      var served := candidateValid && candidateSamples + CANDIDATE_SLACK >= |utterance|;
      audioAt := if served then Serve(audioAt.last) else AskFinal(audioAt.last);
    }

    method TakeCandidate()
      requires CommitEnabled(config, View(), Step.TakeCandidate)
      modifies this
      ensures View() == ApplyCommit(config, old(View()), Step.TakeCandidate) && steps == old(steps)
    {
      audioAt := EmitServed(audioAt.last, candidate, |utterance|);
      candidateValid := false;
    }

    method EmitCandidate()
      requires CommitEnabled(config, View(), Step.EmitCandidate)
      modifies this
      ensures View() == ApplyCommit(config, old(View()), Step.EmitCandidate) && steps == old(steps)
    {
      log := log + [Final(utteranceId, audioAt.result, audioAt.samples)];
      audioAt := Clear(audioAt.last);
    }

    method FinalDone()
      requires CommitEnabled(config, View(), SeeFinalDone)
      modifies this
      ensures View() == ApplyCommit(config, old(View()), SeeFinalDone) && steps == old(steps)
    {
      audioAt := Clear(audioAt.last);
    }

    method ClearUtterance()
      requires CommitEnabled(config, View(), Step.ClearUtterance)
      modifies this
      ensures View() == ApplyCommit(config, old(View()), Step.ClearUtterance) && steps == old(steps)
    {
      utterance := [];
      audioAt := Resume(audioAt.last);
    }

    method SetQuit()
      requires CommitEnabled(config, View(), Quit)
      modifies this
      ensures View() == ApplyCommit(config, old(View()), Quit) && steps == old(steps)
    {
      quit := true;
      audioAt := Joining;
    }

    method JoinWorker()
      requires CommitEnabled(config, View(), Join)
      modifies this
      ensures View() == ApplyCommit(config, old(View()), Join) && steps == old(steps)
    {
      audioAt := Stopped;
    }

    // ---- The decode worker -------------------------------------------------

    method TakeJob()
      requires WorkerEnabled(View(), Take)
      modifies this
      ensures View() == ApplyWorker(old(View()), Take) && steps == old(steps)
    {
      workerAt := Decoding(pending.value);
      pending := None;
      workerBusy := true;
    }

    // `transcribe` returns a text, or throws.
    method FinishDecode(outcome: Option<string>)
      requires workerAt.Decoding?
      modifies this
      ensures View() == ApplyWorker(old(View()), if outcome.Some? then Decode(outcome.value) else DecodeFails)
      ensures steps == old(steps)
    {
      var job := workerAt.job;
      if outcome.None? {
        log := log + [Failed(job)];
        workerAt := Release;
      } else if job.final {
        workerAt := Answer(Transcript(job, outcome.value));
      } else {
        workerAt := Store(Transcript(job, outcome.value));
      }
    }

    method HandleFinal()
      requires WorkerEnabled(View(), Step.EmitFinal)
      modifies this
      ensures View() == ApplyWorker(old(View()), Step.EmitFinal) && steps == old(steps)
    {
      var result := workerAt.result;
      log := log + [Final(result.job.utterance, result, |result.job.audio|)];
      workerAt := Release;
    }

    // The energy of the last 100 ms against the larger of 0.004 and 1.5 times the
    // noise floor, squared.
    method TailIsQuiet(job: Job) returns (quiet: bool)
      ensures quiet == TailQuiet(job, noiseFloor)
    {
      quiet := job.candidate;
      if !quiet && |job.audio| >= QUIET_TAIL {
        var energy := 0.0;
        ghost var tail := job.audio[|job.audio| - QUIET_TAIL..];
        for i := |job.audio| - QUIET_TAIL to |job.audio|
          invariant energy == SumSquares(tail[..i - (|job.audio| - QUIET_TAIL)])
        {
          ghost var k := i - (|job.audio| - QUIET_TAIL);
          assert tail[..k + 1][..k] == tail[..k];
          energy := energy + job.audio[i] * job.audio[i];
        }
        assert tail[..QUIET_TAIL] == tail;
        var quietRms := if QUIET_LEVEL < 1.5 * noiseFloor then 1.5 * noiseFloor else QUIET_LEVEL;
        quiet := energy / (QUIET_TAIL as real) < quietRms * quietRms;
      }
    }

    method KeepCandidate(result: Transcript)
      modifies this`candidate, this`candidateValid, this`candidateSamples
      ensures candidate == result && candidateValid && candidateSamples == |result.job.audio|
    {
      candidate := result;
      candidateValid := true;
      candidateSamples := |result.job.audio|;
    }

    method StoreCandidate()
      requires WorkerEnabled(View(), Step.StoreCandidate)
      modifies this
      ensures View() == ApplyWorker(old(View()), Step.StoreCandidate) && steps == old(steps)
    {
      var result := workerAt.result;
      var tailQuiet := TailIsQuiet(result.job);
      if tailQuiet && result.text != "" { KeepCandidate(result); }
      workerAt := if result.text == "" then Release else Publish(result);
    }

    method StoreHypothesis()
      requires WorkerEnabled(View(), Step.StoreHypothesis)
      modifies this
      ensures View() == ApplyWorker(old(View()), Step.StoreHypothesis) && steps == old(steps)
    {
      latestHypothesis := workerAt.result.text;
      workerAt := Report(workerAt.result, 0);
    }

    method EmitUpdate(kind: UpdateKind)
      requires WorkerEnabled(View(), Step.EmitUpdate(kind))
      modifies this
      ensures View() == ApplyWorker(old(View()), Step.EmitUpdate(kind)) && steps == old(steps)
    {
      log := log + [Update(workerAt.result.job.utterance, kind)];
      workerAt := Report(workerAt.result, Rank(kind) + 1);
    }

    method EndReport()
      requires WorkerEnabled(View(), Step.EndReport)
      modifies this
      ensures View() == ApplyWorker(old(View()), Step.EndReport) && steps == old(steps)
    {
      workerAt := Release;
    }

    method GoIdle()
      requires WorkerEnabled(View(), Step.GoIdle)
      modifies this
      ensures View() == ApplyWorker(old(View()), Step.GoIdle) && steps == old(steps)
    {
      workerBusy := false;
      workerAt := Idle;
    }

    method ExitWorker()
      requires WorkerEnabled(View(), Exit)
      modifies this
      ensures View() == ApplyWorker(old(View()), Exit) && steps == old(steps)
    {
      workerAt := Exited;
    }

    // ---- Both threads ------------------------------------------------------

    // The method for a step.
    method Dispatch(step: Step)
      requires Enabled(config, View(), step)
      modifies this
      ensures View() == Apply(config, old(View()), step) && steps == old(steps)
    {
      match step
      case Read(block, level, activity) => ReadBlock(block, level, activity);
      case EndOfStream => StreamOver();
      case NextActivity => NextActivity();
      case EmitStarted => AnnounceUtterance();
      case QueueCandidate => EnqueueDecode(false, true);
      case Decide(verdict) => DecideEndpoint(verdict);
      case QueuePartial => EnqueueDecode(false, false);
      case PassGate => CommitUtterance();
      case FailGate => CommitUtterance();
      case DropUtterance => DropUtterance();
      case SeeIdle => ChooseFinal();
      case TakeCandidate => TakeCandidate();
      case EmitCandidate => EmitCandidate();
      case QueueFinal => EnqueueDecode(true, false);
      case SeeFinalDone => FinalDone();
      case ClearUtterance => ClearUtterance();
      case Quit => SetQuit();
      case Join => JoinWorker();
      case Take => TakeJob();
      case Decode(text) => FinishDecode(Some(text));
      case DecodeFails => FinishDecode(None);
      case StoreCandidate => StoreCandidate();
      case StoreHypothesis => StoreHypothesis();
      case EmitUpdate(kind) => EmitUpdate(kind);
      case EndReport => EndReport();
      case EmitFinal => HandleFinal();
      case GoIdle => GoIdle();
      case Exit => ExitWorker();
    }

    // Whatever step is due, the object takes it and stays where its schedule leads;
    // and then the VAD has been given whole windows of all audio read, nothing of an
    // open turn is lost, and the client has seen nothing out of order unless a
    // discard met a busy worker.
    method Perform(step: Step)
      requires Valid() && Enabled(config, View(), step)
      modifies this
      ensures Took(step)
      ensures Tiles(VadView(), VoiceHearing.AllHeard(log))
      ensures speaking ==> utterance + gapBuffer == HeardSince(log) && peak == VoiceHearing.LoudestSince(log)
      ensures RestedDiscards(config, steps) ==> Accepted(log)
    {
      RunExtends(config, steps, step);
      Dispatch(step);
      steps := steps + [step];
      Holds();
    }
  }

  lemma {:induction false} RunPrefix(c: Config, steps: seq<Step>, n: nat)
    requires Run(c, steps).Some? && n <= |steps|
    ensures Run(c, steps[..n]).Some?
    decreases |steps|
  {
    if n < |steps| {
      RunPrefix(c, steps[..|steps| - 1], n);
      assert steps[..|steps| - 1][..n] == steps[..n];
    } else {
      assert steps[..n] == steps;
    }
  }

  lemma BlockedStays(c: Config, steps: seq<Step>, n: nat)
    requires n < |steps| && Run(c, steps[..n]).Some? && !Enabled(c, Run(c, steps[..n]).value, steps[n])
    ensures Run(c, steps).None?
  {
    assert steps[..n + 1][..n] == steps[..n];
    if Run(c, steps).Some? { RunPrefix(c, steps, n + 1); }
  }

  // The object follows every schedule exactly as far as the protocol does, and in
  // every schedule that has come to its end each of the object's utterances was
  // started once and then discarded or ended and answered once.
  method Drive(config: Config, schedule: seq<Step>) returns (runner: Runner, n: nat)
    ensures fresh(runner) && runner.config == config && runner.Valid()
    ensures n <= |schedule| && runner.steps == schedule[..n]
    ensures n == |schedule| <==> Run(config, schedule).Some?
    ensures n == |schedule| ==> Run(config, schedule) == Some(runner.View())
    ensures runner.audioAt.Stopped? ==>
              forall u: nat | 1 <= u <= runner.utteranceId :: Resolved(Milestones(runner.log, u), u)
    ensures RestedDiscards(config, runner.steps) ==> Accepted(runner.log)
  {
    runner := new Runner(config);
    n := 0;
    while n < |schedule| && Enabled(config, runner.View(), schedule[n])
      invariant fresh(runner) && runner.config == config && runner.Valid()
      invariant n <= |schedule| && runner.steps == schedule[..n]
      decreases |schedule| - n
    {
      runner.Perform(schedule[n]);
      assert schedule[..n + 1] == schedule[..n] + [schedule[n]];
      n := n + 1;
    }
    runner.Holds();
    if n == |schedule| {
      assert schedule[..n] == schedule;
    } else {
      BlockedStays(config, schedule, n);
    }
    if runner.audioAt.Stopped? {
      forall u: nat | 1 <= u <= runner.utteranceId
        ensures Resolved(Milestones(runner.log, u), u)
      {
        VoiceTurns.EveryTurnResolvedOnce(config, runner.steps, u);
      }
    }
  }
}
