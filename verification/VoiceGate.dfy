/** The noise gate can make one utterance answer for another, and nothing else can.

    The discard branch of `commit_utterance` returns without waiting for the
    decode worker, so a decode of the dropped utterance can finish inside the next
    one and be served as its final transcript. */
module VoiceGate {
  import opened Wrappers
  import opened VadWindows
  import opened VoiceProtocol
  import opened VoiceTrace
  import opened VoiceWellFormed
  import opened VoiceSafety
  import opened VoiceTheorems

  // Every final transcript was decoded from audio of the utterance it answers.
  predicate FinalsOwn(log: seq<Event>) {
    forall i | 0 <= i < |log| && log[i].Final? :: log[i].result.job.utterance == log[i].utterance
  }

  ghost predicate AlwaysFinalsOwn(c: Config) {
    forall steps | Run(c, steps).Some? :: FinalsOwn(Run(c, steps).value.log)
  }

  ghost predicate AlwaysInOrder(c: Config) {
    forall steps | Run(c, steps).Some? :: Accepted(Run(c, steps).value.log)
  }

  // A schedule with the state it leads to.
  predicate Reaches(c: Config, steps: seq<Step>, s: State) { Run(c, steps) == Some(s) }

  lemma Do(c: Config, steps: seq<Step>, s: State, step: Step) returns (steps': seq<Step>, s': State)
    requires Reaches(c, steps, s) && Enabled(c, s, step)
    ensures Reaches(c, steps', s') && s' == Apply(c, s, step)
  {
    RunExtends(c, steps, step);
    steps', s' := steps + [step], Apply(c, s, step);
  }

  lemma DoWorker(c: Config, steps: seq<Step>, s: State, step: Step) returns (steps': seq<Step>, s': State)
    requires Reaches(c, steps, s) && WorkerEnabled(s, step)
    ensures Reaches(c, steps', s') && s' == ApplyWorker(s, step)
  {
    steps', s' := Do(c, steps, s, step);
  }

  // ---- Blocks of one level -------------------------------------------------

  // 20 ms of a constant signal.
  function Hum(level: real): Audio { seq(BLOCK, _ => level) }

  lemma {:induction false} ConstantSquares(audio: Audio, level: real)
    requires forall i | 0 <= i < |audio| :: audio[i] == level
    ensures SumSquares(audio) == level * level * (|audio| as real)
  {
    if audio != [] { ConstantSquares(audio[..|audio| - 1], level); }
  }

  lemma HumLevel(level: real)
    requires level >= 0.0
    ensures IsLevel(Hum(level), level)
  {
    ConstantSquares(Hum(level), level);
  }

  // A block completes a window exactly if 512 samples have come together.
  lemma FeedBacklog(v: Vad, block: Audio)
    requires |v.pending| < VAD_WINDOW && |block| <= BLOCK
    ensures var n := |v.pending| + |block|;
            |Feed(v, block).pending| == if n < VAD_WINDOW then n else n - VAD_WINDOW
  {
    var all := v.pending + block;
    if |all| >= VAD_WINDOW {
      assert WindowsOf(all[VAD_WINDOW..], v.sample + VAD_WINDOW).1 == all[VAD_WINDOW..];
    }
  }

  // Well below the gate, however the room's floor has moved so far.
  function Murmur(c: Config): real { c.minSpeechSnr * 0.001 }

  lemma MurmurIsBelow(c: Config, floor: real)
    requires c.minSpeechSnr > 0.0 && floor >= 0.002
    ensures 0.0 < Murmur(c) < GateLevel(c, floor)
  {
    assert c.minSpeechSnr * floor - Murmur(c) == c.minSpeechSnr * (floor - 0.001);
  }

  // ---- Iterations of the audio loop ----------------------------------------

  // The facts about a state that the schedules below rest on: how many samples
  // wait for the VAD, bounds on preroll and utterance, and the room's floor.
  predicate At(s: State, backlog: nat, samples: nat, floor: real) {
    && |s.vad.pending| == backlog < VAD_WINDOW
    && |s.preroll| <= samples && |s.utterance| <= samples
    && s.noiseFloor >= floor
  }

  // One more block, with what the VAD makes of it.
  lemma ReadOne(c: Config, steps: seq<Step>, s: State, level: real, acts: seq<Activity>, backlog: nat, samples: nat, floor: real)
    returns (steps': seq<Step>, s': State)
    requires Reaches(c, steps, s) && s.audioAt.Top? && level >= 0.0 && floor >= 0.0
    requires At(s, backlog, samples, floor) && (acts != [] ==> backlog + BLOCK >= VAD_WINDOW)
    ensures Reaches(c, steps', s') && s' == ReadBlock(c, s, Hum(level), level, acts)
    ensures At(s', if backlog + BLOCK < VAD_WINDOW then backlog + BLOCK else backlog + BLOCK - VAD_WINDOW,
               samples + BLOCK, if s.speaking then floor else 0.9 * floor)
  {
    HumLevel(level);
    FeedBacklog(s.vad, Hum(level));
    steps', s' := Do(c, steps, s, Read(Hum(level), level, acts));
  }

  // The rest of an iteration in which nothing is decided.
  lemma GoOn(c: Config, steps: seq<Step>, s: State) returns (steps': seq<Step>, s': State)
    requires Reaches(c, steps, s) && s.audioAt == Activities([])
    ensures Reaches(c, steps', s') && s' == s.(audioAt := Top)
  {
    steps', s' := Do(c, steps, s, NextActivity);
    steps', s' := Do(c, steps', s', Decide(Continue));
  }

  lemma HoldExpires(c: Config, steps: seq<Step>, s: State) returns (steps': seq<Step>, s': State)
    requires Reaches(c, steps, s) && s.audioAt == Activities([]) && s.speaking && s.pendingEnd
    ensures Reaches(c, steps', s') && s' == s.(audioAt := Gate(false))
  {
    steps', s' := Do(c, steps, s, NextActivity);
    steps', s' := Do(c, steps', s', Decide(CommitNow));
  }

  // Two blocks make a window in which the VAD hears speech: a turn opens.
  lemma TurnOpens(c: Config, steps: seq<Step>, s: State, backlog: nat, samples: nat, floor: real)
    returns (steps': seq<Step>, s': State)
    requires Reaches(c, steps, s) && s.audioAt.Top? && !s.speaking && c.minSpeechSnr > 0.0
    requires At(s, backlog, samples, floor) && floor >= 0.0 && (backlog == 0 || backlog == 64)
    ensures Reaches(c, steps', s') && s'.audioAt.Top? && s'.speaking && !s'.pendingEnd
    ensures s'.utteranceId == s.utteranceId + 1 && s'.peak == 0.0 && !s'.candidateValid
    ensures s'.workerAt == s.workerAt && s'.workerBusy == s.workerBusy && s'.pending == s.pending
    ensures At(s', backlog + 128, samples + 640, 0.81 * floor)
  {
    var m := Murmur(c);
    steps', s' := ReadOne(c, steps, s, m, [], backlog, samples, floor);
    steps', s' := GoOn(c, steps', s');
    steps', s' := ReadOne(c, steps', s', m, [SpeechStart], backlog + 320, samples + 320, 0.9 * floor);
    steps', s' := Do(c, steps', s', NextActivity);
    steps', s' := Do(c, steps', s', EmitStarted);
    steps', s' := GoOn(c, steps', s');
  }

  // ---- The run -------------------------------------------------------------

  // Utterance 1 never rises above a murmur. Its candidate decode is running when
  // the hold begins.
  lemma FirstTurnHolds(c: Config) returns (steps: seq<Step>, s: State)
    requires c.minSpeechSnr > 0.0
    ensures Reaches(c, steps, s)
    ensures s.audioAt == Activities([]) && s.speaking && s.pendingEnd && s.utteranceId == 1 && s.peak == Murmur(c)
    ensures s.workerAt.Idle? && s.pending == Some(Job(1, false, true, s.utterance))
    ensures At(s, 256, 1280, 0.0032)
  {
    var m := Murmur(c);
    steps, s := TurnOpens(c, [], Initial(), 0, 0, QUIET_LEVEL);
    steps, s := ReadOne(c, steps, s, m, [], 128, 640, 0.0032);
    steps, s := GoOn(c, steps, s);
    steps, s := ReadOne(c, steps, s, m, [SpeechEnd], 448, 960, 0.0032);
    var speaking := s;
    steps, s := Do(c, steps, s, NextActivity);
    assert !Fresh(speaking);
    steps, s := Do(c, steps, s, QueueCandidate);
  }

  lemma FirstTurnIsDecoding(c: Config) returns (steps: seq<Step>, s: State)
    requires c.minSpeechSnr > 0.0
    ensures Reaches(c, steps, s)
    ensures s.audioAt == Gate(false) && s.speaking && s.utteranceId == 1 && BelowGate(c, s)
    ensures s.workerAt.Decoding? && s.workerAt.job.utterance == 1 && s.workerAt.job.candidate && !s.workerAt.job.final
    ensures s.pending.None? && At(s, 64, 1600, 0.0032)
  {
    steps, s := FirstTurnHolds(c);
    steps, s := DoWorker(c, steps, s, Take);
    steps, s := GoOn(c, steps, s);
    steps, s := ReadOne(c, steps, s, Murmur(c), [], 256, 1280, 0.0032);
    steps, s := HoldExpires(c, steps, s);
    MurmurIsBelow(c, s.noiseFloor);
  }

  // The gate drops utterance 1 while the worker still decodes it, and utterance 2
  // opens.
  lemma SecondTurnOpens(c: Config) returns (steps: seq<Step>, s: State)
    requires c.minSpeechSnr > 0.0
    ensures Reaches(c, steps, s)
    ensures s.audioAt.Top? && s.speaking && !s.pendingEnd && s.utteranceId == 2 && s.peak == 0.0
    ensures s.workerAt.Decoding? && s.workerAt.job.utterance == 1 && s.workerAt.job.candidate && !s.workerAt.job.final
    ensures s.pending.None? && At(s, 192, 2240, 0.002)
  {
    steps, s := FirstTurnIsDecoding(c);
    steps, s := Do(c, steps, s, FailGate);
    steps, s := Do(c, steps, s, DropUtterance);
    steps, s := TurnOpens(c, steps, s, 64, 1600, 0.0032);
  }

  // Only now does the worker store its candidate.
  lemma SecondTurnHoldsStaleCandidate(c: Config) returns (steps: seq<Step>, s: State)
    requires c.minSpeechSnr > 0.0
    ensures Reaches(c, steps, s)
    ensures s.audioAt.Top? && s.speaking && !s.pendingEnd && s.utteranceId == 2 && s.peak == 0.0
    ensures s.workerAt.Idle? && !s.workerBusy && s.pending.None?
    ensures s.candidateValid && s.candidate.job.utterance == 1 && At(s, 192, 2240, 0.002)
  {
    steps, s := SecondTurnOpens(c);
    steps, s := DoWorker(c, steps, s, Decode("hi"));
    steps, s := DoWorker(c, steps, s, StoreCandidate);
    steps, s := DoWorker(c, steps, s, StoreHypothesis);
    steps, s := DoWorker(c, steps, s, EndReport);
    steps, s := DoWorker(c, steps, s, GoIdle);
  }

  // Utterance 2 is loud enough, and ends.
  lemma SecondTurnPasses(c: Config) returns (steps: seq<Step>, s: State)
    requires c.minSpeechSnr > 0.0
    ensures Reaches(c, steps, s)
    ensures s.audioAt == AwaitIdle(false) && s.utteranceId == 2 && Quiesced(s)
    ensures s.candidateValid && s.candidate.job.utterance == 1 && |s.utterance| <= CANDIDATE_SLACK
  {
    steps, s := SecondTurnHoldsStaleCandidate(c);
    MurmurIsBelow(c, s.noiseFloor);
    var loud := GateLevel(c, s.noiseFloor);
    steps, s := ReadOne(c, steps, s, loud, [], 192, 2240, 0.002);
    steps, s := GoOn(c, steps, s);
    steps, s := ReadOne(c, steps, s, loud, [], 0, 2560, 0.002);
    steps, s := GoOn(c, steps, s);
    steps, s := ReadOne(c, steps, s, loud, [SpeechEnd], 320, 2880, 0.002);
    steps, s := Do(c, steps, s, NextActivity);
    steps, s := GoOn(c, steps, s);
    steps, s := ReadOne(c, steps, s, loud, [], 128, 3200, 0.002);
    steps, s := HoldExpires(c, steps, s);
    steps, s := Do(c, steps, s, PassGate);
  }

  // Utterance 2 is answered with what was said in utterance 1.
  lemma StaleFinal(c: Config) returns (steps: seq<Step>)
    requires c.minSpeechSnr > 0.0
    ensures Run(c, steps).Some?
    ensures var log := Run(c, steps).value.log;
            && log != [] && log[|log| - 1].Final?
            && log[|log| - 1].utterance == 2 && log[|log| - 1].result.job.utterance == 1
  {
    var s: State;
    steps, s := SecondTurnPasses(c);
    steps, s := Do(c, steps, s, SeeIdle);
    steps, s := Do(c, steps, s, TakeCandidate);
    steps, s := Do(c, steps, s, EmitCandidate);
  }

  // ---- When the promise holds ----------------------------------------------

  lemma {:induction false} AcceptedFinalsOwn(log: seq<Event>)
    requires Accepted(log)
    ensures FinalsOwn(log)
  {
    forall i | 0 <= i < |log| && log[i].Final?
      ensures log[i].result.job.utterance == log[i].utterance
    {
      FinalDecodesItsUtterance(log, i);
    }
  }

  // A run whose discards all find the worker at rest answers every utterance with
  // its own words, gate or no gate.
  lemma RestedFinalsOwn(c: Config, steps: seq<Step>)
    requires Run(c, steps).Some? && RestedDiscards(c, steps)
    ensures FinalsOwn(Run(c, steps).value.log)
  {
    RunSafe(c, steps);
    AcceptedFinalsOwn(Run(c, steps).value.log);
  }

  // Over all schedules every utterance is answered with its own words exactly when
  // min_speech_snr <= 0.
  lemma FinalsOwnIffNoGate(c: Config)
    ensures AlwaysFinalsOwn(c) <==> c.minSpeechSnr <= 0.0
  {
    if c.minSpeechSnr > 0.0 {
      var steps := StaleFinal(c);
      var log := Run(c, steps).value.log;
      assert !FinalsOwn(log) by { assert log[|log| - 1].Final?; }
    } else {
      forall steps | Run(c, steps).Some? ensures FinalsOwn(Run(c, steps).value.log) {
        NoGateNoDiscard(c, steps);
        RestedFinalsOwn(c, steps);
      }
    }
  }

  // And exactly then are all events always in order.
  lemma InOrderIffNoGate(c: Config)
    ensures AlwaysInOrder(c) <==> c.minSpeechSnr <= 0.0
  {
    FinalsOwnIffNoGate(c);
    if AlwaysInOrder(c) {
      forall steps | Run(c, steps).Some? ensures FinalsOwn(Run(c, steps).value.log) {
        AcceptedFinalsOwn(Run(c, steps).value.log);
      }
    } else {
      var steps :| Run(c, steps).Some? && !Accepted(Run(c, steps).value.log);
      if c.minSpeechSnr <= 0.0 {
        NoGateNoDiscard(c, steps);
        RunSafe(c, steps);
        assert false;
      }
    }
  }
}
