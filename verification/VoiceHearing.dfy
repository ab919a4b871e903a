/** What the audio loop makes of the audio it reads, in every run: the VAD hears all
    of it in whole windows, and the noise gate judges an utterance by its loudest
    block. */
module VoiceHearing {
  import opened Wrappers
  import opened VadWindows
  import opened VoiceProtocol
  import opened VoiceWellFormed

  // All audio read, in order.
  function AllHeard(log: seq<Event>): Audio {
    if log == [] then []
    else
      var e := log[|log| - 1];
      AllHeard(log[..|log| - 1]) + if e.Heard? then e.block else []
  }

  // The level of the loudest block read since the newest utterance opened.
  function LoudestSince(log: seq<Event>): real {
    if log == [] then 0.0
    else
      var e := log[|log| - 1];
      if e.Opened? then 0.0
      else if e.Heard? then Louder(LoudestSince(log[..|log| - 1]), e.level)
      else LoudestSince(log[..|log| - 1])
  }

  // Every block read since the newest utterance opened is quieter than the gate.
  predicate AllBelow(log: seq<Event>, gate: real) {
    if log == [] then true
    else
      var e := log[|log| - 1];
      e.Opened? || (AllBelow(log[..|log| - 1], gate) && (e.Heard? ==> e.level < gate))
  }

  predicate LevelsOf(log: seq<Event>) {
    forall i | 0 <= i < |log| && log[i].Heard? :: IsLevel(log[i].block, log[i].level)
  }

  predicate HeardRight(s: State) {
    && Tiles(s.vad, AllHeard(s.log))
    && LevelsOf(s.log)
    && (s.speaking ==> s.peak == LoudestSince(s.log))
  }

  lemma HearAppend(log: seq<Event>, e: Event)
    ensures AllHeard(log + [e]) == AllHeard(log) + if e.Heard? then e.block else []
    ensures LoudestSince(log + [e])
         == if e.Opened? then 0.0 else if e.Heard? then Louder(LoudestSince(log), e.level) else LoudestSince(log)
    ensures LevelsOf(log) && (e.Heard? ==> IsLevel(e.block, e.level)) ==> LevelsOf(log + [e])
  {
    assert (log + [e])[..|log|] == log;
  }

  // An event other than a block read, logged with nothing else changed.
  lemma Logged(s: State, t: State, e: Event)
    requires HeardRight(s) && !e.Heard?
    requires t.vad == s.vad && t.log == s.log + [e]
    requires t.speaking ==> if e.Opened? then t.peak == 0.0 else s.speaking && t.peak == s.peak
    ensures HeardRight(t)
  {
    HearAppend(s.log, e);
    assert AllHeard(s.log) + [] == AllHeard(s.log);
  }

  lemma ReadHears(c: Config, s: State, block: Audio, level: real, acts: seq<Activity>)
    requires HeardRight(s) && IsLevel(block, level)
    ensures HeardRight(ReadBlock(c, s, block, level, acts))
  {
    HearAppend(s.log, Heard(block, level));
    FeedTiles(s.vad, AllHeard(s.log), block);
  }

  lemma ActivityHears(s: State)
    requires HeardRight(s) && s.audioAt.Activities?
    ensures HeardRight(HandleActivity(s))
  {
    if s.audioAt.rest != [] && s.audioAt.rest[0].SpeechStart? && !s.speaking {
      Logged(s, HandleActivity(s), Opened(s.utteranceId + 1, s.preroll));
    }
  }

  lemma WorkerHears(s: State, step: Step)
    requires HeardRight(s) && WorkerEnabled(s, step)
    ensures HeardRight(ApplyWorker(s, step))
  {
    var t := ApplyWorker(s, step);
    match step
    case DecodeFails => Logged(s, t, Failed(s.workerAt.job));
    case EmitUpdate(kind) => Logged(s, t, Update(s.workerAt.result.job.utterance, kind));
    case EmitFinal =>
      var r := s.workerAt.result;
      Logged(s, t, Final(r.job.utterance, r, |r.job.audio|));
    case _ =>
  }

  lemma CommitHears(c: Config, s: State, step: Step)
    requires HeardRight(s) && WellFormed(s) && CommitEnabled(c, s, step)
    ensures HeardRight(ApplyCommit(c, s, step))
  {
    var t := ApplyCommit(c, s, step);
    match step
    case PassGate => Logged(s, t, Ended(s.utteranceId, s.utterance));
    case FailGate => Logged(s, t, Discarded(s.utteranceId));
    case EmitCandidate => Logged(s, t, Final(s.utteranceId, s.audioAt.result, s.audioAt.samples));
    case _ =>
  }

  lemma TurnHears(c: Config, s: State, step: Step)
    requires HeardRight(s) && TurnEnabled(c, s, step)
    ensures HeardRight(ApplyTurn(c, s, step))
  {
    match step
    case Read(block, level, acts) => ReadHears(c, s, block, level, acts);
    case NextActivity => ActivityHears(s);
    case EmitStarted => Logged(s, ApplyTurn(c, s, step), Started(s.utteranceId));
    case _ =>
  }

  // In every run the windows given to the VAD and its backlog are all audio read,
  // each window at its exact position, the recorded levels are the blocks' root
  // mean squares, and an open turn's peak is the loudest block since it opened.
  lemma {:induction false} RunHears(c: Config, steps: seq<Step>)
    requires Run(c, steps).Some?
    ensures HeardRight(Run(c, steps).value)
  {
    if steps != [] {
      var init := steps[..|steps| - 1];
      RunHears(c, init);
      RunWellFormed(c, init);
      var s, step := Run(c, init).value, steps[|steps| - 1];
      if IsWorkerStep(step) {
        WorkerHears(s, step);
      } else if IsCommitStep(step) {
        CommitHears(c, s, step);
      } else {
        TurnHears(c, s, step);
      }
    }
  }

  lemma {:induction false} LoudestBelow(log: seq<Event>, gate: real)
    requires gate > 0.0
    ensures LoudestSince(log) < gate <==> AllBelow(log, gate)
  {
    if log != [] { LoudestBelow(log[..|log| - 1], gate); }
  }

  // In every run that has reached the gate, the turn is discarded exactly if the
  // gate is on and positive and every block read since the turn opened is below it.
  lemma DiscardedIffAllBelow(c: Config, steps: seq<Step>)
    requires Run(c, steps).Some? && Run(c, steps).value.audioAt.Gate?
    ensures var s := Run(c, steps).value;
            var gate := GateLevel(c, s.noiseFloor);
            Enabled(c, s, FailGate) <==> c.minSpeechSnr > 0.0 && gate > 0.0 && AllBelow(s.log, gate)
  {
    var s := Run(c, steps).value;
    var gate := GateLevel(c, s.noiseFloor);
    RunHears(c, steps);
    RunWellFormed(c, steps);
    LoudestNotNegative(s.log);
    if gate > 0.0 { LoudestBelow(s.log, gate); }
  }

  lemma LargerIsAbove(log: seq<Event>, a: real, b: real)
    ensures var gate := Louder(a, b);
            gate > 0.0 && AllBelow(log, gate) <==> (a > 0.0 && AllBelow(log, a)) || (b > 0.0 && AllBelow(log, b))
  {
    LoudestNotNegative(log);
    if a > 0.0 { LoudestBelow(log, a); }
    if b > 0.0 { LoudestBelow(log, b); }
  }

  // Every block is below the absolute level, or every block below the one relative to
  // the noise floor.
  predicate BelowEither(c: Config, floor: real, log: seq<Event>) {
    var absolute, relative := c.minSpeechRms, c.minSpeechSnr * floor;
    (absolute > 0.0 && AllBelow(log, absolute)) || (relative > 0.0 && AllBelow(log, relative))
  }

  lemma GateIsTheLarger(c: Config, floor: real, log: seq<Event>)
    ensures GateLevel(c, floor) > 0.0 && AllBelow(log, GateLevel(c, floor)) <==> BelowEither(c, floor, log)
  {
    LargerIsAbove(log, c.minSpeechRms, c.minSpeechSnr * floor);
  }

  // So a turn is discarded exactly if the gate is on and one of its two levels is above
  // every block of the turn.
  lemma DiscardedIffBelowEither(c: Config, steps: seq<Step>)
    requires Run(c, steps).Some? && Run(c, steps).value.audioAt.Gate?
    ensures var s := Run(c, steps).value;
            Enabled(c, s, FailGate) <==> c.minSpeechSnr > 0.0 && BelowEither(c, s.noiseFloor, s.log)
  {
    DiscardedIffAllBelow(c, steps);
    GateIsTheLarger(c, Run(c, steps).value.noiseFloor, Run(c, steps).value.log);
  }

  lemma {:induction false} LoudestNotNegative(log: seq<Event>)
    ensures LoudestSince(log) >= 0.0
  {
    if log != [] { LoudestNotNegative(log[..|log| - 1]); }
  }
}
