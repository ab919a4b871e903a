/** What the VAD's verdicts make of the audio, in every run: when a turn is open and
    when it is held, the audio it opens with and the audio it ends with. All of it is
    read off the schedule and the log; the protocol's own fields are only compared. */
module VoiceVerdicts {
  import opened Wrappers
  import opened VadWindows
  import opened VoiceProtocol
  import opened VoiceWellFormed
  import opened VoiceTheorems

  // -------------------------------------------------------------------------
  // The preroll
  // -------------------------------------------------------------------------

  // The newest utterance opened has been neither ended nor discarded.
  predicate TurnOpen(log: seq<Event>) {
    if log == [] then false
    else
      var e := log[|log| - 1];
      e.Opened? || (!e.Ended? && !e.Discarded? && TurnOpen(log[..|log| - 1]))
  }

  // All audio heard while no turn was open.
  function IdleAudio(log: seq<Event>): Audio {
    if log == [] then []
    else
      var init, e := log[..|log| - 1], log[|log| - 1];
      IdleAudio(init) + if e.Heard? && !TurnOpen(init) then e.block else []
  }

  // `part` is the end of `whole`, n samples of it or all there are.
  predicate IsEndOf(part: Audio, whole: Audio, n: nat) {
    && |part| == (if |whole| < n then |whole| else n)
    && part == whole[|whole| - |part|..]
  }

  predicate PrerollsRight(c: Config, log: seq<Event>) {
    forall i | 0 <= i < |log| && log[i].Opened? :: IsEndOf(log[i].preroll, IdleAudio(log[..i]), c.prerollSamples)
  }

  predicate PrerollRight(c: Config, s: State) {
    && (s.speaking <==> TurnOpen(s.log))
    && IsEndOf(s.preroll, IdleAudio(s.log), c.prerollSamples)
    && PrerollsRight(c, s.log)
  }

  lemma IdleAppend(c: Config, log: seq<Event>, e: Event)
    ensures TurnOpen(log + [e]) <==> e.Opened? || (!e.Ended? && !e.Discarded? && TurnOpen(log))
    ensures IdleAudio(log + [e]) == IdleAudio(log) + if e.Heard? && !TurnOpen(log) then e.block else []
    ensures PrerollsRight(c, log) && (e.Opened? ==> IsEndOf(e.preroll, IdleAudio(log), c.prerollSamples)) ==>
              PrerollsRight(c, log + [e])
  {
    var more := log + [e];
    assert more[..|log|] == log;
    forall i | 0 <= i < |log| ensures more[..i] == log[..i] && more[i] == log[i] {
    }
  }

  lemma KeepsTheEnd(part: Audio, whole: Audio, block: Audio, n: nat)
    requires IsEndOf(part, whole, n)
    ensures IsEndOf(KeepLast(part + block, n), whole + block, n)
  {
    var kept, all := KeepLast(part + block, n), whole + block;
    assert part + block == all[|whole| - |part|..];
  }

  // An event that is no audio, logged.
  lemma LoggedPreroll(c: Config, s: State, t: State, e: Event)
    requires PrerollRight(c, s) && !e.Heard? && t.log == s.log + [e] && t.preroll == s.preroll
    requires e.Opened? ==> e.preroll == s.preroll
    requires t.speaking == (e.Opened? || (!e.Ended? && !e.Discarded? && s.speaking))
    ensures PrerollRight(c, t)
  {
    IdleAppend(c, s.log, e);
    assert IdleAudio(s.log) + [] == IdleAudio(s.log);
  }

  lemma ReadKeepsPreroll(c: Config, s: State, block: Audio, level: real, acts: seq<Activity>)
    requires PrerollRight(c, s)
    ensures PrerollRight(c, ReadBlock(c, s, block, level, acts))
  {
    IdleAppend(c, s.log, Heard(block, level));
    if s.speaking {
      assert IdleAudio(s.log) + [] == IdleAudio(s.log);
    } else {
      KeepsTheEnd(s.preroll, IdleAudio(s.log), block, c.prerollSamples);
    }
  }

  // The log as it was, or with one event more.
  predicate Grows(before: seq<Event>, after: seq<Event>) {
    after == before || (|after| == |before| + 1 && after[..|before|] == before)
  }

  // What the worker logs opens and closes no turn, and it does nothing else to the
  // audio loop.
  lemma WorkerReports(s: State, step: Step)
    requires WorkerEnabled(s, step)
    ensures var t := ApplyWorker(s, step);
            && t.preroll == s.preroll && t.speaking == s.speaking && t.noiseFloor == s.noiseFloor
            && Grows(s.log, t.log)
            && (t.log != s.log ==> var e := t.log[|s.log|]; !e.Heard? && !e.Opened? && !e.Ended? && !e.Discarded?)
  {
    if step.StoreCandidate? {
      var t := ApplyWorker(s, step);
      assert t.log == s.log && t.preroll == s.preroll && t.speaking == s.speaking && t.noiseFloor == s.noiseFloor;
    }
  }

  lemma WorkerKeepsPreroll(c: Config, s: State, step: Step)
    requires PrerollRight(c, s) && WorkerEnabled(s, step)
    ensures PrerollRight(c, ApplyWorker(s, step))
  {
    var t := ApplyWorker(s, step);
    WorkerReports(s, step);
    if t.log != s.log {
      assert t.log == s.log + [t.log[|s.log|]];
      LoggedPreroll(c, s, t, t.log[|s.log|]);
    }
  }

  lemma CommitKeepsPreroll(c: Config, s: State, step: Step)
    requires PrerollRight(c, s) && WellFormed(s) && CommitEnabled(c, s, step)
    ensures PrerollRight(c, ApplyCommit(c, s, step))
  {
    var t := ApplyCommit(c, s, step);
    match step
    case PassGate => LoggedPreroll(c, s, t, Ended(s.utteranceId, s.utterance));
    case FailGate => LoggedPreroll(c, s, t, Discarded(s.utteranceId));
    case EmitCandidate => LoggedPreroll(c, s, t, Final(s.utteranceId, s.audioAt.result, s.audioAt.samples));
    case _ =>
  }

  lemma TurnKeepsPreroll(c: Config, s: State, step: Step)
    requires PrerollRight(c, s) && WellFormed(s) && TurnEnabled(c, s, step)
    ensures PrerollRight(c, ApplyTurn(c, s, step))
  {
    var t := ApplyTurn(c, s, step);
    match step
    case Read(block, level, acts) => ReadKeepsPreroll(c, s, block, level, acts);
    case NextActivity =>
      if s.audioAt.rest != [] && s.audioAt.rest[0].SpeechStart? && !s.speaking {
        LoggedPreroll(c, s, t, Opened(s.utteranceId + 1, s.preroll));
      }
    case EmitStarted => LoggedPreroll(c, s, t, Started(s.utteranceId));
    case _ =>
  }

  lemma {:induction false} RunPreroll(c: Config, steps: seq<Step>)
    requires Run(c, steps).Some?
    ensures PrerollRight(c, Run(c, steps).value)
  {
    if steps != [] {
      var init := steps[..|steps| - 1];
      RunPreroll(c, init);
      RunWellFormed(c, init);
      var s, step := Run(c, init).value, steps[|steps| - 1];
      if IsWorkerStep(step) {
        WorkerKeepsPreroll(c, s, step);
      } else if IsCommitStep(step) {
        CommitKeepsPreroll(c, s, step);
      } else {
        TurnKeepsPreroll(c, s, step);
      }
    }
  }

  // In every run, each utterance opens with the end of all audio heard until then
  // while no turn was open: speech_pad_ms of it, or all there is.
  lemma OpensWithTheLatestAudio(c: Config, steps: seq<Step>, i: nat)
    requires Run(c, steps).Some? && i < |Run(c, steps).value.log| && Run(c, steps).value.log[i].Opened?
    ensures var log := Run(c, steps).value.log;
            var idle, preroll := IdleAudio(log[..i]), log[i].preroll;
            && |preroll| == (if |idle| < c.prerollSamples then |idle| else c.prerollSamples)
            && preroll == idle[|idle| - |preroll|..]
  {
    RunPreroll(c, steps);
  }

  // -------------------------------------------------------------------------
  // When a turn is open and when it is held
  // -------------------------------------------------------------------------

  // The verdicts of the newest block that have not been handled yet.
  function Left(steps: seq<Step>): seq<Activity> {
    if steps == [] then []
    else
      var left := Left(steps[..|steps| - 1]);
      match steps[|steps| - 1]
      case Read(_, _, activity) => activity
      case NextActivity => if left == [] then [] else left[1..]
      case _ => left
  }

  // The verdict handled last.
  function Told(steps: seq<Step>): Option<Activity> {
    if steps == [] then None
    else
      var init := steps[..|steps| - 1];
      if steps[|steps| - 1].NextActivity? && Left(init) != [] then Some(Left(init)[0]) else Told(init)
  }

  // The VAD has reported speech since the last commit.
  predicate SpeechSeen(steps: seq<Step>) {
    if steps == [] then false
    else
      var init, step := steps[..|steps| - 1], steps[|steps| - 1];
      if step.PassGate? || step.FailGate? then false
      else SpeechSeen(init) || (step.NextActivity? && Left(init) != [] && Left(init)[0].SpeechStart?)
  }

  // The audio read since the VAD last turned from speech to silence.
  function SilentAudio(steps: seq<Step>): Audio {
    if steps == [] then []
    else
      var init := steps[..|steps| - 1];
      match steps[|steps| - 1]
      case Read(block, _, _) => if Told(init) == Some(SpeechEnd) then SilentAudio(init) + block else []
      case NextActivity => if Left(init) != [] && Left(init)[0].SpeechStart? then [] else SilentAudio(init)
      case _ => SilentAudio(init)
  }

  function RestOf(at: AudioAt): seq<Activity> {
    match at
    case Activities(rest) => rest
    case Announce(rest) => rest
    case AskCandidate(rest) => rest
    case _ => []
  }

  predicate Follows(s: State, steps: seq<Step>) {
    && RestOf(s.audioAt) == Left(steps)
    && (s.speaking <==> SpeechSeen(steps))
    && (s.speaking ==> (s.pendingEnd <==> Told(steps) == Some(SpeechEnd)))
    && (s.speaking && !s.pendingEnd ==> Told(steps) == Some(SpeechStart))
    && (s.speaking && s.pendingEnd ==> s.gapBuffer == SilentAudio(steps))
    && (Told(steps) == Some(SpeechStart) ==> SilentAudio(steps) == [])
  }

  lemma {:induction false} RunFollows(c: Config, steps: seq<Step>)
    requires Run(c, steps).Some?
    ensures Follows(Run(c, steps).value, steps)
  {
    if steps != [] {
      var init := steps[..|steps| - 1];
      RunFollows(c, init);
      RunWellFormed(c, init);
      FollowsStep(c, Run(c, init).value, init, steps[|steps| - 1]);
      assert init + [steps[|steps| - 1]] == steps;
    }
  }

  // The schedule's own functions, one step on.
  lemma SchedulesAppend(steps: seq<Step>, step: Step)
    ensures var all, left := steps + [step], Left(steps);
            var starts := step.NextActivity? && left != [] && left[0].SpeechStart?;
            && Left(all) == (if step.Read? then step.activity
                             else if step.NextActivity? && left != [] then left[1..] else left)
            && Told(all) == (if step.NextActivity? && left != [] then Some(left[0]) else Told(steps))
            && (SpeechSeen(all) <==> !step.PassGate? && !step.FailGate? && (SpeechSeen(steps) || starts))
            && SilentAudio(all) == (if step.Read? then
                                      if Told(steps) == Some(SpeechEnd) then SilentAudio(steps) + step.block else []
                                    else if starts then [] else SilentAudio(steps))
  {
    assert (steps + [step])[..|steps|] == steps;
  }

  lemma FollowsWorkerStep(s: State, steps: seq<Step>, step: Step)
    requires Follows(s, steps) && WorkerEnabled(s, step)
    ensures Follows(ApplyWorker(s, step), steps + [step])
  {
    SchedulesAppend(steps, step);
    var t := ApplyWorker(s, step);
    assert t.audioAt == s.audioAt && t.speaking == s.speaking && t.pendingEnd == s.pendingEnd && t.gapBuffer == s.gapBuffer;
  }

  lemma FollowsCommitStep(c: Config, s: State, steps: seq<Step>, step: Step)
    requires Follows(s, steps) && WellFormed(s) && CommitEnabled(c, s, step)
    ensures Follows(ApplyCommit(c, s, step), steps + [step])
  {
    SchedulesAppend(steps, step);
  }

  lemma FollowsStep(c: Config, s: State, steps: seq<Step>, step: Step)
    requires Follows(s, steps) && WellFormed(s) && Enabled(c, s, step)
    ensures Follows(Apply(c, s, step), steps + [step])
  {
    if IsWorkerStep(step) {
      FollowsWorkerStep(s, steps, step);
    } else if IsCommitStep(step) {
      FollowsCommitStep(c, s, steps, step);
    } else {
      FollowsTurnStep(c, s, steps, step);
    }
  }

  lemma FollowsTurnStep(c: Config, s: State, steps: seq<Step>, step: Step)
    requires Follows(s, steps) && WellFormed(s) && TurnEnabled(c, s, step)
    ensures Follows(ApplyTurn(c, s, step), steps + [step])
  {
    SchedulesAppend(steps, step);
  }

  // In every run a turn is open exactly if the VAD has reported speech since the last
  // commit, held exactly if its last verdict was silence, and its audio is everything
  // heard since it opened, preroll first, short of what was read in the hold.
  lemma TurnsFollowTheVad(c: Config, steps: seq<Step>)
    requires Run(c, steps).Some?
    ensures var s := Run(c, steps).value;
            && (s.speaking <==> SpeechSeen(steps))
            && (s.speaking ==>
                  && (s.pendingEnd <==> Told(steps) == Some(SpeechEnd))
                  && s.utterance + (if s.pendingEnd then SilentAudio(steps) else []) == HeardSince(s.log))
  {
    RunFollows(c, steps);
    RunWellFormed(c, steps);
    RunLosesNothing(c, steps);
  }

  // So an utterance ends with everything heard since it opened but the hold.
  lemma EndsWithoutTheHold(c: Config, steps: seq<Step>)
    requires Run(c, steps + [PassGate]).Some?
    ensures Run(c, steps).Some?
    ensures var before, log := Run(c, steps).value.log, Run(c, steps + [PassGate]).value.log;
            exists u: nat, a: Audio ::
              && log == before + [Ended(u, a)]
              && a + (if Told(steps) == Some(SpeechEnd) then SilentAudio(steps) else []) == HeardSince(before)
  {
    assert (steps + [PassGate])[..|steps|] == steps;
    var s := Run(c, steps).value;
    TurnsFollowTheVad(c, steps);
    RunWellFormed(c, steps);
    assert Run(c, steps + [PassGate]).value.log == s.log + [Ended(s.utteranceId, s.utterance)];
  }

  // Speech during the hold takes the turn up again, the hold's audio with it, and what
  // was decoded for its end is dropped.
  lemma SpeechResumesTheTurn(c: Config, steps: seq<Step>)
    requires Run(c, steps + [NextActivity]).Some?
    requires SpeechSeen(steps) && Told(steps) == Some(SpeechEnd) && Left(steps) != [] && Left(steps)[0].SpeechStart?
    ensures var s := Run(c, steps + [NextActivity]).value;
            s.speaking && !s.pendingEnd && s.utterance == HeardSince(s.log) && !s.candidateValid
  {
    var all := steps + [NextActivity];
    assert all[..|steps|] == steps;
    SchedulesAppend(steps, NextActivity);
    RunFollows(c, steps);
    TurnsFollowTheVad(c, all);
    assert Run(c, all).value.utterance + [] == Run(c, all).value.utterance;
  }
}
