/** What a client of the live-voice runner may observe: two automata over event
    logs, and what it means for them to accept a log. Neither knows of threads. */
module VoiceTrace {
  import opened Wrappers
  import opened VadWindows
  import opened VoiceProtocol

  // -------------------------------------------------------------------------
  // Turns: speech_started, then speech_discarded or speech_ended and an answer
  // -------------------------------------------------------------------------

  // The one event that answers utterance u: its transcript, or the error of its
  // final decode.
  predicate Answers(e: Event, u: nat) {
    (e.Final? && e.utterance == u) || (e.Failed? && e.job.final && e.job.utterance == u)
  }

  datatype Turn =
    | Between(utterance: nat)
    | Announcing(utterance: nat)
    | Speaking(utterance: nat)
    | Finishing(utterance: nat)
    | Broken

  function NextTurn(q: Turn, e: Event): Turn {
    match e
    case Opened(u, _) => if q.Between? && u == q.utterance + 1 then Announcing(u) else Broken
    case Started(u) => if q == Announcing(u) then Speaking(u) else Broken
    case Discarded(u) => if q == Speaking(u) then Between(u) else Broken
    case Ended(u, _) => if q == Speaking(u) then Finishing(u) else Broken
    case Final(u, _, _) => if q == Finishing(u) then Between(u) else Broken
    case Failed(job) =>
      if !job.final then q else if q == Finishing(job.utterance) then Between(job.utterance) else Broken
    case _ => q
  }

  function TurnOf(log: seq<Event>): Turn {
    if log == [] then Between(0) else NextTurn(TurnOf(log[..|log| - 1]), log[|log| - 1])
  }

  lemma {:induction false} TurnAppend(log: seq<Event>, e: Event)
    ensures TurnOf(log + [e]) == NextTurn(TurnOf(log), e)
  {
    assert (log + [e])[..|log|] == log;
  }

  predicate IsMilestone(e: Event, u: nat) {
    e == Started(u) || e == Discarded(u) || (e.Ended? && e.utterance == u) || Answers(e, u)
  }

  function Milestones(log: seq<Event>, u: nat): seq<Event> {
    if log == [] then []
    else
      var before := Milestones(log[..|log| - 1], u);
      var e := log[|log| - 1];
      if IsMilestone(e, u) then before + [e] else before
  }

  predicate Resolved(m: seq<Event>, u: nat) {
    || m == [Started(u), Discarded(u)]
    || (|m| == 3 && m[0] == Started(u) && m[1].Ended? && Answers(m[2], u))
  }

  // Which milestones of u a log has passed.
  predicate MilestonesAt(m: seq<Event>, u: nat, q: Turn) {
    if q.Broken? then true
    else if 1 <= u < q.utterance || (q.Between? && 1 <= u == q.utterance) then Resolved(m, u)
    else if q == Speaking(u) then m == [Started(u)]
    else if q == Finishing(u) then |m| == 2 && m[0] == Started(u) && m[1].Ended?
    else m == []
  }

  lemma {:induction false} MilestonesFollowTurn(log: seq<Event>, u: nat)
    ensures MilestonesAt(Milestones(log, u), u, TurnOf(log))
    ensures TurnOf(log).Broken? || TurnOf(log).Between? || TurnOf(log).utterance > 0
  {
    if log != [] {
      MilestonesFollowTurn(log[..|log| - 1], u);
    }
  }

  // Every utterance of a log that ends between turns has exactly one
  // speech_started, and after it either one speech_discarded or one speech_ended
  // and one answer.
  lemma EachUtteranceResolvedOnce(log: seq<Event>, u: nat)
    requires TurnOf(log).Between? && 1 <= u <= TurnOf(log).utterance
    ensures Resolved(Milestones(log, u), u)
  {
    MilestonesFollowTurn(log, u);
  }

  // -------------------------------------------------------------------------
  // Phases: whose events may come when, and whose audio a transcript covers
  // -------------------------------------------------------------------------

  // How far the log has got: which utterance, whether it is open, and the audio
  // heard since it was opened (its preroll first).
  datatype Phase =
    | Closed(utterance: nat)
    | Opening(utterance: nat, audio: Audio)
    | Open(utterance: nat, audio: Audio)
    | Ending(utterance: nat, audio: Audio)
    | Rejected

  // A final transcript of audio `a` must decode a prefix of `a` that misses at
  // most the last 7680 samples.
  predicate Covers(job: Job, utterance: nat, a: Audio) {
    && job.utterance == utterance
    && job.audio <= a
    && |job.audio| + CANDIDATE_SLACK >= |a|
  }

  function Next(q: Phase, e: Event): Phase {
    match e
    case Heard(block, _) =>
      if q.Closed? then q
      else if q.Open? then Open(q.utterance, q.audio + block)
      else Rejected
    case Opened(u, preroll) =>
      if q.Closed? && u == q.utterance + 1 then Opening(u, preroll) else Rejected
    case Started(u) =>
      if q.Opening? && u == q.utterance then Open(u, q.audio) else Rejected
    case Update(u, _) =>
      if (q.Open? || q.Ending?) && u == q.utterance then q else Rejected
    case Failed(job) =>
      if job.final then if q.Ending? && Covers(job, q.utterance, q.audio) then Closed(q.utterance) else Rejected
      else if (q.Open? || q.Ending?) && job.utterance == q.utterance then q else Rejected
    case Discarded(u) =>
      if q.Open? && u == q.utterance then Closed(u) else Rejected
    case Ended(u, audio) =>
      if q.Open? && u == q.utterance && audio <= q.audio then Ending(u, audio) else Rejected
    case Final(u, result, samples) =>
      if q.Ending? && u == q.utterance && Covers(result.job, u, q.audio) && samples == |q.audio| then Closed(u)
      else Rejected
  }

  function PhaseOf(log: seq<Event>): Phase {
    if log == [] then Closed(0) else Next(PhaseOf(log[..|log| - 1]), log[|log| - 1])
  }

  predicate Accepted(log: seq<Event>) { !PhaseOf(log).Rejected? }

  lemma {:induction false} PhaseAppend(log: seq<Event>, e: Event)
    ensures PhaseOf(log + [e]) == Next(PhaseOf(log), e)
  {
    assert (log + [e])[..|log|] == log;
  }

  lemma {:induction false} PrefixAccepted(log: seq<Event>, n: nat)
    requires Accepted(log) && n <= |log|
    ensures Accepted(log[..n])
  {
    if n < |log| {
      var init := log[..|log| - 1];
      PrefixAccepted(init, n);
      assert init[..n] == log[..n];
    } else {
      assert log[..n] == log;
    }
  }

  // ---- What acceptance means, without the automaton --------------------------

  function UtteranceOf(e: Event): Option<nat> {
    match e
    case Heard(_, _) => None
    case Opened(u, _) => Some(u)
    case Started(u) => Some(u)
    case Update(u, _) => Some(u)
    case Failed(job) => Some(job.utterance)
    case Discarded(u) => Some(u)
    case Ended(u, _) => Some(u)
    case Final(u, _, _) => Some(u)
  }

  // The event that closes utterance u.
  predicate Closes(e: Event, u: nat) { Answers(e, u) || e == Discarded(u) }

  lemma {:induction false} UtterancesBelowPhase(log: seq<Event>, i: nat)
    requires Accepted(log) && i < |log| && UtteranceOf(log[i]).Some?
    ensures UtteranceOf(log[i]).value <= PhaseOf(log).utterance
    ensures Closes(log[i], PhaseOf(log).utterance) ==> PhaseOf(log).Closed?
  {
    PrefixAccepted(log, |log| - 1);
    if i < |log| - 1 {
      UtterancesBelowPhase(log[..|log| - 1], i);
    }
  }

  // Utterance ids never decrease along an accepted log.
  lemma {:induction false} UtterancesNeverDecrease(log: seq<Event>, i: nat, j: nat)
    requires Accepted(log) && i < j < |log|
    requires UtteranceOf(log[i]).Some? && UtteranceOf(log[j]).Some?
    ensures UtteranceOf(log[i]).value <= UtteranceOf(log[j]).value
  {
    PrefixAccepted(log, j + 1);
    var upto := log[..j + 1];
    assert upto[..j] == log[..j];
    PrefixAccepted(log, j);
    UtterancesBelowPhase(log[..j], i);
  }

  // After the answer to u, or its discarding, no event of u follows.
  lemma {:induction false} NothingAfterClosing(log: seq<Event>, i: nat, j: nat, u: nat)
    requires Accepted(log) && i < j < |log|
    requires Closes(log[i], u) && UtteranceOf(log[j]).Some?
    ensures UtteranceOf(log[j]).value > u
  {
    PrefixAccepted(log, j + 1);
    var upto := log[..j + 1];
    assert upto[..j] == log[..j];
    PrefixAccepted(log, j);
    UtterancesBelowPhase(log[..j], i);
  }

  // The transcript that closes u decodes a prefix of the audio u ended with,
  // and that audio is a prefix of what was heard since u was opened.
  lemma {:induction false} FinalDecodesItsUtterance(log: seq<Event>, i: nat)
    requires Accepted(log) && i < |log| && log[i].Final?
    ensures var q := PhaseOf(log[..i]);
            && q.Ending?
            && Covers(log[i].result.job, log[i].utterance, q.audio)
            && log[i].samples == |q.audio|
            && Ended(log[i].utterance, q.audio) in log[..i]
  {
    PrefixAccepted(log, i + 1);
    var upto := log[..i + 1];
    assert upto[..i] == log[..i];
    EndingWasEnded(log[..i]);
  }

  lemma {:induction false} EndingWasEnded(log: seq<Event>)
    requires PhaseOf(log).Ending?
    ensures Ended(PhaseOf(log).utterance, PhaseOf(log).audio) in log
  {
    var init := log[..|log| - 1];
    assert log == init + [log[|log| - 1]];
    if PhaseOf(init).Ending? {
      EndingWasEnded(init);
    }
  }
}
