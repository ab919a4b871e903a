/** The live-voice runner (app/server/voice.cpp) as a state machine.

    Two threads share one mutex: the audio loop (`run`) and the decode worker
    (`worker_loop`). A `Step` is one region that the other thread cannot see
    inside: a lock region, a wait that returns, or a stretch of code touching only
    the thread's own fields. Whatever the program does not decide itself is an
    argument of the step: the audio that arrives, the VAD's verdicts, the text a
    decode returns or its failure, and every test of the clock. Levels are exact
    reals. */
module VoiceProtocol {
  import opened Wrappers
  import opened VadWindows

  const BLOCK: nat := 320
  const CANDIDATE_SLACK: nat := 16 * 480
  const QUIET_TAIL: nat := 1600

  datatype Activity = SpeechStart | SpeechEnd

  datatype Job = Job(utterance: nat, final: bool, candidate: bool, audio: Audio)

  // What `transcribe` returned, with the job it answered.
  datatype Transcript = Transcript(job: Job, text: string)

  datatype Config = Config(prerollSamples: nat, minPartialSamples: nat, minSpeechSnr: real, minSpeechRms: real)

  datatype UpdateKind = Stable | Partial | EndpointLikely

  // The log of a run: the audio read and the utterances opened (internal), and
  // the events the client sees, in order.
  datatype Event =
    | Heard(block: Audio, level: real)
    | Opened(utterance: nat, preroll: Audio)
    | Started(utterance: nat)
    | Update(utterance: nat, kind: UpdateKind)
    | Failed(job: Job)
    | Discarded(utterance: nat)
    | Ended(utterance: nat, audio: Audio)
    | Final(utterance: nat, result: Transcript, samples: nat)

  // Where the audio loop is. `last` says that the stream has ended, so that the
  // commit in progress is the one of the teardown.
  datatype AudioAt =
    | Top
    | Activities(rest: seq<Activity>)
    | Announce(rest: seq<Activity>)
    | AskCandidate(rest: seq<Activity>)
    | Hold
    | AskPartial
    | Gate(last: bool)
    | Drop(last: bool)
    | AwaitIdle(last: bool)
    | Serve(last: bool)
    | EmitServed(last: bool, result: Transcript, samples: nat)
    | AskFinal(last: bool)
    | AwaitFinal(last: bool)
    | Clear(last: bool)
    | Teardown
    | Joining
    | Stopped

  // Where the decode worker is.
  datatype WorkerAt =
    | Idle
    | Decoding(job: Job)
    | Store(result: Transcript)
    | Publish(result: Transcript)
    | Report(result: Transcript, rank: nat)
    | Answer(result: Transcript)
    | Release
    | Exited

  datatype State = State(
    audioAt: AudioAt,
    speaking: bool,
    pendingEnd: bool,
    utteranceId: nat,
    preroll: Audio,
    gapBuffer: Audio,
    vad: Vad,
    noiseFloor: real,
    peak: real,
    workerAt: WorkerAt,
    utterance: Audio,
    candidate: Transcript,
    candidateValid: bool,
    candidateSamples: nat,
    latestHypothesis: string,
    pending: Option<Job>,
    workerBusy: bool,
    quit: bool,
    log: seq<Event>)

  const NO_TRANSCRIPT := Transcript(Job(0, false, false, []), "")

  function Initial(): State {
    State(Top, false, false, 0, [], [], Vad([], 0, []), QUIET_LEVEL, 0.0, Idle, [], NO_TRANSCRIPT, false, 0, "", None, false, false, [])
  }

  // What the clock and the hypothesis decide at the end of an iteration.
  datatype Verdict = CommitNow | Runaway | DuePartial | Continue

  datatype Step =
    | Read(block: Audio, level: real, activity: seq<Activity>)
    | EndOfStream
    | NextActivity
    | EmitStarted
    | QueueCandidate
    | Decide(verdict: Verdict)
    | QueuePartial
    | PassGate
    | FailGate
    | DropUtterance
    | SeeIdle
    | TakeCandidate
    | EmitCandidate
    | QueueFinal
    | SeeFinalDone
    | ClearUtterance
    | Quit
    | Join
    | Take
    | Decode(text: string)
    | DecodeFails
    | StoreCandidate
    | StoreHypothesis
    | EmitUpdate(kind: UpdateKind)
    | EndReport
    | EmitFinal
    | GoIdle
    | Exit

  function Rank(kind: UpdateKind): nat {
    match kind case Stable => 0 case Partial => 1 case EndpointLikely => 2
  }

  predicate Quiesced(s: State) { !s.workerBusy && s.pending.None? }

  // The candidate covers all but the last 7680 samples of the frozen utterance.
  predicate Fresh(s: State) {
    s.candidateValid && s.candidateSamples + CANDIDATE_SLACK >= |s.utterance|
  }

  // ---- Levels --------------------------------------------------------------

  const QUIET_LEVEL: real := 0.004

  function SumSquares(audio: Audio): real {
    if audio == [] then 0.0
    else SumSquares(audio[..|audio| - 1]) + audio[|audio| - 1] * audio[|audio| - 1]
  }

  // The root mean square of a block.
  predicate IsLevel(block: Audio, level: real) {
    level >= 0.0 && level * level * (|block| as real) == SumSquares(block)
  }

  // Fast down, slow up.
  function NextFloor(floor: real, level: real): real {
    if level < floor then 0.9 * floor + 0.1 * level else 0.995 * floor + 0.005 * level
  }

  function Louder(a: real, b: real): real { if a < b then b else a }

  function GateLevel(c: Config, floor: real): real { Louder(c.minSpeechRms, c.minSpeechSnr * floor) }

  predicate BelowGate(c: Config, s: State) {
    c.minSpeechSnr > 0.0 && s.peak < GateLevel(c, s.noiseFloor)
  }

  // The last 100 ms of a decode's audio are quiet.
  predicate TailQuiet(job: Job, floor: real) {
    || job.candidate
    || (|job.audio| >= QUIET_TAIL
        && var quiet := Louder(QUIET_LEVEL, 1.5 * floor);
           SumSquares(job.audio[|job.audio| - QUIET_TAIL..]) / (QUIET_TAIL as real) < quiet * quiet)
  }

  // ---- Steps ---------------------------------------------------------------

  predicate IsWorkerStep(step: Step) {
    match step
    case Take => true case Decode(_) => true case DecodeFails => true case StoreCandidate => true
    case StoreHypothesis => true case EmitUpdate(_) => true case EndReport => true case EmitFinal => true
    case GoIdle => true case Exit => true
    case _ => false
  }

  // The steps of the commit and of the teardown.
  predicate IsCommitStep(step: Step) {
    match step
    case PassGate => true case FailGate => true case DropUtterance => true case SeeIdle => true
    case TakeCandidate => true case EmitCandidate => true case QueueFinal => true case SeeFinalDone => true
    case ClearUtterance => true case Quit => true case Join => true
    case _ => false
  }

  predicate WorkerEnabled(s: State, step: Step) {
    match step
    case Take => s.workerAt.Idle? && s.pending.Some?
    case Decode(_) => s.workerAt.Decoding?
    case DecodeFails => s.workerAt.Decoding?
    case StoreCandidate => s.workerAt.Store?
    case StoreHypothesis => s.workerAt.Publish?
    case EmitUpdate(kind) => s.workerAt.Report? && Rank(kind) >= s.workerAt.rank
    case EndReport => s.workerAt.Report?
    case EmitFinal => s.workerAt.Answer?
    case GoIdle => s.workerAt.Release?
    case Exit => s.workerAt.Idle? && s.quit && s.pending.None?
    case _ => false
  }

  predicate CommitEnabled(c: Config, s: State, step: Step) {
    match step
    case PassGate => s.audioAt.Gate? && !BelowGate(c, s)
    case FailGate => s.audioAt.Gate? && BelowGate(c, s)
    case DropUtterance => s.audioAt.Drop?
    case SeeIdle => s.audioAt.AwaitIdle? && Quiesced(s)
    case TakeCandidate => s.audioAt.Serve?
    case EmitCandidate => s.audioAt.EmitServed?
    case QueueFinal => s.audioAt.AskFinal? && !s.workerBusy
    case SeeFinalDone => s.audioAt.AwaitFinal? && Quiesced(s)
    case ClearUtterance => s.audioAt.Clear?
    case Quit => s.audioAt.Teardown?
    case Join => s.audioAt.Joining? && s.workerAt.Exited?
    case _ => false
  }

  predicate TurnEnabled(c: Config, s: State, step: Step) {
    match step
    case Read(block, level, activity) =>
      && s.audioAt.Top?
      && 0 < |block| <= BLOCK
      && IsLevel(block, level)
      && (activity != [] ==> |s.vad.pending| + |block| >= VAD_WINDOW)
    case EndOfStream => s.audioAt.Top?
    case NextActivity => s.audioAt.Activities?
    case EmitStarted => s.audioAt.Announce?
    case QueueCandidate => s.audioAt.AskCandidate?
    case Decide(verdict) =>
      && s.audioAt.Hold?
      && (verdict.CommitNow? ==> s.speaking && s.pendingEnd)
      && (verdict.Runaway? ==> s.speaking && !s.pendingEnd)
      && (verdict.DuePartial? ==> s.speaking && !s.pendingEnd && |s.utterance| >= c.minPartialSamples)
    case QueuePartial => s.audioAt.AskPartial?
    case _ => false
  }

  predicate Enabled(c: Config, s: State, step: Step) {
    if IsWorkerStep(step) then WorkerEnabled(s, step)
    else if IsCommitStep(step) then CommitEnabled(c, s, step)
    else TurnEnabled(c, s, step)
  }

  function KeepLast(audio: Audio, n: nat): Audio {
    if |audio| > n then audio[|audio| - n..] else audio
  }

  function Resume(last: bool): AudioAt { if last then Teardown else Top }

  // begin_utterance, up to and including its lock region.
  function BeginUtterance(s: State, rest: seq<Activity>): State {
    s.(audioAt := Announce(rest), speaking := true, pendingEnd := false, gapBuffer := [], peak := 0.0,
       utteranceId := s.utteranceId + 1, utterance := s.preroll, candidateValid := false,
       latestHypothesis := "", log := s.log + [Opened(s.utteranceId + 1, s.preroll)])
  }

  function ResumeFromPending(s: State, rest: seq<Activity>): State {
    s.(audioAt := Activities(rest), pendingEnd := false, utterance := s.utterance + s.gapBuffer,
       candidateValid := false, gapBuffer := [])
  }

  function BeginPendingEnd(s: State, rest: seq<Activity>): State {
    s.(audioAt := if Fresh(s) then Activities(rest) else AskCandidate(rest), pendingEnd := true, gapBuffer := [])
  }

  function HandleActivity(s: State): State
    requires s.audioAt.Activities?
  {
    var acts := s.audioAt.rest;
    if acts == [] then s.(audioAt := Hold)
    else if acts[0].SpeechStart? && !s.speaking then BeginUtterance(s, acts[1..])
    else if acts[0].SpeechStart? && s.pendingEnd then ResumeFromPending(s, acts[1..])
    else if acts[0].SpeechEnd? && s.speaking && !s.pendingEnd then BeginPendingEnd(s, acts[1..])
    else s.(audioAt := Activities(acts[1..]))
  }

  function ReadBlock(c: Config, s: State, block: Audio, level: real, acts: seq<Activity>): State {
    s.(audioAt := Activities(acts),
       vad := Feed(s.vad, block),
       peak := if s.speaking then Louder(s.peak, level) else s.peak,
       noiseFloor := if s.speaking then s.noiseFloor else NextFloor(s.noiseFloor, level),
       gapBuffer := if s.speaking && s.pendingEnd then s.gapBuffer + block else s.gapBuffer,
       utterance := if s.speaking && !s.pendingEnd then s.utterance + block else s.utterance,
       preroll := if s.speaking then s.preroll else KeepLast(s.preroll + block, c.prerollSamples),
       log := s.log + [Heard(block, level)])
  }

  function JobFor(s: State, final: bool, candidate: bool): Job {
    Job(s.utteranceId, final, candidate, s.utterance)
  }

  function ApplyWorker(s: State, step: Step): State
    requires WorkerEnabled(s, step)
  {
    match step
    case Take => s.(workerAt := Decoding(s.pending.value), pending := None, workerBusy := true)
    case Decode(text) =>
      var result := Transcript(s.workerAt.job, text);
      s.(workerAt := if s.workerAt.job.final then Answer(result) else Store(result))
    case DecodeFails => s.(workerAt := Release, log := s.log + [Failed(s.workerAt.job)])
    case StoreCandidate =>
      var r := s.workerAt.result;
      var next := if r.text == "" then Release else Publish(r);
      if TailQuiet(r.job, s.noiseFloor) && r.text != "" then
        s.(workerAt := next, candidate := r, candidateValid := true, candidateSamples := |r.job.audio|)
      else s.(workerAt := next)
    case StoreHypothesis =>
      s.(workerAt := Report(s.workerAt.result, 0), latestHypothesis := s.workerAt.result.text)
    case EmitUpdate(kind) =>
      s.(workerAt := Report(s.workerAt.result, Rank(kind) + 1),
         log := s.log + [Update(s.workerAt.result.job.utterance, kind)])
    case EndReport => s.(workerAt := Release)
    case EmitFinal =>
      var r := s.workerAt.result;
      s.(workerAt := Release, log := s.log + [Final(r.job.utterance, r, |r.job.audio|)])
    case GoIdle => s.(workerAt := Idle, workerBusy := false)
    case Exit => s.(workerAt := Exited)
  }

  function ApplyCommit(c: Config, s: State, step: Step): State
    requires CommitEnabled(c, s, step)
  {
    match step
    case PassGate =>
      s.(audioAt := AwaitIdle(s.audioAt.last), speaking := false, pendingEnd := false, gapBuffer := [],
         log := s.log + [Ended(s.utteranceId, s.utterance)])
    case FailGate =>
      s.(audioAt := Drop(s.audioAt.last), speaking := false, pendingEnd := false, gapBuffer := [],
         log := s.log + [Discarded(s.utteranceId)])
    case DropUtterance =>
      s.(audioAt := Resume(s.audioAt.last), utterance := [], candidateValid := false, latestHypothesis := "")
    case SeeIdle =>
      s.(audioAt := if Fresh(s) then Serve(s.audioAt.last) else AskFinal(s.audioAt.last))
    case TakeCandidate =>
      s.(audioAt := EmitServed(s.audioAt.last, s.candidate, |s.utterance|), candidateValid := false)
    case EmitCandidate =>
      s.(audioAt := Clear(s.audioAt.last),
         log := s.log + [Final(s.utteranceId, s.audioAt.result, s.audioAt.samples)])
    case QueueFinal => s.(audioAt := AwaitFinal(s.audioAt.last), pending := Some(JobFor(s, true, false)))
    case SeeFinalDone => s.(audioAt := Clear(s.audioAt.last))
    case ClearUtterance => s.(audioAt := Resume(s.audioAt.last), utterance := [])
    case Quit => s.(audioAt := Joining, quit := true)
    case Join => s.(audioAt := Stopped)
  }

  function ApplyTurn(c: Config, s: State, step: Step): State
    requires TurnEnabled(c, s, step)
  {
    match step
    case Read(block, level, acts) => ReadBlock(c, s, block, level, acts)
    case EndOfStream => s.(audioAt := if s.speaking then Gate(true) else Teardown)
    case NextActivity => HandleActivity(s)
    case EmitStarted => s.(audioAt := Activities(s.audioAt.rest), log := s.log + [Started(s.utteranceId)])
    case QueueCandidate =>
      s.(audioAt := Activities(s.audioAt.rest), pending := Some(JobFor(s, false, true)))
    case Decide(verdict) =>
      s.(audioAt := match verdict
                    case CommitNow => Gate(false)
                    case Runaway => Gate(false)
                    case DuePartial => AskPartial
                    case Continue => Top)
    case QueuePartial =>
      s.(audioAt := Top, pending := if Quiesced(s) then Some(JobFor(s, false, false)) else s.pending)
  }

  function Apply(c: Config, s: State, step: Step): State
    requires Enabled(c, s, step)
  {
    if IsWorkerStep(step) then ApplyWorker(s, step)
    else if IsCommitStep(step) then ApplyCommit(c, s, step)
    else ApplyTurn(c, s, step)
  }

  // The state after a schedule: any interleaving of the two threads' steps and
  // any answers from outside. None if the schedule takes a step that is blocked.
  function Run(c: Config, steps: seq<Step>): Option<State> {
    if steps == [] then Some(Initial())
    else
      var before := Run(c, steps[..|steps| - 1]);
      var step := steps[|steps| - 1];
      if before.Some? && Enabled(c, before.value, step) then Some(Apply(c, before.value, step)) else None
  }

  lemma RunExtends(c: Config, steps: seq<Step>, step: Step)
    requires Run(c, steps).Some? && Enabled(c, Run(c, steps).value, step)
    ensures Run(c, steps + [step]) == Some(Apply(c, Run(c, steps).value, step))
  {
    assert (steps + [step])[..|steps|] == steps;
  }
}
