/** The warm queue (app/server/runtime.cpp): fire-and-forget prefills, of which only
    the newest pending one is kept and none starts while a generation is active.

    Every thread `queue_llm_warm` starts is kept in `workers`, so that there being one
    worker at a time is a theorem and not an assumption. */
module WarmQueue {
  import opened Bytes
  import opened Wrappers

  // The detached worker thread.
  datatype WorkerAt =
    | AtLoop                      // about to look at the queue
    | Waiting(notified: bool)     // in llm_warm_cv_.wait
    | Settling                    // asleep, the lock released
    | Sending(body: bytes)        // the prefill is in flight
    | Gone

  // A prefill sent: its body, how many bodies had been queued by then, and how many
  // generations were active.
  datatype Dispatch = Dispatch(body: bytes, queuedBy: nat, active: nat)

  datatype State = State(
    pending: bytes,
    running: bool,
    active: nat,
    notifying: nat,     // generations ended whose notify_all is still to come
    workers: seq<WorkerAt>,
    queued: seq<bytes>,
    dispatched: seq<Dispatch>)

  datatype Step =
    | Queue(body: bytes)
    | BeginGeneration
    | EndGeneration
    | Notify
    | Look(i: nat)
    | Wake(i: nat)
    | AfterSettling(i: nat)
    | Sent(i: nat)

  function Initial(): State { State([], false, 0, 0, [], [], []) }

  predicate Enabled(s: State, step: Step) {
    match step
    case Queue(_) => true
    case BeginGeneration => true
    case EndGeneration => s.active > 0
    case Notify => s.notifying > 0
    case Look(i) => i < |s.workers| && s.workers[i].AtLoop?
    case Wake(i) => i < |s.workers| && s.workers[i].Waiting?   // also a spurious wakeup
    case AfterSettling(i) => i < |s.workers| && s.workers[i].Settling?
    case Sent(i) => i < |s.workers| && s.workers[i].Sending?
  }

  function NotifyAll(workers: seq<WorkerAt>): seq<WorkerAt> {
    seq(|workers|, i requires 0 <= i < |workers| => if workers[i].Waiting? then Waiting(true) else workers[i])
  }

  function Apply(s: State, step: Step): State
    requires Enabled(s, step)
  {
    match step
    case Queue(body) =>
      var workers := NotifyAll(s.workers);
      s.(pending := body, queued := s.queued + [body], running := true,
         workers := if s.running then workers else workers + [AtLoop])
    case BeginGeneration => s.(active := s.active + 1)
    case EndGeneration => s.(active := s.active - 1, notifying := s.notifying + 1)
    case Notify => s.(notifying := s.notifying - 1, workers := NotifyAll(s.workers))
    case Look(i) =>
      if s.pending == [] then s.(running := false, workers := s.workers[i := Gone])
      else if s.active > 0 then s.(workers := s.workers[i := Waiting(false)])
      else s.(workers := s.workers[i := Settling])
    case Wake(i) => s.(workers := s.workers[i := AtLoop])
    case AfterSettling(i) =>
      if s.pending == [] || s.active > 0 then s.(workers := s.workers[i := AtLoop])
      else
        s.(pending := [], workers := s.workers[i := Sending(s.pending)],
           dispatched := s.dispatched + [Dispatch(s.pending, |s.queued|, s.active)])
    case Sent(i) => s.(workers := s.workers[i := AtLoop])
  }

  function Run(steps: seq<Step>): Option<State> {
    if steps == [] then Some(Initial())
    else
      var before := Run(steps[..|steps| - 1]);
      var step := steps[|steps| - 1];
      if before.Some? && Enabled(before.value, step) then Some(Apply(before.value, step)) else None
  }

  // ---- The invariant -------------------------------------------------------

  // Only the newest thread can be alive, and it is exactly when the flag says so.
  predicate OneWorker(s: State) {
    && (forall i | 0 <= i < |s.workers| - 1 :: s.workers[i].Gone?)
    && (s.running <==> s.workers != [] && !s.workers[|s.workers| - 1].Gone?)
  }

  // The pending body is the newest queued one, and it is pending until dispatched
  // or replaced.
  predicate PendingOk(s: State) {
    && (s.pending != [] ==> s.running && s.queued != [] && s.pending == s.queued[|s.queued| - 1]
                            && LastDispatched(s) < |s.queued|)
    && (s.pending == [] && s.queued != [] ==> s.queued[|s.queued| - 1] == [] || LastDispatched(s) == |s.queued|)
  }

  function LastDispatched(s: State): nat {
    if s.dispatched == [] then 0 else s.dispatched[|s.dispatched| - 1].queuedBy
  }

  // Each dispatch sent the newest body queued by then, with nothing generating; each
  // was queued after the one before.
  predicate DispatchesOk(s: State) {
    && (forall k | 0 <= k < |s.dispatched| ::
         var d := s.dispatched[k];
         d.active == 0 && 0 < d.queuedBy <= |s.queued| && d.body == s.queued[d.queuedBy - 1] && d.body != [])
    && (forall j, k | 0 <= j < k < |s.dispatched| :: s.dispatched[j].queuedBy < s.dispatched[k].queuedBy)
  }

  // A sleeping worker is going to be woken.
  predicate NoLostWakeup(s: State) {
    forall i | 0 <= i < |s.workers| :: s.workers[i] == Waiting(false) ==> s.active > 0 || s.notifying > 0
  }

  predicate Inv(s: State) { OneWorker(s) && PendingOk(s) && DispatchesOk(s) && NoLostWakeup(s) }

  lemma StepKeepsOneWorker(s: State, step: Step)
    requires OneWorker(s) && Enabled(s, step)
    ensures OneWorker(Apply(s, step))
  {
  }

  lemma StepKeepsPending(s: State, step: Step)
    requires OneWorker(s) && PendingOk(s) && DispatchesOk(s) && Enabled(s, step)
    ensures PendingOk(Apply(s, step))
  {
  }

  lemma StepKeepsDispatches(s: State, step: Step)
    requires OneWorker(s) && PendingOk(s) && DispatchesOk(s) && Enabled(s, step)
    ensures DispatchesOk(Apply(s, step))
  {
  }

  lemma StepKeepsWakeup(s: State, step: Step)
    requires NoLostWakeup(s) && Enabled(s, step)
    ensures NoLostWakeup(Apply(s, step))
  {
  }

  lemma StepKeepsInv(s: State, step: Step)
    requires Inv(s) && Enabled(s, step)
    ensures Inv(Apply(s, step))
  {
    StepKeepsOneWorker(s, step);
    StepKeepsPending(s, step);
    StepKeepsDispatches(s, step);
    StepKeepsWakeup(s, step);
  }

  lemma {:induction false} RunInv(steps: seq<Step>)
    requires Run(steps).Some?
    ensures Inv(Run(steps).value)
  {
    if steps != [] {
      RunInv(steps[..|steps| - 1]);
      StepKeepsInv(Run(steps[..|steps| - 1]).value, steps[|steps| - 1]);
    }
  }

  lemma RunExtends(steps: seq<Step>, step: Step)
    requires Run(steps).Some? && Enabled(Run(steps).value, step)
    ensures Run(steps + [step]) == Some(Apply(Run(steps).value, step))
  {
    assert (steps + [step])[..|steps|] == steps;
  }

  // ---- What every run guarantees -------------------------------------------

  // At most one prefill is in flight.
  lemma OnePrefillInFlight(steps: seq<Step>, i: nat, j: nat)
    requires Run(steps).Some? && i < |Run(steps).value.workers| && j < |Run(steps).value.workers|
    requires Run(steps).value.workers[i].Sending? && Run(steps).value.workers[j].Sending?
    ensures i == j
  {
    RunInv(steps);
  }

  // Every prefill sent was the newest body of its moment, sent with no generation
  // active; the prefills are a subsequence of what was queued.
  lemma DispatchesAreNewest(steps: seq<Step>, k: nat)
    requires Run(steps).Some? && k < |Run(steps).value.dispatched|
    ensures var s := Run(steps).value; var d := s.dispatched[k];
            && d.active == 0 && 0 < d.queuedBy <= |s.queued| && d.body == s.queued[d.queuedBy - 1]
            && (forall j | 0 <= j < k :: s.dispatched[j].queuedBy < d.queuedBy)
  {
    RunInv(steps);
  }

  // When no worker is left, nothing was forgotten: the last body queued is the last
  // one sent, unless it was empty.
  lemma NothingForgotten(steps: seq<Step>)
    requires Run(steps).Some? && !Run(steps).value.running && Run(steps).value.queued != []
    ensures var s := Run(steps).value; var last := s.queued[|s.queued| - 1];
            last != [] ==> s.dispatched != [] && s.dispatched[|s.dispatched| - 1].body == last
                           && s.dispatched[|s.dispatched| - 1].queuedBy == |s.queued|
  {
    RunInv(steps);
  }

  // ---- What the worker goes by, off the schedule ---------------------------

  // The bodies queued.
  function Bodies(steps: seq<Step>): seq<bytes> {
    if steps == [] then []
    else
      var step := steps[|steps| - 1];
      Bodies(steps[..|steps| - 1]) + (if step.Queue? then [step.body] else [])
  }

  // The generations begun and not yet ended.
  function Generating(steps: seq<Step>): int {
    if steps == [] then 0
    else
      var step := steps[|steps| - 1];
      Generating(steps[..|steps| - 1]) + (if step.BeginGeneration? then 1 else if step.EndGeneration? then -1 else 0)
  }

  lemma {:induction false} RunCounts(steps: seq<Step>)
    requires Run(steps).Some?
    ensures Run(steps).value.queued == Bodies(steps) && Run(steps).value.active == Generating(steps)
  {
    if steps != [] { RunCounts(steps[..|steps| - 1]); }
  }

  // The newest body queued is not empty and has not been sent.
  predicate Unsent(steps: seq<Step>, dispatched: seq<Dispatch>) {
    var bodies := Bodies(steps);
    && bodies != [] && bodies[|bodies| - 1] != []
    && (dispatched == [] || dispatched[|dispatched| - 1].queuedBy < |bodies|)
  }

  lemma UnsentIsPending(steps: seq<Step>)
    requires Run(steps).Some?
    ensures Run(steps).value.pending != [] <==> Unsent(steps, Run(steps).value.dispatched)
  {
    RunInv(steps);
    RunCounts(steps);
  }

  // In every run a worker that looks at the queue leaves exactly if nothing is unsent,
  // goes to sleep exactly if something is and a generation is under way, and settles
  // otherwise.
  lemma LookDecides(steps: seq<Step>, i: nat)
    requires Run(steps + [Look(i)]).Some?
    ensures Run(steps).Some? && i < |Run(steps).value.workers| && i < |Run(steps + [Look(i)]).value.workers|
    ensures var unsent, busy := Unsent(steps, Run(steps).value.dispatched), Generating(steps) > 0;
            var at := Run(steps + [Look(i)]).value.workers[i];
            at == if !unsent then Gone else if busy then Waiting(false) else Settling
  {
    assert (steps + [Look(i)])[..|steps|] == steps;
    UnsentIsPending(steps);
    RunCounts(steps);
  }

  // Once it has settled it sends the newest body exactly if that is still so, and
  // otherwise looks again.
  lemma SettledSendsIff(steps: seq<Step>, i: nat)
    requires Run(steps + [AfterSettling(i)]).Some?
    ensures Run(steps).Some? && i < |Run(steps).value.workers| && i < |Run(steps + [AfterSettling(i)]).value.workers|
    ensures var idle := Unsent(steps, Run(steps).value.dispatched) && Generating(steps) == 0;
            var at := Run(steps + [AfterSettling(i)]).value.workers[i];
            at == if idle then Sending(Bodies(steps)[|Bodies(steps)| - 1]) else AtLoop
  {
    assert (steps + [AfterSettling(i)])[..|steps|] == steps;
    UnsentIsPending(steps);
    RunInv(steps);
    RunCounts(steps);
  }

  // A step of the worker or the notification it waits for.
  function NextFor(s: State): Step
    requires s.workers != []
  {
    var i := |s.workers| - 1;
    match s.workers[i]
    case AtLoop => Look(i)
    case Waiting(notified) => if notified then Wake(i) else Notify
    case Settling => AfterSettling(i)
    case Sending(_) => Sent(i)
    case Gone => Notify
  }

  // A body that may be sent is never stranded: the worker can move, or the
  // notification that will wake it is on its way.
  lemma PendingIsNeverStranded(steps: seq<Step>)
    requires Run(steps).Some? && Run(steps).value.pending != [] && Run(steps).value.active == 0
    ensures Run(steps).value.workers != [] && Enabled(Run(steps).value, NextFor(Run(steps).value))
  {
    RunInv(steps);
  }

  // ---- The queue as an object ----------------------------------------------

  // The members of ServerState guarded by llm_warm_mutex_, the threads it started and
  // what was asked of it and sent. One method is one stretch under the lock. The
  // ghost field is the schedule that brought the object where it is.
  class WarmState {
    var llmWarmPending: bytes
    var llmWarmWorkerRunning: bool
    var llmGenerationsActive: nat
    var notifying: nat
    var workers: seq<WorkerAt>
    var queued: seq<bytes>
    var dispatched: seq<Dispatch>

    ghost var steps: seq<Step>

    function View(): State
      reads this
    {
      State(llmWarmPending, llmWarmWorkerRunning, llmGenerationsActive, notifying, workers, queued, dispatched)
    }

    // The object is where its schedule leads.
    ghost predicate Valid()
      reads this
    {
      Run(steps) == Some(View())
    }

    twostate predicate Took(step: Step)
      reads this
    {
      Valid() && steps == old(steps) + [step]
    }

    // So at every moment everything proved of all runs holds of its fields.
    lemma Holds()
      requires Valid()
      ensures Inv(View())
    {
      RunInv(steps);
    }

    ghost method Record(before: State, step: Step)
      requires Run(steps) == Some(before) && Enabled(before, step) && View() == Apply(before, step)
      modifies this`steps
      ensures Took(step)
    {
      RunExtends(steps, step);
      steps := steps + [step];
    }

    constructor ()
      ensures Valid() && steps == []
    {
      llmWarmPending, llmWarmWorkerRunning, llmGenerationsActive := [], false, 0;
      notifying, workers, queued, dispatched, steps := 0, [], [], [], [];
    }

    // llm_warm_cv_.notify_all.
    method WakeSleepers()
      modifies this`workers
      ensures workers == NotifyAll(old(workers))
    {
      var i := 0;
      while i < |workers|
        invariant 0 <= i <= |workers| == |old(workers)|
        invariant forall k | 0 <= k < i :: workers[k] == NotifyAll(old(workers))[k]
        invariant forall k | i <= k < |workers| :: workers[k] == old(workers)[k]
      {
        if workers[i].Waiting? {
          workers := workers[i := Waiting(true)];
        }
        i := i + 1;
      }
    }

    // Afterwards exactly one worker lives, the newest, and it has been told.
    method QueueLlmWarm(body: bytes)
      requires Valid()
      modifies this
      ensures Took(Queue(body)) && llmWarmPending == body
      ensures llmWarmWorkerRunning && workers != [] && !workers[|workers| - 1].Gone? && Waiting(false) !in workers
      ensures forall i | 0 <= i < |workers| - 1 :: workers[i].Gone?
      ensures |workers| == |old(workers)| + if old(llmWarmWorkerRunning) then 0 else 1
    {
      ghost var before := View();
      llmWarmPending := body;
      queued := queued + [body];
      WakeSleepers();
      if !llmWarmWorkerRunning {
        llmWarmWorkerRunning := true;
        workers := workers + [AtLoop];
      }
      Record(before, Queue(body));
      Holds();
    }

    method BeginLlmGeneration()
      requires Valid()
      modifies this`llmGenerationsActive, this`steps
      ensures Took(BeginGeneration)
    {
      ghost var before := View();
      llmGenerationsActive := llmGenerationsActive + 1;
      Record(before, BeginGeneration);
    }

    // end_llm_generation up to the end of its lock; NotifyEnded is the rest of it.
    method EndLlmGeneration()
      requires Valid() && Enabled(View(), EndGeneration)
      modifies this
      ensures Took(EndGeneration)
    {
      ghost var before := View();
      llmGenerationsActive := llmGenerationsActive - 1;
      notifying := notifying + 1;
      Record(before, EndGeneration);
    }

    method NotifyEnded()
      requires Valid() && Enabled(View(), Notify)
      modifies this
      ensures Took(Notify)
    {
      ghost var before := View();
      WakeSleepers();
      notifying := notifying - 1;
      Record(before, Notify);
    }

    // The worker from the head of its loop to where it gives up the lock.
    method WorkerLooks(i: nat)
      requires Valid() && Enabled(View(), Look(i))
      modifies this
      ensures Took(Look(i))
    {
      ghost var before := View();
      if llmWarmPending == [] {
        llmWarmWorkerRunning := false;
        workers := workers[i := Gone];
      } else {
        workers := workers[i := if llmGenerationsActive > 0 then Waiting(false) else Settling];
      }
      Record(before, Look(i));
    }

    // The worker woken, or back from its request.
    method WorkerLoops(i: nat)
      requires Valid() && (Enabled(View(), Wake(i)) || Enabled(View(), Sent(i)))
      modifies this`workers, this`steps
      ensures Took(if old(workers[i]).Waiting? then Wake(i) else Sent(i))
    {
      ghost var before := View();
      workers := workers[i := AtLoop];
      Record(before, if before.workers[i].Waiting? then Wake(i) else Sent(i));
    }

    // The worker with the lock again after its settling sleep. What it sends is the
    // newest body queued, with no generation active.
    method WorkerSettled(i: nat)
      requires Valid() && Enabled(View(), AfterSettling(i))
      modifies this
      ensures Took(AfterSettling(i))
      ensures workers[i].Sending? ==>
                llmGenerationsActive == 0 && queued != [] && workers[i].body == queued[|queued| - 1] != []
    {
      ghost var before := View();
      Holds();
      if llmWarmPending == [] || llmGenerationsActive > 0 {
        workers := workers[i := AtLoop];
      } else {
        var body := llmWarmPending;
        llmWarmPending := [];
        workers := workers[i := Sending(body)];
        dispatched := dispatched + [Dispatch(body, |queued|, llmGenerationsActive)];
      }
      Record(before, AfterSettling(i));
    }

    // Whatever step is due.
    method Perform(step: Step)
      requires Valid() && Enabled(View(), step)
      modifies this
      ensures Took(step)
    {
      match step
      case Queue(body) => QueueLlmWarm(body);
      case BeginGeneration => BeginLlmGeneration();
      case EndGeneration => EndLlmGeneration();
      case Notify => NotifyEnded();
      case Look(i) => WorkerLooks(i);
      case Wake(i) => WorkerLoops(i);
      case AfterSettling(i) => WorkerSettled(i);
      case Sent(i) => WorkerLoops(i);
    }
  }

  // The object follows every schedule for as long as its next step is due; and
  // whenever it then has no worker, the last non-empty body queued was the last sent.
  method Drive(schedule: seq<Step>) returns (warm: WarmState, n: nat)
    ensures fresh(warm) && warm.Valid() && Inv(warm.View())
    ensures n <= |schedule| && warm.steps == schedule[..n]
    ensures n < |schedule| ==> !Enabled(warm.View(), schedule[n])
    ensures !warm.llmWarmWorkerRunning && warm.queued != [] && warm.queued[|warm.queued| - 1] != [] ==>
              warm.dispatched != [] && warm.dispatched[|warm.dispatched| - 1].body == warm.queued[|warm.queued| - 1]
  {
    warm := new WarmState();
    n := 0;
    while n < |schedule| && Enabled(warm.View(), schedule[n])
      invariant fresh(warm) && warm.Valid()
      invariant n <= |schedule| && warm.steps == schedule[..n]
      decreases |schedule| - n
    {
      warm.Perform(schedule[n]);
      assert schedule[..n + 1] == schedule[..n] + [schedule[n]];
      n := n + 1;
    }
    warm.Holds();
    if !warm.llmWarmWorkerRunning && warm.queued != [] { NothingForgotten(warm.steps); }
  }
}
