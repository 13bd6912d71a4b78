/** The work-stealing thread pool (thread_pool.h) as an interleaving step system.
  *
  * Atomics are sequentially consistent; every mutex-guarded queue call, every atomic access,
  * every semaphore operation and every task invocation is one step.  A binary semaphore is a
  * saturating flag.  Any number of enqueue, clear_tasks and wait_for_tasks calls run beside the
  * workers; a task that enqueues further tasks is one of those calls.
  */
module ThreadPools {
  import opened SafeQueues

  type Task = nat

  // Where a worker is in its loop (thread_pool.h:56-98): the named action comes next.
  datatype Worker =
    | Parked                              // signal.acquire()
    | Popping                             // tasks_[id].tasks.pop_front()
    | Claimed(task: Task, stolen: bool)   // unassigned_tasks_.fetch_sub(1)
    | Running(task: Task, stolen: bool)   // std::invoke
    | Finished(task: Task, stolen: bool)  // in_flight_tasks_.fetch_sub(1)
    | Stealing(j: nat)                    // tasks_[(id + j) % size].tasks.steal()
    | Checking                            // unassigned_tasks_.load() > 0
    | Rotating                            // priority_queue_.rotate_to_front(id)
    | Polling                             // in_flight_tasks_.load() == 0
    | Signalling                          // threads_complete_signal_.store(true)
    | Notifying                           // threads_complete_signal_.notify_one()

  // An enqueue_task call (thread_pool.h:265-286) after it picked worker i.
  datatype Call =
    | Chosen(i: nat, task: Task)     // unassigned_tasks_.fetch_add(1)
    | Counted(i: nat, task: Task)    // in_flight_tasks_.fetch_add(1)
    | Resetting(i: nat, task: Task)  // threads_complete_signal_.store(false)
    | Pushing(i: nat, task: Task)    // tasks_[i].tasks.push_back
    | Releasing(i: nat)              // tasks_[i].signal.release()
    | Returned

  // A clear_tasks call (thread_pool.h:252-261).
  datatype Clear =
    | Emptying(k: nat, removed: seq<Task>)   // clear queue k
    | LowerFlight(removed: seq<Task>)        // in_flight_tasks_.fetch_sub
    | LowerUnassigned(removed: seq<Task>)    // unassigned_tasks_.fetch_sub
    | Cleared(removed: seq<Task>)

  // A wait_for_tasks call (thread_pool.h:237-243).
  datatype Waiter =
    | Testing    // in_flight_tasks_.load() > 0
    | Comparing  // wait(false): compare the signal with false
    | Blocked    // waiting for a notification
    | Released   // returned

  datatype State = State(
    queues: seq<seq<Task>>,
    sems: seq<bool>,
    prio: seq<nat>,
    unassigned: int,
    inflight: int,
    complete: bool,
    workers: seq<Worker>,
    calls: seq<Call>,
    clears: seq<Clear>,
    waiters: seq<Waiter>,
    next: Task,         // tasks submitted so far are 0 .. next - 1
    done: seq<Task>,    // executed, in order of completion
    dropped: seq<Task>  // submitted to a pool without threads
  )

  datatype Step =
    | Enqueue
    | CallStep(c: nat)
    | WorkerStep(w: nat)
    | Notify(w: nat, k: nat)  // notify_one by worker w, waking waiter k if anyone is blocked
    | StartClear
    | ClearStep(c: nat)
    | StartWait
    | WaitStep(k: nat)

  function Init(n: nat): State
  {
    State(seq(n, _ => []), seq(n, _ => false), seq(n, i => i), 0, 0, false,
          seq(n, _ => Parked), [], [], [], 0, [], [])
  }

  // ----- steps -----

  predicate SomeBlocked(s: State)
  {
    Blocked in s.waiters
  }

  predicate Shaped(s: State)
  {
    && |s.queues| == |s.sems| == |s.workers|
    && (forall c | 0 <= c < |s.calls| && !s.calls[c].Returned? :: s.calls[c].i < |s.workers|)
    && (forall c | 0 <= c < |s.clears| && s.clears[c].Emptying? :: s.clears[c].k <= |s.workers|)
    && (forall w | 0 <= w < |s.workers| && s.workers[w].Stealing? :: s.workers[w].j >= 1)
    && (forall x | x in s.prio :: x < |s.workers|)
  }

  predicate Enabled(s: State, st: Step)
  {
    match st
    case Enqueue => true
    case CallStep(c) => c < |s.calls| && !s.calls[c].Returned?
    case WorkerStep(w) => w < |s.workers| && !s.workers[w].Notifying? &&
                          (s.workers[w].Parked? ==> w < |s.sems| && s.sems[w])
    case Notify(w, k) => w < |s.workers| && s.workers[w].Notifying? &&
                         (SomeBlocked(s) ==> k < |s.waiters| && s.waiters[k].Blocked?)
    case StartClear => true
    case ClearStep(c) => c < |s.clears| && !s.clears[c].Cleared?
    case StartWait => true
    case WaitStep(k) => k < |s.waiters| && !s.waiters[k].Blocked?
  }

  function DoEnqueue(s: State): State
  {
    if s.prio == [] then s.(next := s.next + 1, dropped := s.dropped + [s.next])
    else s.(next := s.next + 1, prio := RotatedToBack(s.prio), calls := s.calls + [Chosen(s.prio[0], s.next)])
  }

  function DoCall(s: State, c: nat): State
    requires Shaped(s) && c < |s.calls| && !s.calls[c].Returned?
  {
    match s.calls[c]
    case Chosen(i, t) => s.(unassigned := s.unassigned + 1, calls := s.calls[c := Counted(i, t)])
    case Counted(i, t) =>
      s.(inflight := s.inflight + 1, calls := s.calls[c := if s.inflight == 0 then Resetting(i, t) else Pushing(i, t)])
    case Resetting(i, t) => s.(complete := false, calls := s.calls[c := Pushing(i, t)])
    case Pushing(i, t) => s.(queues := s.queues[i := s.queues[i] + [t]], calls := s.calls[c := Releasing(i)])
    case Releasing(i) => s.(sems := s.sems[i := true], calls := s.calls[c := Returned])
  }

  function DoWorker(s: State, w: nat): State
    requires Shaped(s) && w < |s.workers| && !s.workers[w].Notifying?
  {
    match s.workers[w]
    case Parked => s.(sems := s.sems[w := false], workers := s.workers[w := Popping])
    case Popping =>
      var q := s.queues[w];
      if q == [] then s.(workers := s.workers[w := Stealing(1)])
      else s.(queues := s.queues[w := q[1..]], workers := s.workers[w := Claimed(q[0], false)])
    case Claimed(t, b) => s.(unassigned := s.unassigned - 1, workers := s.workers[w := Running(t, b)])
    case Running(t, b) => s.(workers := s.workers[w := Finished(t, b)])
    case Finished(t, b) =>
      s.(inflight := s.inflight - 1, done := s.done + [t], workers := s.workers[w := if b then Checking else Popping])
    case Stealing(j) =>
      if j >= |s.workers| then s.(workers := s.workers[w := Checking])
      else
        var v := (w + j) % |s.workers|;
        var q := s.queues[v];
        if q == [] then s.(workers := s.workers[w := Stealing(j + 1)])
        else s.(queues := s.queues[v := q[..|q| - 1]], workers := s.workers[w := Claimed(q[|q| - 1], true)])
    case Checking => s.(workers := s.workers[w := if s.unassigned > 0 then Popping else Rotating])
    case Rotating => s.(prio := RotatedToFront(s.prio, w), workers := s.workers[w := Polling])
    case Polling => s.(workers := s.workers[w := if s.inflight == 0 then Signalling else Parked])
    case Signalling => s.(complete := true, workers := s.workers[w := Notifying])
  }

  function DoNotify(s: State, w: nat, k: nat): State
    requires w < |s.workers| && (SomeBlocked(s) ==> k < |s.waiters|)
  {
    var s1 := s.(workers := s.workers[w := Parked]);
    if SomeBlocked(s) then s1.(waiters := s.waiters[k := Comparing]) else s1
  }

  function DoClear(s: State, c: nat): State
    requires Shaped(s) && c < |s.clears| && !s.clears[c].Cleared?
  {
    match s.clears[c]
    case Emptying(k, removed) =>
      if k == |s.workers| then s.(clears := s.clears[c := LowerFlight(removed)])
      else s.(queues := s.queues[k := []], clears := s.clears[c := Emptying(k + 1, removed + s.queues[k])])
    case LowerFlight(removed) =>
      s.(inflight := s.inflight - |removed|, clears := s.clears[c := LowerUnassigned(removed)])
    case LowerUnassigned(removed) =>
      s.(unassigned := s.unassigned - |removed|, clears := s.clears[c := Cleared(removed)])
  }

  // A returned waiter may call wait_for_tasks again.
  function DoWait(s: State, k: nat): State
    requires k < |s.waiters| && !s.waiters[k].Blocked?
  {
    match s.waiters[k]
    case Testing => s.(waiters := s.waiters[k := if s.inflight > 0 then Comparing else Released])
    case Comparing => s.(waiters := s.waiters[k := if s.complete then Testing else Blocked])
    case Released => s.(waiters := s.waiters[k := Testing])
  }

  function Do(s: State, st: Step): State
    requires Shaped(s) && Enabled(s, st)
  {
    match st
    case Enqueue => DoEnqueue(s)
    case CallStep(c) => DoCall(s, c)
    case WorkerStep(w) => DoWorker(s, w)
    case Notify(w, k) => DoNotify(s, w, k)
    case StartClear => s.(clears := s.clears + [Emptying(0, [])])
    case ClearStep(c) => DoClear(s, c)
    case StartWait => s.(waiters := s.waiters + [Testing])
    case WaitStep(k) => DoWait(s, k)
  }

  lemma {:induction false} ShapedWorker(s: State, w: nat)
    requires Shaped(s) && w < |s.workers| && !s.workers[w].Notifying?
    ensures Shaped(DoWorker(s, w))
  {
    RotatedElements(s.prio, w);
  }

  lemma {:induction false} ShapedCall(s: State, c: nat)
    requires Shaped(s) && c < |s.calls| && !s.calls[c].Returned?
    ensures Shaped(DoCall(s, c))
  {
  }

  lemma {:induction false} ShapedStep(s: State, st: Step)
    requires Shaped(s) && Enabled(s, st)
    ensures Shaped(Do(s, st))
  {
    match st
    case WorkerStep(w) => ShapedWorker(s, w);
    case CallStep(c) => ShapedCall(s, c);
    case Enqueue => ShapedEnqueue(s);
    case ClearStep(c) => ShapedClear(s, c);
    case _ =>
  }

  lemma {:induction false} ShapedEnqueue(s: State)
    requires Shaped(s)
    ensures Shaped(DoEnqueue(s))
  {
    if s.prio != [] {
      assert s.prio[0] in s.prio;
      var s' := DoEnqueue(s);
      forall x | x in s'.prio ensures x < |s.workers| {
        if x in s.prio[1..] { assert x in s.prio; }
      }
    }
  }

  lemma {:induction false} ShapedClear(s: State, c: nat)
    requires Shaped(s) && c < |s.clears| && !s.clears[c].Cleared?
    ensures Shaped(DoClear(s, c))
  {
  }
}
