/** The thread pool's promises over whole runs. */
module PoolRuns {
  import opened SafeQueues
  import opened Sums
  import opened ThreadPools
  import opened PoolSafety

  ghost predicate Inv(s: State)
  {
    && Shaped(s)
    && CountersExact(s)
    && Conserved(s)
    && PrioExact(s)
    && NoneStranded(s)
    && WillSignal(s)
    && Accepting(s)
  }

  lemma {:induction false} InitInv(n: nat)
    ensures Inv(Init(n))
  {
    InitCounters(n);
    InitConserved(n);
    InitPrio(n);
    InitShaped(n);
  }

  lemma {:induction false} InitPrio(n: nat)
    ensures PrioExact(Init(n))
  {
    assert Init(n).prio == Ids(n);
  }

  lemma {:induction false} InitShaped(n: nat)
    ensures Shaped(Init(n)) && NoneStranded(Init(n))
  {
  }

  lemma {:induction false} InitCounters(n: nat)
    ensures CountersExact(Init(n))
  {
    TotalInit(n, Pending());
    TotalInit(n, Flight());
  }

  lemma {:induction false} InitConserved(n: nat)
    ensures Conserved(Init(n))
  {
    forall t: Task ensures Places(Init(n), t) == B(t < Init(n).next) {
      TotalInit(n, Holds(t));
    }
  }

  lemma {:induction false} TotalInit(n: nat, f: Weights)
    requires f.queue([]) == 0 && f.worker(Parked) == 0
    ensures Total(Init(n), f) == 0
  {
    var s := Init(n);
    SumZero(s.queues, f.queue);
    SumZero(s.workers, f.worker);
  }

  lemma {:induction false} StepInv(s: State, st: Step)
    requires Inv(s) && Enabled(s, st)
    ensures Inv(Do(s, st))
  {
    CountersStep(s, st);
    ConservedStep(s, st);
    PrioStep(s, st);
    StrandedStep(s, st);
    SignalStep(s, st);
    AcceptingStep(s, st);
  }

  // ----- runs -----

  predicate Runs(s: State, steps: seq<Step>)
    decreases |steps|
  {
    steps == [] || (Shaped(s) && Enabled(s, steps[0]) && Runs(Do(s, steps[0]), steps[1..]))
  }

  function Final(s: State, steps: seq<Step>): State
    requires Runs(s, steps)
    decreases |steps|
  {
    if steps == [] then s else Final(Do(s, steps[0]), steps[1..])
  }

  // Every state of every run from a fresh pool satisfies the invariant.
  lemma {:induction false} SafeFrom(s: State, steps: seq<Step>)
    requires Inv(s) && Runs(s, steps)
    ensures Inv(Final(s, steps))
    decreases |steps|
  {
    if steps != [] {
      StepInv(s, steps[0]);
      SafeFrom(Do(s, steps[0]), steps[1..]);
    }
  }

  lemma {:induction false} Safe(n: nat, steps: seq<Step>)
    requires Runs(Init(n), steps)
    ensures Inv(Final(Init(n), steps))
  {
    InitInv(n);
    SafeFrom(Init(n), steps);
  }

  // ----- no stranded task -----

  // No call, worker or clear can move: only new requests or waiters could.
  ghost predicate Idle(s: State)
  {
    forall st: Step | Enabled(s, st) :: st.Enqueue? || st.StartClear? || st.StartWait? || st.WaitStep?
  }

  lemma {:induction false} IdleFacts(s: State)
    requires Shaped(s) && Idle(s)
    ensures forall w | 0 <= w < |s.workers| :: s.workers[w].Parked? && !s.sems[w]
    ensures forall c | 0 <= c < |s.calls| :: s.calls[c].Returned?
    ensures forall c | 0 <= c < |s.clears| :: s.clears[c].Cleared?
  {
    forall w | 0 <= w < |s.workers| ensures s.workers[w].Parked? && !s.sems[w] {
      var k: nat := if SomeBlocked(s) then BlockedOne(s) else 0;
      assert !Enabled(s, WorkerStep(w)) && !Enabled(s, Notify(w, k));
    }
    forall c | 0 <= c < |s.calls| ensures s.calls[c].Returned? { assert !Enabled(s, CallStep(c)); }
    forall c | 0 <= c < |s.clears| ensures s.clears[c].Cleared? { assert !Enabled(s, ClearStep(c)); }
  }

  ghost function BlockedOne(s: State): (k: nat)
    requires SomeBlocked(s)
    ensures k < |s.waiters| && s.waiters[k].Blocked?
  {
    var k :| 0 <= k < |s.waiters| && s.waiters[k] == Blocked;
    k
  }

  // Times t was removed by clear_tasks.
  ghost function ClearedTimes(t: Task): Clear -> int { (c: Clear) => Occurs(c.removed, t) }

  // In every interleaving, once nothing can move, no task is stranded: the queues are empty,
  // both counters are zero, every submitted task was executed, cleared or dropped, exactly once,
  // and the completion signal is up if a task was ever accepted.
  lemma {:induction false} NoTaskStranded(n: nat, steps: seq<Step>)
    requires Runs(Init(n), steps) && Idle(Final(Init(n), steps))
    ensures var s := Final(Init(n), steps);
            && (forall i | 0 <= i < |s.queues| :: s.queues[i] == [])
            && s.unassigned == 0 && s.inflight == 0
            && (forall t: Task ::
                  Occurs(s.done, t) + Sum(s.clears, ClearedTimes(t)) + Occurs(s.dropped, t) == B(t < s.next))
            && (s.next > |s.dropped| ==> s.complete)
  {
    var s := Final(Init(n), steps);
    Safe(n, steps);
    IdleFacts(s);
    forall i | 0 <= i < |s.queues| ensures s.queues[i] == [] {
      assert s.queues[i] != [] ==> Covered(s, i);
    }
    IdleTotal(s, Pending());
    IdleTotal(s, Flight());
    SumZero(s.clears, Pending().clear);
    SumZero(s.clears, Flight().clear);
    forall t: Task ensures Occurs(s.done, t) + Sum(s.clears, ClearedTimes(t)) + Occurs(s.dropped, t) == B(t < s.next) {
      IdleTotal(s, Holds(t));
      assert Places(s, t) == B(t < s.next);
      SumSame(s.clears, Holds(t).clear, ClearedTimes(t));
    }
  }

  // When all is idle, only clears can carry weight.
  lemma {:induction false} IdleTotal(s: State, f: Weights)
    requires forall w | 0 <= w < |s.workers| :: s.workers[w].Parked?
    requires forall c | 0 <= c < |s.calls| :: s.calls[c].Returned?
    requires forall i | 0 <= i < |s.queues| :: s.queues[i] == []
    requires f.queue([]) == 0 && f.worker(Parked) == 0 && f.call(Returned) == 0
    ensures Total(s, f) == Sum(s.clears, f.clear)
  {
    SumZero(s.workers, f.worker);
    SumZero(s.calls, f.call);
    SumZero(s.queues, f.queue);
  }

  // ----- exactly once, and the counters -----

  // Every submitted task is at all times in exactly one place; so none runs twice.
  lemma {:induction false} ExactlyOnce(n: nat, steps: seq<Step>, t: Task)
    requires Runs(Init(n), steps)
    ensures var s := Final(Init(n), steps);
            Places(s, t) == B(t < s.next) && Occurs(s.done, t) <= 1
  {
    var s := Final(Init(n), steps);
    Safe(n, steps);
    assert Places(s, t) == B(t < s.next);
    HeldTimes(s, t);
  }

  lemma {:induction false} HeldTimes(s: State, t: Task)
    ensures Total(s, Holds(t)) >= 0
  {
    var f := Holds(t);
    SumBounds(s.calls, f.call);
    SumBounds(s.queues, f.queue);
    SumBounds(s.workers, f.worker);
    SumBounds(s.clears, f.clear);
  }

  // wait_for_tasks returns only at a moment when nothing is queued, claimed or running.
  lemma {:induction false} WaitReturnsWhenDrained(n: nat, steps: seq<Step>, k: nat)
    requires Runs(Init(n), steps)
    requires k < |Final(Init(n), steps).waiters| && Final(Init(n), steps).waiters[k].Testing?
    requires DoWait(Final(Init(n), steps), k).waiters[k].Released?
    ensures var s := Final(Init(n), steps);
            && (forall i | 0 <= i < |s.queues| :: s.queues[i] == [])
            && (forall w | 0 <= w < |s.workers| :: !HasTask(s.workers[w]))
  {
    var s := Final(Init(n), steps);
    Safe(n, steps);
    PendingBounds(s);
    assert s.inflight == 0;
  }

  // The priority list is always a permutation of the thread ids.
  lemma {:induction false} PriorityIsPermutation(n: nat, steps: seq<Step>)
    requires Runs(Init(n), steps)
    ensures multiset(Final(Init(n), steps).prio) == multiset(Ids(|Final(Init(n), steps).workers|))
  {
    Safe(n, steps);
  }

  // ----- waiters -----

  // No state of the run has two blocked threads.
  predicate NeverTwoBlocked(s: State, steps: seq<Step>)
    requires Runs(s, steps)
    decreases |steps|
  {
    AtMostOneBlocked(s) && (steps == [] || NeverTwoBlocked(Do(s, steps[0]), steps[1..]))
  }

  lemma {:induction false} WaiterSafeFrom(s: State, steps: seq<Step>)
    requires Runs(s, steps) && WaiterSafe(s) && NeverTwoBlocked(s, steps)
    ensures WaiterSafe(Final(s, steps))
    decreases |steps|
  {
    if steps != [] {
      WaiterStep(s, steps[0]);
      WaiterSafeFrom(Do(s, steps[0]), steps[1..]);
    }
  }

  // Threads that wait, however many and however often, are all released once the pool is idle,
  // provided no two of them were ever blocked at the same time.
  lemma {:induction false} WaitersReleased(n: nat, steps: seq<Step>)
    requires Runs(Init(n), steps) && Idle(Final(Init(n), steps)) && NeverTwoBlocked(Init(n), steps)
    ensures !SomeBlocked(Final(Init(n), steps))
  {
    var s := Final(Init(n), steps);
    NoTaskStranded(n, steps);
    Safe(n, steps);
    IdleFacts(s);
    WaiterSafeFrom(Init(n), steps);
    if SomeBlocked(s) { BlockedAccepted(s); }
  }

  lemma {:induction false} BlockedAccepted(s: State)
    requires Accepting(s) && SomeBlocked(s)
    ensures s.next > |s.dropped|
  {
    var k := BlockedOne(s);
    assert s.waiters[k].Blocked?;
  }

  // Waiters are never fewer than before.
  lemma {:induction false} WaitersGrow(s: State, steps: seq<Step>)
    requires Runs(s, steps)
    ensures |s.waiters| <= |Final(s, steps).waiters|
    decreases |steps|
  {
    if steps != [] {
      WaitersGrowStep(s, steps[0]);
      WaitersGrow(Do(s, steps[0]), steps[1..]);
    }
  }

  lemma {:induction false} WaitersGrowStep(s: State, st: Step)
    requires Shaped(s) && Enabled(s, st)
    ensures |s.waiters| <= |Do(s, st).waiters|
  {
    match st
    case CallStep(c) => CallLeavesWaiters(s, c);
    case WorkerStep(w) => WorkerLeavesWaiters(s, w);
    case _ =>
  }

  lemma {:induction false} WorkerLeavesWaiters(s: State, w: nat)
    requires Shaped(s) && w < |s.workers| && !s.workers[w].Notifying?
    ensures DoWorker(s, w).waiters == s.waiters
  {
  }

  lemma {:induction false} OneNeverTwo(s: State, steps: seq<Step>)
    requires Runs(s, steps) && |Final(s, steps).waiters| <= 1
    ensures NeverTwoBlocked(s, steps)
    decreases |steps|
  {
    WaitersGrow(s, steps);
    if steps != [] {
      OneNeverTwo(Do(s, steps[0]), steps[1..]);
    }
  }

  // A thread that waits alone is never left blocked once the pool is idle.
  lemma {:induction false} LoneWaiterReleased(n: nat, steps: seq<Step>)
    requires Runs(Init(n), steps) && Idle(Final(Init(n), steps)) && |Final(Init(n), steps).waiters| <= 1
    ensures !SomeBlocked(Final(Init(n), steps))
  {
    OneNeverTwo(Init(n), steps);
    WaitersReleased(n, steps);
  }
}
