/** Safety of the thread pool over every interleaving: counters, conservation of tasks, the
  * priority list, no stranded task, and no waiter left behind. */
module PoolSafety {
  import opened SafeQueues
  import opened Sums
  import opened ThreadPools

  // ----- weighing a state -----

  // A weight for every place a task can be in.
  datatype Weights = Weights(call: Call -> int, queue: seq<Task> -> int, worker: Worker -> int, clear: Clear -> int)

  ghost function Total(s: State, f: Weights): int
  {
    Sum(s.calls, f.call) + Sum(s.queues, f.queue) + Sum(s.workers, f.worker) + Sum(s.clears, f.clear)
  }

  // How a step moves weight: from the old values of what it changes to the new ones.
  ghost function CallDelta(s: State, c: nat, f: Weights): int
    requires Shaped(s) && c < |s.calls| && !s.calls[c].Returned?
  {
    var s' := DoCall(s, c);
    f.call(s'.calls[c]) - f.call(s.calls[c]) +
    (if s.calls[c].Pushing? then f.queue(s'.queues[s.calls[c].i]) - f.queue(s.queues[s.calls[c].i]) else 0)
  }

  // The queue a worker's step may take from.
  function Source(s: State, w: nat): nat
    requires w < |s.workers|
  {
    if s.workers[w].Stealing? then (w + s.workers[w].j) % |s.workers| else w
  }

  ghost function WorkerDelta(s: State, w: nat, f: Weights): int
    requires Shaped(s) && w < |s.workers| && !s.workers[w].Notifying?
  {
    var s', v := DoWorker(s, w), Source(s, w);
    f.worker(s'.workers[w]) - f.worker(s.workers[w]) + f.queue(s'.queues[v]) - f.queue(s.queues[v])
  }

  ghost function ClearDelta(s: State, c: nat, f: Weights): int
    requires Shaped(s) && c < |s.clears| && !s.clears[c].Cleared?
  {
    var s' := DoClear(s, c);
    f.clear(s'.clears[c]) - f.clear(s.clears[c]) +
    (if s.clears[c].Emptying? && s.clears[c].k < |s.workers| then f.queue([]) - f.queue(s.queues[s.clears[c].k]) else 0)
  }

  ghost function Delta(s: State, st: Step, f: Weights): int
    requires Shaped(s) && Enabled(s, st)
  {
    match st
    case Enqueue => if s.prio == [] then 0 else f.call(Chosen(s.prio[0], s.next))
    case CallStep(c) => CallDelta(s, c, f)
    case WorkerStep(w) => WorkerDelta(s, w, f)
    case Notify(w, k) => f.worker(Parked) - f.worker(Notifying)
    case StartClear => f.clear(Emptying(0, []))
    case ClearStep(c) => ClearDelta(s, c, f)
    case StartWait => 0
    case WaitStep(k) => 0
  }

  lemma {:induction false} TotalCall(s: State, c: nat, f: Weights)
    requires Shaped(s) && c < |s.calls| && !s.calls[c].Returned?
    ensures Total(DoCall(s, c), f) == Total(s, f) + CallDelta(s, c, f)
  {
    var s' := DoCall(s, c);
    SumUpdate(s.calls, c, s'.calls[c], f.call);
    if s.calls[c].Pushing? { SumUpdate(s.queues, s.calls[c].i, s'.queues[s.calls[c].i], f.queue); }
  }

  lemma {:induction false} TotalWorker(s: State, w: nat, f: Weights)
    requires Shaped(s) && w < |s.workers| && !s.workers[w].Notifying?
    ensures Total(DoWorker(s, w), f) == Total(s, f) + WorkerDelta(s, w, f)
  {
    var s', v := DoWorker(s, w), Source(s, w);
    SumUpdate(s.workers, w, s'.workers[w], f.worker);
    SumUpdate(s.queues, v, s'.queues[v], f.queue);
    assert s'.queues == s.queues[v := s'.queues[v]];
  }

  lemma {:induction false} TotalClear(s: State, c: nat, f: Weights)
    requires Shaped(s) && c < |s.clears| && !s.clears[c].Cleared?
    ensures Total(DoClear(s, c), f) == Total(s, f) + ClearDelta(s, c, f)
  {
    var s' := DoClear(s, c);
    SumUpdate(s.clears, c, s'.clears[c], f.clear);
    if s.clears[c].Emptying? && s.clears[c].k < |s.workers| { SumUpdate(s.queues, s.clears[c].k, [], f.queue); }
  }

  lemma {:induction false} TotalStep(s: State, st: Step, f: Weights)
    requires Shaped(s) && Enabled(s, st)
    ensures Total(Do(s, st), f) == Total(s, f) + Delta(s, st, f)
  {
    match st
    case Enqueue => if s.prio != [] { SumAppend(s.calls, Chosen(s.prio[0], s.next), f.call); }
    case CallStep(c) => TotalCall(s, c, f);
    case WorkerStep(w) => TotalWorker(s, w, f);
    case Notify(w, k) => SumUpdate(s.workers, w, Parked, f.worker);
    case StartClear => SumAppend(s.clears, Emptying(0, []), f.clear);
    case ClearStep(c) => TotalClear(s, c, f);
    case _ =>
  }

  // ----- the two counters -----

  // A task is in the worker's hands.
  predicate HasTask(w: Worker) { w.Claimed? || w.Running? || w.Finished? }

  // Counted in unassigned_tasks_: announced, queued, claimed but not yet subtracted, or removed
  // by a clear that has not subtracted yet.
  ghost function Pending(): Weights
  {
    Weights((c: Call) => B(c.Counted? || c.Resetting? || c.Pushing?),
            (q: seq<Task>) => |q|,
            (w: Worker) => B(w.Claimed?),
            (c: Clear) => if c.Cleared? then 0 else |c.removed|)
  }

  // Counted in in_flight_tasks_: the same, up to the end of the task's execution.
  ghost function Flight(): Weights
  {
    Weights((c: Call) => B(c.Resetting? || c.Pushing?),
            (q: seq<Task>) => |q|,
            (w: Worker) => B(HasTask(w)),
            (c: Clear) => if c.Emptying? || c.LowerFlight? then |c.removed| else 0)
  }

  ghost predicate CountersExact(s: State)
  {
    s.unassigned == Total(s, Pending()) && s.inflight == Total(s, Flight())
  }

  lemma {:induction false} CountersWorker(s: State, w: nat)
    requires Shaped(s) && w < |s.workers| && !s.workers[w].Notifying?
    ensures DoWorker(s, w).unassigned == s.unassigned + WorkerDelta(s, w, Pending())
    ensures DoWorker(s, w).inflight == s.inflight + WorkerDelta(s, w, Flight())
  {
    match s.workers[w]
    case _ =>
  }

  lemma {:induction false} CountersCall(s: State, c: nat)
    requires Shaped(s) && c < |s.calls| && !s.calls[c].Returned?
    ensures DoCall(s, c).unassigned == s.unassigned + CallDelta(s, c, Pending())
    ensures DoCall(s, c).inflight == s.inflight + CallDelta(s, c, Flight())
  {
    match s.calls[c]
    case _ =>
  }

  lemma {:induction false} CountersStep(s: State, st: Step)
    requires Shaped(s) && Enabled(s, st) && CountersExact(s)
    ensures CountersExact(Do(s, st))
  {
    TotalStep(s, st, Pending());
    TotalStep(s, st, Flight());
    CountersDelta(s, st);
  }

  lemma {:induction false} CountersDelta(s: State, st: Step)
    requires Shaped(s) && Enabled(s, st)
    ensures Do(s, st).unassigned == s.unassigned + Delta(s, st, Pending())
    ensures Do(s, st).inflight == s.inflight + Delta(s, st, Flight())
  {
    match st
    case WorkerStep(w) => CountersWorker(s, w);
    case CallStep(c) => CountersCall(s, c);
    case _ =>
  }

  // ----- conservation of tasks -----

  // How often t occurs in q.
  function Occurs(q: seq<Task>, t: Task): nat
  {
    if q == [] then 0 else B(q[0] == t) + Occurs(q[1..], t)
  }

  // Where task t is, among the places that hold tasks.
  ghost function Holds(t: Task): Weights
  {
    Weights((c: Call) => B((c.Chosen? || c.Counted? || c.Resetting? || c.Pushing?) && c.task == t),
            (q: seq<Task>) => Occurs(q, t),
            (w: Worker) => B((w.Claimed? || w.Running? || w.Finished?) && w.task == t),
            (c: Clear) => Occurs(c.removed, t))
  }

  ghost function Places(s: State, t: Task): int
  {
    Total(s, Holds(t)) + Occurs(s.done, t) + Occurs(s.dropped, t)
  }

  // Every submitted task is in exactly one place, once; nothing else is anywhere.
  ghost predicate Conserved(s: State)
  {
    forall t: Task :: Places(s, t) == B(t < s.next)
  }

  lemma {:induction false} OccursConcat(p: seq<Task>, q: seq<Task>, t: Task)
    ensures Occurs(p + q, t) == Occurs(p, t) + Occurs(q, t)
  {
    if p == [] {
      assert p + q == q;
    } else {
      OccursConcat(p[1..], q, t);
      assert (p + q)[1..] == p[1..] + q;
    }
  }

  lemma {:induction false} OccursAppend(q: seq<Task>, x: Task, t: Task)
    ensures Occurs(q + [x], t) == Occurs(q, t) + B(x == t)
  {
    OccursConcat(q, [x], t);
    assert Occurs([x], t) == B(x == t) + Occurs([x][1..], t);
  }

  lemma {:induction false} OccursSplit(q: seq<Task>, t: Task)
    requires q != []
    ensures Occurs(q, t) == B(q[0] == t) + Occurs(q[1..], t)
    ensures Occurs(q, t) == Occurs(q[..|q| - 1], t) + B(q[|q| - 1] == t)
  {
    assert q == q[..|q| - 1] + [q[|q| - 1]];
    OccursAppend(q[..|q| - 1], q[|q| - 1], t);
  }

  lemma {:induction false} HoldsPopping(s: State, w: nat, t: Task)
    requires Shaped(s) && w < |s.workers| && s.workers[w].Popping?
    ensures WorkerDelta(s, w, Holds(t)) == 0 && DoWorker(s, w).done == s.done
  {
    if s.queues[w] != [] { OccursSplit(s.queues[w], t); }
  }

  lemma {:induction false} HoldsStealing(s: State, w: nat, t: Task)
    requires Shaped(s) && w < |s.workers| && s.workers[w].Stealing?
    ensures WorkerDelta(s, w, Holds(t)) == 0 && DoWorker(s, w).done == s.done
  {
    var q := s.queues[Source(s, w)];
    if q != [] { OccursSplit(q, t); }
  }

  lemma {:induction false} HoldsWorker(s: State, w: nat, t: Task)
    requires Shaped(s) && w < |s.workers| && !s.workers[w].Notifying?
    ensures WorkerDelta(s, w, Holds(t)) + Occurs(DoWorker(s, w).done, t) == Occurs(s.done, t)
  {
    match s.workers[w]
    case Popping => HoldsPopping(s, w, t);
    case Stealing(_) => HoldsStealing(s, w, t);
    case Finished(x, _) => OccursAppend(s.done, x, t);
    case _ =>
  }

  lemma {:induction false} HoldsCall(s: State, c: nat, t: Task)
    requires Shaped(s) && c < |s.calls| && !s.calls[c].Returned?
    ensures CallDelta(s, c, Holds(t)) == 0
  {
    if s.calls[c].Pushing? {
      OccursAppend(s.queues[s.calls[c].i], s.calls[c].task, t);
    }
  }

  lemma {:induction false} HoldsClear(s: State, c: nat, t: Task)
    requires Shaped(s) && c < |s.clears| && !s.clears[c].Cleared?
    ensures ClearDelta(s, c, Holds(t)) == 0
  {
    if s.clears[c].Emptying? && s.clears[c].k < |s.workers| {
      OccursConcat(s.clears[c].removed, s.queues[s.clears[c].k], t);
    }
  }

  lemma {:induction false} ConservedStep(s: State, st: Step)
    requires Shaped(s) && Enabled(s, st) && Conserved(s)
    ensures Conserved(Do(s, st))
  {
    forall t: Task ensures Places(Do(s, st), t) == B(t < Do(s, st).next) {
      TotalStep(s, st, Holds(t));
      assert Places(s, t) == B(t < s.next);
      PlacesDelta(s, st, t);
    }
  }

  lemma {:induction false} PlacesDelta(s: State, st: Step, t: Task)
    requires Shaped(s) && Enabled(s, st)
    ensures var s' := Do(s, st);
            Delta(s, st, Holds(t)) + Occurs(s'.done, t) - Occurs(s.done, t) +
            Occurs(s'.dropped, t) - Occurs(s.dropped, t)
            == B(t < s'.next) - B(t < s.next)
  {
    match st
    case WorkerStep(w) => HoldsWorker(s, w, t); WorkerKeeps(s, w);
    case CallStep(c) => HoldsCall(s, c, t); CallKeeps(s, c);
    case ClearStep(c) => HoldsClear(s, c, t); ClearKeeps(s, c);
    case Enqueue => HoldsEnqueue(s, t);
    case _ =>
  }

  lemma {:induction false} WorkerKeeps(s: State, w: nat)
    requires Shaped(s) && w < |s.workers| && !s.workers[w].Notifying?
    ensures DoWorker(s, w).next == s.next && DoWorker(s, w).dropped == s.dropped
  {
  }

  lemma {:induction false} CallKeeps(s: State, c: nat)
    requires Shaped(s) && c < |s.calls| && !s.calls[c].Returned?
    ensures DoCall(s, c).next == s.next && DoCall(s, c).dropped == s.dropped && DoCall(s, c).done == s.done
  {
  }

  lemma {:induction false} ClearKeeps(s: State, c: nat)
    requires Shaped(s) && c < |s.clears| && !s.clears[c].Cleared?
    ensures DoClear(s, c).next == s.next && DoClear(s, c).dropped == s.dropped && DoClear(s, c).done == s.done
  {
  }

  lemma {:induction false} HoldsEnqueue(s: State, t: Task)
    requires Shaped(s)
    ensures Delta(s, Enqueue, Holds(t)) + Occurs(DoEnqueue(s).dropped, t) - Occurs(s.dropped, t)
            == B(t < DoEnqueue(s).next) - B(t < s.next)
  {
    OccursAppend(s.dropped, s.next, t);
  }

  // ----- the priority list -----

  function Ids(n: nat): seq<nat> { seq(n, i => i) }

  ghost predicate PrioExact(s: State)
  {
    Permuted(s.prio, Ids(|s.workers|))
  }

  lemma {:induction false} IdInPrio(s: State, w: nat)
    requires PrioExact(s) && w < |s.workers|
    ensures w in s.prio
  {
    assert Ids(|s.workers|)[w] in multiset(Ids(|s.workers|));
    assert w in multiset(s.prio);
  }

  lemma {:induction false} PrioWorker(s: State, w: nat)
    requires Shaped(s) && w < |s.workers| && !s.workers[w].Notifying? && PrioExact(s)
    ensures PrioExact(DoWorker(s, w))
  {
    WorkerCount(s, w);
    if s.workers[w].Rotating? {
      IdInPrio(s, w);
      RotatedToFrontPermutes(s.prio, w);
    }
  }

  lemma {:induction false} WorkerCount(s: State, w: nat)
    requires Shaped(s) && w < |s.workers| && !s.workers[w].Notifying?
    ensures |DoWorker(s, w).workers| == |s.workers|
    ensures DoWorker(s, w).prio == if s.workers[w].Rotating? then RotatedToFront(s.prio, w) else s.prio
  {
  }

  lemma {:induction false} PrioStep(s: State, st: Step)
    requires Shaped(s) && Enabled(s, st) && PrioExact(s)
    ensures PrioExact(Do(s, st))
  {
    match st
    case Enqueue => if s.prio != [] { RotatedToBackPermutes(s.prio); }
    case WorkerStep(w) => PrioWorker(s, w);
    case _ =>
  }

  // ----- no stranded task -----

  // Between acquiring its signal and reading unassigned_tasks_ == 0.
  predicate Active(w: Worker)
  {
    w.Popping? || w.Claimed? || w.Running? || w.Finished? || w.Stealing? || w.Checking?
  }

  // Someone will look at queue i again.
  ghost predicate Covered(s: State, i: nat)
    requires i < |s.sems| && i < |s.workers|
  {
    s.sems[i] || Active(s.workers[i]) || WillRelease(s, i)
  }

  ghost predicate WillRelease(s: State, i: nat)
  {
    exists c :: 0 <= c < |s.calls| && s.calls[c] == Releasing(i)
  }

  ghost predicate NoneStranded(s: State)
    requires Shaped(s)
  {
    forall i | 0 <= i < |s.queues| && s.queues[i] != [] :: Covered(s, i)
  }

  // Weights are never negative, so an empty counter means empty places.
  lemma {:induction false} PendingBounds(s: State)
    requires Shaped(s) && CountersExact(s)
    ensures s.unassigned >= 0 && s.inflight >= 0
    ensures forall i | 0 <= i < |s.queues| :: |s.queues[i]| <= s.unassigned && |s.queues[i]| <= s.inflight
    ensures s.inflight == 0 ==>
              && (forall w | 0 <= w < |s.workers| :: !HasTask(s.workers[w]))
              && (forall c | 0 <= c < |s.calls| :: !s.calls[c].Resetting? && !s.calls[c].Pushing?)
  {
    var p, f := Pending(), Flight();
    SumBounds(s.calls, p.call);
    SumBounds(s.queues, p.queue);
    SumBounds(s.workers, p.worker);
    SumBounds(s.clears, p.clear);
    SumBounds(s.calls, f.call);
    SumBounds(s.queues, f.queue);
    SumBounds(s.workers, f.worker);
    SumBounds(s.clears, f.clear);
    assert forall i | 0 <= i < |s.queues| :: p.queue(s.queues[i]) == |s.queues[i]| == f.queue(s.queues[i]);
    if s.inflight == 0 {
      forall w | 0 <= w < |s.workers| ensures !HasTask(s.workers[w]) {
        assert f.worker(s.workers[w]) <= 0;
      }
      forall c | 0 <= c < |s.calls| ensures !s.calls[c].Resetting? && !s.calls[c].Pushing? {
        assert f.call(s.calls[c]) <= 0;
      }
    }
  }

  lemma {:induction false} StrandedCall(s: State, c: nat)
    requires Shaped(s) && c < |s.calls| && !s.calls[c].Returned? && NoneStranded(s)
    ensures Shaped(DoCall(s, c)) && NoneStranded(DoCall(s, c))
  {
    ShapedCall(s, c);
    var s' := DoCall(s, c);
    forall i | 0 <= i < |s'.queues| && s'.queues[i] != [] ensures Covered(s', i) {
      if s.calls[c].Pushing? && i == s.calls[c].i {
        assert s'.calls[c] == Releasing(i);
      } else {
        assert Covered(s, i);
        if WillRelease(s, i) {
          var d :| 0 <= d < |s.calls| && s.calls[d] == Releasing(i);
          assert d != c ==> s'.calls[d] == Releasing(i);
        }
      }
    }
  }

  // What a worker's step leaves alone.
  lemma {:induction false} WorkerFrame(s: State, w: nat)
    requires Shaped(s) && w < |s.workers| && !s.workers[w].Notifying?
    ensures var s' := DoWorker(s, w);
            && s'.calls == s.calls && |s'.queues| == |s.queues| && |s'.sems| == |s.sems| && |s'.workers| == |s.workers|
            && (forall i | 0 <= i < |s.workers| && i != w :: s'.sems[i] == s.sems[i] && s'.workers[i] == s.workers[i])
            && (forall i | 0 <= i < |s.queues| && s'.queues[i] != [] :: s.queues[i] != [])
  {
  }

  // A worker stays active until it finds nothing unassigned; a raised semaphore makes it active.
  lemma {:induction false} WorkerCovers(s: State, w: nat)
    requires Shaped(s) && w < |s.workers| && !s.workers[w].Notifying?
    requires s.sems[w] || Active(s.workers[w])
    ensures var s' := DoWorker(s, w);
            s'.sems[w] || Active(s'.workers[w]) || (s.workers[w].Checking? && s.unassigned <= 0)
  {
  }

  lemma {:induction false} StrandedWorker(s: State, w: nat)
    requires Shaped(s) && w < |s.workers| && !s.workers[w].Notifying? && NoneStranded(s) && CountersExact(s)
    ensures Shaped(DoWorker(s, w)) && NoneStranded(DoWorker(s, w))
  {
    ShapedWorker(s, w);
    PendingBounds(s);
    WorkerFrame(s, w);
    var s' := DoWorker(s, w);
    forall i | 0 <= i < |s'.queues| && s'.queues[i] != [] ensures Covered(s', i) {
      assert Covered(s, i);
      assert |s.queues[i]| <= s.unassigned;
      if i == w && (s.sems[w] || Active(s.workers[w])) { WorkerCovers(s, w); }
      assert WillRelease(s, i) ==> WillRelease(s', i);
    }
  }

  lemma {:induction false} StrandedStep(s: State, st: Step)
    requires Shaped(s) && Enabled(s, st) && NoneStranded(s) && CountersExact(s)
    ensures Shaped(Do(s, st)) && NoneStranded(Do(s, st))
  {
    match st
    case CallStep(c) => StrandedCall(s, c);
    case WorkerStep(w) => StrandedWorker(s, w);
    case ClearStep(c) => StrandedClear(s, c);
    case Notify(w, k) => StrandedNotify(s, w, k);
    case Enqueue => StrandedEnqueue(s);
    case WaitStep(k) => StrandedWait(s, k);
    case StartClear => StrandedKept(s, s.(clears := s.clears + [Emptying(0, [])]));
    case StartWait => StrandedKept(s, s.(waiters := s.waiters + [Testing]));
  }

  lemma {:induction false} StrandedWait(s: State, k: nat)
    requires Shaped(s) && k < |s.waiters| && !s.waiters[k].Blocked? && NoneStranded(s)
    ensures Shaped(DoWait(s, k)) && NoneStranded(DoWait(s, k))
  {
    StrandedKept(s, DoWait(s, k));
  }

  lemma {:induction false} StrandedNotify(s: State, w: nat, k: nat)
    requires Shaped(s) && Enabled(s, Notify(w, k)) && NoneStranded(s)
    ensures Shaped(DoNotify(s, w, k)) && NoneStranded(DoNotify(s, w, k))
  {
    StrandedKept(s, DoNotify(s, w, k));
  }

  lemma {:induction false} StrandedEnqueue(s: State)
    requires Shaped(s) && NoneStranded(s)
    ensures Shaped(DoEnqueue(s)) && NoneStranded(DoEnqueue(s))
  {
    ShapedEnqueue(s);
    StrandedKept(s, DoEnqueue(s));
  }

  lemma {:induction false} StrandedClear(s: State, c: nat)
    requires Shaped(s) && c < |s.clears| && !s.clears[c].Cleared? && NoneStranded(s)
    ensures Shaped(DoClear(s, c)) && NoneStranded(DoClear(s, c))
  {
    ShapedClear(s, c);
    StrandedKept(s, DoClear(s, c));
  }

  lemma {:induction false} StrandedKept(s: State, s': State)
    requires Shaped(s) && Shaped(s') && NoneStranded(s) && |s.workers| == |s'.workers|
    requires s'.sems == s.sems && s.calls <= s'.calls
    requires forall i | 0 <= i < |s.queues| && s'.queues[i] != [] :: s.queues[i] != []
    requires forall w | 0 <= w < |s.workers| && Active(s.workers[w]) :: Active(s'.workers[w])
    ensures NoneStranded(s')
  {
    forall i | 0 <= i < |s'.queues| && s'.queues[i] != [] ensures Covered(s', i) {
      assert Covered(s, i);
      if WillRelease(s, i) {
        var d :| 0 <= d < |s.calls| && s.calls[d] == Releasing(i);
        assert s'.calls[d] == Releasing(i);
      }
    }
  }

  // ----- the completion signal -----

  // Someone will still pass through the unassigned_tasks_ check.
  ghost predicate Attended(s: State)
  {
    || (exists c :: 0 <= c < |s.calls| && Midway(s.calls[c]))
    || (exists i :: 0 <= i < |s.sems| && s.sems[i])
    || (exists w :: 0 <= w < |s.workers| && Active(s.workers[w]))
  }

  predicate Midway(c: Call) { !c.Returned? }

  predicate BeforeSignal(w: Worker) { w.Rotating? || w.Polling? || w.Signalling? }

  ghost predicate SignalPending(s: State)
  {
    exists w :: 0 <= w < |s.workers| && BeforeSignal(s.workers[w])
  }

  // Unassigned work is attended to, and an unsignalled pool that has been used still has
  // someone on the way to the signal.
  ghost predicate WillSignal(s: State)
  {
    && (s.unassigned > 0 ==> Attended(s))
    && (!s.complete && s.next > |s.dropped| ==> Attended(s) || SignalPending(s))
  }

  lemma {:induction false} AttendedBy(s: State)
    requires Shaped(s) && CountersExact(s) && NoneStranded(s) && (s.unassigned > 0 ==> Attended(s))
    ensures s.inflight != 0 ==> Attended(s)
  {
    if s.inflight != 0 {
      var f := Flight();
      PendingBounds(s);
      SumBounds(s.calls, f.call);
      SumBounds(s.queues, f.queue);
      SumBounds(s.workers, f.worker);
      SumBounds(s.clears, f.clear);
      if Sum(s.calls, f.call) > 0 {
        var c :| 0 <= c < |s.calls| && f.call(s.calls[c]) > 0;
        assert Midway(s.calls[c]);
      } else if Sum(s.queues, f.queue) > 0 {
        var i :| 0 <= i < |s.queues| && f.queue(s.queues[i]) > 0;
        assert |s.queues[i]| <= s.unassigned;
      } else if Sum(s.workers, f.worker) > 0 {
        var w :| 0 <= w < |s.workers| && f.worker(s.workers[w]) > 0;
        assert Active(s.workers[w]);
      } else {
        var c :| 0 <= c < |s.clears| && f.clear(s.clears[c]) > 0;
        ClearsPending(s, c);
      }
    }
  }

  // A clear that has not lowered in_flight_tasks_ has not lowered unassigned_tasks_ either.
  lemma {:induction false} ClearsPending(s: State, c: nat)
    requires CountersExact(s) && c < |s.clears| && (s.clears[c].Emptying? || s.clears[c].LowerFlight?) &&
             s.clears[c].removed != []
    ensures s.unassigned > 0
  {
    var p := Pending();
    SumBounds(s.calls, p.call);
    SumBounds(s.queues, p.queue);
    SumBounds(s.workers, p.worker);
    SumBounds(s.clears, p.clear);
    assert p.clear(s.clears[c]) == |s.clears[c].removed|;
  }

  // Attention passes on as long as the worker that moves was not the one paying it.
  lemma {:induction false} AttendedWorker(s: State, w: nat)
    requires Shaped(s) && w < |s.workers| && !s.workers[w].Notifying? && Attended(s)
    requires Active(s.workers[w]) ==> Active(DoWorker(s, w).workers[w])
    ensures Attended(DoWorker(s, w))
  {
    var s' := DoWorker(s, w);
    assert s'.calls == s.calls;
    if Active(s'.workers[w]) {
    } else if exists c :: 0 <= c < |s.calls| && Midway(s.calls[c]) {
    } else if exists i :: 0 <= i < |s.sems| && s.sems[i] {
      assert s'.sems == s.sems;
    } else {
      var v :| 0 <= v < |s.workers| && Active(s.workers[v]);
      assert Active(s'.workers[v]);
    }
  }

  lemma {:induction false} SignalWorker(s: State, w: nat)
    requires Shaped(s) && w < |s.workers| && !s.workers[w].Notifying?
    requires CountersExact(s) && NoneStranded(s) && WillSignal(s)
    ensures WillSignal(DoWorker(s, w))
  {
    var s' := DoWorker(s, w);
    AttendedBy(s);
    PendingBounds(s);
    assert s'.unassigned <= s.unassigned && s'.next == s.next && s'.dropped == s.dropped;
    if Active(s.workers[w]) && !Active(s'.workers[w]) {
      assert BeforeSignal(s'.workers[w]);
    } else {
      if Attended(s) { AttendedWorker(s, w); }
      if !Attended(s) && SignalPending(s) && !s'.complete {
        var v :| 0 <= v < |s.workers| && BeforeSignal(s.workers[v]);
        assert BeforeSignal(s'.workers[v]);
      }
    }
  }

  lemma {:induction false} SignalKept(s: State, s': State)
    requires WillSignal(s) && s.calls <= s'.calls && s.sems == s'.sems && |s.workers| == |s'.workers|
    requires s'.unassigned <= s.unassigned && s'.complete == s.complete
    requires s'.next - |s'.dropped| <= s.next - |s.dropped|
    requires forall w | 0 <= w < |s.workers| && !s.workers[w].Notifying? :: s'.workers[w] == s.workers[w]
    ensures WillSignal(s')
  {
    if Attended(s) {
      if exists c :: 0 <= c < |s.calls| && Midway(s.calls[c]) {
        var c :| 0 <= c < |s.calls| && Midway(s.calls[c]);
        assert s'.calls[c] == s.calls[c];
      } else if exists w :: 0 <= w < |s.workers| && Active(s.workers[w]) {
        var w :| 0 <= w < |s.workers| && Active(s.workers[w]);
        assert Active(s'.workers[w]);
      }
      assert Attended(s');
    }
    if SignalPending(s) {
      var v :| 0 <= v < |s.workers| && BeforeSignal(s.workers[v]);
      assert BeforeSignal(s'.workers[v]);
    }
  }

  lemma {:induction false} SignalCall(s: State, c: nat)
    requires Shaped(s) && c < |s.calls| && !s.calls[c].Returned?
    ensures WillSignal(DoCall(s, c))
  {
    var s' := DoCall(s, c);
    if s.calls[c].Releasing? {
      assert s'.sems[s.calls[c].i];
    } else {
      assert Midway(s'.calls[c]);
    }
  }

  lemma {:induction false} SignalEnqueue(s: State)
    requires Shaped(s) && WillSignal(s)
    ensures WillSignal(DoEnqueue(s))
  {
    if s.prio == [] {
      SignalKept(s, DoEnqueue(s));
    } else {
      assert Midway(DoEnqueue(s).calls[|s.calls|]);
    }
  }

  lemma {:induction false} SignalStep(s: State, st: Step)
    requires Shaped(s) && Enabled(s, st) && CountersExact(s) && NoneStranded(s) && WillSignal(s)
    ensures WillSignal(Do(s, st))
  {
    match st
    case Enqueue => SignalEnqueue(s);
    case CallStep(c) => SignalCall(s, c);
    case WorkerStep(w) => SignalWorker(s, w);
    case Notify(w, k) => SignalNotify(s, w, k);
    case ClearStep(c) => SignalClear(s, c);
    case WaitStep(k) => SignalWait(s, k);
    case _ => SignalKept(s, Do(s, st));
  }

  lemma {:induction false} SignalNotify(s: State, w: nat, k: nat)
    requires Shaped(s) && Enabled(s, Notify(w, k)) && WillSignal(s)
    ensures WillSignal(DoNotify(s, w, k))
  {
    SignalKept(s, DoNotify(s, w, k));
  }

  lemma {:induction false} SignalClear(s: State, c: nat)
    requires Shaped(s) && c < |s.clears| && !s.clears[c].Cleared? && WillSignal(s)
    ensures WillSignal(DoClear(s, c))
  {
    SignalKept(s, DoClear(s, c));
  }

  lemma {:induction false} SignalWait(s: State, k: nat)
    requires Shaped(s) && k < |s.waiters| && !s.waiters[k].Blocked? && WillSignal(s)
    ensures WillSignal(DoWait(s, k))
  {
    SignalKept(s, DoWait(s, k));
  }

  // ----- waiters -----

  ghost predicate Notified(s: State)
  {
    exists w :: 0 <= w < |s.workers| && s.workers[w].Notifying?
  }

  // A thread blocked although the signal is up has a notification under way.
  ghost predicate WaiterSafe(s: State)
  {
    s.complete && SomeBlocked(s) ==> Notified(s)
  }

  predicate AtMostOneBlocked(s: State)
  {
    forall j, k | 0 <= j < k < |s.waiters| :: !s.waiters[j].Blocked? || !s.waiters[k].Blocked?
  }

  lemma {:induction false} WaiterWorker(s: State, w: nat)
    requires Shaped(s) && w < |s.workers| && !s.workers[w].Notifying? && WaiterSafe(s)
    ensures WaiterSafe(DoWorker(s, w))
  {
    var s' := DoWorker(s, w);
    if s.workers[w].Signalling? {
      assert s'.workers[w].Notifying?;
    } else if Notified(s) {
      var v :| 0 <= v < |s.workers| && s.workers[v].Notifying?;
      assert s'.workers[v].Notifying?;
    }
  }

  // A notification wakes the only thread that is blocked.
  lemma {:induction false} WaiterNotify(s: State, w: nat, k: nat)
    requires Enabled(s, Notify(w, k)) && AtMostOneBlocked(s)
    ensures !SomeBlocked(DoNotify(s, w, k))
  {
    var s' := DoNotify(s, w, k);
    forall j | 0 <= j < |s'.waiters| ensures !s'.waiters[j].Blocked? {
      if s.waiters[j].Blocked? {
        assert s.waiters[j] in s.waiters;
        assert j == k;
      }
    }
  }

  lemma {:induction false} WaiterWait(s: State, k: nat)
    requires k < |s.waiters| && !s.waiters[k].Blocked? && WaiterSafe(s)
    ensures WaiterSafe(DoWait(s, k))
  {
    var s' := DoWait(s, k);
    if s'.complete && SomeBlocked(s') {
      var j :| 0 <= j < |s'.waiters| && s'.waiters[j] == Blocked;
      assert s.waiters[j] in s.waiters;
    }
  }

  lemma {:induction false} WaiterStep(s: State, st: Step)
    requires Shaped(s) && Enabled(s, st) && WaiterSafe(s) && AtMostOneBlocked(s)
    ensures WaiterSafe(Do(s, st))
  {
    match st
    case WorkerStep(w) => WaiterWorker(s, w);
    case Notify(w, k) => WaiterNotify(s, w, k);
    case WaitStep(k) => WaiterWait(s, k);
    case CallStep(c) => CallLeavesWaiters(s, c);
    case _ =>
  }

  lemma {:induction false} CallLeavesWaiters(s: State, c: nat)
    requires Shaped(s) && c < |s.calls| && !s.calls[c].Returned?
    ensures var s' := DoCall(s, c);
            s'.waiters == s.waiters && s'.workers == s.workers && (s'.complete ==> s.complete)
  {
  }

  // ----- accepted tasks -----

  // Each accepted task has its call; before the first one nothing is in flight, and no thread
  // gets as far as waiting.
  predicate Accepting(s: State)
  {
    && |s.calls| + |s.dropped| == s.next
    && (s.calls == [] ==> s.inflight <= 0)
    && (forall k | 0 <= k < |s.waiters| && s.calls == [] :: !s.waiters[k].Comparing? && !s.waiters[k].Blocked?)
  }

  lemma {:induction false} AcceptingWorker(s: State, w: nat)
    requires Shaped(s) && w < |s.workers| && !s.workers[w].Notifying? && Accepting(s)
    ensures Accepting(DoWorker(s, w))
  {
    WorkerKeeps(s, w);
    var s' := DoWorker(s, w);
    assert s'.calls == s.calls && s'.waiters == s.waiters && s'.inflight <= s.inflight;
  }

  lemma {:induction false} AcceptingStep(s: State, st: Step)
    requires Shaped(s) && Enabled(s, st) && Accepting(s)
    ensures Accepting(Do(s, st))
  {
    match st
    case WorkerStep(w) => AcceptingWorker(s, w);
    case CallStep(c) => CallKeeps(s, c);
    case ClearStep(c) => ClearKeeps(s, c);
    case Notify(w, k) =>
      if SomeBlocked(s) { assert s.waiters[k].Blocked?; }
    case _ =>
  }
}
