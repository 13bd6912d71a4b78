/** When threads in wait_for_tasks are left blocked: notify_one wakes one of them, so with two or
  * more callers, and only then, an idle pool may leave some asleep. */
module PoolWaiters {
  import opened SafeQueues
  import opened ThreadPools
  import opened PoolSafety
  import opened PoolRuns

  ghost predicate Reached(n: nat, s: State)
  {
    exists steps :: Runs(Init(n), steps) && Final(Init(n), steps) == s
  }

  lemma {:induction false} Extend(s: State, steps: seq<Step>, st: Step)
    requires Runs(s, steps) && Shaped(Final(s, steps)) && Enabled(Final(s, steps), st)
    ensures Runs(s, steps + [st]) && Final(s, steps + [st]) == Do(Final(s, steps), st)
    decreases |steps|
  {
    if steps == [] {
      assert (steps + [st])[1..] == [];
    } else {
      Extend(Do(s, steps[0]), steps[1..], st);
      assert (steps + [st])[1..] == steps[1..] + [st];
    }
  }

  lemma {:induction false} Go(n: nat, s: State, st: Step) returns (s': State)
    requires Reached(n, s) && Shaped(s) && Enabled(s, st)
    ensures s' == Do(s, st) && Reached(n, s') && Shaped(s')
  {
    var steps :| Runs(Init(n), steps) && Final(Init(n), steps) == s;
    Extend(Init(n), steps, st);
    ShapedStep(s, st);
    s' := Do(s, st);
  }

  // A reached state of a pool that was given one task, for worker 0, while the others sleep: the
  // queue and semaphore of worker 0, the counters and the signal, its place and that of the call.
  ghost predicate At(n: nat, s: State, q: seq<Task>, sem: bool, u: int, f: int, complete: bool, w: Worker, call: Call)
  {
    && Reached(n, s) && Shaped(s) && |s.workers| > 0
    && s.queues[0] == q && s.sems[0] == sem && s.workers[0] == w
    && (forall i | 0 < i < |s.workers| :: s.queues[i] == [] && !s.sems[i] && s.workers[i] == Parked)
    && s.unassigned == u && s.inflight == f && s.complete == complete
    && s.calls == [call] && s.clears == []
  }

  lemma {:induction false} Announced(n: nat) returns (s: State)
    requires n > 0
    ensures At(n, s, [], false, 1, 1, false, Parked, Resetting(0, 0)) && s.waiters == []
  {
    assert Runs(Init(n), []) && Final(Init(n), []) == Init(n);
    s := Go(n, Init(n), Enqueue);
    assert s.calls == [Chosen(0, 0)];
    s := Go(n, s, CallStep(0));
    s := Go(n, s, CallStep(0));
  }

  function Asleep(m: nat): seq<Waiter> { seq(m, _ => Blocked) }

  // m threads, one after the other, see work in flight and no signal.
  lemma {:induction false} AllWait(n: nat, s0: State, m: nat) returns (s: State)
    requires At(n, s0, [], false, 1, 1, false, Parked, Resetting(0, 0)) && s0.waiters == []
    ensures At(n, s, [], false, 1, 1, false, Parked, Resetting(0, 0)) && s.waiters == Asleep(m)
  {
    if m == 0 {
      s := s0;
    } else {
      s := AllWait(n, s0, m - 1);
      s := Go(n, s, StartWait);
      s := Go(n, s, WaitStep(m - 1));
      s := Go(n, s, WaitStep(m - 1));
      assert s.waiters == Asleep(m - 1) + [Blocked] == Asleep(m);
    }
  }

  lemma {:induction false} Delivered(n: nat, s0: State) returns (s: State)
    requires At(n, s0, [], false, 1, 1, false, Parked, Resetting(0, 0))
    ensures At(n, s, [0], true, 1, 1, false, Parked, Returned) && s.waiters == s0.waiters
  {
    s := Go(n, s0, CallStep(0));
    s := Go(n, s, CallStep(0));
    s := Go(n, s, CallStep(0));
  }

  lemma {:induction false} Taken(n: nat, s0: State) returns (s: State)
    requires At(n, s0, [0], true, 1, 1, false, Parked, Returned)
    ensures At(n, s, [], false, 1, 1, false, Claimed(0, false), Returned) && s.waiters == s0.waiters
  {
    s := Go(n, s0, WorkerStep(0));
    s := Go(n, s, WorkerStep(0));
  }

  lemma {:induction false} Executed(n: nat, s0: State) returns (s: State)
    requires At(n, s0, [], false, 1, 1, false, Claimed(0, false), Returned)
    ensures At(n, s, [], false, 0, 0, false, Popping, Returned) && s.waiters == s0.waiters
  {
    s := Go(n, s0, WorkerStep(0));
    s := Go(n, s, WorkerStep(0));
    s := Go(n, s, WorkerStep(0));
  }

  // Nothing to steal from any of the others.
  lemma {:induction false} StoleNothing(n: nat, s0: State, j: nat) returns (s: State)
    requires At(n, s0, [], false, 0, 0, false, Stealing(j), Returned)
    ensures At(n, s, [], false, 0, 0, false, Checking, Returned) && s.waiters == s0.waiters
    decreases |s0.workers| - j
  {
    assert s0.workers[0].j >= 1;
    s := Go(n, s0, WorkerStep(0));
    if j < |s0.workers| {
      s := StoleNothing(n, s, j + 1);
    }
  }

  lemma {:induction false} Rested(n: nat, s0: State) returns (s: State)
    requires At(n, s0, [], false, 0, 0, false, Popping, Returned)
    ensures At(n, s, [], false, 0, 0, false, Rotating, Returned) && s.waiters == s0.waiters
  {
    s := Go(n, s0, WorkerStep(0));
    s := StoleNothing(n, s, 1);
    s := Go(n, s, WorkerStep(0));
  }

  lemma {:induction false} Signalled(n: nat, s0: State) returns (s: State)
    requires At(n, s0, [], false, 0, 0, false, Rotating, Returned)
    ensures At(n, s, [], false, 0, 0, true, Notifying, Returned) && s.waiters == s0.waiters
  {
    s := Go(n, s0, WorkerStep(0));
    s := Go(n, s, WorkerStep(0));
    s := Go(n, s, WorkerStep(0));
  }

  // The notification reaches the first of them, which returns.
  lemma {:induction false} FirstWoken(n: nat, s0: State, m: nat) returns (s: State)
    requires At(n, s0, [], false, 0, 0, true, Notifying, Returned) && s0.waiters == Asleep(m) && m > 0
    ensures At(n, s, [], false, 0, 0, true, Parked, Returned) && s.waiters == Asleep(m)[0 := Released]
  {
    assert s0.waiters[0] == Blocked;
    s := Go(n, s0, Notify(0, 0));
    s := Go(n, s, WaitStep(0));
    s := Go(n, s, WaitStep(0));
  }

  lemma {:induction false} AtRest(n: nat, s: State)
    requires At(n, s, [], false, 0, 0, true, Parked, Returned)
    ensures Idle(s)
  {
  }

  // One task, m waiters, any number of workers: the pool is idle and the work is done, but all
  // waiters except the first sleep on.
  lemma {:induction false} OthersLeftBlocked(n: nat, m: nat) returns (steps: seq<Step>)
    requires n > 0 && m > 0
    ensures Runs(Init(n), steps) && Idle(Final(Init(n), steps)) && Final(Init(n), steps).inflight == 0
    ensures Final(Init(n), steps).waiters == Asleep(m)[0 := Released]
  {
    var s := Announced(n);
    s := AllWait(n, s, m);
    s := Delivered(n, s);
    s := Taken(n, s);
    s := Executed(n, s);
    s := Rested(n, s);
    s := Signalled(n, s);
    s := FirstWoken(n, s, m);
    AtRest(n, s);
    steps :| Runs(Init(n), steps) && Final(Init(n), steps) == s;
  }

  // Every idle run of an n-thread pool with m waiters has released them all.
  ghost predicate AlwaysReleases(n: nat, m: nat)
  {
    forall steps | Runs(Init(n), steps) && Idle(Final(Init(n), steps)) && |Final(Init(n), steps).waiters| == m ::
      !SomeBlocked(Final(Init(n), steps))
  }

  // wait_for_tasks can be relied on by exactly one caller.
  lemma {:induction false} ReleasesIff(n: nat, m: nat)
    requires n > 0
    ensures AlwaysReleases(n, m) <==> m <= 1
  {
    if m <= 1 {
      forall steps | Runs(Init(n), steps) && Idle(Final(Init(n), steps)) && |Final(Init(n), steps).waiters| == m
        ensures !SomeBlocked(Final(Init(n), steps))
      {
        LoneWaiterReleased(n, steps);
      }
    } else {
      var steps := OthersLeftBlocked(n, m);
      assert Final(Init(n), steps).waiters[1] == Blocked;
    }
  }
}
