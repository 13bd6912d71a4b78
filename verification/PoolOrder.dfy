/** In which order the pool runs its tasks: each worker takes its own queue first in, first out, and
  * a thief takes the task that was pushed last. */
module PoolOrder {
  import opened Sequences
  import opened SafeQueues
  import opened ThreadPools
  import opened PoolSafety
  import opened PoolRuns

  // What has been seen of a run so far, queue by queue: the tasks pushed and the tasks claimed by
  // the queue's own worker, in order, and the tasks stolen or cleared.
  datatype Log = Log(pushed: seq<seq<Task>>, claimed: seq<seq<Task>>, lost: seq<set<Task>>)

  function NoLog(n: nat): Log
  {
    Log(seq(n, _ => []), seq(n, _ => []), seq(n, _ => {}))
  }

  predicate Sized(l: Log, n: nat)
  {
    |l.pushed| == |l.claimed| == |l.lost| == n
  }

  function Pushed(l: Log, i: nat, t: Task): Log
    requires i < |l.pushed|
  {
    l.(pushed := l.pushed[i := l.pushed[i] + [t]])
  }

  function Claims(l: Log, i: nat, t: Task): Log
    requires i < |l.claimed|
  {
    l.(claimed := l.claimed[i := l.claimed[i] + [t]])
  }

  function Loses(l: Log, i: nat, ts: set<Task>): Log
    requires i < |l.lost|
  {
    l.(lost := l.lost[i := l.lost[i] + ts])
  }

  function Members(q: seq<Task>): set<Task>
  {
    set t | t in q
  }

  // What a step shows: a push, or a worker that has a task now and was at its own queue or at
  // another's before, or a clear call that holds more tasks than before.
  function Record(s: State, st: Step, l: Log): (r: Log)
    requires Shaped(s) && Enabled(s, st) && Sized(l, |s.workers|)
    ensures Sized(r, |s.workers|)
  {
    match st
    case CallStep(c) => if s.calls[c].Pushing? then Pushed(l, s.calls[c].i, s.calls[c].task) else l
    case WorkerStep(w) =>
      var before, after := s.workers[w], Do(s, st).workers[w];
      if !after.Claimed? then l
      else if before.Popping? then Claims(l, w, after.task)
      else if before.Stealing? then Loses(l, (w + before.j) % |s.workers|, {after.task})
      else l
    case ClearStep(c) =>
      var before, after := s.clears[c].removed, Do(s, st).clears[c].removed;
      if s.clears[c].Emptying? && s.clears[c].k < |s.workers| && |before| <= |after|
      then Loses(l, s.clears[c].k, Members(after[|before|..])) else l
    case _ => l
  }

  lemma {:induction false} SameWorkers(s: State, st: Step)
    requires Shaped(s) && Enabled(s, st)
    ensures |Do(s, st).workers| == |s.workers|
  {
    match st
    case CallStep(c) => CallLeavesWaiters(s, c);
    case WorkerStep(w) => WorkerFrame(s, w);
    case _ =>
  }

  function History(s: State, steps: seq<Step>, l: Log): (r: Log)
    requires Runs(s, steps) && Sized(l, |s.workers|)
    ensures Sized(r, |s.workers|)
    decreases |steps|
  {
    if steps == [] then l
    else
      SameWorkers(s, steps[0]);
      History(Do(s, steps[0]), steps[1..], Record(s, steps[0], l))
  }

  // The tasks of q that are not in x.
  function Without(q: seq<Task>, x: set<Task>): seq<Task>
  {
    if q == [] then []
    else Without(q[..|q| - 1], x) + if q[|q| - 1] in x then [] else [q[|q| - 1]]
  }

  predicate NoRepeat(q: seq<Task>)
  {
    forall i, j | 0 <= i < j < |q| :: q[i] != q[j]
  }

  lemma {:induction false} WithoutAppend(q: seq<Task>, t: Task, x: set<Task>)
    ensures Without(q + [t], x) == Without(q, x) + if t in x then [] else [t]
  {
    assert (q + [t])[..|q|] == q;
  }

  lemma {:induction false} WithoutConcat(p: seq<Task>, q: seq<Task>, x: set<Task>)
    ensures Without(p + q, x) == Without(p, x) + Without(q, x)
  {
    if q == [] {
      assert p + q == p;
    } else {
      var n := |q| - 1;
      SplitLast(q);
      Assoc(p, q[..n], [q[n]]);
      WithoutAppend(p + q[..n], q[n], x);
      WithoutConcat(p, q[..n], x);
      Assoc(Without(p, x), Without(q[..n], x), if q[n] in x then [] else [q[n]]);
    }
  }

  lemma {:induction false} WithoutUnion(q: seq<Task>, x: set<Task>, y: set<Task>)
    ensures Without(q, x + y) == Without(Without(q, x), y)
  {
    if q != [] {
      var n := |q| - 1;
      WithoutUnion(q[..n], x, y);
      if q[n] in x {
        assert Without(q[..n], x) + [] == Without(q[..n], x);
      } else {
        WithoutAppend(Without(q[..n], x), q[n], y);
      }
    }
  }

  lemma {:induction false} WithoutNone(q: seq<Task>, x: set<Task>)
    requires forall t | t in q :: t !in x
    ensures Without(q, x) == q
  {
    if q != [] {
      WithoutNone(q[..|q| - 1], x);
      SplitLast(q);
    }
  }

  lemma {:induction false} WithoutAll(q: seq<Task>, x: set<Task>)
    requires forall t | t in q :: t in x
    ensures Without(q, x) == []
  {
    if q != [] { WithoutAll(q[..|q| - 1], x); }
  }

  lemma {:induction false} WithoutIn(q: seq<Task>, x: set<Task>)
    ensures forall t :: t in Without(q, x) <==> t in q && t !in x
    ensures NoRepeat(q) ==> NoRepeat(Without(q, x))
  {
    if q != [] {
      WithoutIn(q[..|q| - 1], x);
      SplitLast(q);
      var p := Without(q[..|q| - 1], x);
      assert forall t :: t in q <==> t in q[..|q| - 1] || t == q[|q| - 1];
      if NoRepeat(q) {
        assert NoRepeat(q[..|q| - 1]);
        assert q[|q| - 1] !in q[..|q| - 1];
      }
    }
  }

  // ----- the invariant -----

  predicate Holding(c: Call, t: Task)
  {
    (c.Chosen? || c.Counted? || c.Resetting? || c.Pushing?) && c.task == t
  }

  // Queue i holds what was pushed into it and neither claimed nor lost, in the order of the pushes.
  predicate InOrder(pushed: seq<Task>, claimed: seq<Task>, lost: set<Task>, queue: seq<Task>)
  {
    && NoRepeat(pushed) && (forall t | t in claimed :: t !in lost)
    && claimed + queue == Without(pushed, lost)
  }

  // No task still to be pushed is among those pushed before.
  ghost predicate Fresh(s: State, l: Log)
  {
    && (forall c, d, t | 0 <= c < d < |s.calls| && Holding(s.calls[c], t) :: !Holding(s.calls[d], t))
    && (forall c, t | 0 <= c < |s.calls| && Holding(s.calls[c], t) :: Unseen(s, l, t))
    && (forall i, t | 0 <= i < |l.pushed| && t in l.pushed[i] :: t < s.next)
  }

  predicate Unseen(s: State, l: Log, t: Task)
  {
    t < s.next && forall i | 0 <= i < |l.pushed| :: t !in l.pushed[i]
  }

  ghost predicate Ordered(s: State, l: Log)
  {
    && Shaped(s) && Sized(l, |s.workers|) && Fresh(s, l)
    && (forall i | 0 <= i < |s.workers| :: InOrder(l.pushed[i], l.claimed[i], l.lost[i], s.queues[i]))
    && (forall i, t | 0 <= i < |s.workers| && t in l.lost[i] :: t in l.pushed[i])
  }

  lemma {:induction false} InOrderPush(pushed: seq<Task>, claimed: seq<Task>, lost: set<Task>, queue: seq<Task>,
      t: Task)
    requires InOrder(pushed, claimed, lost, queue) && t !in pushed && t !in lost
    ensures InOrder(pushed + [t], claimed, lost, queue + [t])
  {
    WithoutAppend(pushed, t, lost);
    Assoc(claimed, queue, [t]);
  }

  lemma {:induction false} InOrderClaim(pushed: seq<Task>, claimed: seq<Task>, lost: set<Task>, queue: seq<Task>)
    requires InOrder(pushed, claimed, lost, queue) && queue != []
    ensures InOrder(pushed, claimed + [queue[0]], lost, queue[1..])
  {
    Assoc(claimed, [queue[0]], queue[1..]);
    assert queue == [queue[0]] + queue[1..];
    WithoutIn(pushed, lost);
    assert (claimed + queue)[|claimed|] == queue[0];
    assert queue[0] in Without(pushed, lost);
  }

  lemma {:induction false} Apart(p: seq<Task>, q: seq<Task>)
    requires NoRepeat(p + q)
    ensures forall t | t in p :: t !in q
  {
    forall t | t in p ensures t !in q {
      var x :| 0 <= x < |p| && p[x] == t;
      assert (p + q)[x] == t;
      forall y | 0 <= y < |q| ensures q[y] != t { assert (p + q)[|p| + y] == q[y]; }
    }
  }

  // The end of the queue is lost.
  lemma {:induction false} InOrderLose(pushed: seq<Task>, claimed: seq<Task>, lost: set<Task>, queue: seq<Task>,
      keep: seq<Task>, gone: seq<Task>)
    requires InOrder(pushed, claimed, lost, queue) && queue == keep + gone
    ensures InOrder(pushed, claimed, lost + Members(gone), keep)
    ensures forall t | t in gone :: t in pushed
  {
    WithoutIn(pushed, lost);
    WithoutUnion(pushed, lost, Members(gone));
    Assoc(claimed, keep, gone);
    Apart(claimed + keep, gone);
    LoseEnd(claimed + keep, gone);
    forall t | t in gone ensures t in Without(pushed, lost) { assert t in (claimed + keep) + gone; }
    forall t | t in claimed ensures t !in gone { assert t in claimed + keep; }
  }

  lemma {:induction false} LoseEnd(p: seq<Task>, gone: seq<Task>)
    requires forall t | t in p :: t !in gone
    ensures Without(p + gone, Members(gone)) == p
  {
    WithoutConcat(p, gone, Members(gone));
    WithoutAll(gone, Members(gone));
    WithoutNone(p, Members(gone));
  }

  // ----- every step keeps it -----

  lemma {:induction false} FreshKept(s: State, s': State, l: Log, l': Log)
    requires Fresh(s, l) && s'.calls == s.calls && s'.next == s.next && l'.pushed == l.pushed
    ensures Fresh(s', l')
  {
    forall c, t | 0 <= c < |s'.calls| && Holding(s'.calls[c], t) ensures Unseen(s', l', t) {
      assert Unseen(s, l, t);
    }
  }

  lemma {:induction false} OrderedPush(s: State, c: nat, l: Log)
    requires Ordered(s, l) && c < |s.calls| && s.calls[c].Pushing?
    ensures Ordered(DoCall(s, c), Record(s, CallStep(c), l))
  {
    var s', l', i, t := DoCall(s, c), Record(s, CallStep(c), l), s.calls[c].i, s.calls[c].task;
    ShapedCall(s, c);
    assert Holding(s.calls[c], t) && Unseen(s, l, t);
    InOrderPush(l.pushed[i], l.claimed[i], l.lost[i], s.queues[i], t);
    forall d, u | 0 <= d < |s'.calls| && Holding(s'.calls[d], u) ensures Unseen(s', l', u) {
      assert d != c && Holding(s.calls[d], u) && u != t && Unseen(s, l, u);
    }
  }

  lemma {:induction false} OrderedCall(s: State, c: nat, l: Log)
    requires Ordered(s, l) && c < |s.calls| && !s.calls[c].Returned? && !s.calls[c].Pushing?
    ensures Ordered(DoCall(s, c), l)
  {
    var s' := DoCall(s, c);
    ShapedCall(s, c);
    assert s'.queues == s.queues && s'.next == s.next && |s'.workers| == |s.workers|;
    forall d, u | 0 <= d < |s'.calls| && Holding(s'.calls[d], u) ensures Holding(s.calls[d], u) && Unseen(s', l, u) {
      assert Unseen(s, l, u);
    }
  }

  lemma {:induction false} OrderedEnqueue(s: State, l: Log)
    requires Ordered(s, l)
    ensures Ordered(DoEnqueue(s), l)
  {
    var s' := DoEnqueue(s);
    ShapedEnqueue(s);
    forall d, u | 0 <= d < |s'.calls| && Holding(s'.calls[d], u) ensures Unseen(s', l, u) {
      if d < |s.calls| { assert Unseen(s, l, u); }
    }
    forall c, d, t | 0 <= c < d < |s'.calls| && Holding(s'.calls[c], t) ensures !Holding(s'.calls[d], t) {
      assert Unseen(s, l, t);
    }
  }

  // What a worker's step does to the queues and the log.
  lemma {:induction false} TakesFrom(s: State, w: nat, l: Log)
    requires Shaped(s) && Enabled(s, WorkerStep(w)) && Sized(l, |s.workers|)
    ensures var s', l', v := DoWorker(s, w), Record(s, WorkerStep(w), l), Source(s, w);
            var q := s.queues[v];
            && s'.calls == s.calls && s'.next == s.next
            && if s.workers[w].Popping? && q != [] then s'.queues == s.queues[v := q[1..]] && l' == Claims(l, v, q[0])
               else if s.workers[w].Stealing? && s.workers[w].j < |s.workers| && q != []
               then s'.queues == s.queues[v := q[..|q| - 1]] && l' == Loses(l, v, {q[|q| - 1]})
               else s'.queues == s.queues && l' == l
  {
    WorkerKeeps(s, w);
  }

  lemma {:induction false} OrderedWorker(s: State, w: nat, l: Log)
    requires Ordered(s, l) && Enabled(s, WorkerStep(w))
    ensures Ordered(DoWorker(s, w), Record(s, WorkerStep(w), l))
  {
    var s', l', v := DoWorker(s, w), Record(s, WorkerStep(w), l), Source(s, w);
    var q := s.queues[v];
    ShapedWorker(s, w);
    WorkerFrame(s, w);
    TakesFrom(s, w, l);
    FreshKept(s, s', l, l');
    if q != [] {
      InOrderClaim(l.pushed[v], l.claimed[v], l.lost[v], q);
      SplitLast(q);
      InOrderLose(l.pushed[v], l.claimed[v], l.lost[v], q, q[..|q| - 1], [q[|q| - 1]]);
      assert Members([q[|q| - 1]]) == {q[|q| - 1]};
    }
  }

  lemma {:induction false} OrderedClear(s: State, c: nat, l: Log)
    requires Ordered(s, l) && c < |s.clears| && !s.clears[c].Cleared?
    ensures Ordered(DoClear(s, c), Record(s, ClearStep(c), l))
  {
    var s', l' := DoClear(s, c), Record(s, ClearStep(c), l);
    ShapedClear(s, c);
    ClearKeeps(s, c);
    FreshKept(s, s', l, l');
    if s.clears[c].Emptying? && s.clears[c].k < |s.workers| {
      var k, q := s.clears[c].k, s.queues[s.clears[c].k];
      assert q == [] + q;
      InOrderLose(l.pushed[k], l.claimed[k], l.lost[k], q, [], q);
      assert s'.clears[c].removed[|s.clears[c].removed|..] == q;
    }
  }

  lemma {:induction false} OrderedStep(s: State, st: Step, l: Log)
    requires Ordered(s, l) && Enabled(s, st)
    ensures Ordered(Do(s, st), Record(s, st, l))
  {
    ShapedStep(s, st);
    match st
    case Enqueue => OrderedEnqueue(s, l);
    case CallStep(c) => if s.calls[c].Pushing? { OrderedPush(s, c, l); } else { OrderedCall(s, c, l); }
    case WorkerStep(w) => OrderedWorker(s, w, l);
    case ClearStep(c) => OrderedClear(s, c, l);
    case _ => FreshKept(s, Do(s, st), l, l);
  }

  lemma {:induction false} OrderedFrom(s: State, steps: seq<Step>, l: Log)
    requires Runs(s, steps) && Ordered(s, l)
    ensures Ordered(Final(s, steps), History(s, steps, l))
    decreases |steps|
  {
    if steps != [] {
      OrderedStep(s, steps[0], l);
      SameWorkers(s, steps[0]);
      OrderedFrom(Do(s, steps[0]), steps[1..], Record(s, steps[0], l));
    }
  }

  function Seen(n: nat, steps: seq<Step>): (l: Log)
    requires Runs(Init(n), steps)
    ensures Sized(l, n)
  {
    History(Init(n), steps, NoLog(n))
  }

  // ----- theorems -----

  // In every run and for every queue: the tasks its worker has claimed from it, in the order of the
  // claims, and then the tasks it holds, are the tasks pushed into it, in the order of the pushes,
  // less those stolen or cleared.  So of two tasks that stay, the one pushed first is claimed first.
  lemma {:induction false} OwnQueueIsFifo(n: nat, steps: seq<Step>, i: nat)
    requires Runs(Init(n), steps) && i < n
    ensures var s, l := Final(Init(n), steps), Seen(n, steps);
            && |s.queues| == n && NoRepeat(l.pushed[i])
            && l.claimed[i] + s.queues[i] == Without(l.pushed[i], l.lost[i])
  {
    InitShaped(n);
    OrderedFrom(Init(n), steps, NoLog(n));
  }

  // The tasks pushed into queue i that nobody has taken yet, in the order of the pushes.
  function Left(l: Log, i: nat): seq<Task>
    requires i < |l.pushed| && i < |l.claimed| && i < |l.lost|
  {
    Without(l.pushed[i], l.lost[i] + Members(l.claimed[i]))
  }

  lemma {:induction false} LeftIsQueue(n: nat, steps: seq<Step>, i: nat)
    requires Runs(Init(n), steps) && i < n
    ensures |Final(Init(n), steps).queues| == n && Left(Seen(n, steps), i) == Final(Init(n), steps).queues[i]
  {
    InitShaped(n);
    OrderedFrom(Init(n), steps, NoLog(n));
    var l := Seen(n, steps);
    Unclaimed(l.pushed[i], l.claimed[i], l.lost[i], Final(Init(n), steps).queues[i]);
  }

  lemma {:induction false} Unclaimed(pushed: seq<Task>, claimed: seq<Task>, lost: set<Task>, queue: seq<Task>)
    requires InOrder(pushed, claimed, lost, queue)
    ensures Without(pushed, lost + Members(claimed)) == queue
  {
    var x := Members(claimed);
    WithoutUnion(pushed, lost, x);
    WithoutConcat(claimed, queue, x);
    WithoutAll(claimed, x);
    WithoutIn(pushed, lost);
    Apart(claimed, queue);
    WithoutNone(queue, x);
  }

  // Whenever a worker claims a task from its own queue it is the one pushed first, and whenever it
  // steals one it is the one pushed last, of those nobody has taken.
  lemma {:induction false} EndsTaken(n: nat, steps: seq<Step>, w: nat)
    requires Runs(Init(n), steps) && Enabled(Final(Init(n), steps), WorkerStep(w))
    ensures var s := Final(Init(n), steps);
            Shaped(s) &&
            var before, after := s.workers[w], Do(s, WorkerStep(w)).workers[w];
            after.Claimed? && !before.Claimed? ==>
              && (before.Popping? || before.Stealing?) && |s.workers| == n
              && var left := Left(Seen(n, steps), if before.Popping? then w else (w + before.j) % n);
                 left != [] && after.task == if before.Popping? then left[0] else left[|left| - 1]
  {
    var s := Final(Init(n), steps);
    SafeSize(n, steps);
    Safe(n, steps);
    LeftIsQueue(n, steps, Source(s, w));
    TakesFrom(s, w, Seen(n, steps));
  }

  lemma {:induction false} SafeSize(n: nat, steps: seq<Step>)
    requires Runs(Init(n), steps)
    ensures |Final(Init(n), steps).workers| == n
  {
    InitShaped(n);
    OrderedFrom(Init(n), steps, NoLog(n));
  }

  // ----- one worker -----

  function Hand(w: Worker): seq<Task> { if HasTask(w) then [w.task] else [] }

  predicate NoClears(steps: seq<Step>)
  {
    forall i | 0 <= i < |steps| :: !steps[i].ClearStep?
  }

  // The tasks executed, then the one in hand, are those claimed; nothing is lost.
  ghost predicate Alone(s: State, l: Log)
  {
    && Shaped(s) && Sized(l, 1) && |s.workers| == 1
    && s.done + Hand(s.workers[0]) == l.claimed[0] && l.lost[0] == {}
  }

  lemma {:induction false} AloneWorker(s: State, l: Log)
    requires Alone(s, l) && Enabled(s, WorkerStep(0))
    ensures Alone(DoWorker(s, 0), Record(s, WorkerStep(0), l))
  {
    ShapedWorker(s, 0);
    TakesFrom(s, 0, l);
    assert s.done + [] == s.done;
    match s.workers[0]
    case Finished(t, _) => assert s.done + [t] + [] == s.done + [t];
    case _ =>
  }

  lemma {:induction false} AloneStep(s: State, st: Step, l: Log)
    requires Alone(s, l) && Enabled(s, st) && !st.ClearStep?
    ensures Alone(Do(s, st), Record(s, st, l))
  {
    ShapedStep(s, st);
    SameWorkers(s, st);
    match st
    case WorkerStep(w) => AloneWorker(s, l);
    case CallStep(c) => CallKeeps(s, c); CallLeavesWaiters(s, c);
    case _ =>
  }

  lemma {:induction false} AloneFrom(s: State, steps: seq<Step>, l: Log)
    requires Runs(s, steps) && Alone(s, l) && NoClears(steps)
    ensures Alone(Final(s, steps), History(s, steps, l))
    decreases |steps|
  {
    if steps != [] {
      AloneStep(s, steps[0], l);
      SameWorkers(s, steps[0]);
      assert forall i | 0 <= i < |steps[1..]| :: steps[1..][i] == steps[i + 1];
      AloneFrom(Do(s, steps[0]), steps[1..], Record(s, steps[0], l));
    }
  }

  // A pool of one thread executes its tasks in the order in which they were pushed: those done,
  // the one in hand and those queued are, one after the other, those pushed.
  lemma {:induction false} OneWorkerInOrder(steps: seq<Step>)
    requires Runs(Init(1), steps) && NoClears(steps)
    ensures var s, l := Final(Init(1), steps), Seen(1, steps);
            && |s.workers| == |s.queues| == 1
            && s.done + Hand(s.workers[0]) + s.queues[0] == l.pushed[0]
  {
    InitShaped(1);
    AloneFrom(Init(1), steps, NoLog(1));
    OwnQueueIsFifo(1, steps, 0);
    WithoutNone(Seen(1, steps).pushed[0], {});
  }

  // ----- where a worker looks -----

  function Steps(st: Step, k: nat): seq<Step> { seq(k, _ => st) }

  lemma {:induction false} StepsNext(s: State, st: Step, k: nat)
    requires Shaped(s) && Enabled(s, st) && Runs(Do(s, st), Steps(st, k))
    ensures Runs(s, Steps(st, k + 1)) && Final(s, Steps(st, k + 1)) == Final(Do(s, st), Steps(st, k))
  {
    assert Steps(st, k + 1)[1..] == Steps(st, k);
  }

  // The queue of the x-th worker after w.
  function Nearby(s: State, w: nat, x: nat): seq<Task>
    requires Shaped(s) && w < |s.workers|
  {
    s.queues[(w + x) % |s.workers|]
  }

  lemma {:induction false} StealMiss(s: State, w: nat, i: nat)
    requires Shaped(s) && w < |s.workers| && s.workers[w] == Stealing(i) && i < |s.workers| && Nearby(s, w, i) == []
    ensures var s1 := Do(s, WorkerStep(w));
            && Shaped(s1) && |s1.workers| == |s.workers| && s1.workers[w] == Stealing(i + 1) && s1.queues == s.queues
  {
    ShapedStep(s, WorkerStep(w));
  }

  lemma {:induction false} StealHit(s: State, w: nat, i: nat)
    requires Shaped(s) && w < |s.workers| && s.workers[w] == Stealing(i) && i < |s.workers| && Nearby(s, w, i) != []
    ensures var s1, q := Do(s, WorkerStep(w)), Nearby(s, w, i);
            && Shaped(s1) && |s1.workers| == |s.workers| && s1.workers[w] == Claimed(q[|q| - 1], true)
  {
    ShapedStep(s, WorkerStep(w));
  }

  lemma {:induction false} PopOwn(s: State, w: nat)
    requires Shaped(s) && w < |s.workers| && s.workers[w].Popping?
    ensures var s1, q := Do(s, WorkerStep(w)), Nearby(s, w, 0);
            && Shaped(s1) && |s1.workers| == |s.workers|
            && s1.workers[w] == (if q == [] then Stealing(1) else Claimed(q[0], false))
            && (q == [] ==> s1.queues == s.queues)
  {
    ShapedStep(s, WorkerStep(w));
    assert (w + 0) % |s.workers| == w;
  }

  lemma {:induction false} OneStep(s: State, st: Step)
    requires Shaped(s) && Enabled(s, st)
    ensures Runs(s, Steps(st, 1)) && Final(s, Steps(st, 1)) == Do(s, st)
  {
    assert Runs(Do(s, st), Steps(st, 0)) && Final(Do(s, st), Steps(st, 0)) == Do(s, st);
    StepsNext(s, st, 0);
  }

  // From its i-th victim on, a stealing worker: the next queue that is not empty is the j-th.
  lemma {:induction false} StealScan(s: State, w: nat, i: nat, j: nat)
    requires Shaped(s) && w < |s.workers| && s.workers[w] == Stealing(i) && 1 <= i <= j < |s.workers|
    requires (forall x | i <= x < j :: Nearby(s, w, x) == []) && Nearby(s, w, j) != []
    ensures var q, steps := Nearby(s, w, j), Steps(WorkerStep(w), j - i + 1);
            Runs(s, steps) && w < |Final(s, steps).workers| && Final(s, steps).workers[w] == Claimed(q[|q| - 1], true)
    decreases j - i
  {
    if i == j {
      StealHit(s, w, i);
      OneStep(s, WorkerStep(w));
    } else {
      assert Nearby(s, w, i) == [];
      StealMiss(s, w, i);
      var s1 := Do(s, WorkerStep(w));
      assert forall x: nat :: Nearby(s1, w, x) == Nearby(s, w, x);
      StealScan(s1, w, i + 1, j);
      StepsNext(s, WorkerStep(w), j - i);
    }
  }

  // A worker at its own queue, running by itself, takes a task from the first queue that is not
  // empty, starting with its own and going round the workers; from its own it takes the front.
  lemma {:induction false} FirstNonEmpty(s: State, w: nat, j: nat)
    requires Shaped(s) && w < |s.workers| && s.workers[w].Popping? && j < |s.workers|
    requires (forall x | 0 <= x < j :: Nearby(s, w, x) == []) && Nearby(s, w, j) != []
    ensures var q, steps := Nearby(s, w, j), Steps(WorkerStep(w), j + 1);
            && Runs(s, steps) && w < |Final(s, steps).workers|
            && Final(s, steps).workers[w] == if j == 0 then Claimed(q[0], false) else Claimed(q[|q| - 1], true)
  {
    PopOwn(s, w);
    if j == 0 {
      OneStep(s, WorkerStep(w));
    } else {
      assert Nearby(s, w, 0) == [];
      var s1 := Do(s, WorkerStep(w));
      assert forall x: nat :: Nearby(s1, w, x) == Nearby(s, w, x);
      StealScan(s1, w, 1, j);
      StepsNext(s, WorkerStep(w), j);
    }
  }

  // A claimed task is executed in three steps of its worker, which then looks at its own queue
  // again, or, if it stole the task, at the counter of unassigned tasks.
  lemma {:induction false} Executes(s: State, w: nat)
    requires Shaped(s) && w < |s.workers| && s.workers[w].Claimed?
    ensures var steps, t := Steps(WorkerStep(w), 3), s.workers[w].task;
            && Runs(s, steps) && w < |Final(s, steps).workers|
            && var s' := Final(s, steps);
               && s'.done == s.done + [t] && s'.queues == s.queues
               && s'.unassigned == s.unassigned - 1 && s'.inflight == s.inflight - 1
               && s'.workers[w] == if s.workers[w].stolen then Checking else Popping
  {
    var st := WorkerStep(w);
    var s1 := Do(s, st);
    ShapedStep(s, st);
    var s2 := Do(s1, st);
    ShapedStep(s1, st);
    var s3 := Do(s2, st);
    ShapedStep(s2, st);
    OneStep(s2, st);
    StepsNext(s1, st, 1);
    StepsNext(s, st, 2);
  }

  // ----- which worker gets a task -----

  // Submissions in a row go to the workers in the order of the priority list, round and round.
  lemma {:induction false} RoundRobin(s: State, k: nat)
    requires Shaped(s) && k <= |s.prio|
    ensures var steps := Steps(Enqueue, k);
            && Runs(s, steps) && Final(s, steps).prio == s.prio[k..] + s.prio[..k]
            && Final(s, steps).calls == s.calls + seq(k, i requires 0 <= i < k => Chosen(s.prio[i], s.next + i))
    decreases k
  {
    if k == 0 {
      assert s.prio[0..] + s.prio[..0] == s.prio;
      assert s.calls + [] == s.calls;
    } else {
      var s1, p := Do(s, Enqueue), s.prio;
      ShapedEnqueue(s);
      assert s1.prio == p[1..] + [p[0]];
      RoundRobin(s1, k - 1);
      StepsNext(s, Enqueue, k - 1);
      assert s1.prio[k - 1..] + s1.prio[..k - 1] == p[k..] + p[..k];
      var later := seq(k - 1, i requires 0 <= i < k - 1 => Chosen(s1.prio[i], s1.next + i));
      assert [Chosen(p[0], s.next)] + later == seq(k, i requires 0 <= i < k => Chosen(p[i], s.next + i));
      Assoc(s.calls, [Chosen(p[0], s.next)], later);
    }
  }

  // The worker that went idle last gets the next task.
  lemma {:induction false} IdleLastServedFirst(s: State, w: nat)
    requires Shaped(s) && w < |s.workers| && s.workers[w].Rotating?
    ensures var s1 := Do(s, WorkerStep(w));
            Shaped(s1) && Do(s1, Enqueue).calls == s.calls + [Chosen(w, s.next)]
  {
    ShapedStep(s, WorkerStep(w));
    assert RotatedToFront(s.prio, w)[0] == w;
  }
}
