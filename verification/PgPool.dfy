/** The database connection pool (pgPool.cpp, pgPool.h) as an interleaving step system: any number
  * of threads lease, release and replace connections.  Each section under the mutex, each
  * notification and each attempt to reconnect is one step. */
module PgPools {
  import opened Sums

  type Connection = nat

  // What a thread does next.
  datatype Thread =
    | Outside
    | Entering                     // lock, test m_pool.empty()
    | Waiting                      // inside m_condition.wait
    | Holding(c: Connection)       // is_open(), and perhaps a reconnection
    | Leasing(c: Connection)       // in the hands of the caller
    | Returning(c: Connection)     // freeConnection: push
    | Notifying                    // freeConnection: notify_one

  datatype State = State(idle: seq<Connection>, threads: seq<Thread>, next: Connection)

  // What connection() finds: an open connection, a dead one replaced, a dead one that stays.
  datatype Probe = Open | Replaced | Failed

  datatype Step =
    | Lease(t: nat)
    | Enter(t: nat)
    | Check(t: nat, probe: Probe)
    | Release(t: nat)
    | Push(t: nat)
    | Notify(t: nat, k: nat)       // wakes waiter k if anyone waits
    | Wake(k: nat)                 // a spurious wake-up

  function Init(size: nat, threads: nat): State
  {
    State(seq(size, i => i), seq(threads, _ => Outside), size)
  }

  predicate SomeWaiting(s: State)
  {
    exists k :: 0 <= k < |s.threads| && s.threads[k].Waiting?
  }

  predicate Enabled(s: State, st: Step)
  {
    match st
    case Lease(t) => t < |s.threads| && s.threads[t].Outside?
    case Enter(t) => t < |s.threads| && s.threads[t].Entering?
    case Check(t, _) => t < |s.threads| && s.threads[t].Holding?
    case Release(t) => t < |s.threads| && s.threads[t].Leasing?
    case Push(t) => t < |s.threads| && s.threads[t].Returning?
    case Notify(t, k) => t < |s.threads| && s.threads[t].Notifying? &&
                         (SomeWaiting(s) ==> k < |s.threads| && s.threads[k].Waiting?)
    case Wake(k) => k < |s.threads| && s.threads[k].Waiting?
  }

  function Moved(s: State, t: nat, to: Thread): State
    requires t < |s.threads|
  {
    s.(threads := s.threads[t := to])
  }

  function Do(s: State, st: Step): State
    requires Enabled(s, st)
  {
    match st
    case Lease(t) => Moved(s, t, Entering)
    case Enter(t) =>
      if s.idle == [] then Moved(s, t, Waiting)
      else Moved(s.(idle := s.idle[1..]), t, Holding(s.idle[0]))
    case Check(t, probe) =>
      (match probe
       case Open => Moved(s, t, Leasing(s.threads[t].c))
       case Replaced => Moved(s.(next := s.next + 1), t, Leasing(s.next))
       case Failed => Moved(s, t, Returning(s.threads[t].c)))
    case Release(t) => Moved(s, t, Returning(s.threads[t].c))
    case Push(t) => Moved(s.(idle := s.idle + [s.threads[t].c]), t, Notifying)
    case Notify(t, k) => var s1 := Moved(s, t, Outside); if SomeWaiting(s) then Moved(s1, k, Entering) else s1
    case Wake(k) => Moved(s, k, Entering)
  }

  // ----- invariant -----

  predicate Carries(x: Thread) { x.Holding? || x.Leasing? || x.Returning? }

  ghost function Load(): Thread -> int { (x: Thread) => B(Carries(x)) }

  ghost function Carried(s: State): int { Sum(s.threads, Load()) }

  // How often connection c is in the queue or with a thread.
  ghost function Places(s: State, c: Connection): int
  {
    multiset(s.idle)[c] + Sum(s.threads, With(c))
  }

  ghost function With(c: Connection): Thread -> int { (x: Thread) => B(Carries(x) && x.c == c) }

  // Threads that will look at the queue, or make a waiter look at it.
  ghost function Alert(): Thread -> int { (x: Thread) => B(x.Entering? || x.Notifying?) }

  // The pool neither grows nor shrinks.
  ghost predicate Balanced(s: State, size: nat) { |s.idle| + Carried(s) == size }

  // No connection is in two places.
  ghost predicate Exclusive(s: State)
  {
    forall c: Connection :: 0 <= Places(s, c) <= B(c < s.next)
  }

  // While somebody waits, every idle connection has somebody coming for it.
  ghost predicate Attended(s: State)
  {
    SomeWaiting(s) ==> |s.idle| <= Sum(s.threads, Alert())
  }

  ghost predicate Inv(s: State, size: nat)
  {
    Balanced(s, size) && Exclusive(s) && Attended(s)
  }

  lemma {:induction false} Weigh(s: State, t: nat, to: Thread, f: Thread -> int)
    requires t < |s.threads|
    ensures Sum(Moved(s, t, to).threads, f) == Sum(s.threads, f) - f(s.threads[t]) + f(to)
  {
    SumUpdate(s.threads, t, to, f);
  }

  // The change of every weighted sum over the threads.
  lemma {:induction false} WeighStep(s: State, st: Step, f: Thread -> int)
    requires Enabled(s, st)
    ensures var s' := Do(s, st);
            Sum(s'.threads, f) == Sum(s.threads, f) +
              if st.Notify? then f(Outside) - f(Notifying) + (if SomeWaiting(s) then f(Entering) - f(Waiting) else 0)
              else if st.Wake? then f(Entering) - f(Waiting)
              else f(s'.threads[st.t]) - f(s.threads[st.t])
  {
    var s' := Do(s, st);
    match st
    case Notify(t, k) =>
      Weigh(s, t, Outside, f);
      if SomeWaiting(s) { Weigh(Moved(s, t, Outside), k, Entering, f); }
    case Wake(k) => Weigh(s, k, Entering, f);
    case _ => Weigh(s, st.t, s'.threads[st.t], f);
  }

  lemma {:induction false} BalancedStep(s: State, st: Step, size: nat)
    requires Enabled(s, st) && Balanced(s, size)
    ensures Balanced(Do(s, st), size)
  {
    WeighStep(s, st, Load());
  }

  // Only a replacement changes where connections are: the fresh one comes, the dead one goes.
  lemma {:induction false} PlacesDelta(s: State, st: Step, c: Connection)
    requires Enabled(s, st)
    ensures Places(Do(s, st), c) == Places(s, c) +
            if st.Check? && st.probe.Replaced? then B(c == s.next) - B(c == s.threads[st.t].c) else 0
  {
    WeighStep(s, st, With(c));
    IdleDelta(s, st, c);
    if !st.Notify? && !st.Wake? { WithDelta(s, st, c); }
  }

  ghost function Came(s: State, st: Step, c: Connection): int
    requires Enabled(s, st)
  {
    if st.Push? then B(s.threads[st.t].c == c)
    else if st.Enter? && s.idle != [] then -B(s.idle[0] == c)
    else 0
  }

  lemma {:induction false} IdleDelta(s: State, st: Step, c: Connection)
    requires Enabled(s, st)
    ensures multiset(Do(s, st).idle)[c] == multiset(s.idle)[c] + Came(s, st, c)
  {
    match st
    case Enter(t) => if s.idle != [] { assert s.idle == [s.idle[0]] + s.idle[1..]; }
    case Push(t) => assert Do(s, st).idle == s.idle + [s.threads[t].c];
    case _ => assert Do(s, st).idle == s.idle;
  }

  lemma {:induction false} WithDelta(s: State, st: Step, c: Connection)
    requires Enabled(s, st) && !st.Notify? && !st.Wake?
    ensures With(c)(Do(s, st).threads[st.t]) - With(c)(s.threads[st.t]) ==
            if st.Check? && st.probe.Replaced? then B(c == s.next) - B(c == s.threads[st.t].c) else -Came(s, st, c)
  {
  }

  lemma {:induction false} PlacesStep(s: State, st: Step, c: Connection)
    requires Enabled(s, st) && 0 <= Places(s, c) <= B(c < s.next)
    ensures 0 <= Places(Do(s, st), c) <= B(c < Do(s, st).next)
  {
    PlacesDelta(s, st, c);
    WithBounds(Do(s, st), c);
  }

  lemma {:induction false} WithBounds(s: State, c: Connection)
    ensures Sum(s.threads, With(c)) >= 0
    ensures forall t | 0 <= t < |s.threads| :: With(c)(s.threads[t]) <= Sum(s.threads, With(c))
  {
    SumBounds(s.threads, With(c));
  }

  lemma {:induction false} AttendedStep(s: State, st: Step)
    requires Enabled(s, st) && Attended(s)
    ensures Attended(Do(s, st))
  {
    var s' := Do(s, st);
    WeighStep(s, st, Alert());
    SumBounds(s'.threads, Alert());
    if SomeWaiting(s') && !SomeWaiting(s) {
      var k :| 0 <= k < |s'.threads| && s'.threads[k].Waiting?;
      assert !s.threads[k].Waiting?;
      assert s'.idle == [];
    }
  }

  lemma {:induction false} StepInv(s: State, st: Step, size: nat)
    requires Enabled(s, st) && Inv(s, size)
    ensures Inv(Do(s, st), size)
  {
    BalancedStep(s, st, size);
    forall c: Connection ensures 0 <= Places(Do(s, st), c) <= B(c < Do(s, st).next) {
      PlacesStep(s, st, c);
    }
    AttendedStep(s, st);
  }

  // ----- runs -----

  predicate Runs(s: State, steps: seq<Step>)
    decreases |steps|
  {
    steps == [] || (Enabled(s, steps[0]) && Runs(Do(s, steps[0]), steps[1..]))
  }

  function Final(s: State, steps: seq<Step>): State
    requires Runs(s, steps)
    decreases |steps|
  {
    if steps == [] then s else Final(Do(s, steps[0]), steps[1..])
  }

  lemma {:induction false} InitInv(size: nat, threads: nat)
    ensures Inv(Init(size, threads), size)
  {
    var s := Init(size, threads);
    SumZero(s.threads, Load());
    forall c: Connection ensures 0 <= Places(s, c) <= B(c < s.next) {
      SumZero(s.threads, With(c));
      CountOnce(size, c);
    }
  }

  lemma {:induction false} CountOnce(size: nat, c: Connection)
    ensures multiset(seq(size, i => i))[c] == B(c < size)
  {
    if size > 0 {
      assert seq(size, i => i) == seq(size - 1, i => i) + [size - 1];
      CountOnce(size - 1, c);
    } else {
      assert seq(size, i => i) == [];
    }
  }

  lemma {:induction false} SafeFrom(s: State, steps: seq<Step>, size: nat)
    requires Inv(s, size) && Runs(s, steps)
    ensures Inv(Final(s, steps), size)
    decreases |steps|
  {
    if steps != [] {
      StepInv(s, steps[0], size);
      SafeFrom(Do(s, steps[0]), steps[1..], size);
    }
  }

  // Every reachable state: idle and carried connections add up to the size, and no connection is
  // carried by two threads or by a thread while it is idle, or twice in the queue.
  lemma {:induction false} NeverShared(size: nat, threads: nat, steps: seq<Step>)
    requires Runs(Init(size, threads), steps)
    ensures var s := Final(Init(size, threads), steps);
            && |s.idle| + Carried(s) == size
            && (forall i, j | 0 <= i < j < |s.idle| :: s.idle[i] != s.idle[j])
            && (forall t | 0 <= t < |s.threads| && Carries(s.threads[t]) :: s.threads[t].c !in s.idle)
            && (forall t, u | 0 <= t < u < |s.threads| && Carries(s.threads[t]) && Carries(s.threads[u]) ::
                  s.threads[t].c != s.threads[u].c)
  {
    InitInv(size, threads);
    SafeFrom(Init(size, threads), steps, size);
    var s := Final(Init(size, threads), steps);
    forall i, j | 0 <= i < j < |s.idle| ensures s.idle[i] != s.idle[j] {
      WithBounds(s, s.idle[i]);
      assert Places(s, s.idle[i]) <= 1;
      TwiceCounted(s.idle, i, j);
    }
    forall t | 0 <= t < |s.threads| && Carries(s.threads[t]) ensures s.threads[t].c !in s.idle {
      WithBounds(s, s.threads[t].c);
      assert Places(s, s.threads[t].c) <= 1;
      assert With(s.threads[t].c)(s.threads[t]) == 1;
    }
    forall t, u | 0 <= t < u < |s.threads| && Carries(s.threads[t]) && Carries(s.threads[u])
      ensures s.threads[t].c != s.threads[u].c
    {
      assert Places(s, s.threads[t].c) <= 1;
      TwoCarry(s, t, u);
    }
  }

  lemma {:induction false} TwiceCounted(q: seq<Connection>, i: nat, j: nat)
    requires i < j < |q|
    ensures q[i] == q[j] ==> multiset(q)[q[i]] >= 2
  {
    assert q == q[..j] + q[j..];
    assert q[..j][i] in multiset(q[..j]) && q[j..][0] in multiset(q[j..]);
  }

  lemma {:induction false} TwoCarry(s: State, t: nat, u: nat)
    requires t < u < |s.threads| && Carries(s.threads[t]) && Carries(s.threads[u])
    ensures s.threads[t].c == s.threads[u].c ==> Sum(s.threads, With(s.threads[t].c)) >= 2
  {
    var c := s.threads[t].c;
    Weigh(s, u, Outside, With(c));
    var s1 := Moved(s, u, Outside);
    WithBounds(s1, c);
    assert s1.threads[t] == s.threads[t] && With(c)(s1.threads[t]) == 1;
  }

  // Only callers can move: a new lease may start and a held one may end.
  predicate Settled(s: State)
  {
    forall t | 0 <= t < |s.threads| :: s.threads[t].Outside? || s.threads[t].Leasing? || s.threads[t].Waiting?
  }

  ghost function Lent(): Thread -> int { (x: Thread) => B(x.Leasing?) }

  ghost function Leased(s: State): int { Sum(s.threads, Lent()) }

  // No wake-up is lost: once everything else has come to rest, a thread waits only if the queue
  // is empty and all the connections are leased.
  lemma {:induction false} WaitsOnlyWhenAllLeased(size: nat, threads: nat, steps: seq<Step>)
    requires Runs(Init(size, threads), steps)
    requires Settled(Final(Init(size, threads), steps)) && SomeWaiting(Final(Init(size, threads), steps))
    ensures var s := Final(Init(size, threads), steps);
            s.idle == [] && Leased(s) == size
            && (size > 0 ==> exists t :: 0 <= t < |s.threads| && Enabled(s, Release(t)))
  {
    InitInv(size, threads);
    SafeFrom(Init(size, threads), steps, size);
    var s := Final(Init(size, threads), steps);
    SumZero(s.threads, Alert());
    SumSame(s.threads, Load(), Lent());
    SumBounds(s.threads, Load());
    if size > 0 {
      var t :| 0 <= t < |s.threads| && Load()(s.threads[t]) > 0;
      assert Enabled(s, Release(t));
    }
  }

  // ----- one lease from beginning to end -----

  // A lease while a connection is idle takes the one that has been idle longest.  If it is open
  // the caller has it, and its release puts it behind all the others; if it was dead and could be
  // replaced the caller has the fresh one; if it could not, it goes back and nobody has it.
  lemma {:induction false} LeaseAndReturn(s: State, t: nat, probe: Probe)
    requires t < |s.threads| && s.threads[t].Outside? && s.idle != [] && !SomeWaiting(s)
    ensures var held := [Lease(t), Enter(t), Check(t, probe)];
            Runs(s, held) &&
            var s1 := Final(s, held);
            && s1.idle == s.idle[1..]
            && s1.threads == s.threads[t := match probe
                                            case Open => Leasing(s.idle[0])
                                            case Replaced => Leasing(s.next)
                                            case Failed => Returning(s.idle[0])]
  {
    var a := Do(s, Lease(t));
    var b := Do(a, Enter(t));
    var c := Do(b, Check(t, probe));
    RunNext(b, Check(t, probe), []);
    assert [Check(t, probe)] + [] == [Check(t, probe)];
    RunNext(a, Enter(t), [Check(t, probe)]);
    assert [Enter(t)] + [Check(t, probe)] == [Enter(t), Check(t, probe)];
    RunNext(s, Lease(t), [Enter(t), Check(t, probe)]);
    assert [Lease(t)] + [Enter(t), Check(t, probe)] == [Lease(t), Enter(t), Check(t, probe)];
  }

  lemma {:induction false} RunNext(s: State, st: Step, more: seq<Step>)
    requires Enabled(s, st) && Runs(Do(s, st), more)
    ensures Runs(s, [st] + more) && Final(s, [st] + more) == Final(Do(s, st), more)
  {
    assert ([st] + more)[1..] == more;
  }

  lemma {:induction false} ReleaseReturns(s: State, t: nat, k: nat)
    requires t < |s.threads| && s.threads[t].Leasing? && !SomeWaiting(s)
    ensures var gone := [Release(t), Push(t), Notify(t, k)];
            Runs(s, gone) &&
            var s1 := Final(s, gone);
            s1.idle == s.idle + [s.threads[t].c] && s1.threads == s.threads[t := Outside] && s1.next == s.next
  {
    var a := Do(s, Release(t));
    var b := Do(a, Push(t));
    assert !SomeWaiting(b);
    var c := Do(b, Notify(t, k));
    RunNext(b, Notify(t, k), []);
    assert [Notify(t, k)] + [] == [Notify(t, k)];
    RunNext(a, Push(t), [Notify(t, k)]);
    assert [Push(t)] + [Notify(t, k)] == [Push(t), Notify(t, k)];
    RunNext(s, Release(t), [Push(t), Notify(t, k)]);
    assert [Release(t)] + [Push(t), Notify(t, k)] == [Release(t), Push(t), Notify(t, k)];
  }
}
