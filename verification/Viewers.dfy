/** Counting viewers (ViewerRegistry.h, VIewerRoutes.cpp, StreamCleanup.h): the registry of
  * connections and the Redis counter beside it, on one node whose handlers run one at a time. */
module Viewers {

  type Viewer = nat

  // The registry and the counters; a missing Redis key counts as zero.
  datatype Watch = Watch(viewers: map<string, set<Viewer>>, counters: map<string, int>)

  function Members(w: Watch, stream: string): set<Viewer>
  {
    if stream in w.viewers then w.viewers[stream] else {}
  }

  function Counter(w: Watch, stream: string): int
  {
    if stream in w.counters then w.counters[stream] else 0
  }

  // ----- the registry -----

  function Added(m: map<string, set<Viewer>>, stream: string, v: Viewer): map<string, set<Viewer>>
  {
    m[stream := (if stream in m then m[stream] else {}) + {v}]
  }

  function Removed(m: map<string, set<Viewer>>, stream: string, v: Viewer): map<string, set<Viewer>>
  {
    if stream !in m then m
    else if m[stream] - {v} == {} then m - {stream}
    else m[stream := m[stream] - {v}]
  }

  class ViewerRegistry {
    var viewers: map<string, set<Viewer>>

    constructor ()
      ensures viewers == map[]
    {
      viewers := map[];
    }

    method Add(stream: string, v: Viewer)
      modifies this
      ensures viewers == Added(old(viewers), stream, v)
    {
      if stream !in viewers {
        viewers := viewers[stream := {}];
      }
      viewers := viewers[stream := viewers[stream] + {v}];
    }

    method Remove(stream: string, v: Viewer)
      modifies this
      ensures viewers == Removed(old(viewers), stream, v)
    {
      if stream !in viewers {
        return;
      }
      viewers := viewers[stream := viewers[stream] - {v}];
      if viewers[stream] == {} {
        viewers := viewers - {stream};
      }
    }

    // The connections to send a CLOSE frame to.
    method CloseAll(stream: string) returns (snapshot: set<Viewer>)
      modifies this
      ensures viewers == old(viewers) - {stream}
      ensures snapshot == if stream in old(viewers) then old(viewers)[stream] else {}
    {
      if stream !in viewers {
        return {};
      }
      snapshot := viewers[stream];
      viewers := viewers - {stream};
    }
  }

  // ----- the handlers -----

  datatype Event =
    | Join(stream: string, v: Viewer)
    | Leave(stream: string, v: Viewer)   // the close handler of v's connection
    | Cleanup(stream: string)            // the stream ended

  function Do(w: Watch, e: Event): Watch
  {
    match e
    case Join(s, v) => Watch(Added(w.viewers, s, v), w.counters[s := Counter(w, s) + 1])
    case Leave(s, v) =>
      var count := Counter(w, s) - 1;
      Watch(Removed(w.viewers, s, v), w.counters[s := if count < 0 then 0 else count])
    case Cleanup(s) => Watch(w.viewers - {s}, w.counters[s := 0])
  }

  class Node {
    const registry: ViewerRegistry
    var counters: map<string, int>

    constructor ()
      ensures View() == Watch(map[], map[]) && fresh(registry)
    {
      registry := new ViewerRegistry();
      counters := map[];
    }

    function View(): Watch
      reads this, registry
    {
      Watch(registry.viewers, counters)
    }

    method Handle(e: Event)
      modifies this, registry
      ensures View() == Do(old(View()), e)
    {
      match e
      case Join(s, v) =>
        registry.Add(s, v);
        var count := Incr(s, 1);
      case Leave(s, v) =>
        registry.Remove(s, v);
        var count := Incr(s, -1);
        if count < 0 {
          counters := counters[s := 0];
        }
      case Cleanup(s) =>
        var snapshot := registry.CloseAll(s);
        counters := counters[s := 0];
    }

    // Redis INCR and DECR.
    method Incr(stream: string, step: int) returns (count: int)
      modifies this`counters
      ensures count == step + if stream in old(counters) then old(counters)[stream] else 0
      ensures counters == old(counters)[stream := count]
    {
      count := step + if stream in counters then counters[stream] else 0;
      counters := counters[stream := count];
    }
  }

  // ----- runs -----

  function After(events: seq<Event>): Watch
  {
    if events == [] then Watch(map[], map[]) else Do(After(events[..|events| - 1]), events[|events| - 1])
  }

  // A connection joins a stream only once: it is new when its join handler runs.
  predicate FreshJoins(events: seq<Event>)
  {
    forall i | 0 <= i < |events| && events[i].Join? :: events[i].v !in Members(After(events[..i]), events[i].stream)
  }

  lemma {:induction false} MembersDo(w: Watch, e: Event, s: string)
    ensures Members(Do(w, e), s) ==
            if e.stream != s then Members(w, s)
            else match e
              case Join(_, v) => Members(w, s) + {v}
              case Leave(_, v) => Members(w, s) - {v}
              case Cleanup(_) => {}
  {
  }

  ghost predicate Sound(w: Watch, s: string)
  {
    0 <= Counter(w, s) <= |Members(w, s)|
  }

  lemma {:induction false} SoundDo(w: Watch, e: Event, s: string)
    requires Sound(w, s) && (e.Join? ==> e.v !in Members(w, e.stream))
    ensures Sound(Do(w, e), s)
  {
    MembersDo(w, e, s);
    if e.Leave? && e.v in Members(w, s) { SizeMinus(Members(w, s), e.v); }
  }

  lemma {:induction false} SizeMinus<T>(a: set<T>, x: T)
    requires x in a
    ensures |a - {x}| == |a| - 1
  {
    assert a == a - {x} + {x};
  }

  // The counter never goes negative and never exceeds the number of registered viewers, and the
  // registry never holds an empty set.
  lemma {:induction false} NeverOvercounts(events: seq<Event>)
    requires FreshJoins(events)
    ensures forall s :: Sound(After(events), s)
    ensures forall s | s in After(events).viewers :: After(events).viewers[s] != {}
  {
    if events != [] {
      var n := |events| - 1;
      FreshPrefix(events, n);
      NeverOvercounts(events[..n]);
      forall s ensures Sound(After(events), s) { SoundDo(After(events[..n]), events[n], s); }
    }
  }

  lemma {:induction false} FreshPrefix(events: seq<Event>, n: nat)
    requires FreshJoins(events) && n <= |events|
    ensures FreshJoins(events[..n])
  {
    assert forall i | 0 <= i < n :: events[..n][i] == events[i] && events[..n][..i] == events[..i];
  }

  // ----- when the counter is exact -----

  ghost predicate Exact(w: Watch)
  {
    forall s :: Counter(w, s) == |Members(w, s)|
  }

  // A close handler for a connection no longer registered, while others watch.
  predicate Stray(w: Watch, e: Event)
  {
    e.Leave? && e.v !in Members(w, e.stream) && Members(w, e.stream) != {}
  }

  lemma {:induction false} ExactDo(w: Watch, e: Event)
    requires Exact(w) && (e.Join? ==> e.v !in Members(w, e.stream))
    ensures Exact(Do(w, e)) <==> !Stray(w, e)
  {
    forall s ensures Counter(Do(w, e), s) == |Members(Do(w, e), s)| || (Stray(w, e) && e.stream == s) {
      MembersDo(w, e, s);
      assert Counter(w, s) == |Members(w, s)|;
      if e.Leave? && e.v in Members(w, s) { SizeMinus(Members(w, s), e.v); }
    }
    if Stray(w, e) {
      MembersDo(w, e, e.stream);
      assert Counter(w, e.stream) == |Members(w, e.stream)| > 0;
      assert Members(w, e.stream) - {e.v} == Members(w, e.stream);
      assert Counter(Do(w, e), e.stream) != |Members(Do(w, e), e.stream)|;
    }
  }

  ghost predicate ExactAt(events: seq<Event>, n: nat) { n <= |events| && Exact(After(events[..n])) }

  predicate StrayAt(events: seq<Event>, i: nat) { i < |events| && Stray(After(events[..i]), events[i]) }

  lemma {:induction false} ExactNext(events: seq<Event>, i: nat)
    requires FreshJoins(events) && i < |events| && ExactAt(events, i)
    ensures ExactAt(events, i + 1) <==> !StrayAt(events, i)
  {
    assert events[..i + 1][..i] == events[..i];
    ExactDo(After(events[..i]), events[i]);
  }

  lemma {:induction false} ExactUpTo(events: seq<Event>, n: nat)
    requires FreshJoins(events) && n <= |events| && forall i | 0 <= i < n :: !StrayAt(events, i)
    ensures ExactAt(events, n)
  {
    if n > 0 {
      ExactUpTo(events, n - 1);
      ExactNext(events, n - 1);
    }
  }

  // The counter equals the number of viewers throughout a run exactly when no close is stray.
  lemma {:induction false} ExactIff(events: seq<Event>)
    requires FreshJoins(events)
    ensures (forall n | 0 <= n <= |events| :: ExactAt(events, n)) <==>
            (forall i | 0 <= i < |events| :: !StrayAt(events, i))
  {
    if forall i | 0 <= i < |events| :: !StrayAt(events, i) {
      forall n | 0 <= n <= |events| ensures ExactAt(events, n) { ExactUpTo(events, n); }
    }
    if forall n | 0 <= n <= |events| :: ExactAt(events, n) {
      forall i | 0 <= i < |events| ensures !StrayAt(events, i) { ExactNext(events, i); }
    }
  }

  // Every close follows its own join, with neither another close of it nor a cleanup between.
  predicate Orderly(events: seq<Event>)
  {
    forall i | 0 <= i < |events| && events[i].Leave? ::
      exists j :: 0 <= j < i && events[j] == Join(events[i].stream, events[i].v) && Undisturbed(events, j, i)
  }

  predicate Undisturbed(events: seq<Event>, j: nat, i: nat)
    requires j < i < |events|
  {
    forall k | j < k < i :: events[k] != events[i] && events[k] != Cleanup(events[i].stream)
  }

  lemma {:induction false} StillMember(events: seq<Event>, s: string, v: Viewer, j: nat, i: nat)
    requires j < i <= |events| && events[j] == Join(s, v)
    requires forall k | j < k < i :: events[k] != Leave(s, v) && events[k] != Cleanup(s)
    ensures v in Members(After(events[..i]), s)
  {
    assert events[..i][..i - 1] == events[..i - 1];
    MembersDo(After(events[..i - 1]), events[i - 1], s);
    if j < i - 1 { StillMember(events, s, v, j, i - 1); }
  }

  // Without cleanups and repeated closes the counter is exact all along.
  lemma {:induction false} OrderlyIsExact(events: seq<Event>)
    requires FreshJoins(events) && Orderly(events)
    ensures forall n | 0 <= n <= |events| :: ExactAt(events, n)
  {
    forall i | 0 <= i < |events| ensures !StrayAt(events, i) {
      if events[i].Leave? {
        var j :| 0 <= j < i && events[j] == Join(events[i].stream, events[i].v) && Undisturbed(events, j, i);
        StillMember(events, events[i].stream, events[i].v, j, i);
      }
    }
    ExactIff(events);
  }

  // A close that arrives after its stream was cleaned up takes away the count of a later viewer.
  lemma {:induction false} LateCloseUndercounts(s: string)
    ensures var events := [Join(s, 1), Cleanup(s), Join(s, 2), Leave(s, 1)];
            FreshJoins(events) && Members(After(events), s) == {2} && Counter(After(events), s) == 0
  {
    var a := [Join(s, 1)];
    var b := a + [Cleanup(s)];
    var c := b + [Join(s, 2)];
    var d := c + [Leave(s, 1)];
    assert d == [Join(s, 1), Cleanup(s), Join(s, 2), Leave(s, 1)];
    assert d[..0] == [] && d[..1] == a && d[..2] == b && d[..3] == c && a[..0] == [] && b[..1] == a && c[..2] == b;
    assert After([]) == Watch(map[], map[]);
    assert After(a) == Do(After([]), Join(s, 1));
    assert After(b) == Do(After(a), Cleanup(s));
    assert After(c) == Do(After(b), Join(s, 2));
    assert After(d) == Do(After(c), Leave(s, 1));
  }
}
