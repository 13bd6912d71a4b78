/** Route registration and dispatch (ZvejysServer.cpp, ZvejysServer.h, HttpConnection.cpp): exact
  * paths in the radix tree, paths with a parameter in a list scanned in order.  Proved equal to a
  * linear search of the registrations. */
module Routing {
  import opened Sequences
  import opened Options
  import opened RadixShape
  import opened RadixTrees
  import opened RadixRuns

  // A handler and the method it was registered for.
  datatype Route = Route(verb: nat, handler: nat)

  datatype Registration = Registration(path: string, route: Route)

  // ----- segments -----

  // The non-empty parts between slashes.
  function Segments(s: string): (r: seq<string>)
    ensures forall g | g in r :: g != "" && '/' !in g
    decreases |s|
  {
    if s == "" then []
    else if s[0] == '/' then Segments(s[1..])
    else
      var n := RunLength(s);
      [s[..n]] + Segments(s[n..])
  }

  // The length of the leading part without a slash.
  function RunLength(s: string): (n: nat)
    ensures n <= |s| && '/' !in s[..n] && (n < |s| ==> s[n] == '/') && (s != "" && s[0] != '/' ==> n > 0)
  {
    if s == "" || s[0] == '/' then 0
    else
      var n := RunLength(s[1..]);
      assert s[..n + 1] == [s[0]] + s[1..][..n];
      n + 1
  }

  // The getline loop: pieces up to the next slash, the empty ones skipped.
  method SplitPath(s: string) returns (parts: seq<string>)
    ensures parts == Segments(s)
  {
    parts := [];
    var i := 0;
    while i < |s|
      invariant i <= |s| && parts + Segments(s[i..]) == Segments(s)
      decreases |s| - i
    {
      var j := SegmentEnd(s, i);
      SegmentNext(s, i, j, parts);
      if s[i..j] != "" {
        parts := parts + [s[i..j]];
      }
      i := if j < |s| then j + 1 else j;
    }
  }

  method SegmentEnd(s: string, i: nat) returns (j: nat)
    requires i <= |s|
    ensures i <= j <= |s| && '/' !in s[i..j] && (j < |s| ==> s[j] == '/')
  {
    j := i;
    while j < |s| && s[j] != '/'
      invariant i <= j <= |s| && '/' !in s[i..j]
    {
      assert s[i..j + 1] == s[i..j] + [s[j]];
      j := j + 1;
    }
  }

  lemma {:induction false} SegmentNext(s: string, i: nat, j: nat, parts: seq<string>)
    requires i <= j <= |s| && i < |s| && '/' !in s[i..j] && (j < |s| ==> s[j] == '/')
    requires parts + Segments(s[i..]) == Segments(s)
    ensures var next, parts' := if j < |s| then j + 1 else j, if s[i..j] == "" then parts else parts + [s[i..j]];
            parts' + Segments(s[next..]) == Segments(s)
  {
    SegmentStep(s, i, j);
    var later := Segments(s[if j < |s| then j + 1 else j..]);
    Assoc(parts, [s[i..j]], later);
    assert [] + later == later;
  }

  lemma {:induction false} SegmentStep(s: string, i: nat, j: nat)
    requires i <= j <= |s| && i < |s| && '/' !in s[i..j] && (j < |s| ==> s[j] == '/')
    ensures var next := if j < |s| then j + 1 else j;
            Segments(s[i..]) == (if s[i..j] == "" then [] else [s[i..j]]) + Segments(s[next..])
  {
    var t, k := s[i..], j - i;
    if k == 0 {
      assert t[0] == '/' && t[1..] == s[i + 1..];
    } else {
      assert s[i..j][0] == t[0] && s[i..j][0] in s[i..j];
      RunLengthIs(t, k);
      assert t[..k] == s[i..j] && t[k..] == s[j..];
      if j < |s| {
        assert s[j..][1..] == s[j + 1..];
      }
    }
  }

  lemma {:induction false} RunLengthIs(t: string, k: nat)
    requires k <= |t| && '/' !in t[..k] && (k < |t| ==> t[k] == '/')
    ensures RunLength(t) == k
  {
    var n := RunLength(t);
    forall x | 0 <= x < n ensures t[x] != '/' { assert t[..n][x] in t[..n]; }
    forall x | 0 <= x < k ensures t[x] != '/' { assert t[..k][x] in t[..k]; }
  }

  // ----- patterns -----

  predicate IsParam(seg: string)
  {
    seg != "" && seg[0] == '{' && seg[|seg| - 1] == '}'
  }

  function ParamName(seg: string): string
    requires IsParam(seg)
  {
    seg[1..|seg| - 1]
  }

  predicate Fits(seg: string, part: string)
  {
    IsParam(seg) || seg == part
  }

  // Segment-wise match.
  predicate AllFit(segs: seq<string>, parts: seq<string>)
  {
    |segs| == |parts| && forall i | 0 <= i < |segs| :: Fits(segs[i], parts[i])
  }

  predicate Matches(pattern: string, path: string)
  {
    AllFit(Segments(pattern), Segments(path))
  }

  // The captured parameters; a repeated name keeps its last value.
  function Captured(segs: seq<string>, parts: seq<string>): map<string, string>
    requires |segs| == |parts|
  {
    if segs == [] then map[]
    else
      var n := |segs| - 1;
      var m := Captured(segs[..n], parts[..n]);
      if IsParam(segs[n]) then m[ParamName(segs[n]) := parts[n]] else m
  }

  method MatchPattern(pattern: string, path: string) returns (ok: bool, params: map<string, string>)
    ensures ok <==> Matches(pattern, path)
    ensures ok ==> params == Captured(Segments(pattern), Segments(path))
  {
    var segs := SplitPath(pattern);
    var parts := SplitPath(path);
    params := map[];
    if |segs| != |parts| {
      return false, params;
    }
    for i := 0 to |segs|
      invariant forall j | 0 <= j < i :: Fits(segs[j], parts[j])
      invariant params == Captured(segs[..i], parts[..i])
    {
      assert segs[..i + 1][..i] == segs[..i] && parts[..i + 1][..i] == parts[..i];
      assert segs[i] in segs;
      if segs[i][0] == '{' && segs[i][|segs[i]| - 1] == '}' {
        params := params[segs[i][1..|segs[i]| - 1] := parts[i]];
      } else if segs[i] != parts[i] {
        return false, params;
      }
    }
    assert segs[..|segs|] == segs && parts[..|parts|] == parts;
    ok := true;
  }

  // Putting values for the parameters.
  function Substituted(segs: seq<string>, m: map<string, string>): (r: seq<string>)
    requires forall i | 0 <= i < |segs| && IsParam(segs[i]) :: ParamName(segs[i]) in m
    ensures |r| == |segs|
  {
    seq(|segs|, i requires 0 <= i < |segs| => if IsParam(segs[i]) then m[ParamName(segs[i])] else segs[i])
  }

  ghost predicate DistinctNames(segs: seq<string>)
  {
    forall i, j | 0 <= i < j < |segs| && IsParam(segs[i]) && IsParam(segs[j]) ::
      ParamName(segs[i]) != ParamName(segs[j])
  }

  lemma {:induction false} CapturedAt(segs: seq<string>, parts: seq<string>)
    requires |segs| == |parts| && DistinctNames(segs)
    ensures forall i | 0 <= i < |segs| && IsParam(segs[i]) ::
              ParamName(segs[i]) in Captured(segs, parts) && Captured(segs, parts)[ParamName(segs[i])] == parts[i]
  {
    if segs != [] {
      var n := |segs| - 1;
      assert forall i | 0 <= i < n :: segs[..n][i] == segs[i] && parts[..n][i] == parts[i];
      CapturedAt(segs[..n], parts[..n]);
    }
  }

  // With distinct parameter names, substituting the captured values gives back the path, and a
  // path matches exactly when some values make the pattern equal to it.
  lemma {:induction false} MatchIsSubstitution(pattern: string, path: string)
    requires DistinctNames(Segments(pattern))
    ensures var segs, parts := Segments(pattern), Segments(path);
            && (Matches(pattern, path) ==> Yields(segs, Captured(segs, parts), parts))
            && (Matches(pattern, path) <==> exists m :: Yields(segs, m, parts))
  {
    var segs, parts := Segments(pattern), Segments(path);
    if Matches(pattern, path) {
      CapturedYields(segs, parts);
    }
    forall m | Yields(segs, m, parts) ensures AllFit(segs, parts) {
      YieldsFits(segs, m, parts);
    }
  }

  lemma {:induction false} CapturedYields(segs: seq<string>, parts: seq<string>)
    requires DistinctNames(segs) && AllFit(segs, parts)
    ensures Yields(segs, Captured(segs, parts), parts)
  {
    CapturedAt(segs, parts);
    assert Substituted(segs, Captured(segs, parts)) == parts;
  }

  lemma {:induction false} YieldsFits(segs: seq<string>, m: map<string, string>, parts: seq<string>)
    requires Yields(segs, m, parts)
    ensures AllFit(segs, parts)
  {
    forall i | 0 <= i < |segs| ensures Fits(segs[i], parts[i]) { assert Substituted(segs, m)[i] == parts[i]; }
  }

  ghost predicate Yields(segs: seq<string>, m: map<string, string>, parts: seq<string>)
  {
    (forall i | 0 <= i < |segs| && IsParam(segs[i]) :: ParamName(segs[i]) in m) && Substituted(segs, m) == parts
  }

  // ----- registration and dispatch -----

  datatype Target = Exact(route: Route) | Pattern(route: Route, params: map<string, string>) | NotFound

  predicate IsPattern(path: string) { '{' in path }

  // The registrations without a parameter, as the tree receives them; and those with one.
  function ExactOf(regs: seq<Registration>): seq<(string, Route)>
  {
    if regs == [] then []
    else
      var last := regs[|regs| - 1];
      ExactOf(regs[..|regs| - 1]) + if IsPattern(last.path) then [] else [(last.path, last.route)]
  }

  function PatternsOf(regs: seq<Registration>): seq<Registration>
  {
    if regs == [] then []
    else PatternsOf(regs[..|regs| - 1]) + if IsPattern(regs[|regs| - 1].path) then [regs[|regs| - 1]] else []
  }

  // Linear search: the first registration of this very path, whatever its method.
  function FirstExact(regs: seq<Registration>, path: string): Option<Route>
  {
    if regs == [] then None
    else if regs[0].path == path && !IsPattern(path) then Some(regs[0].route)
    else FirstExact(regs[1..], path)
  }

  // Linear search: the first registered pattern that matches and has the method.
  function FirstPattern(regs: seq<Registration>, path: string, verb: nat): Target
  {
    if regs == [] then NotFound
    else if IsPattern(regs[0].path) && Matches(regs[0].path, path) && regs[0].route.verb == verb
    then Pattern(regs[0].route, Captured(Segments(regs[0].path), Segments(path)))
    else FirstPattern(regs[1..], path, verb)
  }

  function LinearDispatch(regs: seq<Registration>, path: string, verb: nat): Target
  {
    match FirstExact(regs, path)
    case Some(r) => Exact(r)
    case None => FirstPattern(regs, path, verb)
  }

  class Server {
    const routes: RadixTree<Route>
    var patterns: seq<Registration>
    ghost var registered: seq<Registration>

    ghost predicate Valid()
      reads this, routes, routes.forest.Keys
    {
      && routes.Valid() && !routes.Drained()
      && routes.Entries() == FirstWins(ExactOf(registered))
      && patterns == PatternsOf(registered)
    }

    constructor (zero: Route)
      ensures Valid() && registered == [] && fresh(routes) && fresh(routes.forest.Keys)
    {
      routes := new RadixTree(zero);
      patterns, registered := [], [];
    }

    // RegisterRoute and RegisterAuthenticatedRoute.
    method Register(path: string, route: Route)
      requires Valid()
      modifies this, routes, routes.forest.Keys
      ensures Valid() && registered == old(registered) + [Registration(path, route)]
      ensures fresh(routes.forest.Keys - old(routes.forest.Keys))
    {
      RegisteredIn(registered, Registration(path, route));
      if IsPattern(path) {
        patterns := patterns + [Registration(path, route)];
      } else {
        InsertRoute(routes, path, route);
      }
      registered := registered + [Registration(path, route)];
    }

    // The lookup of HandleRead.
    method Dispatch(path: string, verb: nat) returns (t: Target)
      requires Valid()
      ensures t == LinearDispatch(registered, path, verb) && Answers(registered, path, verb, t)
    {
      DispatchMeans(registered, path, verb);
      ExactIsFirst(registered, path);
      PatternsAreFirst(registered, path, verb);
      var route := Lookup(routes, path);
      if route.Some? {
        return Exact(route.value);
      }
      t := ScanPatterns(patterns, path, verb);
    }
  }

  method InsertRoute(routes: RadixTree<Route>, path: string, route: Route)
    requires routes.Valid()
    modifies routes, routes.forest.Keys
    ensures routes.Valid() && !routes.Drained() && fresh(routes.forest.Keys - old(routes.forest.Keys))
    ensures routes.Entries() == WithRoute(old(routes.Entries()), path, route)
  {
    var x, inserted := routes.Insert(path, route);
  }

  // The first registration of a path wins.
  function WithRoute(m: map<string, Route>, path: string, route: Route): map<string, Route>
  {
    if path in m then m else m[path := route]
  }

  lemma {:induction false} RegisteredIn(regs: seq<Registration>, r: Registration)
    ensures var m := FirstWins(ExactOf(regs));
            FirstWins(ExactOf(regs + [r])) == if IsPattern(r.path) then m else WithRoute(m, r.path, r.route)
    ensures PatternsOf(regs + [r]) == if IsPattern(r.path) then PatternsOf(regs) + [r] else PatternsOf(regs)
  {
    RegisteredAppend(regs, r);
    if IsPattern(r.path) {
      assert ExactOf(regs) + [] == ExactOf(regs);
    } else {
      assert PatternsOf(regs) + [] == PatternsOf(regs);
      FirstWinsAppend(ExactOf(regs), (r.path, r.route));
    }
  }

  method ScanPatterns(patterns: seq<Registration>, path: string, verb: nat) returns (t: Target)
    requires forall p | p in patterns :: IsPattern(p.path)
    ensures t == FirstPattern(patterns, path, verb)
  {
    var i := 0;
    while i < |patterns|
      invariant i <= |patterns| && FirstPattern(patterns, path, verb) == FirstPattern(patterns[i..], path, verb)
    {
      var ok, params := MatchPattern(patterns[i].path, path);
      assert patterns[i] in patterns && patterns[i..][1..] == patterns[i + 1..];
      if ok && patterns[i].route.verb == verb {
        return Pattern(patterns[i].route, params);
      }
      i := i + 1;
    }
    t := NotFound;
  }

  lemma {:induction false} RegisteredAppend(regs: seq<Registration>, r: Registration)
    ensures ExactOf(regs + [r]) == ExactOf(regs) + if IsPattern(r.path) then [] else [(r.path, r.route)]
    ensures PatternsOf(regs + [r]) == PatternsOf(regs) + if IsPattern(r.path) then [r] else []
  {
    assert (regs + [r])[..|regs|] == regs;
  }

  lemma {:induction false} FirstWinsAppend<T>(ops: seq<(string, T)>, op: (string, T))
    ensures FirstWins(ops + [op]) == if op.0 in FirstWins(ops) then FirstWins(ops) else FirstWins(ops)[op.0 := op.1]
  {
    assert (ops + [op])[..|ops|] == ops;
  }

  lemma {:induction false} FirstExactAppend(regs: seq<Registration>, r: Registration, path: string)
    ensures FirstExact(regs + [r], path) ==
            if FirstExact(regs, path).Some? then FirstExact(regs, path)
            else if r.path == path && !IsPattern(path) then Some(r.route) else None
  {
    if regs == [] {
      assert (regs + [r])[1..] == [];
    } else {
      assert (regs + [r])[1..] == regs[1..] + [r];
      FirstExactAppend(regs[1..], r, path);
    }
  }

  // The tree's map is the linear search for the exact path.
  lemma {:induction false} ExactIsFirst(regs: seq<Registration>, path: string)
    ensures var m := FirstWins(ExactOf(regs));
            FirstExact(regs, path) == if path in m then Some(m[path]) else None
  {
    if regs != [] {
      var n := |regs| - 1;
      var was, r := regs[..n], regs[n];
      assert regs == was + [r];
      ExactIsFirst(was, path);
      FirstExactAppend(was, r, path);
      RegisteredIn(was, r);
    }
  }

  lemma {:induction false} FirstPatternAppend(regs: seq<Registration>, r: Registration, path: string, verb: nat)
    ensures FirstPattern(regs + [r], path, verb) ==
            if FirstPattern(regs, path, verb) != NotFound then FirstPattern(regs, path, verb)
            else FirstPattern([r], path, verb)
  {
    if regs == [] {
      assert regs + [r] == [r];
    } else {
      assert (regs + [r])[1..] == regs[1..] + [r];
      FirstPatternAppend(regs[1..], r, path, verb);
    }
  }

  // Scanning the pattern list is scanning the registrations.
  lemma {:induction false} PatternsAreFirst(regs: seq<Registration>, path: string, verb: nat)
    ensures FirstPattern(PatternsOf(regs), path, verb) == FirstPattern(regs, path, verb)
    ensures forall p | p in PatternsOf(regs) :: IsPattern(p.path)
  {
    if regs != [] {
      var n := |regs| - 1;
      var was, r := regs[..n], regs[n];
      assert regs == was + [r];
      PatternsAreFirst(was, path, verb);
      FirstPatternAppend(was, r, path, verb);
      if IsPattern(r.path) {
        FirstPatternAppend(PatternsOf(was), r, path, verb);
      } else {
        assert PatternsOf(was) + [] == PatternsOf(was);
        assert FirstPattern([r], path, verb) == FirstPattern([r][1..], path, verb);
      }
    }
  }

  // ----- exact routes and the request method -----

  // Linear search: the first registration of this very path with this method.
  function FirstExactFor(regs: seq<Registration>, path: string, verb: nat): Option<Route>
  {
    if regs == [] then None
    else if regs[0].path == path && !IsPattern(path) && regs[0].route.verb == verb then Some(regs[0].route)
    else FirstExactFor(regs[1..], path, verb)
  }

  // Dispatch as it would be if exact routes compared the method, as pattern routes do.
  function MethodDispatch(regs: seq<Registration>, path: string, verb: nat): Target
  {
    match FirstExactFor(regs, path, verb)
    case Some(r) => Exact(r)
    case None => FirstPattern(regs, path, verb)
  }

  lemma {:induction false} FirstExactForIs(regs: seq<Registration>, path: string, verb: nat)
    ensures var all, mine := FirstExact(regs, path), FirstExactFor(regs, path, verb);
            && (mine.Some? ==> all.Some? && mine.value.verb == verb)
            && (all.Some? && all.value.verb == verb ==> mine == all)
  {
    if regs != [] { FirstExactForIs(regs[1..], path, verb); }
  }

  lemma {:induction false} PatternsAreNotExact(regs: seq<Registration>, path: string, verb: nat)
    ensures !FirstPattern(regs, path, verb).Exact?
  {
    if regs != [] { PatternsAreNotExact(regs[1..], path, verb); }
  }

  // The method is respected exactly when the first registration of the path, if there is one, is
  // for this method.
  lemma {:induction false} RespectsMethodIff(regs: seq<Registration>, path: string, verb: nat)
    ensures LinearDispatch(regs, path, verb) == MethodDispatch(regs, path, verb) <==>
            FirstExact(regs, path).None? || FirstExact(regs, path).value.verb == verb
  {
    FirstExactForIs(regs, path, verb);
    PatternsAreNotExact(regs, path, verb);
  }

  // Two methods registered on one path, GET and POST say: a request for the second gets the
  // handler of the first.
  lemma {:induction false} LaterMethodUnreached(path: string, first: Route, second: Route)
    requires !IsPattern(path) && first.verb != second.verb
    ensures var regs := [Registration(path, first), Registration(path, second)];
            && LinearDispatch(regs, path, second.verb) == Exact(first)
            && MethodDispatch(regs, path, second.verb) == Exact(second)
  {
    var regs := [Registration(path, first), Registration(path, second)];
    var last := [Registration(path, second)];
    assert regs[1..] == last;
    assert FirstExactFor(last, path, second.verb) == Some(second);
    assert FirstExactFor(regs, path, second.verb) == FirstExactFor(last, path, second.verb);
  }

  // ----- which registration answers -----

  // A pattern segment stands for a path segment: it is in braces, or it is the same.
  predicate StandsFor(seg: string, part: string)
  {
    seg == part || (seg != "" && seg[0] == '{' && seg[|seg| - 1] == '}')
  }

  predicate PathFits(pattern: string, path: string)
  {
    var segs, parts := Segments(pattern), Segments(path);
    |segs| == |parts| && forall j | 0 <= j < |segs| :: StandsFor(segs[j], parts[j])
  }

  // Registration i is of this very path, without a brace.
  predicate ExactAt(regs: seq<Registration>, i: nat, path: string)
  {
    i < |regs| && regs[i].path == path && '{' !in path
  }

  // Registration i has a brace in its path, fits the path and has the method.
  predicate PatternAt(regs: seq<Registration>, i: nat, path: string, verb: nat)
  {
    i < |regs| && '{' in regs[i].path && PathFits(regs[i].path, path) && regs[i].route.verb == verb
  }

  // The segments in braces, braces off, are the names; each has the path segment at its last place.
  predicate Binds(segs: seq<string>, parts: seq<string>, m: map<string, string>)
  {
    |segs| == |parts| && OnlyNames(segs, m) && LastValues(segs, parts, m)
  }

  predicate OnlyNames(segs: seq<string>, m: map<string, string>)
  {
    forall x | x in m :: exists j :: 0 <= j < |segs| && Named(segs, j, x)
  }

  predicate LastValues(segs: seq<string>, parts: seq<string>, m: map<string, string>)
    requires |segs| == |parts|
  {
    forall j, x | 0 <= j < |segs| && x == Name(segs[j]) && Named(segs, j, x) && LastNamed(segs, j, x) ::
      x in m && m[x] == parts[j]
  }

  function Name(seg: string): string { if |seg| < 2 then "" else seg[1..|seg| - 1] }

  predicate Named(segs: seq<string>, j: nat, x: string)
  {
    j < |segs| && |segs[j]| >= 2 && segs[j][0] == '{' && segs[j][|segs[j]| - 1] == '}' && x == segs[j][1..|segs[j]| - 1]
  }

  predicate LastNamed(segs: seq<string>, j: nat, x: string)
  {
    forall k | j < k < |segs| :: !Named(segs, k, x)
  }

  // t is the answer to the request: the earliest registration of this very path, else the earliest
  // pattern that fits and has the method, with its parameters, else not found.
  ghost predicate Answers(regs: seq<Registration>, path: string, verb: nat, t: Target)
  {
    && (forall i: nat | ExactAt(regs, i, path) && (forall k | 0 <= k < i :: !ExactAt(regs, k, path)) ::
          t == Exact(regs[i].route))
    && (forall i: nat | PatternAt(regs, i, path, verb) && (forall k | 0 <= k < i :: !PatternAt(regs, k, path, verb)) ::
          (exists k :: ExactAt(regs, k, path)) ||
          (t.Pattern? && t.route == regs[i].route && Binds(Segments(regs[i].path), Segments(path), t.params)))
    && (t == NotFound <==> forall i: nat :: !ExactAt(regs, i, path) && !PatternAt(regs, i, path, verb))
  }

  lemma {:induction false} FirstExactMeans(regs: seq<Registration>, path: string)
    ensures match FirstExact(regs, path)
            case None => forall i: nat :: !ExactAt(regs, i, path)
            case Some(r) =>
              exists i: nat :: ExactAt(regs, i, path) && r == regs[i].route && forall k | 0 <= k < i ::
                !ExactAt(regs, k, path)
  {
    if regs != [] {
      FirstExactMeans(regs[1..], path);
      assert forall i: nat :: ExactAt(regs[1..], i, path) <==> ExactAt(regs, i + 1, path);
      if ExactAt(regs, 0, path) {
        assert FirstExact(regs, path) == Some(regs[0].route);
      } else if FirstExact(regs, path).Some? {
        var i: nat :| ExactAt(regs[1..], i, path) && FirstExact(regs[1..], path) == Some(regs[1..][i].route) &&
                      forall k | 0 <= k < i :: !ExactAt(regs[1..], k, path);
        assert ExactAt(regs, i + 1, path) && regs[1..][i] == regs[i + 1];
        forall k | 0 <= k < i + 1 ensures !ExactAt(regs, k, path) {
          if k > 0 { assert !ExactAt(regs[1..], k - 1, path); }
        }
      } else {
        forall i: nat ensures !ExactAt(regs, i, path) {
          if i > 0 { assert !ExactAt(regs[1..], i - 1, path); }
        }
      }
    }
  }

  lemma {:induction false} MatchesMeans(pattern: string, path: string)
    ensures Matches(pattern, path) <==> PathFits(pattern, path)
  {
  }

  lemma {:induction false} CapturedBinds(segs: seq<string>, parts: seq<string>)
    requires |segs| == |parts| && forall j | 0 <= j < |segs| :: segs[j] != ""
    ensures Binds(segs, parts, Captured(segs, parts))
  {
    if segs != [] {
      var n := |segs| - 1;
      CapturedBinds(segs[..n], parts[..n]);
      SplitLast(segs);
      SplitLast(parts);
      BindsAppend(segs[..n], parts[..n], Captured(segs[..n], parts[..n]), segs[n], parts[n]);
    }
  }

  lemma {:induction false} NamedAppend(segs: seq<string>, seg: string)
    ensures forall j: nat, x | j < |segs| :: Named(segs + [seg], j, x) <==> Named(segs, j, x)
    ensures forall j: nat, x | j < |segs| && LastNamed(segs + [seg], j, x) ::
              LastNamed(segs, j, x) && !Named(segs + [seg], |segs|, x)
  {
    forall j: nat, x | j < |segs| && LastNamed(segs + [seg], j, x) ensures LastNamed(segs, j, x) {
      assert forall k: nat | k < |segs| :: Named(segs + [seg], k, x) <==> Named(segs, k, x);
    }
  }

  lemma {:induction false} BindsAppend(segs: seq<string>, parts: seq<string>, m: map<string, string>, seg: string,
      part: string)
    requires Binds(segs, parts, m) && seg != ""
    ensures Binds(segs + [seg], parts + [part], if IsParam(seg) then m[ParamName(seg) := part] else m)
  {
    NamesAppend(segs, m, seg, part);
    ValuesAppend(segs, parts, m, seg, part);
  }

  lemma {:induction false} NamesAppend(segs: seq<string>, m: map<string, string>, seg: string, part: string)
    requires OnlyNames(segs, m)
    ensures OnlyNames(segs + [seg], if IsParam(seg) then m[ParamName(seg) := part] else m)
  {
    var m' := if IsParam(seg) then m[ParamName(seg) := part] else m;
    NamedAppend(segs, seg);
    forall x | x in m' ensures exists j :: 0 <= j < |segs + [seg]| && Named(segs + [seg], j, x) {
      if x in m {
        var j :| 0 <= j < |segs| && Named(segs, j, x);
        assert Named(segs + [seg], j, x);
      } else {
        assert Named(segs + [seg], |segs|, x);
      }
    }
  }

  lemma {:induction false} ValuesAppend(segs: seq<string>, parts: seq<string>, m: map<string, string>, seg: string,
      part: string)
    requires |segs| == |parts| && LastValues(segs, parts, m) && seg != ""
    ensures LastValues(segs + [seg], parts + [part], if IsParam(seg) then m[ParamName(seg) := part] else m)
  {
    var segs', m' := segs + [seg], if IsParam(seg) then m[ParamName(seg) := part] else m;
    NamedAppend(segs, seg);
    forall j, x | 0 <= j < |segs'| && x == Name(segs'[j]) && Named(segs', j, x) && LastNamed(segs', j, x)
      ensures x in m' && m'[x] == (parts + [part])[j]
    {
      if j < |segs| {
        assert Named(segs, j, x) && LastNamed(segs, j, x) && !Named(segs', |segs|, x);
      }
    }
  }

  ghost predicate PatternFound(regs: seq<Registration>, path: string, verb: nat, t: Target, i: nat)
  {
    && PatternAt(regs, i, path, verb) && (forall k | 0 <= k < i :: !PatternAt(regs, k, path, verb))
    && t.Pattern? && t.route == regs[i].route && Binds(Segments(regs[i].path), Segments(path), t.params)
  }

  lemma {:induction false} FirstPatternMeans(regs: seq<Registration>, path: string, verb: nat)
    ensures var t := FirstPattern(regs, path, verb);
            if t == NotFound then forall i: nat :: !PatternAt(regs, i, path, verb)
            else exists i: nat :: PatternFound(regs, path, verb, t, i)
  {
    if regs != [] {
      var t, rest := FirstPattern(regs, path, verb), regs[1..];
      FirstPatternMeans(rest, path, verb);
      MatchesMeans(regs[0].path, path);
      assert forall i: nat :: PatternAt(rest, i, path, verb) <==> PatternAt(regs, i + 1, path, verb);
      if PatternAt(regs, 0, path, verb) {
        var segs := Segments(regs[0].path);
        assert forall j | 0 <= j < |segs| :: segs[j] in segs;
        CapturedBinds(segs, Segments(path));
        assert PatternFound(regs, path, verb, t, 0);
      } else if t == NotFound {
        forall i: nat ensures !PatternAt(regs, i, path, verb) {
          if i > 0 { assert !PatternAt(rest, i - 1, path, verb); }
        }
      } else {
        var i: nat :| PatternFound(rest, path, verb, t, i);
        assert rest[i] == regs[i + 1];
        forall k | 0 <= k < i + 1 ensures !PatternAt(regs, k, path, verb) {
          if k > 0 { assert !PatternAt(rest, k - 1, path, verb); }
        }
        assert PatternFound(regs, path, verb, t, i + 1);
      }
    }
  }

  // Dispatch answers with the registration that should answer.
  lemma {:induction false} DispatchMeans(regs: seq<Registration>, path: string, verb: nat)
    ensures Answers(regs, path, verb, LinearDispatch(regs, path, verb))
  {
    FirstExactMeans(regs, path);
    FirstPatternMeans(regs, path, verb);
    PatternsAreNotExact(regs, path, verb);
    var t := LinearDispatch(regs, path, verb);
    if FirstExact(regs, path).Some? {
      var r := FirstExact(regs, path).value;
      var i: nat :| ExactAt(regs, i, path) && r == regs[i].route && forall k | 0 <= k < i :: !ExactAt(regs, k, path);
      forall j: nat | ExactAt(regs, j, path) && (forall k | 0 <= k < j :: !ExactAt(regs, k, path)) ensures j == i {
        assert j < i ==> !ExactAt(regs, j, path);
        assert i < j ==> !ExactAt(regs, i, path);
      }
    } else if t != NotFound {
      var i: nat :| PatternFound(regs, path, verb, t, i);
      forall j: nat | PatternAt(regs, j, path, verb) && (forall k | 0 <= k < j :: !PatternAt(regs, k, path, verb))
        ensures j == i
      {
        assert j < i ==> !PatternAt(regs, j, path, verb);
        assert i < j ==> !PatternAt(regs, i, path, verb);
      }
    }
  }

  // ----- what the segments are -----

  // The segments of the empty path, of a path without a slash, and of two paths with a slash
  // between them: these three equations determine Segments.
  lemma {:induction false} SegmentsMean(a: string, b: string)
    ensures Segments("") == [] && (a != "" && '/' !in a ==> Segments(a) == [a])
    ensures Segments(a + "/" + b) == Segments(a) + Segments(b)
    decreases |a|
  {
    var s := a + "/" + b;
    if a != "" && '/' !in a {
      assert a[..|a|] == a && a[|a|..] == "";
      RunLengthIs(a, |a|);
    }
    if a == "" {
      assert s[1..] == b;
    } else if a[0] == '/' {
      assert s[1..] == a[1..] + "/" + b;
      SegmentsMean(a[1..], b);
    } else {
      var n := RunLength(a);
      assert s[..n] == a[..n] && s[n] == '/';
      RunLengthIs(s, n);
      assert s[n..] == a[n..] + "/" + b;
      SegmentsMean(a[n..], b);
      Assoc([a[..n]], Segments(a[n..]), Segments(b));
    }
  }
}
