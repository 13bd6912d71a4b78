/** Sums of a weight over a sequence, under point updates and appends. */
module Sums {

  function B(b: bool): int { if b then 1 else 0 }

  ghost function Sum<A>(s: seq<A>, f: A -> int): int
  {
    if s == [] then 0 else f(s[0]) + Sum(s[1..], f)
  }

  lemma {:induction false} SumUpdate<A>(s: seq<A>, i: nat, x: A, f: A -> int)
    requires i < |s|
    ensures Sum(s[i := x], f) == Sum(s, f) - f(s[i]) + f(x)
  {
    if i == 0 {
      assert s[0 := x][1..] == s[1..];
    } else {
      SumUpdate(s[1..], i - 1, x, f);
      assert s[i := x][1..] == s[1..][i - 1 := x];
    }
  }

  lemma {:induction false} SumAppend<A>(s: seq<A>, x: A, f: A -> int)
    ensures Sum(s + [x], f) == Sum(s, f) + f(x)
  {
    if s == [] {
      assert (s + [x])[1..] == [];
    } else {
      SumAppend(s[1..], x, f);
      assert (s + [x])[1..] == s[1..] + [x];
    }
  }

  // A sum of non-negative weights bounds each of them, and is positive only through one of them.
  lemma {:induction false} SumBounds<A>(s: seq<A>, f: A -> int)
    requires forall i | 0 <= i < |s| :: f(s[i]) >= 0
    ensures Sum(s, f) >= 0
    ensures forall i | 0 <= i < |s| :: f(s[i]) <= Sum(s, f)
    ensures Sum(s, f) > 0 ==> exists i :: 0 <= i < |s| && f(s[i]) > 0
  {
    if s != [] {
      var t := s[1..];
      assert forall i | 0 <= i < |t| :: t[i] == s[i + 1];
      SumBounds(t, f);
      forall i | 0 <= i < |s| ensures f(s[i]) <= Sum(s, f) {
        if i > 0 { assert s[i] == t[i - 1]; }
      }
      if Sum(s, f) > 0 {
        if f(s[0]) == 0 {
          var j :| 0 <= j < |t| && f(t[j]) > 0;
          assert f(s[j + 1]) > 0;
        }
      }
    }
  }

  lemma {:induction false} SumZero<A>(s: seq<A>, f: A -> int)
    requires forall i | 0 <= i < |s| :: f(s[i]) == 0
    ensures Sum(s, f) == 0
  {
    if s != [] {
      forall i | 0 <= i < |s[1..]| ensures f(s[1..][i]) == 0 { assert s[1..][i] == s[i + 1]; }
      SumZero(s[1..], f);
    }
  }

  lemma {:induction false} SumSame<A>(s: seq<A>, f: A -> int, g: A -> int)
    requires forall i | 0 <= i < |s| :: f(s[i]) == g(s[i])
    ensures Sum(s, f) == Sum(s, g)
  {
    if s != [] {
      forall i | 0 <= i < |s[1..]| ensures f(s[1..][i]) == g(s[1..][i]) { assert s[1..][i] == s[i + 1]; }
      SumSame(s[1..], f, g);
    }
  }
}
