/** Facts about sequences used throughout. */
module Sequences {

  lemma {:induction false} Assoc<A>(xs: seq<A>, ys: seq<A>, zs: seq<A>)
    ensures xs + (ys + zs) == (xs + ys) + zs
  {
  }

  lemma {:induction false} SplitLast<A>(s: seq<A>)
    requires s != []
    ensures s == s[..|s| - 1] + [s[|s| - 1]]
  {
  }
}
