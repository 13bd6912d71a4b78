/** The order in which the tree's iterator visits leaves (radix_tree_iterator.h).
  *
  * `ord` fixes, for every node, the order in which its unordered_map enumerates the children.
  * `After` is what remains to be visited once a subtree is done: the iterator, which keeps only a
  * node pointer, recomputes its head by climbing and descending.
  */
module RadixOrder {
  import opened Sequences
  import opened RadixShape
  import opened RadixUpdates

  type Order<N> = map<N, seq<string>>

  ghost predicate Distinct<A>(s: seq<A>)
  {
    forall i, j | 0 <= i < j < |s| :: s[i] != s[j]
  }

  ghost predicate EnumeratesNode<N, T>(h: Forest<N, T>, ord: Order<N>, n: N)
    requires n in h
  {
    && n in ord
    && Distinct(ord[n])
    && (forall e :: e in ord[n] <==> e in h[n].children)
  }

  ghost predicate Enumerates<N, T>(h: Forest<N, T>, ord: Order<N>)
  {
    forall n {:trigger EnumeratesNode(h, ord, n)} | n in h :: EnumeratesNode(h, ord, n)
  }

  ghost predicate Ordered<N, T>(h: Forest<N, T>, r: N, ord: Order<N>)
  {
    Shape(h, r) && Enumerates(h, ord)
  }

  ghost function Deeper<N, T>(h: Forest<N, T>, r: N, n: N): set<N>
    requires Shape(h, r) && n in h
  {
    set m | m in h && Rank(h, r, m) > Rank(h, r, n)
  }

  // The i-th child in enumeration order.
  ghost function Child<N, T>(h: Forest<N, T>, r: N, ord: Order<N>, n: N, i: nat): (c: N)
    requires Ordered(h, r, ord) && n in h && n in ord && i < |ord[n]|
    ensures c in h && c != r && Parent(h, r, c) == n && Edge(h, r, c) == ord[n][i]
    ensures Deeper(h, r, c) < Deeper(h, r, n)
  {
    assert EnumeratesNode(h, ord, n);
    assert ord[n][i] in ord[n];
    ChildFacts(h, r, n, ord[n][i]);
    var c := h[n].children[ord[n][i]];
    assert c in Deeper(h, r, n) && c !in Deeper(h, r, c);
    c
  }

  // The leaves of n's subtree, in visiting order.
  ghost function Leaves<N, T>(h: Forest<N, T>, r: N, ord: Order<N>, n: N): seq<N>
    requires Ordered(h, r, ord) && n in h
    decreases Deeper(h, r, n), 1, 0
  {
    if h[n].children == map[] then [n] else (assert EnumeratesNode(h, ord, n); LeavesFrom(h, r, ord, n, 0))
  }

  // The leaves below n's children from the i-th on.
  ghost function LeavesFrom<N, T>(h: Forest<N, T>, r: N, ord: Order<N>, n: N, i: nat): seq<N>
    requires Ordered(h, r, ord) && n in h && n in ord && i <= |ord[n]|
    decreases Deeper(h, r, n), 0, |ord[n]| - i
  {
    if i == |ord[n]| then []
    else Leaves(h, r, ord, Child(h, r, ord, n, i)) + LeavesFrom(h, r, ord, n, i + 1)
  }

  // n's position among its siblings.
  ghost function Index<N, T>(h: Forest<N, T>, r: N, ord: Order<N>, n: N): (i: nat)
    requires Ordered(h, r, ord) && n in h && n != r
    ensures Parent(h, r, n) in ord && i < |ord[Parent(h, r, n)]| && Child(h, r, ord, Parent(h, r, n), i) == n
    ensures ord[Parent(h, r, n)][i] == Edge(h, r, n)
  {
    var p, e := Parent(h, r, n), Edge(h, r, n);
    assert EnumeratesNode(h, ord, p);
    assert e in ord[p];
    var i :| 0 <= i < |ord[p]| && ord[p][i] == e;
    i
  }

  // The leaves visited after n's subtree.
  ghost function After<N, T>(h: Forest<N, T>, r: N, ord: Order<N>, n: N): seq<N>
    requires Ordered(h, r, ord) && n in h
    decreases Rank(h, r, n)
  {
    if n == r then []
    else
      ParentFacts(h, r, n);
      var p := Parent(h, r, n);
      LeavesFrom(h, r, ord, p, Index(h, r, ord, n) + 1) + After(h, r, ord, p)
  }

  // The traversal from the start of n's subtree on.
  ghost function From<N, T>(h: Forest<N, T>, r: N, ord: Order<N>, n: N): seq<N>
    requires Ordered(h, r, ord) && n in h
  {
    Leaves(h, r, ord, n) + After(h, r, ord, n)
  }

  // What ++ has to deliver from n: n's own leaves when it is internal, else what follows it.
  ghost function Pending<N, T>(h: Forest<N, T>, r: N, ord: Order<N>, n: N): seq<N>
    requires Ordered(h, r, ord) && n in h
  {
    if h[n].children == map[] then After(h, r, ord, n) else From(h, r, ord, n)
  }

  // The whole traversal.
  ghost function Listing<N, T>(h: Forest<N, T>, r: N, ord: Order<N>): seq<N>
    requires Ordered(h, r, ord)
  {
    Pending(h, r, ord, r)
  }

  lemma {:induction false} FromLeaf<N, T>(h: Forest<N, T>, r: N, ord: Order<N>, n: N)
    requires Ordered(h, r, ord) && n in h && h[n].children == map[]
    ensures From(h, r, ord, n) == [n] + Pending(h, r, ord, n)
  {
    assert Leaves(h, r, ord, n) == [n];
  }

  // ----- the three moves of ++ -----

  lemma {:induction false} IndexOfChild<N, T>(h: Forest<N, T>, r: N, ord: Order<N>, n: N, i: nat)
    requires Ordered(h, r, ord) && n in h && n in ord && i < |ord[n]|
    ensures Index(h, r, ord, Child(h, r, ord, n, i)) == i
  {
    assert EnumeratesNode(h, ord, n);
    var j := Index(h, r, ord, Child(h, r, ord, n, i));
    assert ord[n][j] == ord[n][i];
  }

  lemma {:induction false} AfterChild<N, T>(h: Forest<N, T>, r: N, ord: Order<N>, n: N, i: nat)
    requires Ordered(h, r, ord) && n in h && n in ord && i < |ord[n]|
    ensures After(h, r, ord, Child(h, r, ord, n, i)) == LeavesFrom(h, r, ord, n, i + 1) + After(h, r, ord, n)
  {
    IndexOfChild(h, r, ord, n, i);
  }

  lemma {:induction false} ChildFirst<N, T>(h: Forest<N, T>, r: N, ord: Order<N>, n: N, i: nat)
    requires Ordered(h, r, ord) && n in h && n in ord && i < |ord[n]|
    ensures var c := Child(h, r, ord, n, i);
            From(h, r, ord, c) == LeavesFrom(h, r, ord, n, i) + After(h, r, ord, n)
  {
    AfterChild(h, r, ord, n, i);
    LeavesStep(h, r, ord, n, i);
    Assoc(Leaves(h, r, ord, Child(h, r, ord, n, i)), LeavesFrom(h, r, ord, n, i + 1), After(h, r, ord, n));
  }

  lemma {:induction false} LeavesStep<N, T>(h: Forest<N, T>, r: N, ord: Order<N>, n: N, i: nat)
    requires Ordered(h, r, ord) && n in h && n in ord && i < |ord[n]|
    ensures LeavesFrom(h, r, ord, n, i) == Leaves(h, r, ord, Child(h, r, ord, n, i)) + LeavesFrom(h, r, ord, n, i + 1)
  {
  }

  lemma {:induction false} DescendFirst<N, T>(h: Forest<N, T>, r: N, ord: Order<N>, n: N)
    requires Ordered(h, r, ord) && n in h && h[n].children != map[]
    ensures n in ord && |ord[n]| > 0
    ensures From(h, r, ord, Child(h, r, ord, n, 0)) == Pending(h, r, ord, n)
  {
    assert EnumeratesNode(h, ord, n);
    var e :| e in h[n].children;
    assert e in ord[n];
    ChildFirst(h, r, ord, n, 0);
    assert Leaves(h, r, ord, n) == LeavesFrom(h, r, ord, n, 0);
  }

  // From the position at which the parent's enumeration shows n's edge: on to the next sibling,
  // or, after the last child, to whatever follows the parent.
  lemma {:induction false} SiblingAt<N, T>(h: Forest<N, T>, r: N, ord: Order<N>, n: N, i: nat)
    requires Ordered(h, r, ord) && n in h && n != r && Parent(h, r, n) in ord
    requires i < |ord[Parent(h, r, n)]| && ord[Parent(h, r, n)][i] == Edge(h, r, n)
    ensures var p := Parent(h, r, n);
            if i + 1 < |ord[p]| then
              && ord[p][i + 1] in h[p].children
              && h[p].children[ord[p][i + 1]] == Child(h, r, ord, p, i + 1)
              && After(h, r, ord, n) == From(h, r, ord, Child(h, r, ord, p, i + 1))
            else After(h, r, ord, n) == After(h, r, ord, p)
  {
    var p := Parent(h, r, n);
    assert n == Child(h, r, ord, p, i);
    AfterChild(h, r, ord, p, i);
    if i + 1 < |ord[p]| {
      ChildEdge(h, r, ord, p, i + 1);
      ChildFirst(h, r, ord, p, i + 1);
    } else {
      NothingLeft(h, r, ord, p, After(h, r, ord, p));
    }
  }

  lemma {:induction false} ChildEdge<N, T>(h: Forest<N, T>, r: N, ord: Order<N>, n: N, i: nat)
    requires Ordered(h, r, ord) && n in h && n in ord && i < |ord[n]|
    ensures ord[n][i] in h[n].children && h[n].children[ord[n][i]] == Child(h, r, ord, n, i)
  {
    assert EnumeratesNode(h, ord, n);
    assert ord[n][i] in ord[n];
  }

  lemma {:induction false} NothingLeft<N, T>(h: Forest<N, T>, r: N, ord: Order<N>, n: N, after: seq<N>)
    requires Ordered(h, r, ord) && n in h && n in ord
    ensures LeavesFrom(h, r, ord, n, |ord[n]|) + after == after
  {
  }

  // ----- the traversal is complete and repeats nothing -----

  lemma {:induction false} Chain<N, T>(h: Forest<N, T>, r: N, m: N, a: N, b: N)
    requires Shape(h, r) && m in h && a in h && b in h && Below(h, r, m, a) && Below(h, r, m, b)
    ensures Below(h, r, a, b) || Below(h, r, b, a)
    decreases Rank(h, r, m)
  {
    if m != a && m != b {
      ParentFacts(h, r, m);
      Chain(h, r, Parent(h, r, m), a, b);
    }
  }

  lemma {:induction false} SiblingsApart<N, T>(h: Forest<N, T>, r: N, m: N, a: N, b: N)
    requires Shape(h, r) && m in h && a in h && b in h && Below(h, r, m, a) && Below(h, r, m, b)
    requires a != r && b != r && Parent(h, r, a) == Parent(h, r, b)
    ensures a == b
  {
    Chain(h, r, m, a, b);
    var p := Parent(h, r, a);
    ParentFacts(h, r, a);
    ParentFacts(h, r, b);
    if a != b {
      if Below(h, r, a, b) { BelowFacts(h, r, p, b); } else { BelowFacts(h, r, p, a); }
    }
  }

  lemma {:induction false} BelowTrans<N, T>(h: Forest<N, T>, r: N, m: N, c: N, n: N)
    requires Shape(h, r) && m in h && c in h && Below(h, r, m, c) && c != r && Parent(h, r, c) == n
    ensures Below(h, r, m, n)
    decreases Rank(h, r, m)
  {
    ParentFacts(h, r, c);
    if m != c {
      ParentFacts(h, r, m);
      BelowTrans(h, r, Parent(h, r, m), c, n);
    }
  }

  lemma {:induction false} LeavesAre<N, T>(h: Forest<N, T>, r: N, ord: Order<N>, n: N)
    requires Ordered(h, r, ord) && n in h
    ensures forall m :: m in Leaves(h, r, ord, n) <==> m in h && h[m].children == map[] && Below(h, r, m, n)
    ensures Distinct(Leaves(h, r, ord, n))
    decreases Deeper(h, r, n), 1, 0
  {
    if h[n].children == map[] {
      forall m | m in h && Below(h, r, m, n) ensures m == n {
        BelowFacts(h, r, m, n);
      }
    } else {
      assert EnumeratesNode(h, ord, n);
      LeavesFromAre(h, r, ord, n, 0);
      assert Leaves(h, r, ord, n) == LeavesFrom(h, r, ord, n, 0);
      forall m | m in h && h[m].children == map[] && Below(h, r, m, n) ensures m in Leaves(h, r, ord, n) {
        var e := BelowChild(h, r, m, n);
        assert e in ord[n];
        var i :| 0 <= i < |ord[n]| && ord[n][i] == e;
        assert UnderChild(h, r, ord, n, m, i);
        assert UnderFrom(h, r, ord, n, m, 0);
      }
      forall m | m in LeavesFrom(h, r, ord, n, 0) ensures Below(h, r, m, n) && m in h && h[m].children == map[] {
        assert UnderFrom(h, r, ord, n, m, 0);
        var i: nat :| 0 <= i < |ord[n]| && UnderChild(h, r, ord, n, m, i);
        BelowTrans(h, r, m, Child(h, r, ord, n, i), n);
      }
    }
  }

  // m is a leaf in the subtree of n's i-th child.
  ghost predicate UnderChild<N, T>(h: Forest<N, T>, r: N, ord: Order<N>, n: N, m: N, i: nat)
    requires Ordered(h, r, ord) && n in h && n in ord && i < |ord[n]|
  {
    m in h && h[m].children == map[] && Below(h, r, m, Child(h, r, ord, n, i))
  }

  ghost predicate UnderFrom<N, T>(h: Forest<N, T>, r: N, ord: Order<N>, n: N, m: N, i: nat)
    requires Ordered(h, r, ord) && n in h && n in ord && i <= |ord[n]|
  {
    exists j: nat :: i <= j < |ord[n]| && UnderChild(h, r, ord, n, m, j)
  }

  lemma {:induction false} LeavesFromAre<N, T>(h: Forest<N, T>, r: N, ord: Order<N>, n: N, i: nat)
    requires Ordered(h, r, ord) && n in h && n in ord && i <= |ord[n]|
    ensures forall m :: m in LeavesFrom(h, r, ord, n, i) <==> UnderFrom(h, r, ord, n, m, i)
    ensures Distinct(LeavesFrom(h, r, ord, n, i))
    decreases Deeper(h, r, n), 0, |ord[n]| - i
  {
    if i < |ord[n]| {
      var c := Child(h, r, ord, n, i);
      LeavesAre(h, r, ord, c);
      LeavesFromAre(h, r, ord, n, i + 1);
      var xs, ys := Leaves(h, r, ord, c), LeavesFrom(h, r, ord, n, i + 1);
      forall m | m in xs ensures m !in ys {
        if m in LeavesFrom(h, r, ord, n, i + 1) {
          assert UnderFrom(h, r, ord, n, m, i + 1);
          var j: nat :| i + 1 <= j < |ord[n]| && UnderChild(h, r, ord, n, m, j);
          SiblingsApart(h, r, m, c, Child(h, r, ord, n, j));
          IndexOfChild(h, r, ord, n, i);
          IndexOfChild(h, r, ord, n, j);
        }
      }
      DistinctConcat(xs, ys);
      forall m ensures m in xs + ys <==> UnderFrom(h, r, ord, n, m, i) {
        if m in xs { assert UnderChild(h, r, ord, n, m, i); }
      }
    }
  }

  lemma {:induction false} DistinctConcat<A>(xs: seq<A>, ys: seq<A>)
    requires Distinct(xs) && Distinct(ys) && forall x | x in xs :: x !in ys
    ensures Distinct(xs + ys)
  {
    forall i, j | 0 <= i < j < |xs + ys| ensures (xs + ys)[i] != (xs + ys)[j] {
      if i < |xs| <= j { assert xs[i] in xs && ys[j - |xs|] in ys; }
    }
  }

  // The traversal lists each stored leaf exactly once, as many as there are keys.
  lemma {:induction false} ListingComplete<N, T>(h: Forest<N, T>, r: N, ord: Order<N>)
    requires Ordered(h, r, ord)
    ensures Distinct(Listing(h, r, ord))
    ensures forall m :: m in Listing(h, r, ord) <==> Stored(h, r, m)
    ensures |Listing(h, r, ord)| == |Contents(h, r)|
  {
    LeavesAre(h, r, ord, r);
    var xs := Listing(h, r, ord);
    assert xs == if h[r].children == map[] then [] else Leaves(h, r, ord, r) + [];
    forall m ensures m in xs <==> Stored(h, r, m) {
      if m in h {
        BelowRoot(h, r, m);
        BelowFacts(h, r, m, r);
      }
    }
    ListingSize(h, r, xs);
  }

  lemma {:induction false} ListingSize<N, T>(h: Forest<N, T>, r: N, xs: seq<N>)
    requires Shape(h, r) && Distinct(xs) && forall m :: m in xs <==> Stored(h, r, m)
    ensures |xs| == |Contents(h, r)|
  {
    forall i | 0 <= i < |xs| ensures xs[i] in h && Stored(h, r, xs[i]) {
      assert xs[i] in xs;
    }
    var keys := seq(|xs|, i requires 0 <= i < |xs| => h[xs[i]].key);
    forall i, j | 0 <= i < j < |keys| ensures keys[i] != keys[j] {
      if keys[i] == keys[j] { StoredUnique(h, r, xs[i], xs[j]); }
    }
    assert (set k | k in keys) == Contents(h, r).Keys by {
      forall k | k in Contents(h, r) ensures k in keys {
        var n := ContentsFrom(h, r, k);
        assert n in xs;
        var i :| 0 <= i < |xs| && xs[i] == n;
        assert keys[i] == k;
      }
      forall k | k in keys ensures k in Contents(h, r) {
        var i :| 0 <= i < |keys| && keys[i] == k;
        ContentsAt(h, r, xs[i]);
      }
    }
    DistinctSize(keys);
  }

  lemma {:induction false} DistinctSize<A>(xs: seq<A>)
    requires Distinct(xs)
    ensures |set x | x in xs| == |xs|
  {
    if xs != [] {
      var last := |xs| - 1;
      DistinctSize(xs[..last]);
      assert (set x | x in xs) == (set x | x in xs[..last]) + {xs[last]};
      assert xs[last] !in xs[..last];
    }
  }
}
