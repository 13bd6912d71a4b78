/** Doubled keys: those whose node has become internal with the key's own leaf as its only child.
  * `insert` of a present key makes one, and `erase` does not remove a doubled key. */
module RadixDoubled {
  import opened RadixShape
  import opened RadixUpdates
  import opened RadixOrder

  ghost function Doubled<N, T>(h: Forest<N, T>, r: N): set<string>
  {
    set n | n in h && Single(h, r, n) :: h[n].key
  }

  // Some key properly extends k.
  predicate Extended<T>(m: map<string, T>, k: string)
  {
    exists j :: j in m && k < j
  }

  // What stays doubled when k is added: the keys that do not start k.
  function Unreached(doubled: set<string>, k: string): set<string>
  {
    set j | j in doubled && !(j <= k)
  }

  // The doubled keys after inserting k.
  function DoubledBy<T>(m: map<string, T>, doubled: set<string>, k: string): set<string>
  {
    if k !in m then Unreached(doubled, k)
    else if k != "" && !Extended(m, k) then doubled + {k}
    else doubled
  }

  lemma {:induction false} SinglesTwice<N, T>(h: Forest<N, T>, h1: Forest<N, T>, h2: Forest<N, T>, r: N, p: N)
    requires SinglesBut(h, h1, r, p) && SinglesBut(h1, h2, r, p)
    ensures SinglesBut(h, h2, r, p)
  {
    forall n | n in h.Keys + h2.Keys && n != p ensures Single(h, r, n) <==> Single(h2, r, n) {
      assert n in h1 || n !in h1;
      if n !in h1 {
        assert !Single(h1, r, n);
      }
    }
  }

  // A single node holds a doubled key: its only child is the key's leaf.
  lemma {:induction false} SingleFacts<N, T>(h: Forest<N, T>, r: N, zero: T, q: N)
    requires Shape(h, r) && Tidy(h, r, zero) && Single(h, r, q)
    ensures "" in h[q].children && h[q].children.Keys == {""} && Trunk(h, r, q) && h[q].key != ""
    ensures var c := h[q].children[""];
            Stored(h, r, c) && h[c].key == h[q].key && Parent(h, r, c) == q && h[c].children == map[]
  {
    assert TidyNode(h, r, zero, q) && NodeOk(h, r, q);
    KeysLeft(h[q].children, "");
    assert EdgeOk(h, q, "");
    ChildFacts(h, r, q, "");
    ParentFacts(h, r, h[q].children[""]);
    assert Edge(h, r, q) != "";
  }

  lemma {:induction false} LoneIffDoubled<N, T>(h: Forest<N, T>, r: N, zero: T, n: N)
    requires Shape(h, r) && Tidy(h, r, zero) && Stored(h, r, n)
    ensures LoneLeaf(h, r, h[n].key, n) <==> h[n].key in Doubled(h, r)
    ensures h[n].key in Doubled(h, r) <==> Single(h, r, Parent(h, r, n))
  {
    var p := Parent(h, r, n);
    if Single(h, r, p) {
      SingleFacts(h, r, zero, p);
      assert Edge(h, r, n) in h[p].children;
      assert Edge(h, r, n) == "";
    }
    forall q | q in h && Single(h, r, q) && h[q].key == h[n].key ensures q == p {
      SingleFacts(h, r, zero, q);
      StoredUnique(h, r, n, h[q].children[""]);
    }
  }

  // Dropping n, with its parent no longer single, leaves all the other doubled keys.
  lemma {:induction false} DoubledErased<N, T>(h: Forest<N, T>, h': Forest<N, T>, r: N, zero: T, n: N)
    requires Shape(h, r) && Tidy(h, r, zero) && Stored(h, r, n)
    requires SinglesBut(h, h', r, Parent(h, r, n)) && !Single(h', r, Parent(h, r, n))
    requires forall m | m in h && m in h' :: h'[m].key == h[m].key
    requires forall m | m in h' :: m in h
    ensures Doubled(h', r) == Doubled(h, r) - {h[n].key}
  {
    var p := Parent(h, r, n);
    LoneIffDoubled(h, r, zero, n);
    forall q | q in h && Single(h, r, q) ensures h[q].key == h[n].key <==> q == p {
      SingleFacts(h, r, zero, q);
      if h[q].key == h[n].key { StoredUnique(h, r, n, h[q].children[""]); }
      if q == p { assert Edge(h, r, n) in h[p].children; }
    }
    forall k ensures k in Doubled(h', r) <==> k in Doubled(h, r) && k != h[n].key {
      if k in Doubled(h', r) {
        var q :| q in h' && Single(h', r, q) && h'[q].key == k;
        assert Single(h, r, q);
      }
      if k in Doubled(h, r) && k != h[n].key {
        var q :| q in h && Single(h, r, q) && h[q].key == k;
        assert Single(h', r, q);
      }
    }
  }

  // p is where the descent for k ends: no non-empty edge of p leads further.
  ghost predicate Ends<N, T>(h: Forest<N, T>, r: N, p: N, k: string)
    requires Shape(h, r)
  {
    && p in h && Trunk(h, r, p) && h[p].key <= k
    && forall e | e in h[p].children && e != "" :: !(h[p].key + e <= k)
  }

  // A single node on the way of k can only be the end of the descent.
  lemma {:induction false} OnTheWay<N, T>(h: Forest<N, T>, r: N, zero: T, p: N, q: N, k: string)
    requires Shape(h, r) && Tidy(h, r, zero) && Ends(h, r, p, k) && Single(h, r, q) && h[q].key <= k
    ensures q == p
  {
    SingleFacts(h, r, zero, q);
    if q != p {
      if |h[q].key| <= |h[p].key| {
        assert h[q].key <= h[p].key;
        PrefixBelow(h, r, q, p);
        var e := BelowChild(h, r, p, q);
        assert e == "";
        BelowFacts(h, r, p, h[q].children[e]);
      } else {
        assert h[p].key <= h[q].key;
        PrefixBelow(h, r, p, q);
        var e := BelowChild(h, r, q, p);
        EmptyBelow(h, r, p, q, e);
      }
    }
  }

  // Nothing with children lies below an empty edge.
  lemma {:induction false} EmptyBelow<N, T>(h: Forest<N, T>, r: N, p: N, q: N, e: string)
    requires Shape(h, r) && p in h && q in h && e in h[p].children && h[p].children[e] in h
    requires Below(h, r, q, h[p].children[e]) && h[q].children != map[]
    ensures e != ""
  {
    if e == "" {
      assert NodeOk(h, r, p) && EdgeOk(h, p, "");
      BelowFacts(h, r, q, h[p].children[e]);
    }
  }

  // h' has all the nodes of h with their keys, and the nodes it adds are not single.
  ghost predicate Grown<N, T>(h: Forest<N, T>, h': Forest<N, T>, r: N)
  {
    && (forall m {:trigger m in h} {:trigger h'[m]} | m in h :: m in h' && h'[m].key == h[m].key)
    && (forall m {:trigger Single(h', r, m)} | m in h' && m !in h :: !Single(h', r, m))
  }

  lemma {:induction false} GrownTwice<N, T>(h: Forest<N, T>, h1: Forest<N, T>, h2: Forest<N, T>, r: N, p: N)
    requires Grown(h, h1, r) && Grown(h1, h2, r) && SinglesBut(h, h1, r, p) && SinglesBut(h1, h2, r, p) && p in h
    ensures Grown(h, h2, r) && SinglesBut(h, h2, r, p)
  {
    forall m | m in h2 && m !in h ensures !Single(h2, r, m) {
      if m in h1 { assert Single(h1, r, m) <==> Single(h2, r, m); }
    }
    forall n | n in h.Keys + h2.Keys && n != p ensures Single(h, r, n) <==> Single(h2, r, n) {
      assert Single(h, r, n) ==> Single(h1, r, n);
    }
  }

  // Adding k below the end of its descent.
  lemma {:induction false} DoubledAdded<N, T>(h: Forest<N, T>, h': Forest<N, T>, r: N, zero: T, p: N, k: string)
    requires Shape(h, r) && Tidy(h, r, zero) && Ends(h, r, p, k)
    requires SinglesBut(h, h', r, p) && !Single(h', r, p) && Grown(h, h', r)
    ensures Doubled(h', r) == Unreached(Doubled(h, r), k)
  {
    forall q | q in h && Single(h, r, q) && h[q].key <= k ensures q == p { OnTheWay(h, r, zero, p, q, k); }
    forall j ensures j in Doubled(h', r) <==> j in Unreached(Doubled(h, r), k) {
      if j in Doubled(h', r) {
        var q :| q in h' && Single(h', r, q) && h'[q].key == j;
        assert q in h && q != p && Single(h, r, q);
      }
      if j in Unreached(Doubled(h, r), k) {
        var q :| q in h && Single(h, r, q) && h[q].key == j;
        assert q != p && Single(h', r, q);
      }
    }
  }

  // Splitting an edge at the end of the descent.
  lemma {:induction false} DoubledBeside<N, T>(h: Forest<N, T>, h': Forest<N, T>, r: N, zero: T, p: N, e: string,
      mid: N, k: string)
    requires Shape(h, r) && Tidy(h, r, zero) && Ends(h, r, p, k) && e in h[p].children && e != ""
    requires mid !in h && SinglesBut(h, h', r, mid) && !Single(h', r, mid) && Grown(h, h', r)
    ensures Doubled(h', r) == Unreached(Doubled(h, r), k)
  {
    if Single(h, r, p) { SingleFacts(h, r, zero, p); }
    assert !Single(h, r, p);
    assert p != mid && !Single(h', r, p);
    forall n | n in h.Keys + h'.Keys && n != p ensures Single(h, r, n) <==> Single(h', r, n) {
      if n != mid { assert Single(h, r, n) <==> Single(h', r, n); }
    }
    DoubledAdded(h, h', r, zero, p, k);
  }

  // The whole of insert's common-branch case.
  lemma {:induction false} BesideDoubled<N, T>(h: Forest<N, T>, h': Forest<N, T>, r: N, zero: T, p: N, e: string,
      i: nat, mid: N, x: N, key: string, val: T)
    requires Shape(h, r) && Tidy(h, r, zero) && Ends(h, r, p, key) && e in h[p].children && mid !in h && 0 < i < |e|
    requires h[p].depth <= |key| && h[p].key == key[..h[p].depth] && i <= |key| - h[p].depth
    requires e[..i] == key[h[p].depth..][..i] && (i < |key| - h[p].depth ==> e[i] != key[h[p].depth..][i])
    requires x !in h && mid != x && h[p].children[e] in h
    requires h' == AddLeaf(Split(h, p, e, i, mid, zero), mid, key[h[p].depth..][i..], x, key, val)
    ensures Shape(h', r) && Tidy(h', r, zero)
    ensures key !in Contents(h, r) && Contents(h', r) == Contents(h, r)[key := val]
    ensures Doubled(h', r) == Unreached(Doubled(h, r), key)
  {
    BesideFacts(h, r, zero, p, e, i, mid, x, key, val);
    DoubledBeside(h, h', r, zero, p, e, mid, key);
  }

  // ----- present keys -----

  lemma {:induction false} LeafBelow<N, T>(h: Forest<N, T>, r: N, n: N) returns (m: N)
    requires Shape(h, r) && n in h && (n == r ==> h[r].children != map[])
    ensures Stored(h, r, m) && h[n].key <= h[m].key
    decreases Deeper(h, r, n)
  {
    if h[n].children == map[] {
      m := n;
    } else {
      var e :| e in h[n].children;
      ChildFacts(h, r, n, e);
      var c := h[n].children[e];
      assert c in Deeper(h, r, n) && c !in Deeper(h, r, c);
      m := LeafBelow(h, r, c);
    }
  }

  // A leaf's key has no extension.
  lemma {:induction false} LeafNotExtended<N, T>(h: Forest<N, T>, r: N, p: N)
    requires Shape(h, r) && Stored(h, r, p) && Trunk(h, r, p)
    ensures h[p].key != "" && !Extended(Contents(h, r), h[p].key)
  {
    var _ := Edge(h, r, p);
    forall j | j in Contents(h, r) && h[p].key < j ensures false {
      var m := ContentsFrom(h, r, j);
      PrefixBelow(h, r, p, m);
      BelowFacts(h, r, m, p);
    }
  }

  // An internal node with its own key's leaf and another child has an extension.
  lemma {:induction false} BranchExtended<N, T>(h: Forest<N, T>, r: N, p: N)
    requires Shape(h, r) && p in h && "" in h[p].children && |h[p].children| != 1
    ensures Extended(Contents(h, r), h[p].key)
  {
    KeysLeft(h[p].children, "");
    assert h[p].children.Keys != {""};
    var e :| e in h[p].children && e != "";
    ChildFacts(h, r, p, e);
    var m := LeafBelow(h, r, h[p].children[e]);
    ContentsAt(h, r, m);
    assert h[p].key < h[m].key;
  }

  // Inserting a present key: it is doubled afterwards iff nothing extends it, the empty key never.
  lemma {:induction false} DoubledPresent<N, T>(h: Forest<N, T>, h': Forest<N, T>, r: N, zero: T, p: N)
    requires Shape(h, r) && Tidy(h, r, zero) && p in h && Trunk(h, r, p)
    requires SinglesBut(h, h', r, p) && Grown(h, h', r)
    requires Stored(h, r, p) ==> Single(h', r, p)
    requires !Stored(h, r, p) ==> "" in h[p].children && (Single(h', r, p) <==> Single(h, r, p))
    ensures var k := h[p].key;
            Doubled(h', r) == if k != "" && !Extended(Contents(h, r), k) then Doubled(h, r) + {k} else Doubled(h, r)
  {
    var k := h[p].key;
    if Stored(h, r, p) {
      LeafNotExtended(h, r, p);
    } else {
      PresentInternal(h, r, zero, p);
    }
    assert Single(h', r, p) <==> k != "" && !Extended(Contents(h, r), k);
    forall j ensures j in Doubled(h', r) <==> j in Doubled(h, r) || (j == k && Single(h', r, p)) {
      if j in Doubled(h', r) {
        var q :| q in h' && Single(h', r, q) && h'[q].key == j;
        assert q in h && (q == p || Single(h, r, q));
      }
      if j in Doubled(h, r) {
        var q :| q in h && Single(h, r, q) && h[q].key == j;
        assert Single(h', r, q);
      }
    }
  }

  lemma {:induction false} PresentInternal<N, T>(h: Forest<N, T>, r: N, zero: T, p: N)
    requires Shape(h, r) && Tidy(h, r, zero) && p in h && Trunk(h, r, p) && "" in h[p].children
    ensures Single(h, r, p) <==> h[p].key != "" && !Extended(Contents(h, r), h[p].key)
  {
    if Single(h, r, p) {
      SingleFacts(h, r, zero, p);
      forall j | j in Contents(h, r) && h[p].key < j ensures false {
        var m := ContentsFrom(h, r, j);
        PrefixBelow(h, r, p, m);
        var e := BelowChild(h, r, m, p);
        BelowFacts(h, r, m, h[p].children[e]);
      }
    } else if p != r {
      BranchExtended(h, r, p);
    }
  }

  // The root has lost its children exactly when nothing is stored.
  lemma {:induction false} BareRoot<N, T>(h: Forest<N, T>, r: N)
    requires Shape(h, r)
    ensures h[r].children == map[] <==> Contents(h, r) == map[]
  {
    if h[r].children != map[] {
      var m := LeafBelow(h, r, r);
      ContentsAt(h, r, m);
    } else if Contents(h, r) != map[] {
      var k :| k in Contents(h, r);
      var n := ContentsFrom(h, r, k);
      BelowRoot(h, r, n);
      BelowFacts(h, r, n, r);
    }
  }
}
