/** The radix tree's node graph as a value, and what its shape means.
  *
  * A `Forest` records the fields of every live node (radix_tree_node.h).  `Shape` is a purely
  * local condition on parents and children; that the tree is one tree, that equal keys meet in
  * one leaf and that a descent by matching edges cannot miss are consequences proved here.
  */
module RadixShape {
  import opened Text
  import opened Options

  // The fields of one node: the stored pair, the parent pointer, the depth and the children map.
  datatype Rec<N, T> = Rec(key: string, val: T, parent: Option<N>, depth: nat, children: map<string, N>)

  type Forest<N, T> = map<N, Rec<N, T>>

  // std::string::substr(start, len): the length is clamped (a start beyond the end would throw).
  function SubStr(s: string, start: nat, len: nat): (r: string)
    requires start <= |s|
    ensures |r| <= len && start + |r| <= |s|
    ensures start + len <= |s| ==> r == s[start..start + len]
    ensures start + len >= |s| ==> r == s[start..]
  {
    if start + len <= |s| then s[start..start + len] else s[start..]
  }

  // ----- shape -----

  ghost predicate EdgeOk<N, T>(h: Forest<N, T>, p: N, e: string)
    requires p in h && e in h[p].children
  {
    var c := h[p].children[e];
    && c in h
    && h[c].parent == Some(p)
    && h[c].key == h[p].key + e
    && (e == "" ==> h[c].children == map[])
  }

  ghost predicate SiblingsOk<N>(children: map<string, N>)
  {
    forall e1, e2 | e1 in children && e2 in children && e1 != "" && e2 != "" && e1[0] == e2[0] :: e1 == e2
  }

  // A non-root node hangs under its parent by the rest of its key.
  ghost predicate HangsOk<N, T>(h: Forest<N, T>, n: N)
    requires n in h
  {
    && h[n].parent.Some?
    && h[n].parent.value in h
    && var p := h[h[n].parent.value];
       p.depth <= |h[n].key| && h[n].key[p.depth..] in p.children && p.children[h[n].key[p.depth..]] == n
  }

  ghost predicate NodeOk<N, T>(h: Forest<N, T>, r: N, n: N)
    requires n in h
  {
    && |h[n].key| == h[n].depth
    && (forall e {:trigger EdgeOk(h, n, e)} | e in h[n].children :: EdgeOk(h, n, e))
    && SiblingsOk(h[n].children)
    && (n != r ==> HangsOk(h, n))
  }

  ghost predicate Shape<N, T>(h: Forest<N, T>, r: N)
  {
    && r in h
    && h[r].parent == None
    && h[r].key == ""
    && forall n {:trigger NodeOk(h, r, n)} | n in h :: NodeOk(h, r, n)
  }

  ghost function Parent<N, T>(h: Forest<N, T>, r: N, n: N): (p: N)
    requires Shape(h, r) && n in h && n != r
    ensures p in h
  {
    assert NodeOk(h, r, n);
    h[n].parent.value
  }

  // The edge a node hangs by; the root has the empty one.
  ghost function Edge<N, T>(h: Forest<N, T>, r: N, n: N): (e: string)
    requires Shape(h, r) && n in h
    ensures n != r ==> e in h[Parent(h, r, n)].children && h[Parent(h, r, n)].children[e] == n
    ensures n != r ==> h[n].key == h[Parent(h, r, n)].key + e
  {
    if n == r then ""
    else
      assert NodeOk(h, r, n);
      var p := h[n].parent.value;
      assert NodeOk(h, r, p);
      var e := h[n].key[h[p].depth..];
      assert EdgeOk(h, p, e);
      e
  }

  // Trunk nodes are the ones a descent by non-empty edges passes through.
  ghost predicate Trunk<N, T>(h: Forest<N, T>, r: N, n: N)
    requires Shape(h, r) && n in h
  {
    n == r || Edge(h, r, n) != ""
  }

  // Orders every node strictly above its children; an empty-edge leaf comes just after its parent.
  ghost function Rank<N, T>(h: Forest<N, T>, r: N, n: N): nat
    requires Shape(h, r) && n in h
  {
    2 * |h[n].key| + if Trunk(h, r, n) then 0 else 1
  }

  lemma {:induction false} ParentFacts<N, T>(h: Forest<N, T>, r: N, n: N)
    requires Shape(h, r) && n in h && n != r
    ensures Trunk(h, r, Parent(h, r, n))
    ensures Rank(h, r, Parent(h, r, n)) < Rank(h, r, n)
    ensures h[Parent(h, r, n)].key <= h[n].key
  {
    var p, e := Parent(h, r, n), Edge(h, r, n);
    assert NodeOk(h, r, p) && EdgeOk(h, p, e);
    if p != r {
      var g := Parent(h, r, p);
      assert NodeOk(h, r, g) && EdgeOk(h, g, Edge(h, r, p));
    }
  }

  lemma {:induction false} ChildFacts<N, T>(h: Forest<N, T>, r: N, n: N, e: string)
    requires Shape(h, r) && n in h && e in h[n].children
    ensures var c := h[n].children[e];
            && c in h && c != r && Parent(h, r, c) == n && Edge(h, r, c) == e
            && h[c].key == h[n].key + e && Rank(h, r, n) < Rank(h, r, c)
  {
    assert NodeOk(h, r, n) && EdgeOk(h, n, e);
    var c := h[n].children[e];
    assert c != r;
    assert NodeOk(h, r, c);
    assert h[c].key[h[n].depth..] == e;
    ParentFacts(h, r, c);
  }

  // ----- ancestry -----

  // m is n or lies in the subtree of n: climbing parent pointers from m meets n.
  ghost predicate Below<N, T>(h: Forest<N, T>, r: N, m: N, n: N)
    requires Shape(h, r) && m in h
    decreases Rank(h, r, m)
  {
    m == n || (m != r && (ParentFacts(h, r, m); Below(h, r, Parent(h, r, m), n)))
  }

  lemma {:induction false} BelowRoot<N, T>(h: Forest<N, T>, r: N, m: N)
    requires Shape(h, r) && m in h
    ensures Below(h, r, m, r)
    decreases Rank(h, r, m)
  {
    if m != r {
      ParentFacts(h, r, m);
      BelowRoot(h, r, Parent(h, r, m));
    }
  }

  lemma {:induction false} BelowFacts<N, T>(h: Forest<N, T>, r: N, m: N, n: N)
    requires Shape(h, r) && m in h && n in h && Below(h, r, m, n)
    ensures h[n].key <= h[m].key
    ensures m != n ==> Rank(h, r, n) < Rank(h, r, m) && h[n].children != map[]
    decreases Rank(h, r, m)
  {
    if m != n {
      ParentFacts(h, r, m);
      var _ := Edge(h, r, m);
      BelowFacts(h, r, Parent(h, r, m), n);
    }
  }

  // The child of n through which a proper descendant m is reached.
  lemma {:induction false} BelowChild<N, T>(h: Forest<N, T>, r: N, m: N, n: N) returns (e: string)
    requires Shape(h, r) && m in h && n in h && Below(h, r, m, n) && m != n
    ensures e in h[n].children && Below(h, r, m, h[n].children[e])
    ensures h[n].children[e] in h && h[n].key + e <= h[m].key
    decreases Rank(h, r, m)
  {
    ParentFacts(h, r, m);
    var p := Parent(h, r, m);
    if p == n {
      e := Edge(h, r, m);
    } else {
      e := BelowChild(h, r, p, n);
    }
    ChildFacts(h, r, n, e);
    BelowFacts(h, r, m, h[n].children[e]);
  }

  // Keys determine ancestry: whatever extends a trunk node's key hangs below that node.
  lemma {:induction false} PrefixBelow<N, T>(h: Forest<N, T>, r: N, n: N, m: N)
    requires Shape(h, r) && n in h && m in h && Trunk(h, r, n) && h[n].key <= h[m].key
    ensures Below(h, r, m, n)
    decreases Rank(h, r, n)
  {
    if n == r {
      BelowRoot(h, r, m);
    } else {
      ParentFacts(h, r, n);
      var p, e' := Parent(h, r, n), Edge(h, r, n);
      PrefixBelow(h, r, p, m);
      var e := BelowChild(h, r, m, p);
      var c := h[p].children[e];
      assert NodeOk(h, r, p) && EdgeOk(h, p, e);
      if e == "" {
        BelowFacts(h, r, m, c);
        assert false;
      }
      assert e[0] == h[m].key[|h[p].key|] == e'[0];
      assert e == e';
    }
  }

  // The child under e is where a search for key continues (or ends, under the empty edge).
  ghost predicate Leads<N, T>(h: Forest<N, T>, n: N, key: string, e: string)
    requires n in h && |h[n].key| <= |key|
  {
    && e in h[n].children
    && h[n].children[e] in h
    && if e == "" then h[h[n].children[e]].key == key else OccursAt(key, e, |h[n].key|)
  }

  // A leaf with the sought key is the node itself or is reached through a child that leads to it.
  lemma {:induction false} LeafLeads<N, T>(h: Forest<N, T>, r: N, n: N, key: string, m: N)
    requires Shape(h, r) && n in h && Trunk(h, r, n) && m in h && h[n].key <= key && h[m].key == key
    requires h[m].children == map[] && m != n
    ensures exists e :: Leads(h, n, key, e)
  {
    PrefixBelow(h, r, n, m);
    BelowFacts(h, r, m, n);
    var e := BelowChild(h, r, m, n);
    assert NodeOk(h, r, n) && EdgeOk(h, n, e);
    if e == "" {
      BelowFacts(h, r, m, h[n].children[e]);
    } else {
      assert (h[n].key + e)[|h[n].key|..] == e;
    }
    assert Leads(h, n, key, e);
  }

  // ----- the map a forest stores -----

  ghost predicate Stored<N, T>(h: Forest<N, T>, r: N, n: N)
  {
    n in h && n != r && h[n].children == map[]
  }

  // Two nodes with one key are equal, unless one is an internal node and the other its
  // empty-edge leaf.
  lemma {:induction false} SameKey<N, T>(h: Forest<N, T>, r: N, m: N, n: N)
    requires Shape(h, r) && m in h && n in h && h[m].key == h[n].key && Trunk(h, r, n)
    ensures m == n || (m != r && Edge(h, r, m) == "" && Parent(h, r, m) == n)
  {
    PrefixBelow(h, r, n, m);
    BelowFacts(h, r, m, n);
    if m != n {
      ParentFacts(h, r, m);
      var p, e := Parent(h, r, m), Edge(h, r, m);
      if Trunk(h, r, m) {
        PrefixBelow(h, r, m, n);
        BelowFacts(h, r, n, m);
        assert false;
      }
      BelowFacts(h, r, p, n);
      PrefixBelow(h, r, p, n);
      BelowFacts(h, r, n, p);
    }
  }

  lemma {:induction false} StoredUnique<N, T>(h: Forest<N, T>, r: N, m: N, n: N)
    requires Shape(h, r) && Stored(h, r, m) && Stored(h, r, n) && h[m].key == h[n].key
    ensures m == n
  {
    if Trunk(h, r, n) {
      SameKey(h, r, m, n);
    } else {
      ParentFacts(h, r, n);
      SameKey(h, r, m, Parent(h, r, n));
      SameKey(h, r, n, Parent(h, r, n));
    }
  }

  ghost predicate LeafFor<N, T>(h: Forest<N, T>, r: N, k: string)
  {
    exists n {:trigger Stored(h, r, n)} :: n in h && Stored(h, r, n) && h[n].key == k
  }

  // m agrees with every stored leaf and has a leaf for every key.
  ghost predicate Represents<N, T>(h: Forest<N, T>, r: N, m: map<string, T>)
  {
    && (forall n {:trigger Stored(h, r, n)} | n in h && Stored(h, r, n) :: h[n].key in m && m[h[n].key] == h[n].val)
    && (forall k {:trigger LeafFor(h, r, k)} | k in m :: LeafFor(h, r, k))
  }

  // The abstract value: the one map the stored leaves represent.
  ghost function Contents<N, T>(h: Forest<N, T>, r: N): map<string, T>
    requires Shape(h, r)
  {
    Representable(h, r);
    var m :| Represents(h, r, m);
    m
  }

  lemma {:induction false} Representable<N, T>(h: Forest<N, T>, r: N)
    requires Shape(h, r)
    ensures exists m :: Represents(h, r, m)
  {
    AllStoredUnique(h, r);
    var m := map n | n in h && Stored(h, r, n) :: h[n].key := h[n].val;
    assert Represents(h, r, m);
  }

  lemma {:induction false} RepresentsUnique<N, T>(h: Forest<N, T>, r: N, m1: map<string, T>, m2: map<string, T>)
    requires Represents(h, r, m1) && Represents(h, r, m2)
    ensures m1 == m2
  {
    forall k | k in m1 ensures k in m2 && m1[k] == m2[k] {
      assert LeafFor(h, r, k);
    }
    forall k | k in m2 ensures k in m1 {
      assert LeafFor(h, r, k);
    }
  }

  lemma {:induction false} AllStoredUnique<N, T>(h: Forest<N, T>, r: N)
    requires Shape(h, r)
    ensures forall m, n | Stored(h, r, m) && Stored(h, r, n) && h[m].key == h[n].key :: m == n
  {
    forall m, n | Stored(h, r, m) && Stored(h, r, n) && h[m].key == h[n].key ensures m == n {
      StoredUnique(h, r, m, n);
    }
  }
}
