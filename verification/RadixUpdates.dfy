/** The five ways the tree's operations rearrange nodes, and what each does to the stored map.
  *
  * `insert` is Demote and AddLeaf, or Split followed by AddLeaf; `erase` is RemoveLeaf, possibly
  * followed by Merge.
  */
module RadixUpdates {
  import opened Options
  import opened RadixShape

  // Internal nodes carry the mapped type's default, and only an empty-edge leaf can be an only
  // child below the root.
  ghost predicate TidyNode<N, T>(h: Forest<N, T>, r: N, zero: T, n: N)
    requires n in h
  {
    h[n].children != map[] && n != r ==> h[n].val == zero && (|h[n].children| == 1 ==> "" in h[n].children)
  }

  ghost predicate Tidy<N, T>(h: Forest<N, T>, r: N, zero: T)
  {
    forall n {:trigger TidyNode(h, r, zero, n)} | n in h :: TidyNode(h, r, zero, n)
  }

  // An internal node below the root with one child.
  ghost predicate Single<N, T>(h: Forest<N, T>, r: N, n: N)
  {
    n in h && n != r && |h[n].children| == 1
  }

  // The same nodes are single before and after, p perhaps excepted.
  ghost predicate SinglesBut<N, T>(h: Forest<N, T>, h': Forest<N, T>, r: N, p: N)
  {
    forall n {:trigger Single(h, r, n)} {:trigger Single(h', r, n)} | n in h.Keys + h'.Keys && n != p ::
      Single(h, r, n) <==> Single(h', r, n)
  }

  // Tidy, with one node excepted.
  ghost predicate TidyBut<N, T>(h: Forest<N, T>, r: N, zero: T, p: N)
  {
    forall n {:trigger TidyNode(h, r, zero, n)} | n in h && n != p :: TidyNode(h, r, zero, n)
  }

  // ----- definitions -----

  ghost function AddLeaf<N, T>(h: Forest<N, T>, p: N, e: string, x: N, key: string, val: T): Forest<N, T>
    requires p in h
  {
    h[p := h[p].(children := h[p].children[e := x])][x := Rec(key, val, Some(p), |key|, map[])]
  }

  // A leaf becomes internal: its pair moves to a fresh leaf under the empty edge.
  ghost function Demote<N, T>(h: Forest<N, T>, p: N, x: N, zero: T): Forest<N, T>
    requires p in h
  {
    h[p := h[p].(val := zero, children := map["" := x])][x := Rec(h[p].key, h[p].val, Some(p), h[p].depth, map[])]
  }

  // A fresh node mid takes the first i characters of the edge e below p.
  ghost function Split<N, T>(h: Forest<N, T>, p: N, e: string, i: nat, mid: N, zero: T): Forest<N, T>
    requires p in h && e in h[p].children && h[p].children[e] in h && 0 < i < |e|
  {
    var c := h[p].children[e];
    h[p := h[p].(children := (h[p].children - {e})[e[..i] := mid])]
     [mid := Rec(h[p].key + e[..i], zero, Some(p), h[p].depth + i, map[e[i..] := c])]
     [c := h[c].(parent := Some(mid))]
  }

  ghost function RemoveLeaf<N, T>(h: Forest<N, T>, p: N, e: string, x: N): Forest<N, T>
    requires p in h && p != x
  {
    h[p := h[p].(children := h[p].children - {e})] - {x}
  }

  // p, with the only child s under e, gives way to s below g; pe is p's own edge.
  ghost function Merge<N, T>(h: Forest<N, T>, g: N, pe: string, p: N, e: string, s: N): Forest<N, T>
    requires g in h && s in h
  {
    h[g := h[g].(children := (h[g].children - {pe})[pe + e := s])][s := h[s].(parent := Some(g))] - {p}
  }

  // ----- what they preserve -----

  lemma {:induction false} ContentsAt<N, T>(h: Forest<N, T>, r: N, n: N)
    requires Shape(h, r) && Stored(h, r, n)
    ensures h[n].key in Contents(h, r) && Contents(h, r)[h[n].key] == h[n].val
  {
    assert Represents(h, r, Contents(h, r));
  }

  lemma {:induction false} ContentsFrom<N, T>(h: Forest<N, T>, r: N, k: string) returns (n: N)
    requires Shape(h, r) && k in Contents(h, r)
    ensures Stored(h, r, n) && h[n].key == k && h[n].val == Contents(h, r)[k]
  {
    assert Represents(h, r, Contents(h, r)) && LeafFor(h, r, k);
    n :| Stored(h, r, n) && h[n].key == k;
  }

  // A map that agrees with every stored leaf, and has a leaf for every key, is the contents.
  lemma {:induction false} ContentsIs<N, T>(h: Forest<N, T>, r: N, m: map<string, T>)
    requires Shape(h, r)
    requires forall n | Stored(h, r, n) :: h[n].key in m && m[h[n].key] == h[n].val
    requires forall k | k in m :: exists n :: Stored(h, r, n) && h[n].key == k
    ensures Contents(h, r) == m
  {
    assert Represents(h, r, m) by {
      forall k | k in m ensures LeafFor(h, r, k) {}
    }
    assert Represents(h, r, Contents(h, r));
    RepresentsUnique(h, r, m, Contents(h, r));
  }

  // Two shapes with the same stored leaves store the same map.
  lemma {:induction false} SameContents<N, T>(h: Forest<N, T>, h': Forest<N, T>, r: N)
    requires Shape(h, r) && Shape(h', r)
    requires forall n :: Stored(h, r, n) <==> Stored(h', r, n)
    requires forall n | Stored(h, r, n) && Stored(h', r, n) :: h[n].key == h'[n].key && h[n].val == h'[n].val
    ensures Contents(h, r) == Contents(h', r)
  {
    var m := Contents(h', r);
    forall n | Stored(h, r, n) ensures h[n].key in m && m[h[n].key] == h[n].val {
      ContentsAt(h', r, n);
    }
    forall k | k in m ensures exists n :: Stored(h, r, n) && h[n].key == k {
      var n := ContentsFrom(h', r, k);
    }
    ContentsIs(h, r, m);
  }

  ghost predicate FreshEdge<N>(children: map<string, N>, e: string)
  {
    e !in children && (e != "" ==> forall e' | e' in children && e' != "" :: e'[0] != e[0])
  }

  // No non-empty edge starts like sub.
  ghost predicate NoCommon<N>(children: map<string, N>, sub: string)
  {
    forall e | e in children && e != "" && sub != "" :: e[0] != sub[0]
  }

  lemma {:induction false} AddLeafShape<N, T>(h: Forest<N, T>, r: N, p: N, e: string, x: N, key: string, val: T)
    requires Shape(h, r) && p in h && x !in h && Trunk(h, r, p)
    requires key == h[p].key + e && FreshEdge(h[p].children, e)
    ensures Shape(AddLeaf(h, p, e, x, key, val), r)
  {
    var h' := AddLeaf(h, p, e, x, key, val);
    forall n | n in h' ensures NodeOk(h', r, n) {
      assert NodeOk(h, r, p);
      if n == x {
        assert key[h[p].depth..] == e;
      } else {
        assert NodeOk(h, r, n);
        if n != r {
          assert h[n].key[h[h[n].parent.value].depth..] != e || h[n].parent.value != p;
        }
        forall e' | e' in h'[n].children ensures EdgeOk(h', n, e') {
          if !(n == p && e' == e) {
            assert EdgeOk(h, n, e');
            if e' == "" && h[n].children[e'] == p {
              ChildFacts(h, r, n, e');
              assert false;
            }
          }
        }
      }
    }
  }

  lemma {:induction false} AddLeafContents<N, T>(h: Forest<N, T>, r: N, p: N, e: string, x: N, key: string, val: T)
    requires Shape(h, r) && p in h && x !in h && Shape(AddLeaf(h, p, e, x, key, val), r)
    requires !Stored(h, r, p)
    ensures key !in Contents(h, r)
    ensures Contents(AddLeaf(h, p, e, x, key, val), r) == Contents(h, r)[key := val]
  {
    var h', m := AddLeaf(h, p, e, x, key, val), Contents(h, r)[key := val];
    assert e in h'[p].children;
    assert Stored(h', r, x);
    if key in Contents(h, r) {
      var n := ContentsFrom(h, r, key);
      StoredUnique(h', r, n, x);
    }
    forall n | Stored(h', r, n) ensures h'[n].key in m && m[h'[n].key] == h'[n].val {
      if n != x { ContentsAt(h, r, n); }
    }
    forall k | k in m ensures exists n :: Stored(h', r, n) && h'[n].key == k {
      if k != key {
        var n := ContentsFrom(h, r, k);
        assert Stored(h', r, n);
      }
    }
    ContentsIs(h', r, m);
  }

  lemma {:induction false} DemoteShape<N, T>(h: Forest<N, T>, r: N, p: N, x: N, zero: T)
    requires Shape(h, r) && p in h && p != r && x !in h && Trunk(h, r, p) && h[p].children == map[]
    ensures Shape(Demote(h, p, x, zero), r)
  {
    var h' := Demote(h, p, x, zero);
    assert NodeOk(h, r, p);
    forall n | n in h' ensures NodeOk(h', r, n) {
      if n == x {
        assert h[p].key[h[p].depth..] == "";
      } else {
        assert NodeOk(h, r, n);
        assert n != r ==> h[n].parent.value != p by {
          if n != r { var _ := Edge(h, r, n); }
        }
        forall e' | e' in h'[n].children ensures EdgeOk(h', n, e') {
          if n != p {
            assert EdgeOk(h, n, e');
            ChildFacts(h, r, n, e');
          }
        }
      }
    }
  }

  lemma {:induction false} DemoteContents<N, T>(h: Forest<N, T>, r: N, p: N, x: N, zero: T)
    requires Shape(h, r) && Stored(h, r, p) && x !in h && Shape(Demote(h, p, x, zero), r)
    ensures Contents(Demote(h, p, x, zero), r) == Contents(h, r)
  {
    var h', m := Demote(h, p, x, zero), Contents(h, r);
    assert "" in h'[p].children;
    forall n | Stored(h', r, n) ensures h'[n].key in m && m[h'[n].key] == h'[n].val {
      ContentsAt(h, r, if n == x then p else n);
    }
    forall k | k in m ensures exists n :: Stored(h', r, n) && h'[n].key == k {
      var n := ContentsFrom(h, r, k);
      assert Stored(h', r, if n == p then x else n);
    }
    ContentsIs(h', r, m);
  }

  // How e's siblings relate to the shortened edge.
  lemma {:induction false} SplitSiblings<N>(children: map<string, N>, e: string, i: nat, mid: N)
    requires SiblingsOk(children) && e in children && 0 < i < |e|
    ensures e[..i] !in children && SiblingsOk((children - {e})[e[..i] := mid])
  {
  }

  lemma {:induction false} SplitShape<N, T>(h: Forest<N, T>, r: N, p: N, e: string, i: nat, mid: N, zero: T)
    requires Shape(h, r) && p in h && mid !in h && e in h[p].children && 0 < i < |e|
    ensures h[p].children[e] in h
    ensures Shape(Split(h, p, e, i, mid, zero), r)
    ensures Trunk(Split(h, p, e, i, mid, zero), r, mid)
  {
    ChildFacts(h, r, p, e);
    var h', c := Split(h, p, e, i, mid, zero), h[p].children[e];
    assert e == e[..i] + e[i..];
    assert NodeOk(h, r, p) && EdgeOk(h, p, e) && NodeOk(h, r, c);
    SplitSiblings(h[p].children, e, i, mid);
    forall n | n in h' ensures NodeOk(h', r, n) {
      if n == mid {
        assert h'[mid].key[h[p].depth..] == e[..i];
        assert EdgeOk(h', mid, e[i..]);
      } else {
        SplitOldNode(h, r, p, e, i, mid, zero, n);
      }
    }
    assert h'[mid].key[h[p].depth..] == e[..i];
  }

  lemma {:induction false} SplitOldNode<N, T>(h: Forest<N, T>, r: N, p: N, e: string, i: nat, mid: N, zero: T, n: N)
    requires Shape(h, r) && p in h && mid !in h && e in h[p].children && h[p].children[e] in h && 0 < i < |e|
    requires n in h && SiblingsOk((h[p].children - {e})[e[..i] := mid]) && e[..i] !in h[p].children
    ensures NodeOk(Split(h, p, e, i, mid, zero), r, n)
  {
    ChildFacts(h, r, p, e);
    var h', c := Split(h, p, e, i, mid, zero), h[p].children[e];
    assert NodeOk(h, r, n) && NodeOk(h, r, p);
    if n != r {
      if n == c {
        assert h[c].key[h[p].depth + i..] == e[i..];
      } else {
        assert h[n].parent.value == p ==> h[n].key[h[p].depth..] != e;
      }
      assert HangsOk(h', n);
    }
    forall e' | e' in h'[n].children ensures EdgeOk(h', n, e') {
      if n == p && e' == e[..i] {
      } else {
        assert EdgeOk(h, n, e');
        ChildFacts(h, r, n, e');
      }
    }
  }

  lemma {:induction false} SplitContents<N, T>(h: Forest<N, T>, r: N, p: N, e: string, i: nat, mid: N, zero: T)
    requires Shape(h, r) && p in h && mid !in h && e in h[p].children && 0 < i < |e| && h[p].children[e] in h
    requires Shape(Split(h, p, e, i, mid, zero), r) && h[p].children[e] != p
    ensures Contents(Split(h, p, e, i, mid, zero), r) == Contents(h, r)
  {
    var h' := Split(h, p, e, i, mid, zero);
    assert e[i..] in h'[mid].children && e[..i] in h'[p].children;
    forall n ensures Stored(h, r, n) <==> Stored(h', r, n) {}
    SameContents(h, h', r);
  }

  lemma {:induction false} KeysLeft<N>(children: map<string, N>, e: string)
    requires e in children
    ensures children - {e} == map[] <==> children.Keys == {e}
    ensures |children - {e}| == |children| - 1
  {
    assert (children - {e}).Keys == children.Keys - {e};
    if children.Keys == {e} {
      assert (children - {e}).Keys == {};
    } else {
      var e' :| e' in children && e' != e;
      assert e' in children - {e};
    }
  }

  lemma {:induction false} RemoveLeafShape<N, T>(h: Forest<N, T>, r: N, p: N, e: string, x: N)
    requires Shape(h, r) && p in h && Stored(h, r, x) && e in h[p].children && h[p].children[e] == x
    ensures p != x && Shape(RemoveLeaf(h, p, e, x), r)
  {
    ChildFacts(h, r, p, e);
    var h' := RemoveLeaf(h, p, e, x);
    forall n | n in h' ensures NodeOk(h', r, n) {
      assert NodeOk(h, r, n) && NodeOk(h, r, x);
      if n != r {
        assert h[n].parent.value == p ==> h[n].key[h[p].depth..] != e;
        assert h[n].parent.value != x;
      }
      forall e' | e' in h'[n].children ensures EdgeOk(h', n, e') {
        assert EdgeOk(h, n, e');
        if h[n].children[e'] == x {
          ChildFacts(h, r, n, e');
          assert false;
        }
      }
    }
  }

  // Removing a leaf removes its key, unless its parent is left a leaf itself: then the parent's
  // key appears with the parent's value.
  lemma {:induction false} RemoveLeafContents<N, T>(h: Forest<N, T>, r: N, p: N, e: string, x: N)
    requires Shape(h, r) && p in h && Stored(h, r, x) && e in h[p].children && h[p].children[e] == x
    requires p != x && Shape(RemoveLeaf(h, p, e, x), r)
    ensures var left := Contents(h, r) - {h[x].key};
            Contents(RemoveLeaf(h, p, e, x), r) ==
            if p != r && h[p].children.Keys == {e} then left[h[p].key := h[p].val] else left
  {
    var h', left := RemoveLeaf(h, p, e, x), Contents(h, r) - {h[x].key};
    KeysLeft(h[p].children, e);
    var orphan := p != r && h[p].children.Keys == {e};
    var m := if orphan then left[h[p].key := h[p].val] else left;
    assert !Stored(h, r, p) && (orphan <==> Stored(h', r, p));
    forall n | Stored(h', r, n) ensures h'[n].key in m && m[h'[n].key] == h'[n].val {
      if n != p {
        ContentsAt(h, r, n);
        if h[n].key == h[x].key { StoredUnique(h, r, n, x); }
        if orphan && h[n].key == h[p].key { StoredUnique(h', r, n, p); }
      }
    }
    forall k | k in m ensures exists n :: Stored(h', r, n) && h'[n].key == k {
      if k in left {
        var n := ContentsFrom(h, r, k);
        assert Stored(h', r, n);
      } else {
        assert Stored(h', r, p) && h'[p].key == k;
      }
    }
    ContentsIs(h', r, m);
  }

  lemma {:induction false} MergeSiblings<N>(children: map<string, N>, pe: string, e: string, s: N)
    requires SiblingsOk(children) && pe in children && pe != ""
    ensures (pe + e !in children || e == "") && SiblingsOk((children - {pe})[pe + e := s])
  {
    assert (pe + e)[0] == pe[0];
  }

  lemma {:induction false} MergeShape<N, T>(h: Forest<N, T>, r: N, g: N, pe: string, p: N, e: string, s: N)
    requires Shape(h, r) && p in h && p != r && Parent(h, r, p) == g && Edge(h, r, p) == pe
    requires h[p].children == map[e := s]
    ensures s in h && s != p && g != p && g != s && pe != "" && Shape(Merge(h, g, pe, p, e, s), r)
  {
    MergeNodes(h, r, g, pe, p, e, s);
    var h' := Merge(h, g, pe, p, e, s);
    assert NodeOk(h, r, g);
    MergeSiblings(h[g].children, pe, e, s);
    assert h'[r].parent == None;
    forall n | n in h' ensures NodeOk(h', r, n) {
      MergeNode(h, r, g, pe, p, e, s, n);
    }
  }

  lemma {:induction false} MergeNodes<N, T>(h: Forest<N, T>, r: N, g: N, pe: string, p: N, e: string, s: N)
    requires Shape(h, r) && p in h && p != r && Parent(h, r, p) == g && Edge(h, r, p) == pe
    requires h[p].children == map[e := s]
    ensures s in h && s != p && g != p && g != s && s != r && pe != ""
    ensures Parent(h, r, s) == p && Edge(h, r, s) == e
  {
    assert e in h[p].children;
    ChildFacts(h, r, p, e);
    ParentFacts(h, r, p);
    ParentFacts(h, r, s);
  }

  lemma {:induction false} MergeNode<N, T>(h: Forest<N, T>, r: N, g: N, pe: string, p: N, e: string, s: N, n: N)
    requires Shape(h, r) && p in h && p != r && Parent(h, r, p) == g && Edge(h, r, p) == pe
    requires h[p].children == map[e := s] && s in h && s != p && g != p && g != s && pe != "" && s != r
    requires Parent(h, r, s) == p && Edge(h, r, s) == e
    requires pe + e !in h[g].children || e == ""
    requires SiblingsOk((h[g].children - {pe})[pe + e := s])
    requires n in h && n != p
    ensures NodeOk(Merge(h, g, pe, p, e, s), r, n)
  {
    var h' := Merge(h, g, pe, p, e, s);
    assert NodeOk(h, r, n);
    if n == s {
      assert NodeOk(h, r, g) && h[s].key == h[g].key + (pe + e);
      assert h[s].key[h[g].depth..] == pe + e;
      assert HangsOk(h', n);
    } else if n != r {
      MergeHangs(h, r, g, pe, p, e, s, n);
    }
    forall e' | e' in h'[n].children ensures EdgeOk(h', n, e') {
      MergeEdge(h, r, g, pe, p, e, s, n, e');
    }
  }

  lemma {:induction false} MergeEdge<N, T>(h: Forest<N, T>, r: N, g: N, pe: string, p: N, e: string, s: N, n: N,
      e': string)
    requires Shape(h, r) && p in h && p != r && Parent(h, r, p) == g && Edge(h, r, p) == pe
    requires s in h && s != p && g != p && g != s && s != r && pe != ""
    requires Parent(h, r, s) == p && Edge(h, r, s) == e
    requires n in h && n != p && e' in Merge(h, g, pe, p, e, s)[n].children
    ensures EdgeOk(Merge(h, g, pe, p, e, s), n, e')
  {
    if n == g && e' == pe + e {
      assert h[s].key == h[g].key + (pe + e);
    } else {
      assert NodeOk(h, r, n) && EdgeOk(h, n, e');
      ChildFacts(h, r, n, e');
    }
  }

  lemma {:induction false} MergeHangs<N, T>(h: Forest<N, T>, r: N, g: N, pe: string, p: N, e: string, s: N, n: N)
    requires Shape(h, r) && p in h && p != r && Parent(h, r, p) == g && Edge(h, r, p) == pe
    requires h[p].children == map[e := s] && s in h && s != p && g != p && g != s && s != r
    requires pe + e !in h[g].children || e == ""
    requires n in h && n != p && n != s && n != r
    ensures HangsOk(Merge(h, g, pe, p, e, s), n)
  {
    assert NodeOk(h, r, n);
    var q, eq := Parent(h, r, n), Edge(h, r, n);
    assert q != p;
    assert q == g ==> eq != pe && eq != pe + e;
    assert NodeOk(h, r, q);
    assert h[n].key[h[q].depth..] == eq;
  }

  lemma {:induction false} MergeContents<N, T>(h: Forest<N, T>, r: N, g: N, pe: string, p: N, e: string, s: N)
    requires Shape(h, r) && g in h && s in h && s != p && g != p && g != s
    requires p in h && h[p].children == map[e := s] && pe in h[g].children && p != r
    requires Shape(Merge(h, g, pe, p, e, s), r)
    ensures Contents(Merge(h, g, pe, p, e, s), r) == Contents(h, r)
  {
    var h' := Merge(h, g, pe, p, e, s);
    assert e in h[p].children && pe + e in h'[g].children;
    forall n ensures Stored(h, r, n) <==> Stored(h', r, n) {}
    SameContents(h, h', r);
  }

  // ----- what they do to single nodes -----

  // Adding a second child to a single node, or any child to another, keeps the tree tidy.
  lemma {:induction false} AddLeafTidy<N, T>(h: Forest<N, T>, r: N, zero: T, p: N, e: string, x: N, key: string, val: T)
    requires p in h && x !in h && e !in h[p].children
    requires TidyBut(h, r, zero, p)
    requires p == r || (h[p].children != map[] && h[p].val == zero)
    ensures var h' := AddLeaf(h, p, e, x, key, val);
            Tidy(h', r, zero) && SinglesBut(h, h', r, p) && !Single(h', r, p)
  {
    var h' := AddLeaf(h, p, e, x, key, val);
    assert |h'[p].children| == |h[p].children| + 1;
    forall n | n in h' ensures TidyNode(h', r, zero, n) {
      if n != p && n != x { assert TidyNode(h, r, zero, n); }
    }
  }

  lemma {:induction false} DemoteTidy<N, T>(h: Forest<N, T>, r: N, p: N, x: N, zero: T)
    requires p in h && p != r && x !in h && Tidy(h, r, zero)
    ensures var h' := Demote(h, p, x, zero);
            Tidy(h', r, zero) && SinglesBut(h, h', r, p) && Single(h', r, p)
  {
    var h' := Demote(h, p, x, zero);
    forall n | n in h' ensures TidyNode(h', r, zero, n) {
      if n != p && n != x { assert TidyNode(h, r, zero, n); }
    }
  }

  lemma {:induction false} SplitTidy<N, T>(h: Forest<N, T>, r: N, p: N, e: string, i: nat, mid: N, zero: T)
    requires p in h && mid !in h && e in h[p].children && 0 < i < |e| && h[p].children[e] in h && h[p].children[e] != p
    requires e[..i] !in h[p].children && Tidy(h, r, zero)
    ensures var h' := Split(h, p, e, i, mid, zero);
            TidyBut(h', r, zero, mid) && SinglesBut(h, h', r, mid)
  {
    var h' := Split(h, p, e, i, mid, zero);
    SwapKey(h[p].children, e, e[..i], mid);
    TwoKeys(h[p].children, e, "");
    assert e != "" && e[..i] != "";
    forall n | n in h' && n != mid ensures TidyNode(h', r, zero, n) {
      assert TidyNode(h, r, zero, n) && TidyNode(h, r, zero, p);
    }
  }

  lemma {:induction false} TwoKeys<N>(children: map<string, N>, e1: string, e2: string)
    requires e1 in children && e1 != e2
    ensures e2 in children ==> |children| >= 2
  {
    if e2 in children {
      KeysLeft(children, e1);
      assert e2 in children - {e1};
    }
  }

  lemma {:induction false} RemoveLeafTidy<N, T>(h: Forest<N, T>, r: N, zero: T, p: N, e: string, x: N)
    requires p in h && e in h[p].children && p != x && Tidy(h, r, zero) && x in h && h[x].children == map[]
    ensures var h' := RemoveLeaf(h, p, e, x);
            && TidyBut(h', r, zero, p)
            && (p != r ==> |h[p].children| == 2 || TidyNode(h', r, zero, p))
            && SinglesBut(h, h', r, p)
  {
    var h' := RemoveLeaf(h, p, e, x);
    KeysLeft(h[p].children, e);
    assert TidyNode(h, r, zero, p);
    forall n | n in h' && n != p ensures TidyNode(h', r, zero, n) {
      assert TidyNode(h, r, zero, n);
    }
  }

  lemma {:induction false} MergeTidy<N, T>(h: Forest<N, T>, r: N, zero: T, g: N, pe: string, p: N, e: string, s: N)
    requires g in h && s in h && g != p && g != s && s != p && pe in h[g].children && pe != ""
    requires pe + e !in h[g].children || e == ""
    requires TidyBut(h, r, zero, p)
    ensures var h' := Merge(h, g, pe, p, e, s);
            Tidy(h', r, zero) && SinglesBut(h, h', r, p) && !Single(h', r, p)
  {
    var h' := Merge(h, g, pe, p, e, s);
    SwapKey(h[g].children, pe, pe + e, s);
    TwoKeys(h[g].children, pe, "");
    assert TidyNode(h, r, zero, g);
    forall n | n in h' ensures TidyNode(h', r, zero, n) {
      assert TidyNode(h, r, zero, n);
    }
  }

  lemma {:induction false} SwapKey<N>(children: map<string, N>, e1: string, e2: string, s: N)
    requires e1 in children && (e2 !in children || e2 == e1)
    ensures |(children - {e1})[e2 := s]| == |children|
  {
    KeysLeft(children, e1);
    assert e2 !in children - {e1};
  }

  // ----- the composed updates of insert and erase -----

  // Where the split lands: mid is a trunk node whose key, extended by the rest, is the new key.
  lemma {:induction false} SplitLanding<N, T>(h: Forest<N, T>, r: N, zero: T, p: N, e: string, i: nat, mid: N,
      key: string)
    requires Shape(h, r) && Tidy(h, r, zero) && p in h && e in h[p].children && mid !in h && 0 < i < |e|
    requires h[p].depth <= |key| && h[p].key == key[..h[p].depth] && i <= |key| - h[p].depth
    requires e[..i] == key[h[p].depth..][..i] && (i < |key| - h[p].depth ==> e[i] != key[h[p].depth..][i])
    ensures h[p].children[e] in h
    ensures var h1, rest := Split(h, p, e, i, mid, zero), key[h[p].depth..][i..];
            && Shape(h1, r) && Contents(h1, r) == Contents(h, r) && Trunk(h1, r, mid) && mid != r
            && h1[mid].children != map[] && h1[mid].val == zero
            && FreshEdge(h1[mid].children, rest) && key == h1[mid].key + rest
  {
    ChildFacts(h, r, p, e);
    SplitShape(h, r, p, e, i, mid, zero);
    SplitContents(h, r, p, e, i, mid, zero);
    var h1, rest := Split(h, p, e, i, mid, zero), key[h[p].depth..][i..];
    assert e[i..] in h1[mid].children;
    assert key == key[..h[p].depth] + key[h[p].depth..];
    assert key[h[p].depth..] == key[h[p].depth..][..i] + rest;
  }

  lemma {:induction false} SplitSingles<N, T>(h: Forest<N, T>, r: N, zero: T, p: N, e: string, i: nat, mid: N)
    requires Shape(h, r) && Tidy(h, r, zero) && p in h && e in h[p].children && mid !in h && 0 < i < |e|
    ensures h[p].children[e] in h
    ensures var h1 := Split(h, p, e, i, mid, zero);
            TidyBut(h1, r, zero, mid) && SinglesBut(h, h1, r, mid)
  {
    ChildFacts(h, r, p, e);
    assert NodeOk(h, r, p);
    SplitSiblings(h[p].children, e, i, mid);
    SplitTidy(h, r, p, e, i, mid, zero);
  }

  // Split the edge e of p after i characters and hang the new key beside the old subtree.
  lemma {:induction false} BesideFacts<N, T>(h: Forest<N, T>, r: N, zero: T, p: N, e: string, i: nat, mid: N, x: N,
      key: string, val: T)
    requires Shape(h, r) && Tidy(h, r, zero) && p in h && e in h[p].children && mid !in h && 0 < i < |e|
    requires h[p].depth <= |key| && h[p].key == key[..h[p].depth] && i <= |key| - h[p].depth
    requires e[..i] == key[h[p].depth..][..i] && (i < |key| - h[p].depth ==> e[i] != key[h[p].depth..][i])
    requires x !in h && mid != x
    ensures h[p].children[e] in h
    ensures var h' := AddLeaf(Split(h, p, e, i, mid, zero), mid, key[h[p].depth..][i..], x, key, val);
            && Shape(h', r) && Tidy(h', r, zero)
            && key !in Contents(h, r) && Contents(h', r) == Contents(h, r)[key := val]
            && SinglesBut(h, h', r, mid) && !Single(h', r, mid)
  {
    SplitLanding(h, r, zero, p, e, i, mid, key);
    SplitSingles(h, r, zero, p, e, i, mid);
    AddedFacts(Split(h, p, e, i, mid, zero), r, zero, mid, key[h[p].depth..][i..], x, key, val);
  }

  // Hanging a new leaf under a node that is the root or already internal.
  lemma {:induction false} AddedFacts<N, T>(h: Forest<N, T>, r: N, zero: T, p: N, e: string, x: N, key: string, val: T)
    requires Shape(h, r) && p in h && x !in h && Trunk(h, r, p)
    requires key == h[p].key + e && FreshEdge(h[p].children, e)
    requires p == r || (h[p].children != map[] && h[p].val == zero)
    requires TidyBut(h, r, zero, p)
    ensures var h' := AddLeaf(h, p, e, x, key, val);
            && Shape(h', r) && Tidy(h', r, zero)
            && key !in Contents(h, r) && Contents(h', r) == Contents(h, r)[key := val]
            && SinglesBut(h, h', r, p) && !Single(h', r, p)
  {
    AddLeafShape(h, r, p, e, x, key, val);
    AddLeafContents(h, r, p, e, x, key, val);
    AddLeafTidy(h, r, zero, p, e, x, key, val);
  }

  // An edge that is already there, with no common first character, is the empty one: its leaf
  // stores the key.
  lemma {:induction false} AlreadyStored<N, T>(h: Forest<N, T>, r: N, p: N, sub: string)
    requires Shape(h, r) && p in h && sub in h[p].children && NoCommon(h[p].children, sub)
    ensures h[p].key + sub in Contents(h, r)
  {
    assert NodeOk(h, r, p) && EdgeOk(h, p, sub);
    ChildFacts(h, r, p, sub);
    ContentsAt(h, r, h[p].children[sub]);
  }

  // n stores key and is the only child of a node below the root.
  ghost predicate LoneLeaf<N, T>(h: Forest<N, T>, r: N, key: string, n: N)
    requires Shape(h, r)
  {
    && Stored(h, r, n) && h[n].key == key
    && Parent(h, r, n) != r && |h[Parent(h, r, n)].children| == 1
  }

  // Erase without a merge: the parent is the root, or keeps at least two children, or none.
  lemma {:induction false} ErasedFacts<N, T>(h: Forest<N, T>, r: N, zero: T, n: N)
    requires Shape(h, r) && Tidy(h, r, zero) && Stored(h, r, n)
    ensures var p, e, k := Parent(h, r, n), Edge(h, r, n), h[n].key;
            && p != n && Shape(RemoveLeaf(h, p, e, n), r)
            && var h' := RemoveLeaf(h, p, e, n);
               && Contents(h', r) == (if LoneLeaf(h, r, k, n) then Contents(h, r)[k := zero] else Contents(h, r) - {k})
               && (p == r || |h[p].children| != 2 ==> Tidy(h', r, zero))
               && TidyBut(h', r, zero, p) && |h'[p].children| == |h[p].children| - 1
               && SinglesBut(h, h', r, p)
  {
    var p, e, k := Parent(h, r, n), Edge(h, r, n), h[n].key;
    RemoveLeafShape(h, r, p, e, n);
    RemoveLeafContents(h, r, p, e, n);
    RemoveLeafTidy(h, r, zero, p, e, n);
    KeysLeft(h[p].children, e);
    assert TidyNode(h, r, zero, p);
    var h' := RemoveLeaf(h, p, e, n);
    assert p != r && h[p].children.Keys == {e} <==> LoneLeaf(h, r, k, n) by {
      if h[p].children.Keys == {e} { assert |h[p].children| == 1; }
      if |h[p].children| == 1 { assert |h[p].children - {e}| == 0; }
    }
    if LoneLeaf(h, r, k, n) {
      assert h[p].key == k;
    }
  }

  // The merge of erase: p, left single, is gone.
  lemma {:induction false} MergedFacts<N, T>(h: Forest<N, T>, r: N, zero: T, p: N, e: string, s: N)
    requires Shape(h, r) && p in h && p != r && h[p].children == map[e := s] && TidyBut(h, r, zero, p)
    ensures s in h
    ensures var h' := Merge(h, Parent(h, r, p), Edge(h, r, p), p, e, s);
            && Shape(h', r) && Tidy(h', r, zero) && Contents(h', r) == Contents(h, r)
            && SinglesBut(h, h', r, p) && !Single(h', r, p)
  {
    var g, pe := Parent(h, r, p), Edge(h, r, p);
    MergeShape(h, r, g, pe, p, e, s);
    MergeContents(h, r, g, pe, p, e, s);
    assert NodeOk(h, r, g);
    MergeSiblings(h[g].children, pe, e, s);
    MergeTidy(h, r, zero, g, pe, p, e, s);
  }
}
