/** The mutable radix tree (radix_tree.h, radix_tree_node.h): heap nodes with parent pointers,
  * rearranged in place by insert and erase, proved against the map it represents.
  *
  * `unordered_map` iteration order is arbitrary: every loop over children picks the next edge
  * nondeterministically, so the contracts hold for all orders.
  */
module RadixTrees {
  import opened Text
  import opened Sizes
  import opened Options
  import opened RadixShape
  import opened RadixUpdates
  import opened RadixDoubled

  // tree_size is a 64-bit unsigned counter.
  function Inc(n: nat): nat
  {
    if n + 1 == SIZE_WRAP then 0 else n + 1
  }

  function Dec(n: nat): nat
  {
    if n == 0 then SIZE_WRAP - 1 else n - 1
  }

  class Node<T> {
    const key: string
    const depth: nat
    var val: T
    var parent: Node?<T>
    var children: map<string, Node<T>>

    constructor (key: string, val: T, parent: Node?<T>, depth: nat)
      ensures this.key == key && this.val == val && this.parent == parent && this.depth == depth
      ensures children == map[]
    {
      this.key, this.val, this.parent, this.depth := key, val, parent, depth;
      children := map[];
    }

    predicate IsLeaf()
      reads this
    {
      children == map[]
    }

    // The key of this node in its parent's children map.
    function SearchKey(): string
      reads this, parent
      requires parent != null ==> parent.depth <= |key|
    {
      if parent == null then SubStr(key, 0, depth) else SubStr(key, parent.depth, depth)
    }

    ghost function ToRec(): Rec<Node<T>, T>
      reads this
    {
      var up: Option<Node<T>> := if parent == null then None else Some(parent as Node<T>);
      Rec(key, val, up, depth, children)
    }

    // unordered_map::insert: an existing entry is kept.
    method AddChild(e: string, c: Node<T>) returns (added: bool)
      modifies this`children
      ensures added <==> e !in old(children)
      ensures children == if added then old(children)[e := c] else old(children)
    {
      added := e !in children;
      if added {
        children := children[e := c];
      }
    }
  }

  class RadixTree<T> {
    const zero: T  // mapped_type{}
    var root: Node?<T>
    var size: nat
    ghost var forest: Forest<Node<T>, T>  // the live nodes and their fields

    // The recorded fields are the actual ones.
    ghost predicate Linked()
      reads this`root, this`forest, forest.Keys
    {
      forall n {:trigger n.ToRec()} | n in forest :: n.ToRec() == forest[n]
    }

    ghost predicate Valid()
      reads this`root, this`forest, forest.Keys
    {
      && Linked()
      && if root == null then forest == map[] else Shape(forest, root) && Tidy(forest, root, zero)
    }

    // The map this tree represents.
    ghost function Entries(): map<string, T>
      reads this`root, this`forest
      requires root != null ==> Shape(forest, root)
    {
      if root == null then map[] else Contents(forest, root)
    }

    // The keys whose own leaf is the only child of an internal node.
    ghost function DoubledKeys(): set<string>
      reads this`root, this`forest
    {
      if root == null then {} else Doubled(forest, root)
    }

    // The root exists but has lost all its children: a descent for "" ends on the root itself.
    ghost predicate Drained()
      reads this`root, this`forest
    {
      root != null && root in forest && forest[root].children == map[]
    }

    constructor (zero: T)
      ensures Valid() && DoubledKeys() == {} && forest == map[] && Entries() == map[] && size == 0
      ensures this.zero == zero && root == null
    {
      this.zero := zero;
      root, size, forest := null, 0, map[];
    }

    // ----- reading -----

    method FindNode(key: string, depth: nat, n: Node<T>) returns (res: Node?<T>)
      requires Valid() && root != null && n in forest
      requires depth == n.depth <= |key| && n.key == key[..depth]
      requires Trunk(forest, root, n)
      ensures res != null ==> res in forest && forest[res].children == map[] && forest[res].key == key
      ensures res == null ==> forall m | m in forest && forest[m].children == map[] :: forest[m].key != key
      decreases |key| - depth
    {
      ghost var h := forest;
      assert n.ToRec() == h[n] && NodeOk(h, root, n);
      if n.IsLeaf() {
        if depth == |key| && n.key == key {
          return n;
        }
      } else {
        var todo := n.children.Keys;
        while todo != {}
          invariant todo <= n.children.Keys
          invariant forall e | e in n.children.Keys - todo :: !Leads(h, n, key, e)
          decreases todo
        {
          var e :| e in todo;
          ChildFacts(h, root, n, e);
          assert EdgeOk(h, n, e);
          var c := n.children[e];
          assert NodeOk(h, root, c) && c.ToRec() == h[c];
          if |e| > 0 && e == SubStr(key, depth, |e|) {
            assert key[..depth + |e|] == key[..depth] + e;
            res := FindNode(key, depth + |e|, c);
            return;
          } else if |e| == 0 && c.IsLeaf() && c.depth == |key| && c.key == key {
            return c;
          }
          todo := todo - {e};
        }
      }
      forall m | m in h && h[m].children == map[] ensures h[m].key != key {
        if h[m].key == key && m != n {
          LeafLeads(h, root, n, key, m);
        }
      }
      return null;
    }

    // find: the leaf that stores the key.  On a drained tree the key "" also "finds" the root.
    method Find(key: string) returns (res: Node?<T>)
      requires Valid()
      ensures res != null && res != root ==>
                res in forest && key in Entries() && Entries()[key] == res.val && res.key == key
      ensures res == null ==> key !in Entries()
      ensures res != null && res == root <==> key == "" && Drained()
    {
      if root == null {
        return null;
      }
      assert NodeOk(forest, root, root) && root.ToRec() == forest[root];
      res := FindNode(key, 0, root);
      if res == null {
        if key in Entries() {
          var n := ContentsFrom(forest, root, key);
        }
      } else if res != root {
        assert res.ToRec() == forest[res];
        ContentsAt(forest, root, res);
        RootLeafKeys(forest, root, res);
      }
    }

    // A drained root is the only node.
    static lemma {:induction false} RootLeafKeys(h: Forest<Node<T>, T>, r: Node<T>, n: Node<T>)
      requires Shape(h, r) && n in h && n != r
      ensures h[r].children != map[]
    {
      BelowRoot(h, r, n);
      BelowFacts(h, r, n, r);
    }

    method FindParentNode(key: string, depth: nat, n: Node<T>) returns (p: Node<T>)
      requires Valid() && root != null && n in forest
      requires depth == n.depth <= |key| && n.key == key[..depth]
      requires Trunk(forest, root, n)
      ensures p in forest && p.depth <= |key| && p.key == key[..p.depth] && Trunk(forest, root, p)
      ensures forall e | e in p.children && e != "" :: !OccursAt(key, e, p.depth)
      decreases |key| - depth
    {
      ghost var h := forest;
      assert n.ToRec() == h[n];
      var todo := n.children.Keys;
      while todo != {}
        invariant todo <= n.children.Keys
        invariant forall e | e in n.children.Keys - todo :: !(e != "" && OccursAt(key, e, depth))
        decreases todo
      {
        var e :| e in todo;
        ChildFacts(h, root, n, e);
        var c := n.children[e];
        assert NodeOk(h, root, n) && NodeOk(h, root, c) && c.ToRec() == h[c];
        if |e| > 0 && e == SubStr(key, depth, |e|) {
          assert key[..depth + |e|] == key[..depth] + e;
          p := FindParentNode(key, depth + |e|, c);
          return;
        }
        todo := todo - {e};
      }
      return n;
    }

    // ----- insert -----

    // The inner loop of insert: how far an edge and the rest of the key agree.
    static method CommonPrefix(edge: string, sub: string) returns (i: nat)
      ensures i <= |edge| && i <= |sub| && edge[..i] == sub[..i]
      ensures i < |edge| && i < |sub| ==> edge[i] != sub[i]
    {
      i := 0;
      while i < |edge| && i < |sub| && edge[i] == sub[i]
        invariant i <= |edge| && i <= |sub| && edge[..i] == sub[..i]
      {
        i := i + 1;
      }
    }

    // new node_type{value, p, len} entered under a fresh edge of p.
    method PlaceLeaf(p: Node<T>, e: string, key: string, val: T) returns (x: Node<T>)
      requires Linked() && p in forest && e !in p.children
      modifies this`forest, p`children
      ensures fresh(x) && Linked() && forest == AddLeaf(old(forest), p, e, x, key, val)
    {
      ghost var h := forest;
      assert p.ToRec() == h[p];
      x := new Node(key, val, p, |key|);
      var _ := p.AddChild(e, x);
      forest := AddLeaf(h, p, e, x, key, val);
      forall n | n in forest ensures n.ToRec() == forest[n] {
        if n != x { assert old(n.ToRec()) == h[n]; }
      }
    }

    // The leaf p keeps its key but hands its pair to a new leaf under the empty edge.
    method DemoteNode(p: Node<T>) returns (ghost x: Node<T>)
      requires Linked() && p in forest && p.IsLeaf()
      modifies this`forest, p
      ensures fresh(x) && Linked() && forest == Demote(old(forest), p, x, zero)
    {
      ghost var h := forest;
      assert p.ToRec() == h[p];
      var y := new Node(p.key, p.val, p, p.depth);
      var _ := p.AddChild("", y);
      p.val := zero;
      forest := Demote(h, p, y, zero);
      forall n | n in forest ensures n.ToRec() == forest[n] {
        if n != y { assert old(n.ToRec()) == h[n]; }
      }
      x := y;
    }

    // Steps 1 to 4 of insert's common-branch case.
    method SplitEdge(p: Node<T>, e: string, i: nat) returns (mid: Node<T>)
      requires Linked() && p in forest && p.ToRec() == forest[p]
      requires e in p.children && p.children[e] in forest && p.children[e] != p && 0 < i < |e|
      requires p.children[e].parent == p && p.children[e].key == p.key + e && e[..i] !in p.children
      requires |p.key| == p.depth && |p.key + e| == p.children[e].depth
      modifies this`forest, forest.Keys
      ensures fresh(mid) && Linked() && forest == Split(old(forest), p, e, i, mid, zero)
    {
      ghost var h := forest;
      var c := p.children[e];
      assert c.ToRec() == h[c] && p.ToRec() == h[p];
      assert c.key[p.depth..] == e;
      p.children := p.children - {e};
      var edge := SubStr(c.SearchKey(), 0, i);
      var midKey := SubStr(c.key, 0, p.depth + i);
      assert midKey == p.key + e[..i];
      mid := new Node(midKey, zero, p, |midKey|);
      var _ := p.AddChild(edge, mid);
      c.parent := mid;
      assert c.key[mid.depth..] == e[i..];
      var _ := mid.AddChild(c.SearchKey(), c);
      assert edge == e[..i] && mid.children == map[e[i..] := c];
      forest := Split(h, p, e, i, mid, zero);
      forall n | n in forest ensures n.ToRec() == forest[n] {
        if n != mid { assert old(n.ToRec()) == h[n]; }
      }
    }

    // Steps 1 to 5: split, then hang the new leaf beside the old subtree.
    method SplitAndPlace(p: Node<T>, e: string, i: nat, key: string, val: T) returns (x: Node<T>, ghost mid: Node<T>)
      requires Linked() && p in forest && p.ToRec() == forest[p]
      requires e in p.children && p.children[e] in forest && p.children[e] != p && 0 < i < |e|
      requires p.children[e].parent == p && p.children[e].key == p.key + e && e[..i] !in p.children
      requires |p.key| == p.depth && |p.key + e| == p.children[e].depth
      requires i <= |key| - p.depth && (i < |key| - p.depth ==> e[i] != key[p.depth..][i])
      modifies this`forest, forest.Keys
      ensures fresh(mid) && fresh(x) && mid != x && Linked()
      ensures forest == AddLeaf(Split(old(forest), p, e, i, mid, zero), mid, key[p.depth..][i..], x, key, val)
    {
      var sub := SubStr(key, p.depth, |key|);
      var m := SplitEdge(p, e, i);
      assert m.ToRec() == forest[m];
      x := PlaceLeaf(m, sub[i..], key, val);
      mid := m;
    }

    // The common-branch case of insert.
    method InsertBeside(p: Node<T>, e: string, i: nat, key: string, val: T) returns (x: Node<T>)
      requires Valid() && root != null && p in forest && e in p.children
      requires p.depth <= |key| && p.key == key[..p.depth]
      requires 0 < i <= |key| - p.depth && i < |e| && e[..i] == key[p.depth..][..i]
      requires i < |key| - p.depth ==> e[i] != key[p.depth..][i]
      requires Ends(forest, root, p, key)
      modifies this`forest, forest.Keys
      ensures Valid() && fresh(forest.Keys - old(forest.Keys)) && LeafRec(x, key, val)
      ensures key !in old(Entries()) && Entries() == old(Entries())[key := val]
      ensures DoubledKeys() == Unreached(old(DoubledKeys()), key)
    {
      ghost var h := forest;
      assert h[p] == p.ToRec();
      assert NodeOk(h, root, p) && EdgeOk(h, p, e);
      assert NodeOk(h, root, p.children[e]) && p.children[e].ToRec() == h[p.children[e]];
      SplitSiblings(h[p].children, e, i, p);
      ghost var mid;
      x, mid := SplitAndPlace(p, e, i, key, val);
      BesideDoubled(h, forest, root, zero, p, e, i, mid, x, key, val);
    }

    // x is a live leaf holding exactly this pair.
    ghost predicate LeafRec(x: Node<T>, key: string, val: T)
      reads this`root, this`forest
    {
      x in forest && forest[x] == Rec(key, val, forest[x].parent, |key|, map[])
    }

    // insert's leaf-to-internal conversion.
    method MakeInternal(p: Node<T>)
      requires Valid() && root != null && p in forest && Trunk(forest, root, p)
      modifies this`forest, p
      ensures Valid() && fresh(forest.Keys - old(forest.Keys)) && p in forest && Trunk(forest, root, p)
      ensures Entries() == old(Entries())
      ensures p == root || !p.IsLeaf()
      ensures p.children == old(p.children) || p.children.Keys == {""}
      ensures SinglesBut(old(forest), forest, root, p) && Grown(old(forest), forest, root)
      ensures Single(forest, root, p) <==> old(Single(forest, root, p) || Stored(forest, root, p))
      ensures old(Stored(forest, root, p)) || forest == old(forest)
    {
      ghost var h := forest;
      assert h[p] == p.ToRec();
      if p != root && p.IsLeaf() {
        ghost var x := DemoteNode(p);
        DemoteShape(h, root, p, x, zero);
        DemoteContents(h, root, p, x, zero);
        DemoteTidy(h, root, p, x, zero);
        assert p.ToRec() == forest[p];
        assert p.children == map["" := x];
        assert "" in p.children;
        assert Edge(forest, root, p) == Edge(h, root, p) by { assert forest[p].parent == h[p].parent; }
      }
    }

    method AddUnder(p: Node<T>, key: string, val: T) returns (x: Node?<T>)
      requires Valid() && root != null && p in forest && Trunk(forest, root, p) && (p == root || !p.IsLeaf())
      requires p.depth <= |key| && p.key == key[..p.depth]
      requires NoCommon(p.children, key[p.depth..])
      modifies this`forest, p`children
      ensures Valid() && fresh(forest.Keys - old(forest.Keys))
      ensures x != null <==> key !in old(Entries())
      ensures x != null ==> LeafRec(x, key, val)
      ensures Entries() == if x != null then old(Entries())[key := val] else old(Entries())
      ensures x == null ==> forest == old(forest) && forest[p].key == key && "" in forest[p].children
      ensures x != null ==>
                && SinglesBut(old(forest), forest, root, p) && !Single(forest, root, p)
                && Grown(old(forest), forest, root)
    {
      ghost var h := forest;
      assert h[p] == p.ToRec();
      var sub := SubStr(key, p.depth, |key|);
      assert key == h[p].key + sub;
      if sub in p.children {
        AlreadyStored(h, root, p, sub);
        x := null;
      } else {
        assert TidyNode(h, root, zero, p);
        x := PlaceLeaf(p, sub, key, val);
        AddedFacts(h, root, zero, p, sub, x, key, val);
      }
    }

    // The case without a common branch.
    method InsertUnder(p: Node<T>, key: string, val: T) returns (x: Node?<T>)
      requires Valid() && root != null && p in forest && Trunk(forest, root, p)
      requires p.depth <= |key| && p.key == key[..p.depth]
      requires NoCommon(p.children, key[p.depth..]) && Ends(forest, root, p, key)
      modifies this`forest, p
      ensures Valid() && fresh(forest.Keys - old(forest.Keys))
      ensures x != null <==> key !in old(Entries())
      ensures x != null ==> LeafRec(x, key, val)
      ensures Entries() == if x != null then old(Entries())[key := val] else old(Entries())
      ensures DoubledKeys() == DoubledBy(old(Entries()), old(DoubledKeys()), key)
    {
      ghost var h := forest;
      MakeInternal(p);
      assert NoCommon(p.children, key[p.depth..]);
      ghost var h1 := forest;
      x := AddUnder(p, key, val);
      assert fresh(forest.Keys - old(forest.Keys));
      if x == null {
        DoubledPresent(h, h1, root, zero, p);
      } else {
        GrownTwice(h, h1, forest, root, p);
        DoubledAdded(h, forest, root, zero, p, key);
      }
    }

    method EnsureRoot()
      requires Valid()
      modifies this`root, this`forest
      ensures Valid() && root != null && fresh(forest.Keys - old(forest.Keys)) && Entries() == old(Entries())
      ensures DoubledKeys() == old(DoubledKeys())
    {
      if root == null {
        root := new Node("", zero, null, 0);
        forest := map[root := root.ToRec()];
        assert NodeOk(forest, root, root) && TidyNode(forest, root, zero, root);
        ContentsIs(forest, root, map[]);
      }
    }

    // The loop over p's children: the edge sharing a first character with the rest of the key.
    method FindCommonBranch(p: Node<T>, sub: string) returns (e: string, i: nat)
      ensures i > 0 ==> e in p.children && i <= |e| && i <= |sub| && e[..i] == sub[..i]
      ensures i > 0 && i < |e| && i < |sub| ==> e[i] != sub[i]
      ensures i == 0 ==> NoCommon(p.children, sub)
    {
      var todo := p.children.Keys;
      e, i := "", 0;
      while todo != {}
        invariant todo <= p.children.Keys
        invariant forall e' | e' in p.children.Keys - todo && e' != "" && sub != "" :: e'[0] != sub[0]
        decreases todo
      {
        e :| e in todo;
        i := CommonPrefix(e, sub);
        if i > 0 {
          return;
        }
        todo := todo - {e};
      }
      i := 0;
    }

    method InsertBelowRoot(key: string, val: T) returns (x: Node?<T>)
      requires Valid() && root != null
      modifies this`forest, forest.Keys
      ensures Valid() && fresh(forest.Keys - old(forest.Keys))
      ensures x != null <==> key !in old(Entries())
      ensures x != null ==> LeafRec(x, key, val)
      ensures Entries() == if x != null then old(Entries())[key := val] else old(Entries())
      ensures DoubledKeys() == DoubledBy(old(Entries()), old(DoubledKeys()), key)
    {
      assert NodeOk(forest, root, root) && root.ToRec() == forest[root];
      var p := FindParentNode(key, 0, root);
      var sub := SubStr(key, p.depth, |key|);
      var e, i := FindCommonBranch(p, sub);
      DescentEnds(p, key);
      if i > 0 {
        assert key[p.depth..p.depth + i] == sub[..i];
        assert i < |e|;
        x := InsertBeside(p, e, i, key, val);
      } else {
        x := InsertUnder(p, key, val);
      }
    }

    lemma {:induction false} DescentEnds(p: Node<T>, key: string)
      requires Valid() && root != null && p in forest && Trunk(forest, root, p)
      requires p.depth <= |key| && p.key == key[..p.depth]
      requires forall e | e in p.children && e != "" :: !OccursAt(key, e, p.depth)
      ensures Ends(forest, root, p, key)
    {
      assert p.ToRec() == forest[p] && NodeOk(forest, root, p);
      forall e | p.key + e <= key ensures OccursAt(key, e, p.depth) {
        assert key[p.depth..p.depth + |e|] == e;
      }
    }

    // insert (both overloads): the first value of a key wins.
    method Insert(key: string, val: T) returns (x: Node?<T>, inserted: bool)
      requires Valid()
      modifies this, forest.Keys
      ensures Valid() && fresh(forest.Keys - old(forest.Keys))
      ensures inserted <==> key !in old(Entries())
      ensures inserted <==> x != null
      ensures x != null ==> LeafRec(x, key, val)
      ensures Entries() == if inserted then old(Entries())[key := val] else old(Entries())
      ensures size == if inserted then Inc(old(size)) else old(size)
      ensures DoubledKeys() == DoubledBy(old(Entries()), old(DoubledKeys()), key)
      ensures root != null && !Drained()
    {
      EnsureRoot();
      x := InsertBelowRoot(key, val);
      NotDrained(forest, root, key);
      inserted := x != null;
      if inserted {
        size := Inc(size);
      }
    }

    static lemma {:induction false} NotDrained(h: Forest<Node<T>, T>, r: Node<T>, k: string)
      requires Shape(h, r) && k in Contents(h, r)
      ensures h[r].children != map[]
    {
      var n := ContentsFrom(h, r, k);
      RootLeafKeys(h, r, n);
    }

    // ----- erase -----

    // get_search_key's clamped substr is exactly the edge.
    lemma {:induction false} SearchKeyIsEdge(n: Node<T>)
      requires Linked() && root != null && Shape(forest, root) && n in forest && n != root
      ensures n.parent != null && n.parent in forest && n.parent.depth <= |n.key|
      ensures n.parent == Parent(forest, root, n) && n.SearchKey() == Edge(forest, root, n)
    {
      assert n.ToRec() == forest[n] && NodeOk(forest, root, n);
      var p := Parent(forest, root, n);
      assert p.ToRec() == forest[p] && NodeOk(forest, root, p);
      assert n.key[p.depth..] == Edge(forest, root, n);
    }

    // Unlink and delete the leaf n.
    method DropLeaf(n: Node<T>, p: Node<T>)
      requires Linked() && root != null && Shape(forest, root) && Stored(forest, root, n)
      requires p == Parent(forest, root, n)
      modifies this`forest, p`children
      ensures Linked() && Shape(forest, root)
      ensures p != n && forest == RemoveLeaf(old(forest), p, old(Edge(forest, root, n)), n)
    {
      ghost var h := forest;
      SearchKeyIsEdge(n);
      var e := n.SearchKey();
      assert p.ToRec() == h[p];
      RemoveLeafShape(h, root, p, e, n);
      p.children := p.children - {e};
      forest := RemoveLeaf(h, p, e, n);
      forall m | m in forest ensures m.ToRec() == forest[m] {
        assert old(m.ToRec()) == h[m];
      }
    }

    // Hand p's only child s to p's parent g.
    method Relink(g: Node<T>, p: Node<T>, e: string, s: Node<T>, ghost pe: string)
      requires Linked() && g in forest && p in forest && s in forest && g != p && g != s && p != s
      requires p.parent == g && s.parent == p && |g.key| == g.depth && |p.key| == p.depth && |s.key| == s.depth
      requires p.key == g.key + pe && s.key == p.key + e && (pe + e !in g.children || e == "")
      modifies this`forest, g`children, p`children, s`parent
      ensures Linked() && forest == Merge(old(forest), g, pe, p, e, s)
    {
      ghost var h := forest;
      assert p.ToRec() == h[p] && g.ToRec() == h[g] && s.ToRec() == h[s];
      p.children := p.children - {s.SearchKey()};
      assert p.key[g.depth..] == pe;
      g.children := g.children - {p.SearchKey()};
      assert pe + "" == pe && pe + e !in g.children;
      s.parent := g;
      assert s.key[g.depth..] == pe + e;
      var _ := g.AddChild(s.SearchKey(), s);
      forest := Merge(h, g, pe, p, e, s);
      forall m | m in forest ensures m.ToRec() == forest[m] {
        assert old(m.ToRec()) == h[m];
      }
    }

    // The merge of erase, when the erased leaf leaves one sibling below a non-root parent.
    method MergeUp(p: Node<T>, g: Node<T>) returns (ghost e: string, ghost s: Node<T>)
      requires Linked() && root != null && Shape(forest, root) && p in forest && p != root
      requires |p.children| == 1 && g == Parent(forest, root, p)
      modifies this`forest, forest.Keys
      ensures Linked() && Shape(forest, root)
      ensures old(forest)[p].children == map[e := s] && s in old(forest)
      ensures forest == Merge(old(forest), g, old(Edge(forest, root, p)), p, e, s)
    {
      ghost var h := forest;
      SearchKeyIsEdge(p);
      assert p.ToRec() == h[p] && g.ToRec() == h[g];
      var e0 := OnlyEdge(p);
      var s0 := p.children[e0];
      ghost var pe := Edge(h, root, p);
      MergeShape(h, root, g, pe, p, e0, s0);
      assert e0 in h[p].children;
      ChildFacts(h, root, p, e0);
      assert s0.ToRec() == h[s0];
      assert NodeOk(h, root, g) && NodeOk(h, root, p) && NodeOk(h, root, s0);
      MergeSiblings(h[g].children, pe, e0, s0);
      Relink(g, p, e0, s0, pe);
      e, s := e0, s0;
    }

    // children.begin() of a one-element map.
    static method OnlyEdge(p: Node<T>) returns (e: string)
      requires |p.children| == 1
      ensures e in p.children && p.children == map[e := p.children[e]]
    {
      assert p.children != map[];
      e :| e in p.children;
      KeysLeft(p.children, e);
    }

    // The second half of erase: a non-root parent left with one child gives way to it.
    method MergeIfLone(p: Node<T>)
      requires Linked() && root != null && Shape(forest, root) && p in forest
      requires TidyBut(forest, root, zero, p)
      requires p == root || |forest[p].children| != 1 ==> Tidy(forest, root, zero)
      modifies this`forest, forest.Keys
      ensures Valid() && forest.Keys <= old(forest.Keys) && Entries() == old(Entries())
      ensures SinglesBut(old(forest), forest, root, p) && !Single(forest, root, p)
      ensures forall m | m in forest :: forest[m].key == old(forest)[m].key
    {
      ghost var h := forest;
      assert p.ToRec() == h[p];
      if p != root {
        SearchKeyIsEdge(p);
      }
      if |p.children| == 1 && p.parent != null {
        ghost var e, s := MergeUp(p, p.parent);
        MergedFacts(h, root, zero, p, e, s);
      }
    }

    // Erase the leaf n: drop it and, if that leaves one sibling below a non-root parent, merge.
    method EraseLeaf(n: Node<T>)
      requires Valid() && root != null && Stored(forest, root, n)
      modifies this`forest, forest.Keys
      ensures Valid() && forest.Keys <= old(forest.Keys)
      ensures var k, m := old(forest)[n].key, old(Entries());
              && Entries() == (if k in old(DoubledKeys()) then m[k := zero] else m - {k})
              && DoubledKeys() == old(DoubledKeys()) - {k}
    {
      ghost var h := forest;
      SearchKeyIsEdge(n);
      LoneIffDoubled(h, root, zero, n);
      var p := n.parent;
      ErasedFacts(forest, root, zero, n);
      DropLeaf(n, p);
      ghost var h1 := forest;
      MergeIfLone(p);
      SinglesTwice(h, h1, forest, root, p);
      DoubledErased(h, forest, root, zero, n);
    }

    // erase: removes the key and returns 1, or returns 0 when it is absent.  A doubled key stays,
    // with the default value: the leaf's parent takes over.
    // The C++ dereferences a null parent for "" on a drained tree, so callers must avoid that.
    method Erase(key: string) returns (count: nat)
      requires Valid() && !(key == "" && Drained())
      modifies this, forest.Keys
      ensures Valid() && forest.Keys <= old(forest.Keys)
      ensures count == if key in old(Entries()) then 1 else 0
      ensures size == if count == 1 then Dec(old(size)) else old(size)
      ensures Entries() == if key in old(DoubledKeys()) then old(Entries())[key := zero] else old(Entries()) - {key}
      ensures DoubledKeys() == old(DoubledKeys()) - {key} && root == old(root)
    {
      if root == null {
        return 0;
      }
      ghost var h := forest;
      assert NodeOk(h, root, root) && root.ToRec() == h[root];
      var n := FindNode(key, 0, root);
      if n == null {
        AbsentKey(h, root, zero, key);
        return 0;
      }
      ContentsAt(h, root, n);
      EraseLeaf(n);
      size := Dec(size);
      return 1;
    }

    static lemma {:induction false} AbsentKey(h: Forest<Node<T>, T>, r: Node<T>, zero: T, key: string)
      requires Shape(h, r) && Tidy(h, r, zero) && forall m | m in h && h[m].children == map[] :: h[m].key != key
      ensures key !in Contents(h, r) && key !in Doubled(h, r)
    {
      if key in Contents(h, r) {
        var n := ContentsFrom(h, r, key);
      }
      forall q | q in h && Single(h, r, q) ensures h[q].key != key {
        SingleFacts(h, r, zero, q);
      }
    }

    lemma {:induction false} DrainedIff()
      requires Valid()
      ensures Drained() <==> root != null && Entries() == map[]
    {
      if root != null { BareRoot(forest, root); }
    }

    method Clear()
      requires Valid()
      modifies this
      ensures Valid() && DoubledKeys() == {} && Entries() == map[] && size == 0 && forest == map[]
    {
      root, size, forest := null, 0, map[];
    }
  }
}
