/** radix_tree_iterator's operator++ and begin, and a whole traversal.
  *
  * The iterator holds one node pointer.  `ord` is the enumeration order of the children maps,
  * which stays fixed while the tree is not modified.
  */
module RadixIterators {
  import opened Sequences
  import opened RadixShape
  import opened RadixUpdates
  import opened RadixOrder
  import opened RadixTrees

  // find(key) followed by ++it, as a position in the enumeration.
  method Position(edges: seq<string>, e: string) returns (i: nat)
    requires e in edges
    ensures i < |edges| && edges[i] == e
  {
    i := 0;
    while edges[i] != e
      invariant i < |edges| && e in edges[i..]
      decreases |edges| - i
    {
      i := i + 1;
    }
  }

  // One round of the climb: the next sibling of cur, if it has one.
  method NextSibling<T>(t: RadixTree<T>, ord: Order<Node<T>>, cur: Node<T>) returns (sibling: Node?<T>)
    requires t.Valid() && t.root != null && Ordered(t.forest, t.root, ord) && cur in t.forest && cur != t.root
    ensures sibling == null ==>
              After(t.forest, t.root, ord, cur) == After(t.forest, t.root, ord, Parent(t.forest, t.root, cur))
    ensures sibling != null ==>
              && sibling in t.forest && sibling != t.root
              && After(t.forest, t.root, ord, cur) == From(t.forest, t.root, ord, sibling)
  {
    ghost var h := t.forest;
    t.SearchKeyIsEdge(cur);
    var parent := cur.parent;
    assert EnumeratesNode(h, ord, parent) && parent.ToRec() == h[parent];
    var i := Position(ord[parent], cur.SearchKey());
    SiblingAt(h, t.root, ord, cur, i);
    sibling := if i + 1 < |ord[parent]| then parent.children[ord[parent][i + 1]] else null;
  }

  // The climb of operator++ from a node whose subtree is done: to the next sibling of the
  // nearest ancestor that has one, or to the root.
  method Climb<T>(t: RadixTree<T>, ord: Order<Node<T>>, start: Node<T>) returns (cur: Node<T>)
    requires t.Valid() && t.root != null && Ordered(t.forest, t.root, ord) && start in t.forest
    ensures cur in t.forest
    ensures cur == t.root ==> After(t.forest, t.root, ord, start) == []
    ensures cur != t.root ==>
              After(t.forest, t.root, ord, start) == From(t.forest, t.root, ord, cur)
  {
    ghost var h := t.forest;
    cur := start;
    assert t.root.ToRec() == h[t.root];
    while cur.parent != null
      invariant cur in h
      invariant After(h, t.root, ord, cur) == After(h, t.root, ord, start)
      decreases Rank(h, t.root, cur)
    {
      var sibling := NextSibling(t, ord, cur);
      if sibling != null {
        return sibling;
      }
      t.SearchKeyIsEdge(cur);
      ParentFacts(h, t.root, cur);
      cur := cur.parent;
    }
    if cur != t.root { t.SearchKeyIsEdge(cur); }
  }

  // children.begin() of an internal node.
  method FirstChild<T>(t: RadixTree<T>, ord: Order<Node<T>>, n: Node<T>) returns (c: Node<T>)
    requires t.Valid() && t.root != null && Ordered(t.forest, t.root, ord) && n in t.forest && !n.IsLeaf()
    ensures c in t.forest && c != t.root && Deeper(t.forest, t.root, c) < Deeper(t.forest, t.root, n)
    ensures Pending(t.forest, t.root, ord, n) == From(t.forest, t.root, ord, c)
  {
    ghost var h := t.forest;
    assert n.ToRec() == h[n];
    DescendFirst(h, t.root, ord, n);
    assert EnumeratesNode(h, ord, n);
    assert ord[n][0] in ord[n];
    c := n.children[ord[n][0]];
    assert c == Child(h, t.root, ord, n, 0);
  }

  // operator++: delivers the head of what is pending and leaves the tail pending.
  method Increment<T>(t: RadixTree<T>, ord: Order<Node<T>>, start: Node<T>) returns (res: Node?<T>)
    requires t.Valid() && t.root != null && Ordered(t.forest, t.root, ord) && start in t.forest
    ensures res == null <==> Pending(t.forest, t.root, ord, start) == []
    ensures res != null ==>
              && Stored(t.forest, t.root, res)
              && Pending(t.forest, t.root, ord, start) == [res] + Pending(t.forest, t.root, ord, res)
    decreases start.IsLeaf(), Deeper(t.forest, t.root, start)
  {
    ghost var h := t.forest;
    assert start.ToRec() == h[start] && t.root.ToRec() == h[t.root];
    var cur;
    if start.IsLeaf() {
      cur := Climb(t, ord, start);
    } else {
      cur := FirstChild(t, ord, start);
    }
    assert cur.ToRec() == h[cur];
    if cur != t.root { t.SearchKeyIsEdge(cur); }
    if cur.parent == null {
      res := null;
    } else if cur.IsLeaf() {
      FromLeaf(h, t.root, ord, cur);
      res := cur;
    } else {
      res := Increment(t, ord, cur);
    }
  }

  method Begin<T>(t: RadixTree<T>, ord: Order<Node<T>>) returns (res: Node?<T>)
    requires t.Valid() && (t.root != null ==> Ordered(t.forest, t.root, ord))
    ensures t.root == null ==> res == null
    ensures t.root != null ==>
              if res == null then Listing(t.forest, t.root, ord) == []
              else
                && Stored(t.forest, t.root, res)
                && Listing(t.forest, t.root, ord) == [res] + Pending(t.forest, t.root, ord, res)
  {
    if t.root == null {
      return null;
    }
    res := Increment(t, ord, t.root);
  }

  // The loop from begin() to end().
  method Collect<T>(t: RadixTree<T>, ord: Order<Node<T>>) returns (seen: seq<Node<T>>)
    requires t.Valid() && t.root != null && Ordered(t.forest, t.root, ord)
    ensures seen == Listing(t.forest, t.root, ord)
  {
    ghost var h, r, all := t.forest, t.root, Listing(t.forest, t.root, ord);
    var it := Begin(t, ord);
    seen := [];
    while it != null
      invariant it != null ==> Stored(h, r, it) && all == seen + ([it] + Pending(h, r, ord, it))
      invariant it == null ==> all == seen
      decreases |all| - |seen|, if it == null then 0 else 1
    {
      ghost var was := seen;
      seen := seen + [it];
      ghost var rest := Pending(h, r, ord, it);
      Assoc(was, [it], rest);
      it := Increment(t, ord, it);
    }
  }

  // begin() to end(): every entry once, size() steps, whatever the enumeration order.
  method Traverse<T>(t: RadixTree<T>, ord: Order<Node<T>>) returns (pairs: seq<(string, T)>)
    requires t.Valid() && (t.root != null ==> Ordered(t.forest, t.root, ord))
    ensures |pairs| == |t.Entries()|
    ensures forall i | 0 <= i < |pairs| :: pairs[i].0 in t.Entries() && t.Entries()[pairs[i].0] == pairs[i].1
    ensures forall i, j | 0 <= i < j < |pairs| :: pairs[i].0 != pairs[j].0
  {
    pairs := [];
    if t.root == null {
      return;
    }
    ghost var h := t.forest;
    var seen := Collect(t, ord);
    ListingComplete(h, t.root, ord);
    for i := 0 to |seen|
      invariant |pairs| == i
      invariant forall j | 0 <= j < i :: Stored(h, t.root, seen[j]) && pairs[j] == (h[seen[j]].key, h[seen[j]].val)
    {
      assert seen[i] in seen;
      assert seen[i].ToRec() == h[seen[i]];
      pairs := pairs + [(seen[i].key, seen[i].val)];
    }
    ListedEntries(h, t.root, seen, pairs);
  }

  lemma {:induction false} ListedEntries<T>(h: Forest<Node<T>, T>, r: Node<T>, seen: seq<Node<T>>,
      pairs: seq<(string, T)>)
    requires Shape(h, r) && Distinct(seen) && |pairs| == |seen|
    requires forall i | 0 <= i < |seen| :: Stored(h, r, seen[i]) && pairs[i] == (h[seen[i]].key, h[seen[i]].val)
    ensures forall i | 0 <= i < |pairs| :: pairs[i].0 in Contents(h, r) && Contents(h, r)[pairs[i].0] == pairs[i].1
    ensures forall i, j | 0 <= i < j < |pairs| :: pairs[i].0 != pairs[j].0
  {
    forall i | 0 <= i < |pairs| ensures pairs[i].0 in Contents(h, r) && Contents(h, r)[pairs[i].0] == pairs[i].1 {
      ContentsAt(h, r, seen[i]);
    }
    forall i, j | 0 <= i < j < |pairs| ensures pairs[i].0 != pairs[j].0 {
      if pairs[i].0 == pairs[j].0 { StoredUnique(h, r, seen[i], seen[j]); }
    }
  }
}
