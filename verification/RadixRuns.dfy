/** Whole runs of the radix tree against plain maps, and where the agreement ends. */
module RadixRuns {
  import opened Sizes
  import opened Options
  import opened RadixShape
  import opened RadixUpdates
  import opened RadixDoubled
  import opened RadixTrees

  // ----- runs of inserts only: any keys, duplicates and prefixes included -----

  // The value given by the first insert of each key.
  function FirstWins<T>(ops: seq<(string, T)>): map<string, T>
  {
    if ops == [] then map[]
    else
      var m, last := FirstWins(ops[..|ops| - 1]), ops[|ops| - 1];
      if last.0 in m then m else m[last.0 := last.1]
  }

  lemma {:induction false} FirstWinsMeans<T>(ops: seq<(string, T)>)
    ensures forall k :: k in FirstWins(ops) <==> exists i :: 0 <= i < |ops| && ops[i].0 == k
    ensures forall i | 0 <= i < |ops| && (forall j | 0 <= j < i :: ops[j].0 != ops[i].0) ::
              FirstWins(ops)[ops[i].0] == ops[i].1
  {
    if ops != [] {
      var n := |ops| - 1;
      var was := ops[..n];
      FirstWinsMeans(was);
      forall k | exists i :: 0 <= i < |ops| && ops[i].0 == k ensures k in FirstWins(ops) {
        var i :| 0 <= i < |ops| && ops[i].0 == k;
        assert i < n ==> was[i].0 == k;
      }
      forall i | 0 <= i < |ops| && (forall j | 0 <= j < i :: ops[j].0 != ops[i].0)
        ensures FirstWins(ops)[ops[i].0] == ops[i].1
      {
        if i < n {
          assert was[i] == ops[i];
        }
      }
    }
  }

  // After any inserts the tree is the first-wins map, size() counts the distinct keys, and find
  // answers exactly that map.
  method RunInserts<T>(zero: T, ops: seq<(string, T)>) returns (t: RadixTree<T>)
    requires |ops| < SIZE_WRAP
    ensures t.Valid() && t.Entries() == FirstWins(ops) && t.size == |FirstWins(ops)| && !t.Drained()
  {
    t := new RadixTree(zero);
    for i := 0 to |ops|
      invariant t.Valid() && fresh(t) && fresh(t.forest.Keys) && !t.Drained()
      invariant t.Entries() == FirstWins(ops[..i]) && t.size == |t.Entries()| <= i
    {
      assert ops[..i + 1][..i] == ops[..i];
      var x, inserted := t.Insert(ops[i].0, ops[i].1);
    }
    assert ops[..|ops|] == ops;
  }

  // find on an undrained tree is the map's lookup.
  method Lookup<T>(t: RadixTree<T>, key: string) returns (v: Option<T>)
    requires t.Valid() && !t.Drained()
    ensures v == if key in t.Entries() then Some(t.Entries()[key]) else None
  {
    var n := t.Find(key);
    v := if n == null then None else Some(n.val);
  }

  // ----- all runs of inserts and erases -----

  datatype Op<T> = Put(key: string, val: T) | Del(key: string)

  // What a run leaves: the stored map, the doubled keys, whether there was an insert, the size
  // counter, and how many erases left their key in place.
  datatype Model<T> = Model(entries: map<string, T>, doubled: set<string>, rooted: bool, size: nat, kept: nat)

  function Step<T>(zero: T, m: Model<T>, op: Op<T>): Model<T>
  {
    match op
    case Put(k, v) =>
      var d := DoubledBy(m.entries, m.doubled, k);
      if k in m.entries then m.(doubled := d, rooted := true)
      else Model(m.entries[k := v], d, true, Inc(m.size), m.kept)
    case Del(k) =>
      if k !in m.entries then m
      else if k in m.doubled then Model(m.entries[k := zero], m.doubled - {k}, m.rooted, Dec(m.size), m.kept + 1)
      else Model(m.entries - {k}, m.doubled - {k}, m.rooted, Dec(m.size), m.kept)
  }

  function After<T>(zero: T, ops: seq<Op<T>>): Model<T>
  {
    if ops == [] then Model(map[], {}, false, 0, 0) else Step(zero, After(zero, ops[..|ops| - 1]), ops[|ops| - 1])
  }

  // erase("") on a tree that has been emptied goes through a null parent pointer.
  predicate Crashes<T>(m: Model<T>, op: Op<T>)
  {
    op == Del("") && m.rooted && m.entries == map[]
  }

  // The tree after any run is the model after that run.
  method Run<T(==)>(zero: T, ops: seq<Op<T>>) returns (t: RadixTree<T>)
    requires forall i | 0 <= i < |ops| :: !Crashes(After(zero, ops[..i]), ops[i])
    ensures t.Valid() && t.zero == zero && Agrees(t, After(zero, ops))
  {
    t := new RadixTree(zero);
    for i := 0 to |ops|
      invariant t.Valid() && t.zero == zero && fresh(t) && fresh(t.forest.Keys)
      invariant Agrees(t, After(zero, ops[..i]))
    {
      assert ops[..i + 1][..i] == ops[..i];
      Consistency(zero, ops[..i]);
      Apply(t, ops[i], After(zero, ops[..i]));
    }
    assert ops[..|ops|] == ops;
  }

  ghost predicate Agrees<T>(t: RadixTree<T>, m: Model<T>)
    reads t, t.forest.Keys
  {
    && t.Valid() && t.Entries() == m.entries && t.DoubledKeys() == m.doubled
    && (t.root != null <==> m.rooted) && t.size == m.size
  }

  method Apply<T(==)>(t: RadixTree<T>, op: Op<T>, ghost m: Model<T>)
    requires Agrees(t, m) && !Crashes(m, op) && Consistent(m)
    modifies t, t.forest.Keys
    ensures t.Valid() && fresh(t.forest.Keys - old(t.forest.Keys)) && Agrees(t, Step(t.zero, m, op))
  {
    t.DrainedIff();
    match op {
      case Put(k, v) =>
        var x, inserted := t.Insert(k, v);
      case Del(k) =>
        var count := t.Erase(k);
    }
  }

  // ----- what the model says -----

  // Doubled keys are stored, are not empty and have no stored extension.
  predicate Consistent<T>(m: Model<T>)
  {
    forall k | k in m.doubled :: k in m.entries && k != "" && !Extended(m.entries, k)
  }

  lemma {:induction false} ConsistentStep<T>(zero: T, m: Model<T>, op: Op<T>)
    requires Consistent(m)
    ensures Consistent(Step(zero, m, op))
  {
    var m' := Step(zero, m, op);
    forall k | k in m'.doubled ensures k in m'.entries && k != "" && !Extended(m'.entries, k) {
      assert k in m.doubled || k == op.key;
      forall j | j in m'.entries && k < j ensures false {
        assert j in m.entries ==> Extended(m.entries, k);
      }
    }
  }

  lemma {:induction false} Consistency<T>(zero: T, ops: seq<Op<T>>)
    ensures Consistent(After(zero, ops))
  {
    if ops != [] {
      Consistency(zero, ops[..|ops| - 1]);
      ConsistentStep(zero, After(zero, ops[..|ops| - 1]), ops[|ops| - 1]);
    }
  }

  // Step i inserted the present key k while nothing extended it, and since then k has not been
  // erased and no extension of it has been inserted.
  predicate Redoubled<T>(zero: T, ops: seq<Op<T>>, i: nat, k: string)
  {
    && i < |ops| && ops[i].Put? && ops[i].key == k && k != ""
    && k in After(zero, ops[..i]).entries && !Extended(After(zero, ops[..i]).entries, k)
    && forall j | i < j < |ops| :: !Undoubles(ops[j], k)
  }

  predicate Undoubles<T>(op: Op<T>, k: string)
  {
    if op.Put? then k < op.key else op.key == k
  }

  lemma {:induction false} DoubledStep<T>(zero: T, m: Model<T>, op: Op<T>, k: string)
    requires Consistent(m)
    ensures k in Step(zero, m, op).doubled <==>
            || (k in m.doubled && !Undoubles(op, k))
            || (op.Put? && op.key == k && k != "" && k in m.entries && !Extended(m.entries, k))
  {
    PrefixCases(k, op.key);
    assert k in m.doubled ==> k in m.entries && k != "" && !Extended(m.entries, k);
    if op.key in m.entries && k < op.key { assert Extended(m.entries, k); }
  }

  lemma {:induction false} PrefixCases(k: string, j: string)
    ensures k <= j <==> k < j || k == j
  {
  }

  lemma {:induction false} DoubledMeans<T>(zero: T, ops: seq<Op<T>>, k: string)
    ensures k in After(zero, ops).doubled <==> exists i :: Redoubled(zero, ops, i, k)
  {
    if ops != [] {
      var n := |ops| - 1;
      var was := ops[..n];
      DoubledMeans(zero, was, k);
      Consistency(zero, was);
      DoubledStep(zero, After(zero, was), ops[n], k);
      RedoubledStep(zero, ops, n, k);
    }
  }

  lemma {:induction false} RedoubledStep<T>(zero: T, ops: seq<Op<T>>, n: nat, k: string)
    requires |ops| == n + 1
    ensures forall i: nat | i < n ::
              Redoubled(zero, ops, i, k) <==> Redoubled(zero, ops[..n], i, k) && !Undoubles(ops[n], k)
    ensures Redoubled(zero, ops, n, k) <==>
            && ops[n].Put? && ops[n].key == k && k != ""
            && k in After(zero, ops[..n]).entries && !Extended(After(zero, ops[..n]).entries, k)
  {
    var was := ops[..n];
    forall i: nat | i < n ensures Redoubled(zero, ops, i, k) <==> Redoubled(zero, was, i, k) && !Undoubles(ops[n], k) {
      assert was[..i] == ops[..i] && was[i] == ops[i];
      assert forall j | i < j < n :: was[j] == ops[j];
    }
  }

  // After any run, erasing a present key leaves it in place exactly when it is redoubled.
  lemma {:induction false} EraseRemovesIff<T>(zero: T, ops: seq<Op<T>>, k: string)
    requires k in After(zero, ops).entries
    ensures k !in After(zero, ops + [Del(k)]).entries <==> !exists i :: Redoubled(zero, ops, i, k)
    ensures forall j | j != k :: j in After(zero, ops + [Del(k)]).entries <==> j in After(zero, ops).entries
  {
    assert (ops + [Del(k)])[..|ops|] == ops;
    DoubledMeans(zero, ops, k);
  }

  // The counter is the number of stored keys less the erases that left their key, modulo 2^64.
  lemma {:induction false} SizeDrift<T>(zero: T, ops: seq<Op<T>>)
    ensures var m := After(zero, ops);
            m.size < SIZE_WRAP && exists c :: m.size + m.kept == Wrapped(|m.entries|, c)
  {
    if ops == [] {
      assert Wrapped(|After(zero, ops).entries|, 0) == 0;
    } else {
      var was, op := ops[..|ops| - 1], ops[|ops| - 1];
      SizeDrift(zero, was);
      SizeStep(zero, After(zero, was), op);
    }
  }

  // n plus c turns of the counter.
  ghost function Wrapped(n: int, c: int): int { n + c * SIZE_WRAP }

  lemma {:induction false} SizeStep<T>(zero: T, m: Model<T>, op: Op<T>)
    requires m.size < SIZE_WRAP && exists c :: m.size + m.kept == Wrapped(|m.entries|, c)
    ensures var m' := Step(zero, m, op);
            m'.size < SIZE_WRAP && exists c :: m'.size + m'.kept == Wrapped(|m'.entries|, c)
  {
    var m' := Step(zero, m, op);
    var c :| m.size + m.kept == Wrapped(|m.entries|, c);
    EntriesSize(zero, m, op);
    var c' := if m'.size == m.size + 1 || m'.size == m.size || m'.size == m.size - 1 then c
              else if op.Put? then c - 1 else c + 1;
    assert m'.size + m'.kept == Wrapped(|m'.entries|, c');
  }

  lemma {:induction false} EntriesSize<T>(zero: T, m: Model<T>, op: Op<T>)
    ensures |Step(zero, m, op).entries| - |m.entries| ==
            if op.Put? && op.key !in m.entries then 1
            else if op.Del? && op.key in m.entries && op.key !in m.doubled then -1
            else 0
  {
    DropSize(m.entries, op.key);
    if op.key in m.entries { assert m.entries[op.key := zero].Keys == m.entries.Keys; }
  }

  lemma {:induction false} DropSize<T>(m: map<string, T>, k: string)
    ensures |m - {k}| == if k in m then |m| - 1 else |m|
  {
    assert (m - {k}).Keys == m.Keys - {k};
    if k !in m { assert m - {k} == m; }
  }

  // ----- disciplined runs -----

  function Fold<T>(ops: seq<Op<T>>): map<string, T>
  {
    if ops == [] then map[]
    else
      var m, op := Fold(ops[..|ops| - 1]), ops[|ops| - 1];
      match op
      case Put(k, v) => m[k := v]
      case Del(k) => m - {k}
  }

  // A key is inserted only while absent.
  predicate Disciplined<T>(ops: seq<Op<T>>)
  {
    forall i | 0 <= i < |ops| && ops[i].Put? :: ops[i].key !in Fold(ops[..i])
  }

  // Then the tree is exactly the map built by the same operations: no key is ever doubled.
  lemma {:induction false} DisciplinedIsMap<T>(zero: T, ops: seq<Op<T>>)
    requires Disciplined(ops)
    ensures var m := After(zero, ops);
            m.entries == Fold(ops) && m.doubled == {} && m.kept == 0
  {
    if ops != [] {
      var n := |ops| - 1;
      assert forall i | 0 <= i < n :: ops[..n][i] == ops[i] && ops[..n][..i] == ops[..i];
      DisciplinedIsMap(zero, ops[..n]);
      var m := After(zero, ops[..n]);
      if ops[n].Del? && ops[n].key !in m.entries { assert m.entries - {ops[n].key} == m.entries; }
    }
  }

  lemma {:induction false} DisciplinedSize<T>(zero: T, ops: seq<Op<T>>)
    requires Disciplined(ops) && |Fold(ops)| < SIZE_WRAP
    ensures After(zero, ops).size == |Fold(ops)|
  {
    SizeDrift(zero, ops);
    DisciplinedIsMap(zero, ops);
    var m := After(zero, ops);
    var c :| m.size + m.kept == Wrapped(|m.entries|, c);
    NoTurn(m.size, |Fold(ops)|, c);
  }

  lemma {:induction false} NoTurn(size: nat, n: nat, c: int)
    requires size < SIZE_WRAP && n < SIZE_WRAP && size == Wrapped(n, c)
    ensures size == n
  {
    assert c > 0 ==> c * SIZE_WRAP >= SIZE_WRAP;
    assert c < 0 ==> c * SIZE_WRAP + SIZE_WRAP <= 0;
  }

  // Inserting a key twice and erasing it leaves it stored with the default value, and size() 0.
  lemma {:induction false} ReinsertedKeySurvivesErase<T>(zero: T, v: T, w: T)
    ensures var m := After(zero, [Put("a", v), Put("a", w), Del("a")]);
            m.entries == map["a" := zero] && m.size == 0 && m.kept == 1
  {
    var one, two, all := [Put("a", v)], [Put("a", v), Put("a", w)], [Put("a", v), Put("a", w), Del("a")];
    assert one[..0] == [] && two[..1] == one && all[..2] == two;
    assert After(zero, one) == Step(zero, After(zero, []), Put("a", v));
    assert After(zero, one).entries == map["a" := v] && After(zero, one).size == 1;
    assert After(zero, two) == Step(zero, After(zero, one), Put("a", w));
  }

  // Erasing the empty key from an emptied tree is such a crash.
  lemma {:induction false} DrainedEraseCrashes<T>(zero: T, v: T)
    ensures var m := After(zero, [Put("a", v), Del("a")]);
            m.entries == map[] && Crashes(m, Del("")) && !Crashes(After(zero, []), Del(""))
  {
    var one, two := [Put("a", v)], [Put("a", v), Del("a")];
    assert one[..0] == [] && two[..1] == one;
    assert After(zero, one) == Step(zero, After(zero, []), Put("a", v));
    assert After(zero, one).entries == map["a" := v] && After(zero, one).doubled == {};
    assert After(zero, two) == Step(zero, After(zero, one), Del("a"));
    assert After(zero, two).entries == map[];
  }
}
