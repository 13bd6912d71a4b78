/** The mutex-guarded deque of the thread pool (thread_safe_queue.h).  Each method holds the lock
  * for its whole body, so one call is one atomic step. */
module SafeQueues {

  import opened Options

  ghost predicate Permuted<A>(s: seq<A>, s': seq<A>)
  {
    multiset(s) == multiset(s')
  }

  // The position std::find stops at: the first occurrence, or the end.
  function FirstOf<A(==)>(s: seq<A>, x: A): (i: nat)
    ensures i <= |s| && x !in s[..i] && (i < |s| ==> s[i] == x)
  {
    if s == [] || s[0] == x then 0
    else
      var j := FirstOf(s[1..], x);
      assert s[..j + 1] == [s[0]] + s[1..][..j];
      j + 1
  }

  // rotate_to_front on values: the first occurrence of x, if any, moves to the front.
  function RotatedToFront<A(==)>(s: seq<A>, x: A): seq<A>
  {
    var i := FirstOf(s, x);
    [x] + if i < |s| then s[..i] + s[i + 1..] else s
  }

  function RotatedToBack<A>(s: seq<A>): seq<A>
    requires s != []
  {
    s[1..] + [s[0]]
  }

  lemma {:induction false} RotatedToFrontPermutes<A>(s: seq<A>, x: A)
    requires x in s
    ensures Permuted(s, RotatedToFront(s, x)) && RotatedToFront(s, x)[0] == x
  {
    var i := FirstOf(s, x);
    assert s[..|s|] == s;
    assert i < |s|;
    assert s == s[..i] + [x] + s[i + 1..];
  }

  lemma {:induction false} RotatedElements<A>(s: seq<A>, x: A)
    ensures forall y | y in RotatedToFront(s, x) :: y == x || y in s
  {
    var i := FirstOf(s, x);
    if i < |s| {
      forall y | y in s[..i] + s[i + 1..] ensures y in s {
        if y in s[..i] { assert y in s; } else { assert y in s[i + 1..]; }
      }
    }
  }

  lemma {:induction false} RotatedToBackPermutes<A>(s: seq<A>)
    requires s != []
    ensures Permuted(s, RotatedToBack(s))
  {
    assert s == [s[0]] + s[1..];
  }

  class SafeQueue<T(==)> {
    var data: seq<T>

    constructor ()
      ensures data == []
    {
      data := [];
    }

    method PushBack(value: T)
      modifies this
      ensures data == old(data) + [value]
    {
      data := data + [value];
    }

    method Clear() returns (size: nat)
      modifies this
      ensures data == [] && size == |old(data)|
    {
      size := |data|;
      data := [];
    }

    method PopFront() returns (front: Option<T>)
      modifies this
      ensures old(data) == [] ==> front == None && data == []
      ensures old(data) != [] ==> front.Some? && old(data) == [front.value] + data
    {
      if data == [] {
        return None;
      }
      front := Some(data[0]);
      data := data[1..];
    }

    method Steal() returns (back: Option<T>)
      modifies this
      ensures old(data) == [] ==> back == None && data == []
      ensures old(data) != [] ==> back.Some? && old(data) == data + [back.value]
    {
      if data == [] {
        return None;
      }
      back := Some(data[|data| - 1]);
      data := data[..|data| - 1];
    }

    method RotateToFront(item: T)
      modifies this
      ensures data == RotatedToFront(old(data), item)
      ensures item in old(data) ==> Permuted(old(data), data)
      ensures data[0] == item
    {
      if item in data {
        RotatedToFrontPermutes(data, item);
      }
      var i := 0;
      while i < |data| && data[i] != item
        invariant i <= |data| && item !in data[..i]
      {
        i := i + 1;
      }
      assert i == FirstOf(data, item) by { FirstOfUnique(data, item, i); }
      if i < |data| {
        data := data[..i] + data[i + 1..];
      }
      data := [item] + data;
    }

    method CopyFrontAndRotateToBack() returns (front: Option<T>)
      modifies this
      ensures old(data) == [] ==> front == None && data == []
      ensures old(data) != [] ==> front == Some(old(data)[0]) && data == RotatedToBack(old(data))
      ensures old(data) != [] ==> Permuted(old(data), data)
    {
      if data == [] {
        return None;
      }
      RotatedToBackPermutes(data);
      front := Some(data[0]);
      data := data[1..];
      data := data + [front.value];
    }
  }

  lemma {:induction false} FirstOfUnique<A>(s: seq<A>, x: A, i: nat)
    requires i <= |s| && x !in s[..i] && (i < |s| ==> s[i] == x)
    ensures i == FirstOf(s, x)
  {
    var j := FirstOf(s, x);
    forall k | 0 <= k < i ensures s[k] != x { assert s[..i][k] == s[k]; }
    forall k | 0 <= k < j ensures s[k] != x { assert s[..j][k] == s[k]; }
  }
}
