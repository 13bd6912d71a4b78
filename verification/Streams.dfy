/** Cutting a growing byte stream into items, greedily.
  *
  * A cutter looks at a buffer and finds a first item, or needs more input, or fails.  What both
  * the WebSocket and the HTTP reader rely on is that a verdict other than "more" is not changed
  * by bytes that arrive later: then it does not matter how the stream is cut into chunks.
  */
module Streams {
  import opened Sequences

  datatype Cut<+F> = More | Item(value: F, size: nat) | Fail

  type Cutter<!A, +F> = seq<A> -> Cut<F>

  ghost predicate Framing<A(!new), F>(p: Cutter<A, F>)
  {
    && (forall s {:trigger p(s)} | p(s).Item? :: 0 < p(s).size <= |s|)
    && (forall a, b {:trigger p(a + b)} | !p(a).More? :: p(a + b) == p(a))
  }

  datatype Decoded<A, F> = Decoded(items: seq<F>, rest: seq<A>)

  ghost function Decode<A, F>(p: Cutter<A, F>, s: seq<A>): Decoded<A, F>
    decreases |s|
  {
    if p(s).Item? && 0 < p(s).size <= |s| then
      var d := Decode(p, s[p(s).size..]);
      Decoded([p(s).value] + d.items, d.rest)
    else Decoded([], s)
  }

  // Decoding can be interrupted anywhere and resumed with the undecoded rest.
  lemma {:induction false} DecodeResumes<A(!new), F>(p: Cutter<A, F>, a: seq<A>, b: seq<A>)
    requires Framing(p)
    ensures var d := Decode(p, a);
            Decode(p, a + b) == Decoded(d.items + Decode(p, d.rest + b).items, Decode(p, d.rest + b).rest)
    decreases |a|
  {
    if p(a).Item? {
      var n := p(a).size;
      assert p(a + b) == p(a);
      assert (a + b)[n..] == a[n..] + b;
      DecodeResumes(p, a[n..], b);
      var d, e := Decode(p, a[n..]), Decode(p, Decode(p, a[n..]).rest + b);
      Assoc([p(a).value], d.items, e.items);
    } else {
      assert Decode(p, a) == Decoded([], a);
    }
  }

  // Items taken so far plus the decoding of the buffer are the decoding of everything received.
  ghost predicate Reassembled<A, F>(p: Cutter<A, F>, received: seq<A>, items: seq<F>, buffer: seq<A>)
  {
    Decode(p, received) == Decoded(items + Decode(p, buffer).items, Decode(p, buffer).rest)
  }

  lemma {:induction false} ReassembledStart<A(!new), F>(p: Cutter<A, F>)
    requires Framing(p)
    ensures Reassembled(p, [], [], [])
  {
    assert !p([]).Item?;
  }

  // More input arrives: what was taken stays right.
  lemma {:induction false} ReassembledMore<A(!new), F>(p: Cutter<A, F>, received: seq<A>, items: seq<F>,
      buffer: seq<A>, more: seq<A>)
    requires Framing(p) && Reassembled(p, received, items, buffer)
    ensures Reassembled(p, received + more, items, buffer + more)
  {
    DecodeResumes(p, received, more);
    DecodeResumes(p, buffer, more);
    var d := Decode(p, buffer);
    var e := Decode(p, d.rest + more);
    Assoc(items, d.items, e.items);
  }

  // The first item of the buffer is taken.
  lemma {:induction false} ReassembledTake<A(!new), F>(p: Cutter<A, F>, received: seq<A>, items: seq<F>, buffer: seq<A>)
    requires Framing(p) && Reassembled(p, received, items, buffer) && p(buffer).Item?
    ensures 0 < p(buffer).size <= |buffer|
    ensures Reassembled(p, received, items + [p(buffer).value], buffer[p(buffer).size..])
  {
    var d := Decode(p, buffer[p(buffer).size..]);
    Assoc(items, [p(buffer).value], d.items);
  }

  // Nothing more can be taken: the items are the whole decoding.
  lemma {:induction false} ReassembledDone<A, F>(p: Cutter<A, F>, received: seq<A>, items: seq<F>, buffer: seq<A>)
    requires Reassembled(p, received, items, buffer) && !p(buffer).Item?
    ensures Decode(p, received) == Decoded(items, buffer)
  {
    assert items + [] == items;
  }

  // What is left over is not itself decodable.
  lemma {:induction false} DecodeRest<A, F>(p: Cutter<A, F>, s: seq<A>)
    ensures Decode(p, Decode(p, s).rest) == Decoded([], Decode(p, s).rest)
    decreases |s|
  {
    if p(s).Item? && 0 < p(s).size <= |s| {
      DecodeRest(p, s[p(s).size..]);
    }
  }

  ghost function Concat<A>(chunks: seq<seq<A>>): seq<A>
  {
    if chunks == [] then [] else chunks[0] + Concat(chunks[1..])
  }

  lemma {:induction false} ConcatAppend<A>(chunks: seq<seq<A>>, c: seq<A>)
    ensures Concat(chunks + [c]) == Concat(chunks) + c
  {
    if chunks == [] {
      assert (chunks + [c])[1..] == [];
    } else {
      ConcatAppend(chunks[1..], c);
      assert (chunks + [c])[1..] == chunks[1..] + [c];
    }
  }

  // How a run of recv calls ends: EAGAIN, end of file, or another error.
  datatype ReadEnd = WouldBlock | PeerClosed | ReadError

  // The recv loop of both connections: append chunk after chunk.
  method Gather<A>(buffer: seq<A>, chunks: seq<seq<A>>) returns (got: seq<A>)
    ensures got == buffer + Concat(chunks)
  {
    got := buffer;
    for i := 0 to |chunks|
      invariant got == buffer + Concat(chunks[..i])
    {
      assert chunks[..i + 1] == chunks[..i] + [chunks[i]];
      ConcatAppend(chunks[..i], chunks[i]);
      Assoc(buffer, Concat(chunks[..i]), chunks[i]);
      got := got + chunks[i];
    }
    assert chunks[..|chunks|] == chunks;
  }

  // However a stream is cut, decoding chunk by chunk gives the decoding of the whole.
  ghost function DecodeChunks<A, F>(p: Cutter<A, F>, chunks: seq<seq<A>>): Decoded<A, F>
  {
    if chunks == [] then Decoded([], [])
    else
      var d := DecodeChunks(p, chunks[..|chunks| - 1]);
      var e := Decode(p, d.rest + chunks[|chunks| - 1]);
      Decoded(d.items + e.items, e.rest)
  }

  lemma {:induction false} ChunkingIrrelevant<A(!new), F>(p: Cutter<A, F>, chunks: seq<seq<A>>)
    requires Framing(p)
    ensures DecodeChunks(p, chunks) == Decode(p, Concat(chunks))
  {
    if chunks == [] {
      assert !p([]).Item?;
    } else {
      var before, last := chunks[..|chunks| - 1], chunks[|chunks| - 1];
      ChunkingIrrelevant(p, before);
      assert chunks == before + [last];
      ConcatAppend(before, last);
      DecodeResumes(p, Concat(before), last);
    }
  }

  // ----- decoding what an encoder wrote -----

  ghost function EncodeAll<A, F>(enc: F -> seq<A>, fs: seq<F>): seq<A>
  {
    if fs == [] then [] else enc(fs[0]) + EncodeAll(enc, fs[1..])
  }

  ghost predicate Reads<A(!new), F>(p: Cutter<A, F>, enc: F -> seq<A>, f: F)
  {
    enc(f) != [] && forall rest :: p(enc(f) + rest) == Item(f, |enc(f)|)
  }

  lemma {:induction false} DecodeEncoded<A(!new), F>(p: Cutter<A, F>, enc: F -> seq<A>, fs: seq<F>, rest: seq<A>)
    requires forall f | f in fs :: Reads(p, enc, f)
    ensures Decode(p, EncodeAll(enc, fs) + rest) == Decoded(fs + Decode(p, rest).items, Decode(p, rest).rest)
  {
    if fs == [] {
      assert EncodeAll(enc, fs) + rest == rest;
    } else {
      var one, more := enc(fs[0]), EncodeAll(enc, fs[1..]);
      Assoc(one, more, rest);
      assert Reads(p, enc, fs[0]);
      DecodeOne(p, one, fs[0], more + rest);
      DecodeEncoded(p, enc, fs[1..], rest);
      Assoc([fs[0]], fs[1..], Decode(p, rest).items);
      assert fs == [fs[0]] + fs[1..];
    }
  }

  lemma {:induction false} DecodeOne<A, F>(p: Cutter<A, F>, one: seq<A>, f: F, more: seq<A>)
    requires one != [] && p(one + more) == Item(f, |one|)
    ensures Decode(p, one + more) == Decoded([f] + Decode(p, more).items, Decode(p, more).rest)
  {
    assert (one + more)[|one|..] == more;
  }

  // ----- taking items one at a time -----

  // The items were cut off the front of the stream, one after the other, leaving rest.  (Items may
  // be empty here.)
  ghost predicate Taken<A, F>(p: Cutter<A, F>, stream: seq<A>, items: seq<F>, rest: seq<A>)
    decreases |items|
  {
    if items == [] then rest == stream
    else p(stream).Item? && p(stream).value == items[0] && p(stream).size <= |stream| &&
         Taken(p, stream[p(stream).size..], items[1..], rest)
  }

  ghost predicate Stable<A(!new), F>(p: Cutter<A, F>)
  {
    forall a, b {:trigger p(a + b)} | !p(a).More? :: p(a + b) == p(a)
  }

  // Later bytes do not change what was taken.
  lemma {:induction false} TakenMore<A(!new), F>(p: Cutter<A, F>, stream: seq<A>, items: seq<F>, rest: seq<A>,
      more: seq<A>)
    requires Stable(p) && Taken(p, stream, items, rest)
    ensures Taken(p, stream + more, items, rest + more)
    decreases |items|
  {
    if items != [] {
      var n := p(stream).size;
      assert p(stream + more) == p(stream);
      assert (stream + more)[n..] == stream[n..] + more;
      TakenMore(p, stream[n..], items[1..], rest, more);
    }
  }

  lemma {:induction false} TakenNext<A, F>(p: Cutter<A, F>, stream: seq<A>, items: seq<F>, rest: seq<A>)
    requires Taken(p, stream, items, rest) && p(rest).Item? && p(rest).size <= |rest|
    ensures Taken(p, stream, items + [p(rest).value], rest[p(rest).size..])
    decreases |items|
  {
    if items == [] {
      assert (items + [p(rest).value])[1..] == [];
    } else {
      TakenNext(p, stream[p(stream).size..], items[1..], rest);
      assert (items + [p(rest).value])[1..] == items[1..] + [p(rest).value];
    }
  }

  // When items are the very bytes cut off, nothing is lost or repeated.
  lemma {:induction false} TakenConserves<A>(p: Cutter<A, seq<A>>, stream: seq<A>, items: seq<seq<A>>, rest: seq<A>)
    requires Taken(p, stream, items, rest)
    requires forall s | p(s).Item? && p(s).size <= |s| :: p(s).value == s[..p(s).size]
    ensures stream == Concat(items) + rest
    decreases |items|
  {
    if items == [] {
      assert Concat(items) + rest == rest;
    } else {
      var n := p(stream).size;
      TakenConserves(p, stream[n..], items[1..], rest);
      Rejoined(stream, n, items[0], Concat(items[1..]), rest);
    }
  }

  lemma {:induction false} Rejoined<A>(s: seq<A>, n: nat, a: seq<A>, b: seq<A>, rest: seq<A>)
    requires n <= |s| && s[..n] == a && s[n..] == b + rest
    ensures s == a + b + rest
  {
    Assoc(a, b, rest);
    assert s == s[..n] + s[n..];
  }

  // ----- a reader that takes at most one item per event -----

  datatype Reader<A, F> = Reader(stream: seq<A>, items: seq<F>, buffer: seq<A>)

  ghost predicate Fits<A(!new), F>(p: Cutter<A, F>)
  {
    forall s {:trigger p(s)} | p(s).Item? :: p(s).size <= |s|
  }

  // An event: bytes arrive, and the first item, if the buffer has one, is cut off.
  ghost function Event<A, F>(p: Cutter<A, F>, r: Reader<A, F>, more: seq<A>): Reader<A, F>
  {
    var b := r.buffer + more;
    if p(b).Item? && p(b).size <= |b| then Reader(r.stream + more, r.items + [p(b).value], b[p(b).size..])
    else Reader(r.stream + more, r.items, b)
  }

  ghost function After<A, F>(p: Cutter<A, F>, arrivals: seq<seq<A>>): Reader<A, F>
  {
    if arrivals == [] then Reader([], [], [])
    else Event(p, After(p, arrivals[..|arrivals| - 1]), arrivals[|arrivals| - 1])
  }

  ghost predicate Follows<A, F>(p: Cutter<A, F>, r: Reader<A, F>)
  {
    Taken(p, r.stream, r.items, r.buffer)
  }

  // The items taken are all that the stream holds.
  ghost predicate CaughtUp<A, F>(p: Cutter<A, F>, r: Reader<A, F>)
  {
    Follows(p, r) && !p(r.buffer).Item?
  }

  ghost predicate TwoComplete<A, F>(p: Cutter<A, F>, b: seq<A>)
  {
    p(b).Item? && p(b).size <= |b| && p(b[p(b).size..]).Item?
  }

  lemma {:induction false} EventFollows<A(!new), F>(p: Cutter<A, F>, r: Reader<A, F>, more: seq<A>)
    requires Stable(p) && Follows(p, r)
    ensures Follows(p, Event(p, r, more))
  {
    var b := r.buffer + more;
    TakenMore(p, r.stream, r.items, r.buffer, more);
    if p(b).Item? && p(b).size <= |b| { TakenNext(p, r.stream + more, r.items, b); }
  }

  lemma {:induction false} EventCatchesUpIff<A(!new), F>(p: Cutter<A, F>, r: Reader<A, F>, more: seq<A>)
    requires Stable(p) && Fits(p) && Follows(p, r)
    ensures CaughtUp(p, Event(p, r, more)) <==> !TwoComplete(p, r.buffer + more)
  {
    EventFollows(p, r, more);
    var b := r.buffer + more;
    assert p(b).Item? ==> p(b).size <= |b|;
  }

  lemma {:induction false} AfterFollows<A(!new), F>(p: Cutter<A, F>, arrivals: seq<seq<A>>)
    requires Stable(p)
    ensures Follows(p, After(p, arrivals)) && After(p, arrivals).stream == Concat(arrivals)
  {
    if arrivals != [] {
      var was, last := arrivals[..|arrivals| - 1], arrivals[|arrivals| - 1];
      AfterFollows(p, was);
      EventFollows(p, After(p, was), last);
      SplitLast(arrivals);
      ConcatAppend(was, last);
    }
  }

  lemma {:induction false} AfterNext<A, F>(p: Cutter<A, F>, arrivals: seq<seq<A>>, k: nat)
    requires k < |arrivals|
    ensures After(p, arrivals[..k + 1]) == Event(p, After(p, arrivals[..k]), arrivals[k])
  {
    assert arrivals[..k + 1][..k] == arrivals[..k];
  }

  // The reader has kept up after every event exactly when no event found two complete items.
  lemma {:induction false} KeepsUpIff<A(!new), F>(p: Cutter<A, F>, arrivals: seq<seq<A>>)
    requires Stable(p) && Fits(p) && !p([]).Item?
    ensures (forall k | 0 <= k <= |arrivals| :: KeptUp(p, arrivals, k)) <==>
            (forall k | 0 <= k < |arrivals| :: !FoundTwo(p, arrivals, k))
  {
    KeptUpStart(p, arrivals);
    forall k | 0 <= k < |arrivals| ensures KeptUp(p, arrivals, k + 1) <==> !FoundTwo(p, arrivals, k) {
      AfterNext(p, arrivals, k);
      AfterFollows(p, arrivals[..k]);
      EventCatchesUpIff(p, After(p, arrivals[..k]), arrivals[k]);
    }
    forall k | 0 < k <= |arrivals| ensures KeptUp(p, arrivals, k) <==> !FoundTwo(p, arrivals, k - 1) {
      assert KeptUp(p, arrivals, k - 1 + 1) <==> !FoundTwo(p, arrivals, k - 1);
    }
  }

  lemma {:induction false} KeptUpStart<A, F>(p: Cutter<A, F>, arrivals: seq<seq<A>>)
    requires !p([]).Item?
    ensures KeptUp(p, arrivals, 0)
  {
    assert arrivals[..0] == [];
  }

  ghost predicate KeptUp<A, F>(p: Cutter<A, F>, arrivals: seq<seq<A>>, k: nat)
  {
    k <= |arrivals| && CaughtUp(p, After(p, arrivals[..k]))
  }

  ghost predicate FoundTwo<A, F>(p: Cutter<A, F>, arrivals: seq<seq<A>>, k: nat)
  {
    k < |arrivals| && TwoComplete(p, After(p, arrivals[..k]).buffer + arrivals[k])
  }

  // Each event shortens the backlog, the items complete in the buffer, by one.
  lemma {:induction false} BacklogStep<A, F>(p: Cutter<A, F>, r: Reader<A, F>, more: seq<A>, items: seq<F>,
      rest: seq<A>)
    requires Taken(p, r.buffer + more, items, rest) && !p(rest).Item?
    ensures var r' := Event(p, r, more);
            if items == [] then r'.items == r.items && r'.buffer == rest
            else r'.items == r.items + [items[0]] && Taken(p, r'.buffer, items[1..], rest)
  {
  }

  // k events without new bytes.
  ghost function Quiet<A, F>(p: Cutter<A, F>, r: Reader<A, F>, k: nat): Reader<A, F>
    decreases k
  {
    if k == 0 then r else Quiet(p, Event(p, r, []), k - 1)
  }

  lemma {:induction false} TakeNext<F>(done: seq<F>, items: seq<F>, m: nat)
    requires 0 < m <= |items|
    ensures done + items[..m] == done + [items[0]] + items[1..][..m - 1] && items[1..][m - 1..] == items[m..]
  {
    assert items[..m] == [items[0]] + items[1..][..m - 1];
    Assoc(done, [items[0]], items[1..][..m - 1]);
  }

  lemma {:induction false} DrainsOnePerEvent<A, F>(p: Cutter<A, F>, r: Reader<A, F>, items: seq<F>, rest: seq<A>,
      k: nat)
    requires Taken(p, r.buffer, items, rest) && !p(rest).Item?
    ensures var m := if k < |items| then k else |items|;
            Quiet(p, r, k).items == r.items + items[..m] && Taken(p, Quiet(p, r, k).buffer, items[m..], rest)
    decreases k
  {
    if k > 0 {
      assert r.buffer + [] == r.buffer;
      BacklogStep(p, r, [], items, rest);
      var r' := Event(p, r, []);
      if items == [] {
        DrainsOnePerEvent(p, r', [], rest, k - 1);
      } else {
        DrainsOnePerEvent(p, r', items[1..], rest, k - 1);
        TakeNext(r.items, items, if k < |items| then k else |items|);
      }
    }
  }
}
