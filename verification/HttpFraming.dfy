/** HTTP request framing (HttpConnection.cpp, OnReadable): requests are cut off the read buffer at
  * the first blank line plus Content-Length (section 6.2 of RFC 9112), at most one per readable
  * event. */
module HttpFraming {
  import opened Sizes
  import opened Sequences
  import opened Options
  import opened Text
  import opened Streams

  const BLANK_LINE: string := "\r\n\r\n"
  const CONTENT_LENGTH: string := "Content-Length:"
  const CONTENT_LENGTH_LOWER: string := "content-length:"


  // size_t arithmetic: n modulo 2^64.
  function Wrap(n: nat): nat
  {
    if n < SIZE_WRAP then n else n % SIZE_WRAP
  }

  // find_first_not_of(" \t", start)
  function SkipBlanks(s: string, start: nat): (r: Option<nat>)
    ensures r.Some? ==> start <= r.value < |s|
    decreases |s| - start
  {
    if start >= |s| then None
    else if s[start] == ' ' || s[start] == '\t' then SkipBlanks(s, start + 1)
    else Some(start)
  }

  // std::from_chars into a size_t: leading digits; left at 0 when there are none or too many.
  function FromChars(s: string): (r: nat)
    ensures r < SIZE_WRAP
  {
    var n := DigitRun(s);
    if n == 0 || NatValue(s[..n]) >= SIZE_WRAP then 0 else NatValue(s[..n])
  }

  // The Content-Length of a header section: Some(0) when absent; None when the value is missing
  // up to the end of the section, where substr throws.
  function ContentLength(header: string): (r: Option<nat>)
    ensures r.Some? ==> r.value < SIZE_WRAP
  {
    match NameAt(header)
    case None => Some(0)
    case Some(i) => LengthAt(header, i)
  }

  // The capitalised name, or else the lower-case one.
  function NameAt(header: string): Option<nat>
  {
    match Find(header, CONTENT_LENGTH, 0)
    case Some(i) => Some(i)
    case None => Find(header, CONTENT_LENGTH_LOWER, 0)
  }

  // The value behind the name at i.
  function LengthAt(header: string, i: nat): (r: Option<nat>)
    ensures r.Some? ==> r.value < SIZE_WRAP
  {
    match SkipBlanks(header, i + 15)
    case None => None
    case Some(v) => Some(FromChars(match Find(header, CRLF, v) case None => header[v..] case Some(e) => header[v..e]))
  }

  // The first complete request of a buffer.  The sum wraps like size_t.
  function NextRequest(buffer: string): Cut<string>
  {
    match Find(buffer, BLANK_LINE, 0)
    case None => More
    case Some(end) => CutAt(buffer, end, ContentLength(buffer[..end]))
  }

  function CutAt(buffer: string, end: nat, length: Option<nat>): (r: Cut<string>)
    ensures r.Item? ==> r.size <= |buffer| && r.value == buffer[..r.size]
  {
    match length
    case None => Fail
    case Some(len) =>
      var n := Wrap(end + 4 + len);
      if |buffer| < n then More else Item(buffer[..n], n)
  }

  // ----- later bytes change nothing -----

  lemma {:induction false} FindExtends(a: string, b: string, pat: string)
    requires Find(a, pat, 0).Some?
    ensures Find(a + b, pat, 0) == Find(a, pat, 0)
  {
    var k := Find(a, pat, 0).value;
    FindSkips(a, pat, 0);
    assert (a + b)[k..k + |pat|] == a[k..k + |pat|];
    forall j | 0 <= j < k ensures !OccursAt(a + b, pat, j) {
      assert !OccursAt(a, pat, j);
      assert (a + b)[j..j + |pat|] == a[j..j + |pat|];
    }
    FindFirst(a + b, pat, 0, k);
  }

  lemma {:induction false} NextRequestExtends(a: string, b: string)
    requires !NextRequest(a).More?
    ensures NextRequest(a + b) == NextRequest(a)
  {
    FindExtends(a, b, BLANK_LINE);
    var end := Find(a, BLANK_LINE, 0).value;
    assert (a + b)[..end] == a[..end];
    CutExtends(a, b, end, ContentLength(a[..end]));
  }

  lemma {:induction false} CutExtends(a: string, b: string, end: nat, length: Option<nat>)
    requires !CutAt(a, end, length).More?
    ensures CutAt(a + b, end, length) == CutAt(a, end, length)
  {
    if length.Some? {
      var n := Wrap(end + 4 + length.value);
      assert (a + b)[..n] == a[..n];
    }
  }

  lemma {:induction false} NextRequestStable()
    ensures Stable(NextRequest)
  {
    forall a, b | !NextRequest(a).More? ensures NextRequest(a + b) == NextRequest(a) {
      NextRequestExtends(a, b);
    }
  }

  // ----- the connection -----

  class HttpConnection {
    var readBuffer: string
    ghost const cut: Cutter<char, string>  // what phase 2 of OnReadable computes
    ghost var received: string           // everything recv returned
    ghost var extracted: seq<string>     // requests handed on

    // The extracted requests are the sequential decoding of the stream so far, and the buffer is
    // exactly what follows them.
    ghost predicate Valid()
      reads this
    {
      && Stable(cut)
      && (forall s {:trigger NextRequest(s)} :: cut(s) == NextRequest(s))
      && Taken(cut, received, extracted, readBuffer)
    }

    constructor ()
      ensures Valid() && received == [] && extracted == [] && cut == NextRequest
    {
      readBuffer, received, extracted, cut := [], [], [], NextRequest;
      new;
      NextRequestStable();
    }

    ghost function View(): Reader<char, string>
      reads this
    {
      Reader(received, extracted, readBuffer)
    }

    // OnReadable: drain the socket; then, if the read ended with EAGAIN, hand on the first
    // complete request, if there is one.  A complete request is left behind exactly when the
    // buffer held two.
    method OnReadable(chunks: seq<string>, end: ReadEnd) returns (request: Option<string>, threw: bool)
      requires Valid()
      modifies this
      ensures Valid() && received == old(received) + Concat(chunks)
      ensures extracted == old(extracted) + if request.Some? then [request.value] else []
      ensures end == WouldBlock ==> View() == Event(cut, old(View()), Concat(chunks))
      ensures end == WouldBlock ==>
                var b := old(readBuffer) + Concat(chunks);
                && (request.Some? <==> cut(b).Item?) && (threw <==> cut(b).Fail?)
                && (cut(readBuffer).Item? <==> TwoComplete(cut, b))
      ensures end != WouldBlock ==> request == None && !threw && readBuffer == old(readBuffer) + Concat(chunks)
    {
      TakenMore(cut, received, extracted, readBuffer, Concat(chunks));
      readBuffer := Gather(readBuffer, chunks);
      received := received + Concat(chunks);
      request, threw := None, false;
      if end == WouldBlock {
        var r := NextRequest(readBuffer);
        assert cut(readBuffer) == r;
        threw := r.Fail?;
        if r.Item? {
          TakenNext(cut, received, extracted, readBuffer);
          extracted := extracted + [r.value];
          readBuffer := readBuffer[r.size..];
          request := Some(r.value);
        }
      }
    }
  }

  // Received bytes are the extracted requests followed by the buffer.
  lemma {:induction false} NothingLost(received: string, extracted: seq<string>, buffer: string)
    requires Taken(NextRequest, received, extracted, buffer)
    ensures received == Concat(extracted) + buffer
  {
    TakenConserves(NextRequest, received, extracted, buffer);
  }

  lemma {:induction false} NextRequestFits()
    ensures Fits(NextRequest) && !NextRequest("").Item?
  {
  }

  // Over any run of EAGAIN events, the requests handed on are after every event all that the
  // bytes received hold, exactly when no event found two complete requests in the buffer.
  lemma {:induction false} PipeliningIff(arrivals: seq<string>)
    ensures (forall k | 0 <= k <= |arrivals| :: KeptUp(NextRequest, arrivals, k)) <==>
            (forall k | 0 <= k < |arrivals| :: !FoundTwo(NextRequest, arrivals, k))
  {
    NextRequestStable();
    NextRequestFits();
    KeepsUpIff(NextRequest, arrivals);
  }

  // The requests left behind are handed on one per event, and need as many events as they are.
  lemma {:induction false} BacklogDrains(r: Reader<char, string>, requests: seq<string>, rest: string, k: nat)
    ensures Backlog(r.buffer, requests, rest) ==>
              var q, m := Quiet(NextRequest, r, k), if k < |requests| then k else |requests|;
              && q.items == r.items + requests[..m] && Backlog(q.buffer, requests[m..], rest)
              && (NextRequest(q.buffer).Item? <==> k < |requests|)
  {
    if Backlog(r.buffer, requests, rest) {
      DrainsOnePerEvent(NextRequest, r, requests, rest, k);
    }
  }

  // The buffer holds exactly these requests, and then no complete one.
  ghost predicate Backlog(buffer: string, requests: seq<string>, rest: string)
  {
    Taken(NextRequest, buffer, requests, rest) && !NextRequest(rest).Item?
  }

  // Two pipelined requests that arrive in one read: the event hands on the first only.
  lemma {:induction false} PipelinedSecondWaits(first: string, second: string)
    requires NextRequest(first) == Item(first, |first|) && NextRequest(second).Item?
    ensures NextRequest(first + second) == Item(first, |first|) && TwoComplete(NextRequest, first + second)
  {
    NextRequestExtends(first, second);
    assert (first + second)[|first|..] == second;
  }

  // Such requests exist: the shortest is a blank line alone.
  lemma {:induction false} BlankLineIsRequest()
    ensures NextRequest(BLANK_LINE) == Item(BLANK_LINE, 4)
  {
    assert BLANK_LINE[0..4] == BLANK_LINE && OccursAt(BLANK_LINE, BLANK_LINE, 0);
    FindFirst(BLANK_LINE, BLANK_LINE, 0, 0);
    assert BLANK_LINE[..0] == "";
    FindNone("", CONTENT_LENGTH, 0);
    FindNone("", CONTENT_LENGTH_LOWER, 0);
    assert BLANK_LINE[..4] == BLANK_LINE;
  }

  // ----- requests as a client writes them -----

  // The first blank line ends the header section.
  ghost predicate HeaderSection(h: string)
  {
    forall j | 0 <= j < |h| :: !OccursAt(h + BLANK_LINE, BLANK_LINE, j)
  }

  // A request with a true Content-Length is cut off exactly, whatever follows it.
  lemma {:induction false} RequestReads(h: string, body: string, rest: string)
    requires HeaderSection(h) && ContentLength(h) == Some(|body|) && |h| + 4 + |body| < SIZE_WRAP
    ensures NextRequest(h + BLANK_LINE + body + rest) == Item(h + BLANK_LINE + body, |h| + 4 + |body|)
  {
    HeaderEnds(h, body + rest);
    RequestSlices(h, body, rest);
    NextRequestIs(h + BLANK_LINE + (body + rest), |h|, |body|);
    WholeCut(h + BLANK_LINE + (body + rest), |h|, |body|);
    Assoc(h + BLANK_LINE, body, rest);
  }

  lemma {:induction false} NextRequestIs(all: string, end: nat, len: nat)
    requires end <= |all|
    ensures Find(all, BLANK_LINE, 0) == Some(end) && ContentLength(all[..end]) == Some(len) ==>
              NextRequest(all) == CutAt(all, end, Some(len))
  {
  }

  lemma {:induction false} WholeCut(all: string, end: nat, len: nat)
    requires end + 4 + len <= |all| && end + 4 + len < SIZE_WRAP
    ensures CutAt(all, end, Some(len)) == Item(all[..end + 4 + len], end + 4 + len)
  {
  }

  lemma {:induction false} HeaderEnds(h: string, more: string)
    requires HeaderSection(h)
    ensures Find(h + BLANK_LINE + more, BLANK_LINE, 0) == Some(|h|)
  {
    var head := h + BLANK_LINE;
    assert head[|h|..|h| + 4] == BLANK_LINE;
    FindFirst(head, BLANK_LINE, 0, |h|);
    FindExtends(head, more, BLANK_LINE);
  }

  lemma {:induction false} RequestSlices(h: string, body: string, rest: string)
    ensures var all := h + BLANK_LINE + (body + rest);
            all[..|h|] == h && all[..|h| + 4 + |body|] == h + BLANK_LINE + body
  {
  }

  // A header section without either spelling of the name: the request ends at the blank line.
  lemma {:induction false} PlainRequestReads(h: string, rest: string)
    requires forall j | 0 <= j < |h| :: !OccursAt(h + "\r\n\r\n", "\r\n\r\n", j)
    requires forall j | 0 <= j < |h| :: !OccursAt(h, "Content-Length:", j) && !OccursAt(h, "content-length:", j)
    requires |h| + 4 < SIZE_WRAP
    ensures NextRequest(h + "\r\n\r\n" + rest) == Item(h + "\r\n\r\n", |h| + 4)
  {
    assert |CONTENT_LENGTH| == 15 && |CONTENT_LENGTH_LOWER| == 15;
    FindNone(h, CONTENT_LENGTH, 0);
    FindNone(h, CONTENT_LENGTH_LOWER, 0);
    RequestReads(h, "", rest);
    assert h + BLANK_LINE + "" == h + BLANK_LINE;
  }

  predicate AllBlank(s: string)
  {
    forall i | 0 <= i < |s| :: s[i] == ' ' || s[i] == '\t'
  }

  // A length header after other headers: the name, blanks and tabs or none, and the number.
  function LengthHeader(before: string, name: string, blanks: string, n: nat, after: string): string
  {
    before + name + blanks + NatText(n) + after
  }

  // It is read as n, whatever the blanks, provided a line end or nothing follows the number, and
  // it is the first occurrence of the capitalised name, or of the lower-case name in a section
  // without the capitalised one.
  lemma {:induction false} LengthHeaderReads(before: string, name: string, blanks: string, n: nat, after: string)
    requires n < SIZE_WRAP && (after == "" || after[0] == '\r') && AllBlank(blanks)
    requires name == "Content-Length:" || name == "content-length:"
    requires var h := LengthHeader(before, name, blanks, n, after);
             && (forall j | 0 <= j < |before| :: !OccursAt(h, name, j))
             && (name == "content-length:" ==> forall j | 0 <= j < |h| :: !OccursAt(h, "Content-Length:", j))
    ensures ContentLength(LengthHeader(before, name, blanks, n, after)) == Some(n)
  {
    LengthHeaderIs(before, name, blanks, n, after);
    var h, i, v := LengthHeader(before, name, blanks, n, after), |before|, |before| + 15 + |blanks|;
    assert |CONTENT_LENGTH| == 15 && |CONTENT_LENGTH_LOWER| == 15 && |name| == 15;
    HeaderPlaces(before, name, blanks, NatText(n) + after, h);
    FindFirst(h, name, 0, i);
    if name == CONTENT_LENGTH_LOWER { FindNone(h, CONTENT_LENGTH, 0); }
    assert NatText(n)[0] in NatText(n) && h[v] == NatText(n)[0];
    BlanksSkipped(h, i + 15, v);
    ValueReads(h, v, n, after);
    NameIs(h, i);
  }

  lemma {:induction false} LengthHeaderIs(before: string, name: string, blanks: string, n: nat, after: string)
    ensures LengthHeader(before, name, blanks, n, after) == before + name + blanks + (NatText(n) + after)
  {
    Assoc(before + name + blanks, NatText(n), after);
  }

  // Where the parts of the header are.
  lemma {:induction false} HeaderPlaces(before: string, name: string, blanks: string, tail: string, h: string)
    requires |name| == 15 && h == before + name + blanks + tail
    ensures OccursAt(h, name, |before|)
    ensures |h| == |before| + 15 + |blanks| + |tail| && h[|before| + 15 + |blanks|..] == tail
    ensures forall j | |before| + 15 <= j < |before| + 15 + |blanks| :: h[j] == blanks[j - (|before| + 15)]
  {
    Inside(before, name, blanks + tail);
    Assoc(before + name, blanks, tail);
  }

  lemma {:induction false} NameIs(h: string, i: nat)
    requires Find(h, CONTENT_LENGTH, 0) == Some(i) ||
             (Find(h, CONTENT_LENGTH, 0) == None && Find(h, CONTENT_LENGTH_LOWER, 0) == Some(i))
    ensures NameAt(h) == Some(i)
  {
  }

  lemma {:induction false} Inside(a: string, b: string, c: string)
    ensures OccursAt(a + b + c, b, |a|)
  {
  }

  lemma {:induction false} BlanksSkipped(s: string, i: nat, v: nat)
    requires i <= v < |s| && s[v] != ' ' && s[v] != '\t' && forall j | i <= j < v :: s[j] == ' ' || s[j] == '\t'
    ensures SkipBlanks(s, i) == Some(v)
    decreases v - i
  {
    if i < v { BlanksSkipped(s, i + 1, v); }
  }

  // A value that does not begin with a digit counts as 0, and so does one of 2^64 or more; a
  // section that ends in blanks after the name makes substr throw.
  lemma {:induction false} OddValues(h: string, i: nat, v: nat)
    requires Find(h, "Content-Length:", 0) == Some(i) && i + 15 <= v <= |h|
    requires forall j | i + 15 <= j < v :: h[j] == ' ' || h[j] == '\t'
    ensures v == |h| ==> ContentLength(h) == None
    ensures v < |h| && h[v] != ' ' && h[v] != '\t' && !('0' <= h[v] <= '9') ==> ContentLength(h) == Some(0)
  {
    if v == |h| {
      NothingToSkip(h, i + 15);
    } else if h[v] != ' ' && h[v] != '\t' {
      BlanksSkipped(h, i + 15, v);
    }
  }

  lemma {:induction false} NothingToSkip(s: string, i: nat)
    requires i <= |s| && forall j | i <= j < |s| :: s[j] == ' ' || s[j] == '\t'
    ensures SkipBlanks(s, i) == None
    decreases |s| - i
  {
    if i < |s| { NothingToSkip(s, i + 1); }
  }

  lemma {:induction false} HugeValue(n: nat, after: string)
    requires n >= SIZE_WRAP && (after == "" || !IsDigit(after[0]))
    ensures FromChars(NatText(n) + after) == 0
  {
    DigitRunIs(NatText(n), after);
    NatTextValue(n);
    assert (NatText(n) + after)[..|NatText(n)|] == NatText(n);
  }

  lemma {:induction false} ValueReads(h: string, v: nat, n: nat, after: string)
    requires v <= |h| && h[v..] == NatText(n) + after && n < SIZE_WRAP && (after == "" || after[0] == '\r')
    ensures FromChars(match Find(h, CRLF, v) case None => h[v..] case Some(e) => h[v..e]) == n
  {
    var ds := NatText(n);
    match Find(h, CRLF, v) {
      case None =>
        FromCharsReads(n, after);
      case Some(e) =>
        forall j | v <= j < v + |ds| ensures h[j] != '\r' {
          assert h[j] == h[v..][j - v] == ds[j - v] && ds[j - v] in ds;
        }
        assert h[e..e + 2][0] == h[e];
        assert e >= v + |ds|;
        var tail := after[..e - v - |ds|];
        ValueSlice(h, v, e, ds, after);
        FromCharsReads(n, tail);
    }
  }

  lemma {:induction false} ValueSlice(h: string, v: nat, e: nat, ds: string, after: string)
    requires v + |ds| <= e <= |h| && h[v..] == ds + after
    ensures e - v - |ds| <= |after| && h[v..e] == ds + after[..e - v - |ds|]
  {
    assert h[v..e] == h[v..][..e - v];
    assert (ds + after)[..e - v] == ds + after[..e - v - |ds|];
  }

  lemma {:induction false} FromCharsReads(n: nat, after: string)
    requires n < SIZE_WRAP && (after == "" || after[0] == '\r')
    ensures FromChars(NatText(n) + after) == n
  {
    DigitRunIs(NatText(n), after);
    NatTextValue(n);
    assert (NatText(n) + after)[..|NatText(n)|] == NatText(n);
  }

  // ----- lengths near 2^64 -----

  // The cut covers the header block exactly when the sum of the sizes does not wrap; when it
  // does wrap, the request is cut off inside its own header block.
  lemma {:induction false} CutCoversHeadersIff(buffer: string, end: nat, len: nat)
    requires |buffer| < SIZE_WRAP && end + 4 <= |buffer|
    ensures Find(buffer, BLANK_LINE, 0) == Some(end) && ContentLength(buffer[..end]) == Some(len) ==>
              var r := NextRequest(buffer);
              && (r.Item? ==> (r.size >= end + 4 <==> end + 4 + len < SIZE_WRAP))
              && (end + 4 + len >= SIZE_WRAP ==> r.Item?)
  {
    if Find(buffer, BLANK_LINE, 0) == Some(end) && ContentLength(buffer[..end]) == Some(len) {
      NextRequestIs(buffer, end, len);
      WrappedCut(buffer, end, len);
    }
  }

  lemma {:induction false} WrappedCut(buffer: string, end: nat, len: nat)
    requires end + 4 <= |buffer| < SIZE_WRAP && len < SIZE_WRAP
    ensures var r := CutAt(buffer, end, Some(len));
            && (r.Item? ==> (r.size >= end + 4 <==> end + 4 + len < SIZE_WRAP))
            && (end + 4 + len >= SIZE_WRAP ==> r.Item?)
  {
    WrapOnce(end + 4, len);
  }

  lemma {:induction false} WrapOnce(a: nat, b: nat)
    requires a < SIZE_WRAP && b < SIZE_WRAP
    ensures Wrap(a + b) == if a + b < SIZE_WRAP then a + b else a + b - SIZE_WRAP
  {
  }

  const ZERO_LENGTH: nat := SIZE_WRAP - 40

  // A request announcing 2^64 - 40 bytes after 40 bytes of headers is cut off at zero bytes.
  lemma {:induction false} ZeroByteRequest()
    ensures var h := LengthHeader("", CONTENT_LENGTH, " ", ZERO_LENGTH, "");
            NextRequest(h + BLANK_LINE) == Item("", 0)
  {
    var h := LengthHeader("", CONTENT_LENGTH, " ", ZERO_LENGTH, "");
    ZeroHeader(h);
    HeaderEnds(h, "");
    LengthHeaderReads("", CONTENT_LENGTH, " ", ZERO_LENGTH, "");
    var all := h + BLANK_LINE;
    assert all + "" == all && all[..36] == h;
    NextRequestIs(all, 36, ZERO_LENGTH);
    WrapOnce(40, ZERO_LENGTH);
  }

  lemma {:induction false} ZeroHeader(h: string)
    requires h == LengthHeader("", CONTENT_LENGTH, " ", ZERO_LENGTH, "")
    ensures |h| == 36 && HeaderSection(h)
  {
    var ds := NatText(ZERO_LENGTH);
    Pow10Values();
    DigitCount(ZERO_LENGTH, 20);
    assert h == CONTENT_LENGTH + " " + ds && |CONTENT_LENGTH| == 15;
    forall j | 0 <= j < |h| ensures h[j] != '\r' {
      if j >= 16 { assert h[j] == ds[j - 16] && ds[j - 16] in ds; }
    }
    forall j | 0 <= j < |h| ensures !OccursAt(h + BLANK_LINE, BLANK_LINE, j) {
      if j + 4 <= |h + BLANK_LINE| { assert (h + BLANK_LINE)[j..j + 4][0] == h[j]; }
    }
  }
}
