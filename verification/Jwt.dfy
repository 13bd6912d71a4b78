/** JSON web tokens (JsonWebToken.h): the JWS compact form of section 7.1 of RFC 7515 around a
  * hand-built payload, verified by string search.
  *
  * HMAC-SHA256 is any function of key and message; the clock is a parameter.
  */
module Jwt {
  import opened Sequences
  import opened Options
  import opened Bytes
  import opened Text
  import opened Base64

  type Mac = (string, string) -> seq<Byte>

  datatype Claims = Claims(id: int, username: string, exp: int)

  // Verify's optional, plus the exceptions of stoi and stol.
  datatype Outcome = Reject | Throws | Accept(claims: Claims)

  // Strings hold bytes.
  predicate IsBytes(s: string)
  {
    forall c | c in s :: c < 256 as char
  }

  function ToBytes(s: string): (r: seq<Byte>)
    ensures |r| == |s|
  {
    seq(|s|, i requires 0 <= i < |s| => s[i] as int % 256)
  }

  function ToText(b: seq<Byte>): (r: string)
    ensures |r| == |b|
  {
    seq(|b|, i requires 0 <= i < |b| => b[i] as char)
  }

  lemma {:induction false} TextRoundTrip(s: string)
    requires IsBytes(s)
    ensures ToText(ToBytes(s)) == s
  {
    forall i | 0 <= i < |s| ensures ToText(ToBytes(s))[i] == s[i] {
      assert s[i] in s;
    }
  }

  // ----- Create -----

  const HEADER: string := "{\"alg\":\"HS256\",\"typ\":\"JWT\"}"

  // The payload up to the user name, and from there on.
  function Front(id: int): string
  {
    "{\"id\":" + IntText(id) + ",\"username\":\""
  }

  function Back(exp: int): string
  {
    "\",\"exp\":" + IntText(exp) + "}"
  }

  function PayloadJson(id: int, username: string, exp: int): string
  {
    Front(id) + username + Back(exp)
  }

  function SigningInput(id: int, username: string, exp: int): string
  {
    UrlEncode(ToBytes(HEADER)) + "." + UrlEncode(ToBytes(PayloadJson(id, username, exp)))
  }

  function Create(id: int, username: string, secret: string, exp: int, mac: Mac): string
  {
    var input := SigningInput(id, username, exp);
    input + "." + UrlEncode(mac(secret, input))
  }

  // ----- Verify -----

  const ID: string := "\"id\":"
  const USERNAME: string := "\"username\":\""
  const EXP: string := "\"exp\":"
  const QUOTE: string := "\""

  // The minimal JSON extraction and the expiry check.
  function ReadClaims(json: string, now: int): Outcome
  {
    match Find(json, ID, 0)
    case None => Reject
    case Some(i) =>
      match Stoi(json[i + 5..])
      case None => Throws
      case Some(id) =>
        match Find(json, USERNAME, 0)
        case None => Reject
        case Some(u) => ReadExpiry(json, id, ReadName(json, u + 12), now)
  }

  function ReadName(json: string, start: nat): string
    requires start <= |json|
  {
    match Find(json, QUOTE, start)
    case None => json[start..]
    case Some(e) => json[start..e]
  }

  function ReadExpiry(json: string, id: int, username: string, now: int): Outcome
  {
    match Find(json, EXP, 0)
    case None => Reject
    case Some(x) =>
      match Stol(json[x + 6..])
      case None => Throws
      case Some(exp) => if exp < now then Reject else Accept(Claims(id, username, exp))
  }

  // The positions of the dots of a token with exactly two.
  function Dots(token: string): (r: Option<(nat, nat)>)
    ensures r.Some? ==> r.value.0 < r.value.1 < |token|
  {
    match Find(token, ".", 0)
    case None => None
    case Some(dot1) =>
      match Find(token, ".", dot1 + 1)
      case None => None
      case Some(dot2) => if Find(token, ".", dot2 + 1).Some? then None else Some((dot1, dot2))
  }

  function Verify(token: string, secret: string, now: int, mac: Mac): Outcome
  {
    match Dots(token)
    case None => Reject
    case Some(dots) => VerifySplit(token, dots.0, dots.1, secret, now, mac)
  }

  // Verify, once the two dots are found.
  function VerifySplit(token: string, dot1: nat, dot2: nat, secret: string, now: int, mac: Mac): Outcome
    requires dot1 < dot2 < |token|
  {
    var input, signature := token[..dot2], token[dot2 + 1..];
    if signature != UrlEncode(mac(secret, input)) then Reject
    else ReadClaims(ToText(UrlDecode(token[dot1 + 1..dot2])), now)
  }

  // ----- the payload -----

  // A pattern that starts with a quote occurs only at quotes.
  lemma {:induction false} OccursAtQuote(text: string, pat: string, j: nat)
    requires |pat| > 1 && pat[0] == '"'
    ensures OccursAt(text, pat, j) ==> text[j] == '"' && text[j + 1] == pat[1]
  {
    if OccursAt(text, pat, j) {
      assert text[j..j + |pat|][0] == text[j] && text[j..j + |pat|][1] == text[j + 1];
    }
  }

  lemma {:induction false} IntTextClean(n: int)
    ensures |IntText(n)| > 0
    ensures forall i | 0 <= i < |IntText(n)| ::
              IntText(n)[i] != '"' && IntText(n)[i] < 128 as char && IntText(n)[i] != '.'
  {
    var s := IntText(n);
    forall i | 0 <= i < |s| ensures IsDigit(s[i]) || s[i] == '-' {
      if n < 0 {
        assert i > 0 ==> NatText(-n)[i - 1] in NatText(-n);
      } else {
        assert s[i] in s;
      }
    }
  }

  // Where things are in the payload.
  lemma {:induction false} FrontChars(id: int)
    ensures var f, d := Front(id), |IntText(id)|;
            && |f| == d + 19
            && f[0] == '{' && f[1] == '"' && f[2] == 'i' && f[3] == 'd' && f[4] == '"' && f[5] == ':'
            && (forall i | 6 <= i < 6 + d :: f[i] != '"')
            && f[6 + d] == ',' && f[7 + d..] == USERNAME
            && f[1..6] == ID && f[6..6 + d] == IntText(id)
  {
    var a, b, c := "{\"id\":", IntText(id), ",\"username\":\"";
    IntTextClean(id);
    assert Front(id) == a + b + c;
    assert |a| == 6 && |c| == 13;
    forall i | 6 <= i < 6 + |b| ensures Front(id)[i] != '"' { assert Front(id)[i] == b[i - 6]; }
    assert a[1..6] == ID && c[1..] == USERNAME;
    assert Front(id)[7 + |b|..] == c[1..];
    assert Front(id)[1..6] == a[1..6];
  }

  lemma {:induction false} BackChars(exp: int)
    ensures var b := Back(exp);
            && |b| > 9 && b[0] == '"' && b[1] == ',' && b[2..8] == EXP && b[8..] == IntText(exp) + "}"
  {
    var a, c := "\",\"exp\":", IntText(exp);
    IntTextClean(exp);
    assert Back(exp) == a + (c + "}");
    assert |a| == 8 && a[2..8] == EXP;
    assert Back(exp)[2..8] == a[2..8];
  }

  lemma {:induction false} FindId(id: int, rest: string)
    ensures Find(Front(id) + rest, ID, 0) == Some(1)
    ensures (Front(id) + rest)[6..] == IntText(id) + (Front(id)[6 + |IntText(id)|..] + rest)
  {
    FrontChars(id);
    var json, f, d := Front(id) + rest, Front(id), |IntText(id)|;
    assert json[1..6] == f[1..6];
    assert json[0..5][0] == '{' && ID[0] == '"';
    FindFirst(json, ID, 0, 1);
    assert f[6..] == f[6..6 + d] + f[6 + d..];
  }

  lemma {:induction false} FindUsername(id: int, rest: string)
    ensures Find(Front(id) + rest, USERNAME, 0) == Some(|Front(id)| - 12)
  {
    FrontChars(id);
    var json, f, d := Front(id) + rest, Front(id), |IntText(id)|;
    var k := d + 7;
    assert |USERNAME| == 12 && USERNAME[0] == '"' && USERNAME[1] == 'u';
    assert json[k..k + 12] == f[k..];
    forall j | 0 <= j < k ensures !OccursAt(json, USERNAME, j) {
      OccursAtQuote(json, USERNAME, j);
      assert json[j] == f[j] && json[j + 1] == f[j + 1];
    }
    FindFirst(json, USERNAME, 0, k);
  }

  // The user name up to its first quote.
  function CutName(username: string): string
  {
    match Find(username, QUOTE, 0)
    case None => username
    case Some(e) => username[..e]
  }

  lemma {:induction false} QuoteAt(text: string, j: nat)
    ensures OccursAt(text, QUOTE, j) <==> j < |text| && text[j] == '"'
  {
    if j < |text| { assert text[j..j + 1] == [text[j]]; }
  }

  // What is read as the user name is the name up to its first quote.
  lemma {:induction false} NameRead(front: string, username: string, back: string)
    requires back != [] && back[0] == '"'
    ensures ReadName(front + username + back, |front|) == CutName(username)
  {
    var json, n := front + username + back, |front|;
    var e := match Find(username, QUOTE, 0) case None => |username| case Some(e) => e;
    FindSkips(username, QUOTE, 0);
    if e < |username| { QuoteAt(username, e); }
    QuoteAt(json, n + e);
    forall j | n <= j < n + e ensures !OccursAt(json, QUOTE, j) {
      QuoteAt(username, j - n);
      QuoteAt(json, j);
      assert json[j] == username[j - n];
    }
    FindFirst(json, QUOTE, n, n + e);
    assert json[n..n + e] == username[..e];
  }

  lemma {:induction false} CutNameIff(username: string)
    ensures CutName(username) == username <==> '"' !in username
    ensures '"' in username ==> |CutName(username)| < |username|
  {
    FindSkips(username, QUOTE, 0);
    if Find(username, QUOTE, 0).Some? {
      QuoteAt(username, Find(username, QUOTE, 0).value);
      assert username[Find(username, QUOTE, 0).value] in username;
    }
    if '"' in username {
      var q :| 0 <= q < |username| && username[q] == '"';
      QuoteAt(username, q);
    }
  }

  // The first "exp": is in the name, opening quote included, if there is one there; else it is
  // the one Create writes.
  function ExpAt(id: int, username: string): nat
  {
    |Front(id)| - 1 + match Find(QUOTE + username, EXP, 0) case None => |username| + 3 case Some(x) => x
  }

  lemma {:induction false} FindExp(id: int, username: string, exp: int)
    ensures Find(PayloadJson(id, username, exp), EXP, 0) == Some(ExpAt(id, username))
  {
    var f, b, k := Front(id), Back(exp), ExpAt(id, username);
    BackChars(exp);
    ExpOccurs(id, username, b);
    forall j | 0 <= j < k ensures !OccursAt(f + username + b, EXP, j) {
      if j < |f| - 1 {
        NoExpInFront(id, username + b, j);
        Assoc(f, username, b);
      } else {
        NoExpBefore(id, username, b, j);
      }
    }
    FindFirst(f + username + b, EXP, 0, k);
  }

  lemma {:induction false} ExpOccurs(id: int, username: string, b: string)
    requires |b| >= 8 && b[2..8] == EXP
    ensures OccursAt(Front(id) + username + b, EXP, ExpAt(id, username))
  {
    var f, tail := Front(id), QUOTE + username;
    FrontChars(id);
    match Find(tail, EXP, 0)
    case None => SliceAfter(f + username, b, 2, 8);
    case Some(x) =>
      TailSlice(f, username, b, x, x + 6);
  }

  // A slice of the quote and name is one of the payload.
  lemma {:induction false} TailSlice(f: string, username: string, b: string, i: nat, j: nat)
    requires f != [] && f[|f| - 1] == '"' && i <= j <= |username| + 1
    ensures (f + username + b)[|f| - 1 + i..|f| - 1 + j] == (QUOTE + username)[i..j]
  {
    var json, tail := f + username + b, QUOTE + username;
    assert forall x | 0 <= x < |tail| :: json[|f| - 1 + x] == tail[x];
  }

  // Between the quote that opens the name and the place where the name ends, "exp": occurs in
  // the payload only if it occurs in the quote and name: a match that ran into the closing quote
  // would have the comma after it for its colon or its e.
  lemma {:induction false} NoExpBefore(id: int, username: string, b: string, j: nat)
    requires |b| > 1 && b[0] == '"' && b[1] == ',' && |Front(id)| - 1 <= j < ExpAt(id, username)
    ensures !OccursAt(Front(id) + username + b, EXP, j)
  {
    var f, tail := Front(id), QUOTE + username;
    var i := j - (|f| - 1);
    FrontChars(id);
    FindSkips(tail, EXP, 0);
    assert |EXP| == 6;
    if i + 6 <= |tail| {
      TailSlice(f, username, b, i, i + 6);
      assert !OccursAt(tail, EXP, i);
    } else {
      NoExpAcross(f + username, b, j);
    }
  }

  lemma {:induction false} NoExpAcross(a: string, b: string, j: nat)
    requires |b| > 1 && b[0] == '"' && b[1] == ',' && j < |a| + 2 && j + 6 > |a|
    ensures !OccursAt(a + b, EXP, j)
  {
    var s := a + b;
    assert EXP[0] == '"' && EXP[1] == 'e' && EXP[2] == 'x' && EXP[3] == 'p' && EXP[4] == '"' && EXP[5] == ':' &&
           |EXP| == 6;
    assert s[|a|] == '"' && s[|a| + 1] == ',';
    if j + 6 <= |s| {
      var w := s[j..j + 6];
      assert forall x | 0 <= x < 6 :: w[x] == s[j + x];
      if j <= |a| { assert w[|a| - j] == '"'; }
      if |a| - j == 4 { assert w[5] == ','; }
      if j == |a| { assert w[1] == ','; }
      if j == |a| + 1 { assert w[0] == ','; }
    }
  }

  lemma {:induction false} SliceAfter(a: string, b: string, i: nat, j: nat)
    requires i <= j <= |b|
    ensures (a + b)[|a| + i..|a| + j] == b[i..j]
  {
  }

  lemma {:induction false} NoExpInFront(id: int, rest: string, j: nat)
    requires j < |Front(id)| - 1
    ensures !OccursAt(Front(id) + rest, EXP, j)
  {
    var f, d := Front(id), |IntText(id)|;
    FrontChars(id);
    OccursAtQuote(f + rest, EXP, j);
    assert EXP[1] == 'e';
    if j >= 7 + d { assert USERNAME[j - 7 - d] == f[j] && USERNAME[j - 6 - d] == f[j + 1]; }
  }

  // ----- reading the claims back -----

  predicate InInt(n: int) { INT_MIN <= n <= INT_MAX }
  predicate InLong(n: int) { LONG_MIN <= n <= LONG_MAX }

  lemma {:induction false} ReadsId(id: int, rest: string)
    requires InInt(id)
    ensures Stoi((Front(id) + rest)[6..]) == Some(id)
  {
    FindId(id, rest);
    FrontChars(id);
    var tail := Front(id)[6 + |IntText(id)|..] + rest;
    assert tail[0] == ',';
    ReadPrinted(id, tail);
  }

  lemma {:induction false} ReadsExp(id: int, username: string, exp: int)
    requires InLong(exp)
    ensures Stol(PayloadJson(id, username, exp)[|Front(id)| + |username| + 8..]) == Some(exp)
  {
    BackChars(exp);
    assert PayloadJson(id, username, exp)[|Front(id)| + |username| + 8..] == Back(exp)[8..];
    ReadPrinted(exp, "}");
  }

  lemma {:induction false} FrontRead(json: string, id: int, rest: string, now: int)
    requires InInt(id) && json == Front(id) + rest
    ensures |Front(id)| <= |json|
    ensures ReadClaims(json, now) == ReadExpiry(json, id, ReadName(json, |Front(id)|), now)
  {
    FrontChars(id);
    FindId(id, rest);
    ReadsId(id, rest);
    FindUsername(id, rest);
  }

  // The expiry that is read: Create's, unless the name brings one along.
  function SeenExpiry(username: string, exp: int): Option<int>
  {
    match Find(QUOTE + username, EXP, 0)
    case None => Some(exp)
    case Some(x) => Stol((QUOTE + username + Back(exp))[x + 6..])
  }

  function Seen(id: int, username: string, exp: int, now: int): Outcome
  {
    match SeenExpiry(username, exp)
    case None => Throws
    case Some(e) => if e < now then Reject else Accept(Claims(id, CutName(username), e))
  }

  lemma {:induction false} ReadsExpiry(id: int, username: string, exp: int)
    requires InLong(exp)
    ensures var json, x := PayloadJson(id, username, exp), ExpAt(id, username);
            x + 6 <= |json| && Stol(json[x + 6..]) == SeenExpiry(username, exp)
  {
    var json, x := PayloadJson(id, username, exp), ExpAt(id, username);
    var found := Find(QUOTE + username, EXP, 0);
    if found.None? {
      ReadsOwn(json, id, username, exp, x);
    } else {
      ReadsForeign(json, id, username, exp, x, found.value);
    }
  }

  lemma {:induction false} ReadsOwn(json: string, id: int, username: string, exp: int, x: nat)
    requires InLong(exp) && json == PayloadJson(id, username, exp)
    requires Find(QUOTE + username, EXP, 0) == None && x == |Front(id)| + |username| + 2
    ensures x + 6 <= |json| && Stol(json[x + 6..]) == SeenExpiry(username, exp)
  {
    ReadsExp(id, username, exp);
    PayloadSize(json, id, username, exp);
  }

  lemma {:induction false} ReadsForeign(json: string, id: int, username: string, exp: int, x: nat, k: nat)
    requires json == PayloadJson(id, username, exp)
    requires Find(QUOTE + username, EXP, 0) == Some(k) && x == |Front(id)| - 1 + k
    ensures x + 6 <= |json| && Stol(json[x + 6..]) == SeenExpiry(username, exp)
  {
    PayloadSize(json, id, username, exp);
    PayloadTail(json, id, username, exp, k + 6);
    SeenForeign(username, exp, k, json[x + 6..]);
  }

  lemma {:induction false} SeenForeign(username: string, exp: int, k: nat, text: string)
    requires Find(QUOTE + username, EXP, 0) == Some(k) && text == (QUOTE + username + Back(exp))[k + 6..]
    ensures SeenExpiry(username, exp) == Stol(text)
  {
  }

  lemma {:induction false} PayloadSize(json: string, id: int, username: string, exp: int)
    requires json == PayloadJson(id, username, exp)
    ensures |Front(id)| > 0 && |json| > |Front(id)| + |username| + 8
  {
    BackChars(exp);
    FrontChars(id);
  }

  lemma {:induction false} PayloadTail(json: string, id: int, username: string, exp: int, i: nat)
    requires json == PayloadJson(id, username, exp) && i <= |username| + 1
    ensures |Front(id)| - 1 + i >= 0 && |Front(id)| - 1 + i <= |json|
    ensures json[|Front(id)| - 1 + i..] == (QUOTE + username + Back(exp))[i..]
  {
    FrontChars(id);
    TailFrom(Front(id), username, Back(exp), i);
  }

  lemma {:induction false} TailFrom(f: string, username: string, b: string, i: nat)
    requires f != [] && f[|f| - 1] == '"' && i <= |username| + 1
    ensures (f + username + b)[|f| - 1 + i..] == (QUOTE + username + b)[i..]
  {
    var json, tail := f + username + b, QUOTE + username + b;
    assert forall x | 0 <= x < |tail| :: json[|f| - 1 + x] == tail[x];
  }

  lemma {:induction false} ExpiryRead(json: string, x: nat, id: int, name: string, seen: Option<int>, now: int)
    requires Find(json, EXP, 0) == Some(x) && x + 6 <= |json| && Stol(json[x + 6..]) == seen
    ensures ReadExpiry(json, id, name, now) ==
            match seen
            case None => Throws
            case Some(e) => if e < now then Reject else Accept(Claims(id, name, e))
  {
  }

  // What is read from a created payload, whatever the user name: the id, the name up to its first
  // quote, and the expiry of Create unless the name brings one along.
  lemma {:induction false} ClaimsRead(id: int, username: string, exp: int, now: int)
    requires InInt(id) && InLong(exp)
    ensures ReadClaims(PayloadJson(id, username, exp), now) == Seen(id, username, exp, now)
  {
    var json := PayloadJson(id, username, exp);
    Assoc(Front(id), username, Back(exp));
    FrontRead(json, id, username + Back(exp), now);
    BackChars(exp);
    NameRead(Front(id), username, Back(exp));
    FindExp(id, username, exp);
    ReadsExpiry(id, username, exp);
    ExpiryRead(json, ExpAt(id, username), id, CutName(username), SeenExpiry(username, exp), now);
  }

  // Create's own expiry is the one read exactly when "exp": does not occur in a quote followed by
  // the user name.
  lemma {:induction false} OwnExpiryIff(id: int, username: string, exp: int)
    ensures Find(PayloadJson(id, username, exp), EXP, 0) == Some(|Front(id)| + |username| + 2) <==>
            forall j: nat :: !OccursAt(QUOTE + username, EXP, j)
  {
    FindExp(id, username, exp);
    FindSkips(QUOTE + username, EXP, 0);
  }

  lemma {:induction false} NoQuoteNoExp(username: string)
    requires '"' !in username
    ensures Find(QUOTE + username, EXP, 0) == None
  {
    var tail := QUOTE + username;
    forall j: nat ensures !OccursAt(tail, EXP, j) {
      assert EXP[4] == '"' && |EXP| == 6;
      if j + 6 <= |tail| {
        assert tail[j..j + 6][4] == tail[j + 4] == username[j + 3] && username[j + 3] in username;
      }
    }
    FindNone(tail, EXP, 0);
  }

  // Without a quote in the name the claims come back exactly, until they expire.
  lemma {:induction false} ClaimsRoundTrip(id: int, username: string, exp: int, now: int)
    requires InInt(id) && InLong(exp) && '"' !in username
    ensures ReadClaims(PayloadJson(id, username, exp), now) ==
            if exp < now then Reject else Accept(Claims(id, username, exp))
  {
    ClaimsRead(id, username, exp, now);
    CutNameIff(username);
    NoQuoteNoExp(username);
  }

  // The user name x, followed by an expiry field.
  const EMBEDDED: string := "x\",\"exp\":"

  lemma {:induction false} EmbeddedSeen(m: nat, exp: int)
    requires InLong(m)
    ensures CutName(EMBEDDED + NatText(m)) == "x" && SeenExpiry(EMBEDDED + NatText(m), exp) == Some(m)
  {
    EmbeddedName(NatText(m));
    EmbeddedExp(NatText(m));
    BackChars(exp);
    ReadPositive(m, Back(exp));
    EmbeddedTail(NatText(m), Back(exp));
  }

  lemma {:induction false} EmbeddedTail(digits: string, b: string)
    ensures (QUOTE + (EMBEDDED + digits) + b)[10..] == digits + b
  {
    assert |QUOTE + EMBEDDED| == 10;
    Assoc(QUOTE, EMBEDDED, digits);
    Assoc(QUOTE + EMBEDDED, digits, b);
  }

  lemma {:induction false} EmbeddedName(digits: string)
    ensures CutName(EMBEDDED + digits) == "x"
  {
    var name := EMBEDDED + digits;
    assert |EMBEDDED| == 9 && EMBEDDED[0] == 'x' && EMBEDDED[1] == '"' && name[0] == 'x' && name[1] == '"';
    QuoteAt(name, 0);
    QuoteAt(name, 1);
    FindFirst(name, QUOTE, 0, 1);
    assert name[..1] == "x";
  }

  lemma {:induction false} EmbeddedExp(digits: string)
    ensures Find(QUOTE + (EMBEDDED + digits), EXP, 0) == Some(4)
  {
    var open, tail := QUOTE + EMBEDDED, QUOTE + (EMBEDDED + digits);
    Assoc(QUOTE, EMBEDDED, digits);
    assert |open| == 10 && open[4..10] == EXP;
    assert tail[4..10] == open[4..10];
    assert open[1] == 'x' && open[2] == '"' && open[3] == ',' && EXP[0] == '"' && EXP[1] == 'e' && |EXP| == 6;
    forall j | 0 <= j < 4 ensures !OccursAt(tail, EXP, j) {
      OccursAtQuote(tail, EXP, j);
      assert tail[j] == open[j] && tail[j + 1] == open[j + 1];
    }
    FindFirst(tail, EXP, 0, 4);
  }

  // ----- the token -----

  // No character of s is a dot.
  predicate Dotless(s: string)
  {
    forall i | 0 <= i < |s| :: s[i] != '.'
  }

  lemma {:induction false} UrlDotless(data: seq<Byte>)
    ensures Dotless(UrlEncode(data))
  {
    BareSymbols(data);
    var bare := Bare(data);
    forall i | 0 <= i < |UrlEncode(data)| ensures UrlEncode(data)[i] != '.' {
      assert bare[i] in bare;
    }
  }

  lemma {:induction false} DotAt(text: string, j: nat)
    ensures OccursAt(text, ".", j) <==> j < |text| && text[j] == '.'
  {
    if j < |text| { assert text[j..j + 1] == [text[j]]; }
  }

  lemma {:induction false} FindDot(t: string, a: string, b: string, c: string, start: nat, k: nat)
    requires Dotless(b) && t == a + b + "." + c && start == |a| && k == |a| + |b|
    ensures Find(t, ".", start) == Some(k)
  {
    DotAt(t, k);
    forall j | |a| <= j < k ensures !OccursAt(t, ".", j) {
      DotAt(t, j);
      assert t[j] == b[j - |a|];
    }
    FindFirst(t, ".", start, k);
  }

  lemma {:induction false} FindNoDot(t: string, a: string, b: string, start: nat)
    requires Dotless(b) && t == a + b && start == |a|
    ensures Find(t, ".", start) == None
  {
    forall j | |a| <= j ensures !OccursAt(t, ".", j) {
      DotAt(t, j);
      if j < |t| { assert t[j] == b[j - |a|]; }
    }
    FindNone(t, ".", start);
  }

  function Token(h: string, p: string, s: string): string
  {
    h + "." + p + "." + s
  }

  lemma {:induction false} TokenSlices(h: string, p: string, s: string)
    ensures var t := Token(h, p, s);
            && |t| == |h| + |p| + |s| + 2
            && t[|h| + 1..|h| + 1 + |p|] == p && t[..|h| + 1 + |p|] == h + "." + p && t[|h| + |p| + 2..] == s
  {
  }

  lemma {:induction false} FirstDot(h: string, p: string, s: string)
    requires Dotless(h)
    ensures Find(Token(h, p, s), ".", 0) == Some(|h|)
  {
    assert Token(h, p, s) == "" + h + "." + (p + "." + s);
    FindDot(Token(h, p, s), "", h, p + "." + s, 0, |h|);
  }

  lemma {:induction false} SecondDot(h: string, p: string, s: string)
    requires Dotless(p)
    ensures Find(Token(h, p, s), ".", |h| + 1) == Some(|h| + 1 + |p|)
  {
    FindDot(Token(h, p, s), h + ".", p, s, |h| + 1, |h| + 1 + |p|);
  }

  lemma {:induction false} NoThirdDot(h: string, p: string, s: string)
    requires Dotless(s)
    ensures Find(Token(h, p, s), ".", |h| + |p| + 2) == None
  {
    FindNoDot(Token(h, p, s), h + "." + p + ".", s, |h| + |p| + 2);
  }

  // Three dotless parts joined by dots are split where they were joined: the token has exactly
  // two dots.
  lemma {:induction false} SplitParts(h: string, p: string, s: string)
    requires Dotless(h) && Dotless(p) && Dotless(s)
    ensures var t := Token(h, p, s);
            && Find(t, ".", 0) == Some(|h|)
            && Find(t, ".", |h| + 1) == Some(|h| + 1 + |p|)
            && Find(t, ".", |h| + |p| + 2) == None
  {
    FirstDot(h, p, s);
    SecondDot(h, p, s);
    NoThirdDot(h, p, s);
  }

  lemma {:induction false} DotsAt(t: string, d1: nat, d2: nat)
    requires Find(t, ".", 0) == Some(d1) && Find(t, ".", d1 + 1) == Some(d2) && Find(t, ".", d2 + 1) == None
    ensures Dots(t) == Some((d1, d2))
  {
  }

  lemma {:induction false} DotsOfToken(h: string, p: string, s: string)
    requires Dotless(h) && Dotless(p) && Dotless(s)
    ensures Dots(Token(h, p, s)) == Some((|h|, |h| + 1 + |p|))
  {
    SplitParts(h, p, s);
    DotsAt(Token(h, p, s), |h|, |h| + 1 + |p|);
  }

  lemma {:induction false} SplitReads(t: string, d1: nat, d2: nat, head: string, p: string, s: string,
      secret: string, now: int, mac: Mac)
    requires d1 < d2 < |t| && t[..d2] == head && t[d1 + 1..d2] == p && t[d2 + 1..] == s
    requires s == UrlEncode(mac(secret, head))
    ensures VerifySplit(t, d1, d2, secret, now, mac) == ReadClaims(ToText(UrlDecode(p)), now)
  {
  }

  lemma {:induction false} VerifyParts(h: string, p: string, s: string, secret: string, now: int, mac: Mac)
    requires Dotless(h) && Dotless(p) && Dotless(s) && s == UrlEncode(mac(secret, h + "." + p))
    ensures Verify(Token(h, p, s), secret, now, mac) == ReadClaims(ToText(UrlDecode(p)), now)
  {
    DotsOfToken(h, p, s);
    TokenSlices(h, p, s);
    SplitReads(Token(h, p, s), |h|, |h| + 1 + |p|, h + "." + p, p, s, secret, now, mac);
  }

  lemma {:induction false} PayloadIsBytes(id: int, username: string, exp: int)
    requires IsBytes(username)
    ensures IsBytes(PayloadJson(id, username, exp))
  {
    IntTextClean(id);
    IntTextClean(exp);
    FrontIsBytes(id);
    var b, c := Back(exp), IntText(exp);
    assert b == "\",\"exp\":" + c + "}";
    forall x | x in b ensures x < 256 as char {
      var i :| 0 <= i < |b| && b[i] == x;
      if 8 <= i < 8 + |c| { assert b[i] == c[i - 8]; }
    }
  }

  lemma {:induction false} FrontIsBytes(id: int)
    ensures IsBytes(Front(id))
  {
    IntTextClean(id);
    var f, d := Front(id), IntText(id);
    assert f == "{\"id\":" + d + ",\"username\":\"";
    forall x | x in f ensures x < 256 as char {
      var i :| 0 <= i < |f| && f[i] == x;
      if 6 <= i < 6 + |d| { assert f[i] == d[i - 6]; }
    }
  }

  // Verify(Create(...)) with the same secret reads the payload back.
  lemma {:induction false} VerifyCreated(id: int, username: string, secret: string, exp: int, now: int, mac: Mac)
    requires IsBytes(username)
    ensures Verify(Create(id, username, secret, exp, mac), secret, now, mac) ==
            ReadClaims(PayloadJson(id, username, exp), now)
  {
    var json := PayloadJson(id, username, exp);
    var h, p := UrlEncode(ToBytes(HEADER)), UrlEncode(ToBytes(json));
    var input := SigningInput(id, username, exp);
    var s := UrlEncode(mac(secret, input));
    UrlDotless(ToBytes(HEADER));
    UrlDotless(ToBytes(json));
    UrlDotless(mac(secret, input));
    VerifyParts(h, p, s, secret, now, mac);
    UrlRoundTrip(ToBytes(json));
    PayloadIsBytes(id, username, exp);
    TextRoundTrip(json);
  }

  // For every secret, id, user name and expiry, quotes included, what Verify reads from a token
  // that Create made.  The id always comes back.
  lemma {:induction false} TokenReads(id: int, username: string, secret: string, exp: int, now: int, mac: Mac)
    requires InInt(id) && InLong(exp) && IsBytes(username)
    ensures Verify(Create(id, username, secret, exp, mac), secret, now, mac) == Seen(id, username, exp, now)
  {
    VerifyCreated(id, username, secret, exp, now, mac);
    ClaimsRead(id, username, exp, now);
  }

  // For every secret, id, quote-free user name and expiry: exactly the claims, up to and including
  // the expiry second, and nothing afterwards.
  lemma {:induction false} TokenRoundTrip(id: int, username: string, secret: string, exp: int, now: int, mac: Mac)
    requires InInt(id) && InLong(exp) && IsBytes(username) && '"' !in username
    ensures Verify(Create(id, username, secret, exp, mac), secret, now, mac) ==
            if now <= exp then Accept(Claims(id, username, exp)) else Reject
  {
    VerifyCreated(id, username, secret, exp, now, mac);
    ClaimsRoundTrip(id, username, exp, now);
  }

  // The user name comes back from an unexpired token exactly when it has no double quote.
  lemma {:induction false} NameComesBackIff(id: int, username: string, secret: string, exp: int, now: int, mac: Mac)
    requires InInt(id) && InLong(exp) && IsBytes(username) && now <= exp
    ensures var r := Verify(Create(id, username, secret, exp, mac), secret, now, mac);
            (r.Accept? && r.claims.username == username) <==> '"' !in username
  {
    TokenReads(id, username, secret, exp, now, mac);
    CutNameIff(username);
    if '"' !in username { NoQuoteNoExp(username); }
  }

  // Of a name that contains an expiry field of its own, that expiry is read, not the one of Create.
  lemma {:induction false} NameSetsExpiry(id: int, m: nat, secret: string, exp: int, now: int, mac: Mac)
    requires InInt(id) && InLong(exp) && InLong(m) && now <= m
    ensures Verify(Create(id, EMBEDDED + NatText(m), secret, exp, mac), secret, now, mac) == Accept(Claims(id, "x", m))
  {
    var name := EMBEDDED + NatText(m);
    forall c | c in name ensures c < 256 as char {
      if c in NatText(m) { assert IsDigit(c); }
    }
    TokenReads(id, name, secret, exp, now, mac);
    EmbeddedSeen(m, exp);
  }

  // ----- what is accepted -----

  // The token has exactly two dots, at d1 and d2.
  predicate TwoDots(token: string, d1: nat, d2: nat)
  {
    d1 < d2 < |token| && forall j | 0 <= j < |token| :: token[j] == '.' <==> j == d1 || j == d2
  }

  lemma {:induction false} DotsIff(token: string, d1: nat, d2: nat)
    ensures Dots(token) == Some((d1, d2)) <==> TwoDots(token, d1, d2)
  {
    if TwoDots(token, d1, d2) {
      forall j: nat ensures OccursAt(token, ".", j) <==> j < |token| && token[j] == '.' { DotAt(token, j); }
      FindFirst(token, ".", 0, d1);
      FindFirst(token, ".", d1 + 1, d2);
      FindNone(token, ".", d2 + 1);
    }
    if Dots(token) == Some((d1, d2)) {
      DotsMean(token, d1, d2);
    }
  }

  lemma {:induction false} DotsMean(token: string, d1: nat, d2: nat)
    requires Dots(token) == Some((d1, d2))
    ensures TwoDots(token, d1, d2)
  {
    FindSkips(token, ".", 0);
    FindSkips(token, ".", d1 + 1);
    FindSkips(token, ".", d2 + 1);
    forall j | 0 <= j < |token| ensures token[j] == '.' <==> j == d1 || j == d2 { DotAt(token, j); }
  }

  // Signed: after the second of exactly two dots comes the encoded MAC of all before it.
  predicate Signed(token: string, d1: nat, d2: nat, secret: string, mac: Mac)
  {
    TwoDots(token, d1, d2) && token[d2 + 1..] == UrlEncode(mac(secret, token[..d2]))
  }

  // A token that is not signed is rejected; of a signed one, the part between the dots is read.
  lemma {:induction false} OnlySignedAccepted(token: string, secret: string, now: int, mac: Mac)
    ensures (forall d1: nat, d2: nat :: !Signed(token, d1, d2, secret, mac)) ==>
            Verify(token, secret, now, mac) == Reject
    ensures forall d1: nat, d2: nat | Signed(token, d1, d2, secret, mac) ::
              Verify(token, secret, now, mac) == ReadClaims(ToText(UrlDecode(token[d1 + 1..d2])), now)
  {
    forall d1: nat, d2: nat | Signed(token, d1, d2, secret, mac)
      ensures Verify(token, secret, now, mac) == ReadClaims(ToText(UrlDecode(token[d1 + 1..d2])), now)
    {
      DotsIff(token, d1, d2);
      SplitReads(token, d1, d2, token[..d2], token[d1 + 1..d2], token[d2 + 1..], secret, now, mac);
    }
    if Dots(token).Some? {
      DotsMean(token, Dots(token).value.0, Dots(token).value.1);
      assert Signed(token, Dots(token).value.0, Dots(token).value.1, secret, mac) ||
             VerifySplit(token, Dots(token).value.0, Dots(token).value.1, secret, now, mac) == Reject;
    }
  }

  // ----- the fixed beginning of every token -----

  lemma {:induction false} UrlStep(a: Byte, b: Byte, c: Byte, rest: seq<Byte>)
    ensures UrlEncode([a, b, c] + rest) == UrlCode(a, b, c) + UrlEncode(rest)
  {
    GroupMeans(a, b, c, rest);
    var four := [Symbol(a / 4), Symbol(a % 4 * 16 + b / 16), Symbol(b % 16 * 4 + c / 64), Symbol(c % 64)];
    assert MapText(four + Bare(rest), ToUrl) == MapText(four, ToUrl) + MapText(Bare(rest), ToUrl);
    assert MapText(four, ToUrl) == UrlCode(a, b, c);
  }

  function UrlCode(a: Byte, b: Byte, c: Byte): string
  {
    [ToUrl(Symbol(a / 4)), ToUrl(Symbol(a % 4 * 16 + b / 16)), ToUrl(Symbol(b % 16 * 4 + c / 64)),
      ToUrl(Symbol(c % 64))]
  }

  lemma {:induction false} HeaderGroup1()
    ensures UrlCode(123, 34, 97) == "eyJh"
  {
  }

  lemma {:induction false} HeaderGroup2()
    ensures UrlCode(108, 103, 34) == "bGci"
  {
  }

  lemma {:induction false} HeaderGroup3()
    ensures UrlCode(58, 34, 72) == "OiJI"
  {
  }

  lemma {:induction false} HeaderGroup4()
    ensures UrlCode(83, 50, 53) == "UzI1"
  {
  }

  lemma {:induction false} HeaderGroup5()
    ensures UrlCode(54, 34, 44) == "NiIs"
  {
  }

  lemma {:induction false} HeaderGroup6()
    ensures UrlCode(34, 116, 121) == "InR5"
  {
  }

  lemma {:induction false} HeaderGroup7()
    ensures UrlCode(112, 34, 58) == "cCI6"
  {
  }

  lemma {:induction false} HeaderGroup8()
    ensures UrlCode(34, 74, 87) == "IkpX"
  {
  }

  lemma {:induction false} HeaderGroup9()
    ensures UrlCode(84, 34, 125) == "VCJ9"
  {
  }

  lemma {:induction false} ThreeGroups(x: seq<Byte>, rest: seq<Byte>)
    requires |x| == 9
    ensures UrlEncode(x + rest) ==
            UrlCode(x[0], x[1], x[2]) + UrlCode(x[3], x[4], x[5]) + UrlCode(x[6], x[7], x[8]) + UrlEncode(rest)
  {
    assert x + rest == [x[0], x[1], x[2]] + ([x[3], x[4], x[5]] + ([x[6], x[7], x[8]] + rest));
    UrlStep(x[0], x[1], x[2], [x[3], x[4], x[5]] + ([x[6], x[7], x[8]] + rest));
    UrlStep(x[3], x[4], x[5], [x[6], x[7], x[8]] + rest);
    UrlStep(x[6], x[7], x[8], rest);
    Assoc(UrlCode(x[3], x[4], x[5]), UrlCode(x[6], x[7], x[8]), UrlEncode(rest));
    Assoc(UrlCode(x[0], x[1], x[2]), UrlCode(x[3], x[4], x[5]) + UrlCode(x[6], x[7], x[8]), UrlEncode(rest));
    Assoc(UrlCode(x[0], x[1], x[2]), UrlCode(x[3], x[4], x[5]), UrlCode(x[6], x[7], x[8]));
  }

  lemma {:induction false} HeaderWord1(a: string, b: string, c: string)
    requires a == "eyJh" && b == "bGci" && c == "OiJI"
    ensures a + b + c == "eyJhbGciOiJI"
  {
  }

  lemma {:induction false} HeaderPart1(x: seq<Byte>, rest: seq<Byte>)
    requires x == [123, 34, 97, 108, 103, 34, 58, 34, 72]
    ensures UrlEncode(x + rest) == "eyJhbGciOiJI" + UrlEncode(rest)
  {
    ThreeGroups(x, rest);
    HeaderGroup1();
    HeaderGroup2();
    HeaderGroup3();
    HeaderWord1(UrlCode(x[0], x[1], x[2]), UrlCode(x[3], x[4], x[5]), UrlCode(x[6], x[7], x[8]));
  }

  lemma {:induction false} HeaderWord2(a: string, b: string, c: string)
    requires a == "UzI1" && b == "NiIs" && c == "InR5"
    ensures a + b + c == "UzI1NiIsInR5"
  {
  }

  lemma {:induction false} HeaderPart2(x: seq<Byte>, rest: seq<Byte>)
    requires x == [83, 50, 53, 54, 34, 44, 34, 116, 121]
    ensures UrlEncode(x + rest) == "UzI1NiIsInR5" + UrlEncode(rest)
  {
    ThreeGroups(x, rest);
    HeaderGroup4();
    HeaderGroup5();
    HeaderGroup6();
    HeaderWord2(UrlCode(x[0], x[1], x[2]), UrlCode(x[3], x[4], x[5]), UrlCode(x[6], x[7], x[8]));
  }

  lemma {:induction false} HeaderWord3(a: string, b: string, c: string)
    requires a == "cCI6" && b == "IkpX" && c == "VCJ9"
    ensures a + b + c == "cCI6IkpXVCJ9"
  {
  }

  lemma {:induction false} HeaderPart3(x: seq<Byte>, rest: seq<Byte>)
    requires x == [112, 34, 58, 34, 74, 87, 84, 34, 125]
    ensures UrlEncode(x + rest) == "cCI6IkpXVCJ9" + UrlEncode(rest)
  {
    ThreeGroups(x, rest);
    HeaderGroup7();
    HeaderGroup8();
    HeaderGroup9();
    HeaderWord3(UrlCode(x[0], x[1], x[2]), UrlCode(x[3], x[4], x[5]), UrlCode(x[6], x[7], x[8]));
  }

  lemma {:induction false} HeaderBytes1(b: seq<Byte>)
    requires b == ToBytes(HEADER)
    ensures |b| == 27
    ensures b[0] == 123 && b[1] == 34 && b[2] == 97
    ensures b[3] == 108 && b[4] == 103 && b[5] == 34
    ensures b[6] == 58 && b[7] == 34 && b[8] == 72
  {
    assert |HEADER| == 27;
  }

  lemma {:induction false} HeaderBytes2(b: seq<Byte>)
    requires b == ToBytes(HEADER)
    ensures |b| == 27
    ensures b[9] == 83 && b[10] == 50 && b[11] == 53
    ensures b[12] == 54 && b[13] == 34 && b[14] == 44
    ensures b[15] == 34 && b[16] == 116 && b[17] == 121
  {
    assert |HEADER| == 27;
  }

  lemma {:induction false} HeaderBytes3(b: seq<Byte>)
    requires b == ToBytes(HEADER)
    ensures |b| == 27
    ensures b[18] == 112 && b[19] == 34 && b[20] == 58
    ensures b[21] == 34 && b[22] == 74 && b[23] == 87
    ensures b[24] == 84 && b[25] == 34 && b[26] == 125
  {
    assert |HEADER| == 27;
  }

  lemma {:induction false} NineBytes(b: seq<Byte>, i: nat, x: seq<Byte>)
    requires i + 9 <= |b| && |x| == 9
    requires b[i] == x[0] && b[i + 1] == x[1] && b[i + 2] == x[2] && b[i + 3] == x[3] && b[i + 4] == x[4]
    requires b[i + 5] == x[5] && b[i + 6] == x[6] && b[i + 7] == x[7] && b[i + 8] == x[8]
    ensures b[i..i + 9] == x
  {
  }

  lemma {:induction false} HeaderNine1(b: seq<Byte>)
    requires b == ToBytes(HEADER)
    ensures |b| == 27 && b[0..9] == [123, 34, 97, 108, 103, 34, 58, 34, 72]
  {
    HeaderBytes1(b);
    NineBytes(b, 0, [123, 34, 97, 108, 103, 34, 58, 34, 72]);
  }

  lemma {:induction false} HeaderNine2(b: seq<Byte>)
    requires b == ToBytes(HEADER)
    ensures |b| == 27 && b[9..18] == [83, 50, 53, 54, 34, 44, 34, 116, 121]
  {
    HeaderBytes2(b);
    NineBytes(b, 9, [83, 50, 53, 54, 34, 44, 34, 116, 121]);
  }

  lemma {:induction false} HeaderNine3(b: seq<Byte>)
    requires b == ToBytes(HEADER)
    ensures |b| == 27 && b[18..27] == [112, 34, 58, 34, 74, 87, 84, 34, 125]
  {
    HeaderBytes3(b);
    NineBytes(b, 18, [112, 34, 58, 34, 74, 87, 84, 34, 125]);
  }

  lemma {:induction false} HeaderEncoded(b: seq<Byte>)
    requires b == ToBytes(HEADER)
    ensures UrlEncode(b) == "eyJhbGciOiJI" + ("UzI1NiIsInR5" + "cCI6IkpXVCJ9")
  {
    HeaderNine1(b);
    HeaderNine2(b);
    HeaderNine3(b);
    var x, y, z := b[0..9], b[9..18], b[18..27];
    assert b == x + (y + z) && z == z + [];
    HeaderPart1(x, y + z);
    HeaderPart2(y, z);
    HeaderPart3(z, []);
    assert UrlEncode([]) == "";
  }

  lemma {:induction false} HeaderText(h: string)
    requires h == "eyJhbGciOiJI" + ("UzI1NiIsInR5" + "cCI6IkpXVCJ9")
    ensures h + "." == "eyJhbGciOiJIUzI1NiIsInR5cCI6IkpXVCJ9."
  {
  }

  lemma {:induction false} Begins(h: string, p: string, s: string)
    ensures h + "." <= h + "." + p + "." + s
  {
  }

  // Every token begins with the encoding of its header, and a dot.
  lemma {:induction false} TokenBegins(id: int, username: string, secret: string, exp: int, mac: Mac)
    ensures "eyJhbGciOiJIUzI1NiIsInR5cCI6IkpXVCJ9." <= Create(id, username, secret, exp, mac)
  {
    var b := ToBytes(HEADER);
    HeaderEncoded(b);
    HeaderText(UrlEncode(b));
    Begins(UrlEncode(b), UrlEncode(ToBytes(PayloadJson(id, username, exp))),
           UrlEncode(mac(secret, SigningInput(id, username, exp))));
  }

  // The token has two dots, between which the text is encoded.
  predicate Carries(token: string, d1: nat, d2: nat, text: string)
  {
    TwoDots(token, d1, d2) && ToText(UrlDecode(token[d1 + 1..d2])) == text
  }

  lemma {:induction false} TokenCarries(h: string, p: string, s: string, text: string)
    requires Dotless(h) && Dotless(p) && Dotless(s) && ToText(UrlDecode(p)) == text
    ensures Carries(Token(h, p, s), |h|, |h| + 1 + |p|, text)
  {
    var t := Token(h, p, s);
    DotsOfToken(h, p, s);
    DotsMean(t, |h|, |h| + 1 + |p|);
    TokenSlices(h, p, s);
    CarriesIs(t, |h|, |h| + 1 + |p|, p, text);
  }

  lemma {:induction false} CarriesIs(t: string, d1: nat, d2: nat, p: string, text: string)
    requires TwoDots(t, d1, d2) && t[d1 + 1..d2] == p && ToText(UrlDecode(p)) == text
    ensures Carries(t, d1, d2, text)
  {
  }

  lemma {:induction false} PayloadDecodes(id: int, username: string, exp: int)
    requires IsBytes(username)
    ensures ToText(UrlDecode(UrlEncode(ToBytes(PayloadJson(id, username, exp))))) == PayloadJson(id, username, exp)
  {
    var json := PayloadJson(id, username, exp);
    UrlRoundTrip(ToBytes(json));
    PayloadIsBytes(id, username, exp);
    TextRoundTrip(json);
  }

  // The payload is this text, and comes back from between the dots.
  lemma {:induction false} PayloadText(id: int, username: string, exp: int, secret: string, mac: Mac)
    requires IsBytes(username)
    ensures exists d1: nat, d2: nat ::
              Carries(Create(id, username, secret, exp, mac), d1, d2,
                      "{\"id\":" + IntText(id) + ",\"username\":\"" + username + "\",\"exp\":" + IntText(exp) + "}")
  {
    var json := PayloadJson(id, username, exp);
    var h, p := UrlEncode(ToBytes(HEADER)), UrlEncode(ToBytes(json));
    var s := UrlEncode(mac(secret, SigningInput(id, username, exp)));
    UrlDotless(ToBytes(HEADER));
    UrlDotless(ToBytes(json));
    UrlDotless(mac(secret, SigningInput(id, username, exp)));
    PayloadDecodes(id, username, exp);
    TokenCarries(h, p, s, json);
    JsonText(id, username, exp);
    assert Carries(Create(id, username, secret, exp, mac), |h|, |h| + 1 + |p|, json);
  }

  lemma {:induction false} JsonText(id: int, username: string, exp: int)
    ensures PayloadJson(id, username, exp) ==
            "{\"id\":" + IntText(id) + ",\"username\":\"" + username + "\",\"exp\":" + IntText(exp) + "}"
  {
    var a := "{\"id\":" + IntText(id) + ",\"username\":\"" + username;
    Assoc(a, "\",\"exp\":", IntText(exp));
    Assoc(a, "\",\"exp\":" + IntText(exp), "}");
  }

  // ----- payloads that Create did not make -----

  // Without one of the three names the payload is rejected, or an exception comes first.
  lemma {:induction false} MissingNames(json: string, now: int)
    ensures (forall j: nat :: !OccursAt(json, "\"id\":", j)) ==> ReadClaims(json, now) == Reject
    ensures (forall j: nat :: !OccursAt(json, "\"username\":\"", j)) ==> !ReadClaims(json, now).Accept?
    ensures (forall j: nat :: !OccursAt(json, "\"exp\":", j)) ==> !ReadClaims(json, now).Accept?
  {
    if forall j: nat :: !OccursAt(json, ID, j) { FindNone(json, ID, 0); }
    if forall j: nat :: !OccursAt(json, USERNAME, j) { FindNone(json, USERNAME, 0); }
    if forall j: nat :: !OccursAt(json, EXP, j) { FindNone(json, EXP, 0); }
  }

  // Whatever is accepted was read behind the first occurrence of each name, and has not expired.
  lemma {:induction false} AcceptedMeans(json: string, now: int, i: nat, u: nat, e: nat)
    requires Find(json, "\"id\":", 0) == Some(i) && Find(json, "\"username\":\"", 0) == Some(u)
    requires Find(json, "\"exp\":", 0) == Some(e)
    ensures var id, exp := Stoi(json[i + 5..]), Stol(json[e + 6..]);
            ReadClaims(json, now) ==
            if id.None? || exp.None? then Throws
            else if exp.value < now then Reject
            else Accept(Claims(id.value, CutName(json[u + 12..]), exp.value))
  {
    NameFrom(json, u + 12);
    var id := Stoi(json[i + 5..]);
    if id.Some? {
      assert ReadClaims(json, now) == ReadExpiry(json, id.value, ReadName(json, u + 12), now);
      ExpiryRead(json, e, id.value, ReadName(json, u + 12), Stol(json[e + 6..]), now);
    }
  }

  lemma {:induction false} NameFrom(json: string, start: nat)
    requires start <= |json|
    ensures ReadName(json, start) == CutName(json[start..])
  {
    var tail := json[start..];
    FindSkips(tail, QUOTE, 0);
    forall j: nat ensures OccursAt(json, QUOTE, start + j) <==> OccursAt(tail, QUOTE, j) {
      QuoteAt(json, start + j);
      QuoteAt(tail, j);
    }
    match Find(tail, QUOTE, 0) {
      case None =>
        forall j | start <= j ensures !OccursAt(json, QUOTE, j) { assert !OccursAt(tail, QUOTE, j - start); }
        FindNone(json, QUOTE, start);
      case Some(k) =>
        forall j | start <= j < start + k ensures !OccursAt(json, QUOTE, j) { assert !OccursAt(tail, QUOTE,
          j - start); }
        FindFirst(json, QUOTE, start, start + k);
        assert json[start..start + k] == tail[..k];
    }
  }
}
