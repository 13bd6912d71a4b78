/** Base64 (WebSocketUtils.h) and unpadded Base64URL (JsonWebToken.h); sections 4 and 5 of RFC 4648.
  *
  * Shifts and masks on the 24-bit group are written as divisions and remainders.
  */
module Base64 {
  import opened Sequences
  import opened Bytes

  type Sextet = x: int | 0 <= x < 64

  // ----- alphabets -----

  // table[x] of the source: "A" to "Z", "a" to "z", "0" to "9", "+", "/".
  function Symbol(x: Sextet): (c: char)
    ensures c != '=' && c != '-' && c != '_' && c < 128 as char
  {
    if x < 26 then 'A' + x as char
    else if x < 52 then 'a' + (x - 26) as char
    else if x < 62 then '0' + (x - 52) as char
    else if x == 62 then '+'
    else '/'
  }

  // lookup[128]: -1 for characters outside the alphabet, 0 for '='.
  function Lookup(c: char): (v: int)
    ensures -1 <= v < 64
  {
    if 'A' <= c <= 'Z' then c as int - 'A' as int
    else if 'a' <= c <= 'z' then c as int - 'a' as int + 26
    else if '0' <= c <= '9' then c as int - '0' as int + 52
    else if c == '+' then 62
    else if c == '/' then 63
    else if c == '=' then 0
    else -1
  }

  lemma {:induction false} LookupSymbol(x: Sextet)
    ensures Lookup(Symbol(x)) == x
  {
  }

  function ToUrl(c: char): char
  {
    if c == '+' then '-' else if c == '/' then '_' else c
  }

  function FromUrl(c: char): char
  {
    if c == '-' then '+' else if c == '_' then '/' else c
  }

  function MapText(s: string, f: char -> char): (r: string)
    ensures |r| == |s| && forall i | 0 <= i < |s| :: r[i] == f(s[i])
  {
    seq(|s|, i requires 0 <= i < |s| => f(s[i]))
  }

  // ----- groups of three bytes -----

  function Group(a: Byte, b: Byte, c: Byte): nat
  {
    a as int * 0x1_0000 + b as int * 0x100 + c
  }

  // (n >> 18) & 0x3F and so on.
  function Sextet0(n: nat): Sextet { n / 0x4_0000 % 64 }
  function Sextet1(n: nat): Sextet { n / 0x1000 % 64 }
  function Sextet2(n: nat): Sextet { n / 0x40 % 64 }
  function Sextet3(n: nat): Sextet { n % 64 }

  // The code of the first group; missing bytes count as zero, and their symbols are left out.
  function GroupCode(data: seq<Byte>): string
    requires data != []
  {
    var n := Group(data[0], if |data| > 1 then data[1] else 0, if |data| > 2 then data[2] else 0);
    [Symbol(Sextet0(n)), Symbol(Sextet1(n))] +
    (if |data| > 1 then [Symbol(Sextet2(n))] else []) +
    (if |data| > 2 then [Symbol(Sextet3(n))] else [])
  }

  function Rest(data: seq<Byte>): seq<Byte>
  {
    if |data| <= 3 then [] else data[3..]
  }

  // Base64 without padding.
  function Bare(data: seq<Byte>): string
    decreases |data|
  {
    if data == [] then [] else GroupCode(data) + Bare(Rest(data))
  }

  // '=' up to a multiple of four.
  function Padded(s: string): (r: string)
    ensures |r| % 4 == 0 && s <= r
  {
    if |s| % 4 == 0 then s else s + seq(4 - |s| % 4, _ => '=')
  }

  function Encode(data: seq<Byte>): string
  {
    Padded(Bare(data))
  }

  function UrlEncode(data: seq<Byte>): string
  {
    MapText(Bare(data), ToUrl)
  }

  // What is left to encode at index i of the loop.
  function From(data: seq<Byte>, i: nat): seq<Byte>
  {
    if i < |data| then data[i..] else []
  }

  lemma {:induction false} BareStep(data: seq<Byte>, i: nat, done: string)
    requires i < |data|
    ensures done + Bare(From(data, i)) == Bare(data) ==>
              (done + GroupCode(data[i..])) + Bare(From(data, i + 3)) == Bare(data)
  {
    assert Rest(data[i..]) == From(data, i + 3);
    Assoc(done, GroupCode(data[i..]), Bare(From(data, i + 3)));
  }

  // ----- the encoders as they run -----

  // The loop body of Base64URLEncode.
  method EncodeGroup(data: seq<Byte>, i: nat) returns (code: string)
    requires i < |data|
    ensures code == GroupCode(data[i..])
  {
    var n := data[i] as int * 0x1_0000;
    if i + 1 < |data| { n := n + data[i + 1] as int * 0x100; }
    if i + 2 < |data| { n := n + data[i + 2]; }
    GroupCodeIs(data, i, n);
    code := [Symbol(Sextet0(n))];
    code := code + [Symbol(Sextet1(n))];
    if i + 1 < |data| { code := code + [Symbol(Sextet2(n))]; }
    if i + 2 < |data| { code := code + [Symbol(Sextet3(n))]; }
  }

  lemma {:induction false} GroupCodeIs(data: seq<Byte>, i: nat, n: nat)
    requires i < |data|
    requires n == Group(data[i], if i + 1 < |data| then data[i + 1] else 0, if i + 2 < |data| then data[i + 2] else 0)
    ensures GroupCode(data[i..]) == [Symbol(Sextet0(n))] + [Symbol(Sextet1(n))] +
                                    (if i + 1 < |data| then [Symbol(Sextet2(n))] else []) +
                                    (if i + 2 < |data| then [Symbol(Sextet3(n))] else [])
  {
  }

  method EncodeBare(data: seq<Byte>) returns (result: string)
    ensures result == Bare(data)
  {
    result := [];
    var i := 0;
    while i < |data|
      invariant result + Bare(From(data, i)) == Bare(data)
    {
      var code := EncodeGroup(data, i);
      BareStep(data, i, result);
      result := result + code;
      i := i + 3;
    }
  }

  method Base64UrlEncode(data: seq<Byte>) returns (result: string)
    ensures result == UrlEncode(data)
  {
    var bare := EncodeBare(data);
    result := Replace(bare, '+', '-', '/', '_');
    assert forall j | 0 <= j < |bare| :: result[j] == ToUrl(bare[j]);
  }

  // The in-place replacement loops of both directions.
  method Replace(s: string, a: char, a': char, b: char, b': char) returns (r: string)
    ensures |r| == |s|
    ensures forall j | 0 <= j < |s| :: r[j] == if s[j] == a then a' else if s[j] == b then b' else s[j]
  {
    r := s;
    for k := 0 to |s|
      invariant |r| == |s|
      invariant forall j | 0 <= j < k :: r[j] == if s[j] == a then a' else if s[j] == b then b' else s[j]
      invariant forall j | k <= j < |s| :: r[j] == s[j]
    {
      if r[k] == a {
        r := r[k := a'];
      } else if r[k] == b {
        r := r[k := b'];
      }
    }
  }

  // The padded encoder of WebSocketUtils.h.
  method Base64Encode(data: seq<Byte>) returns (result: string)
    ensures result == Encode(data)
  {
    result := [];
    var i := 0;
    ghost var bare: string := [];
    while i < |data|
      invariant bare + Bare(From(data, i)) == Bare(data)
      invariant i < |data| ==> result == bare && |bare| % 4 == 0
      invariant result == Padded(bare)
    {
      var code := EncodePaddedGroup(data, i);
      PaddedTail(bare, GroupCode(data[i..]));
      BareStep(data, i, bare);
      bare := bare + GroupCode(data[i..]);
      result := result + code;
      i := i + 3;
    }
    assert bare == Bare(data);
  }

  method EncodePaddedGroup(data: seq<Byte>, i: nat) returns (code: string)
    requires i < |data|
    ensures code == Padded(GroupCode(data[i..]))
    ensures i + 3 < |data| ==> code == GroupCode(data[i..]) && |code| == 4
  {
    var n := data[i] as int * 0x1_0000;
    if i + 1 < |data| { n := n + data[i + 1] as int * 0x100; }
    if i + 2 < |data| { n := n + data[i + 2]; }
    code := [Symbol(Sextet0(n))];
    code := code + [Symbol(Sextet1(n))];
    code := code + [if i + 1 < |data| then Symbol(Sextet2(n)) else '='];
    code := code + [if i + 2 < |data| then Symbol(Sextet3(n)) else '='];
    PaddedGroup(data[i..], n);
  }

  lemma {:induction false} PadTwo(a: char, b: char)
    ensures Padded([a, b]) == [a, b, '=', '=']
  {
    assert seq(2, _ => '=') == ['=', '='];
  }

  lemma {:induction false} PadThree(a: char, b: char, c: char)
    ensures Padded([a, b, c]) == [a, b, c, '=']
  {
    assert seq(1, _ => '=') == ['='];
  }

  lemma {:induction false} PaddedGroup(data: seq<Byte>, n: nat)
    requires data != [] && n == Group(data[0], if |data| > 1 then data[1] else 0, if |data| > 2 then data[2] else 0)
    ensures Padded(GroupCode(data)) == [Symbol(Sextet0(n)), Symbol(Sextet1(n)),
                                        if |data| > 1 then Symbol(Sextet2(n)) else '=',
                                        if |data| > 2 then Symbol(Sextet3(n)) else '=']
    ensures |data| >= 3 ==> |GroupCode(data)| == 4
  {
    var a, b, c, d := Symbol(Sextet0(n)), Symbol(Sextet1(n)), Symbol(Sextet2(n)), Symbol(Sextet3(n));
    if |data| == 1 {
      assert GroupCode(data) == [a, b];
      PadTwo(a, b);
    } else if |data| == 2 {
      assert GroupCode(data) == [a, b, c];
      PadThree(a, b, c);
    } else {
      assert GroupCode(data) == [a, b, c, d];
    }
  }

  lemma {:induction false} PaddedTail(xs: string, ys: string)
    requires |xs| % 4 == 0
    ensures Padded(xs + ys) == xs + Padded(ys)
  {
    if |ys| % 4 != 0 {
      Assoc(xs, ys, seq(4 - |ys| % 4, _ => '='));
      assert seq(4 - |ys| % 4, _ => '=') == seq(4 - |xs + ys| % 4, _ => '=');
    }
  }

  // ----- decoding -----

  // The low 24 bits of lookup[a] << 18 | lookup[b] << 12 | lookup[c] << 6 | lookup[d]: a -1 sets
  // every bit from its own place upward.
  function Join(a: int, b: int, c: int, d: int): nat
    requires -1 <= a < 64 && -1 <= b < 64 && -1 <= c < 64 && -1 <= d < 64
  {
    var d' := if d < 0 then 63 else d;
    var c' := if c < 0 || d < 0 then 63 else c;
    var b' := if b < 0 || c < 0 || d < 0 then 63 else b;
    var a' := if a < 0 || b < 0 || c < 0 || d < 0 then 63 else a;
    a' * 0x4_0000 + b' * 0x1000 + c' * 0x40 + d'
  }

  // One group of four characters.
  function GroupBytes(s: string): (r: seq<Byte>)
    requires |s| >= 4
  {
    var n := Join(Lookup(s[0]), Lookup(s[1]), Lookup(s[2]), Lookup(s[3]));
    [n / 0x1_0000 % 256] + (if s[2] != '=' then [n / 0x100 % 256] else []) + (if s[3] != '=' then [n % 256] else [])
  }

  function DecodeGroups(s: string): seq<Byte>
    requires |s| % 4 == 0
    decreases |s|
  {
    if s == [] then [] else GroupBytes(s) + DecodeGroups(s[4..])
  }

  // Base64URLDecode on values.  (Characters beyond 127 index outside the lookup array; Lookup
  // treats them as foreign.)
  function UrlDecode(s: string): seq<Byte>
  {
    DecodeGroups(Padded(MapText(s, FromUrl)))
  }

  method Base64UrlDecode(input: string) returns (out: seq<Byte>)
    ensures out == UrlDecode(input)
  {
    var b64 := Replace(input, '-', '+', '_', '/');
    assert b64 == MapText(input, FromUrl);
    b64 := Pad(b64);
    out := DecodeLoop(b64);
  }

  method DecodeLoop(b64: string) returns (out: seq<Byte>)
    requires |b64| % 4 == 0
    ensures out == DecodeGroups(b64)
  {
    out := [];
    var i := 0;
    while i < |b64|
      invariant i % 4 == 0 && i <= |b64|
      invariant out == DecodeGroups(b64[..i])
    {
      out := DecodeNext(b64, i, out);
      i := i + 4;
    }
    assert b64[..i] == b64;
  }

  // The loop body of Base64URLDecode.
  method DecodeNext(b64: string, i: nat, out: seq<Byte>) returns (out': seq<Byte>)
    requires i % 4 == 0 && i + 4 <= |b64| && out == DecodeGroups(b64[..i])
    ensures out' == DecodeGroups(b64[..i + 4])
  {
    NextGroup(b64, i);
    var bytes := DecodeGroup(b64[i..i + 4]);
    out' := out + bytes;
  }

  lemma {:induction false} NextGroup(b64: string, i: nat)
    requires i % 4 == 0 && i + 4 <= |b64|
    ensures DecodeGroups(b64[..i + 4]) == DecodeGroups(b64[..i]) + GroupBytes(b64[i..i + 4])
  {
    SnocGroup(b64[..i], b64[i..i + 4]);
    assert b64[..i] + b64[i..i + 4] == b64[..i + 4];
  }

  // The padding loop.
  method Pad(s: string) returns (r: string)
    ensures r == Padded(s)
  {
    r := s;
    ghost var n := 0;
    while |r| % 4 != 0
      invariant n + Missing(|r|) == Missing(|s|) && r == s + Equals(n)
      decreases Missing(|r|)
    {
      Assoc(s, Equals(n), ['=']);
      assert Equals(n) + ['='] == Equals(n + 1);
      MissingNext(|r|);
      r := r + ['='];
      n := n + 1;
    }
  }

  function Missing(len: nat): nat { (4 - len % 4) % 4 }

  lemma {:induction false} MissingNext(len: nat)
    requires len % 4 != 0
    ensures Missing(len + 1) == Missing(len) - 1
  {
  }

  function Equals(n: nat): string { seq(n, _ => '=') }

  method DecodeGroup(s: string) returns (out: seq<Byte>)
    requires |s| == 4
    ensures out == GroupBytes(s)
  {
    var n := Join(Lookup(s[0]), Lookup(s[1]), Lookup(s[2]), Lookup(s[3]));
    out := [n / 0x1_0000 % 256];
    if s[2] != '=' { out := out + [n / 0x100 % 256]; }
    if s[3] != '=' { out := out + [n % 256]; }
  }

  lemma {:induction false} SnocGroup(t: string, x: string)
    requires |t| % 4 == 0 && |x| == 4
    ensures DecodeGroups(t + x) == DecodeGroups(t) + GroupBytes(x)
    decreases |t|
  {
    if t == [] {
      assert t + x == x + [];
      OneGroup(x, []);
    } else {
      var head, tail := t[..4], t[4..];
      assert t == head + tail && t + x == head + (tail + x);
      OneGroup(head, tail + x);
      OneGroup(head, tail);
      SnocGroup(tail, x);
      Assoc(GroupBytes(head), DecodeGroups(tail), GroupBytes(x));
    }
  }

  // ----- round trip -----

  lemma {:induction false} JoinSextets(n: nat)
    requires n < 0x100_0000
    ensures Join(Sextet0(n), Sextet1(n), Sextet2(n), Sextet3(n)) == n
  {
    var a := n / 64;
    var b := a / 64;
    var c := b / 64;
    Quotients(n);
    assert n == a * 64 + n % 64 && a == b * 64 + a % 64 && b == c * 64 + b % 64;
    assert c < 64;
  }

  lemma {:induction false} Quotients(n: nat)
    ensures n / 64 / 64 == n / 0x1000 && n / 0x1000 / 64 == n / 0x4_0000
  {
  }

  lemma {:induction false} GroupSplits(a: Byte, b: Byte, c: Byte)
    ensures var n := Group(a, b, c);
            n < 0x100_0000 && n / 0x1_0000 % 256 == a && n / 0x100 % 256 == b && n % 256 == c
  {
    var n, high := Group(a, b, c), a as int * 0x100 + b;
    assert n == high * 0x100 + c;
    assert n / 0x100 == high && n % 0x100 == c;
    assert high / 0x100 == a && high % 0x100 == b;
    assert n == a as int * 0x1_0000 + (b as int * 0x100 + c);
  }

  // The padded code of one group decodes to its bytes.
  lemma {:induction false} GroupRoundTrip(data: seq<Byte>)
    requires data != []
    ensures |Padded(GroupCode(data))| == 4
    ensures GroupBytes(Padded(GroupCode(data))) == if |data| <= 3 then data else data[..3]
  {
    var a, b, c := data[0], if |data| > 1 then data[1] else 0, if |data| > 2 then data[2] else 0;
    var n := Group(a, b, c);
    GroupSplits(a, b, c);
    JoinSextets(n);
    LookupSymbol(Sextet0(n));
    LookupSymbol(Sextet1(n));
    LookupSymbol(Sextet2(n));
    LookupSymbol(Sextet3(n));
    LowSextets(a, b, c);
    PaddedGroup(data, n);
  }

  // A missing byte leaves its own sextet zero, as '=' decodes.
  lemma {:induction false} LowSextets(a: Byte, b: Byte, c: Byte)
    ensures c == 0 ==> Sextet3(Group(a, b, c)) == 0
    ensures b == 0 && c == 0 ==> Sextet2(Group(a, b, c)) == 0
  {
    var x, y := a as int, b as int;
    MultipleOf64(x * 0x400 + y * 4);
    MultipleOf64(x * 0x10);
    if c == 0 { assert Group(a, b, c) == (x * 0x400 + y * 4) * 64; }
    if b == 0 && c == 0 { assert Group(a, b, c) == x * 0x10 * 64 * 64; }
  }

  lemma {:induction false} MultipleOf64(k: int)
    requires k >= 0
    ensures k * 64 % 64 == 0 && k * 64 / 64 == k && k * 64 * 64 / 64 == k * 64
  {
  }

  lemma {:induction false} BareRoundTrip(data: seq<Byte>)
    ensures DecodeGroups(Padded(Bare(data))) == data
    decreases |data|
  {
    if data != [] {
      GroupRoundTrip(data);
      BareRoundTrip(Rest(data));
      if |data| <= 3 {
        assert Bare(data) == GroupCode(data) + Bare([]);
        assert Bare(data) == GroupCode(data);
        OneGroup(Padded(GroupCode(data)), []);
      } else {
        PaddedTail(GroupCode(data), Bare(Rest(data)));
        OneGroup(GroupCode(data), Padded(Bare(Rest(data))));
        assert data == data[..3] + data[3..];
      }
    }
  }

  lemma {:induction false} OneGroup(x: string, rest: string)
    requires |x| == 4 && |rest| % 4 == 0
    ensures DecodeGroups(x + rest) == GroupBytes(x) + DecodeGroups(rest)
  {
    assert (x + rest)[4..] == rest;
    assert GroupBytes(x + rest) == GroupBytes(x);
  }

  // Base64URLDecode undoes Base64URLEncode on every byte sequence.
  lemma {:induction false} UrlRoundTrip(data: seq<Byte>)
    ensures UrlDecode(UrlEncode(data)) == data
  {
    BareSymbols(data);
    MapBack(Bare(data));
    BareRoundTrip(data);
  }

  lemma {:induction false} MapBack(s: string)
    requires forall c | c in s :: IsSymbol(c)
    ensures MapText(MapText(s, ToUrl), FromUrl) == s
  {
    forall i | 0 <= i < |s| ensures FromUrl(ToUrl(s[i])) == s[i] {
      assert s[i] in s;
    }
  }

  predicate IsSymbol(c: char)
  {
    'A' <= c <= 'Z' || 'a' <= c <= 'z' || '0' <= c <= '9' || c == '+' || c == '/'
  }

  lemma {:induction false} BareSymbols(data: seq<Byte>)
    ensures forall c | c in Bare(data) :: IsSymbol(c)
    decreases |data|
  {
    if data != [] {
      BareSymbols(Rest(data));
      forall c | c in GroupCode(data) ensures IsSymbol(c) {}
    }
  }

  // ----- the two encoders -----

  function Strip(s: string): string
  {
    if s == [] then [] else (if s[0] == '=' then [] else [s[0]]) + Strip(s[1..])
  }

  // Base64URL is Base64 with the padding dropped and '+', '/' replaced.
  lemma {:induction false} UrlIsStripped(data: seq<Byte>)
    ensures UrlEncode(data) == MapText(Strip(Encode(data)), ToUrl)
  {
    BareSymbols(data);
    var bare := Bare(data);
    if |bare| % 4 == 0 {
      assert bare + [] == bare;
      StripPad(bare, 0);
    } else {
      StripPad(bare, 4 - |bare| % 4);
    }
  }

  lemma {:induction false} StripPad(s: string, n: nat)
    requires '=' !in s
    ensures Strip(s + seq(n, _ => '=')) == s
  {
    var pad := seq(n, _ => '=');
    if s != [] {
      StripPad(s[1..], n);
      assert (s + pad)[1..] == s[1..] + pad;
    } else if n > 0 {
      StripPad(s, n - 1);
      assert (s + pad)[1..] == s + seq(n - 1, _ => '=');
    }
  }

  // ----- the alphabet and the bit order -----

  // The alphabet of section 4 of RFC 4648, by character codes: A to Z, a to z, 0 to 9, + and /.
  lemma {:induction false} SymbolMeans(x: Sextet)
    ensures 0 <= x < 26 ==> Symbol(x) as int == 65 + x
    ensures 26 <= x < 52 ==> Symbol(x) as int == 97 + (x - 26)
    ensures 52 <= x < 62 ==> Symbol(x) as int == 48 + (x - 52)
    ensures Symbol(62) as int == 43 && Symbol(63) as int == 47
  {
  }

  // Three bytes become the symbols of their twenty-four bits, six at a time from the left.
  lemma {:induction false} GroupMeans(a: Byte, b: Byte, c: Byte, rest: seq<Byte>)
    ensures var s0, s1, s2, s3 := a / 4, a % 4 * 16 + b / 16, b % 16 * 4 + c / 64, c % 64;
            Bare([a, b, c] + rest) == [Symbol(s0), Symbol(s1), Symbol(s2), Symbol(s3)] + Bare(rest)
  {
    var data := [a, b, c] + rest;
    SextetsMean(a, b, c);
    assert data[0] == a && data[1] == b && data[2] == c && Rest(data) == rest;
    assert GroupCode(data) == [Symbol(a / 4), Symbol(a % 4 * 16 + b / 16), Symbol(b % 16 * 4 + c / 64), Symbol(c % 64)];
  }

  lemma {:induction false} SextetsMean(a: Byte, b: Byte, c: Byte)
    ensures var n := Group(a, b, c);
            && Sextet0(n) == a / 4 && Sextet1(n) == a % 4 * 16 + b / 16
            && Sextet2(n) == b % 16 * 4 + c / 64 && Sextet3(n) == c % 64
  {
    var n, x, y, z := Group(a, b, c), a as int, b as int, c as int;
    var p := b % 16 * 4 + c / 64;
    var q := a % 4 * 16 + b / 16;
    assert x == x / 4 * 4 + x % 4 && y == y / 16 * 16 + y % 16 && z == z / 64 * 64 + z % 64;
    assert n == ((x / 4 * 64 + q) * 64 + p) * 64 + z % 64;
    SextetSplit(x / 4, q, p, z % 64);
  }

  lemma {:induction false} SextetSplit(a: Sextet, b: Sextet, c: Sextet, d: Sextet)
    ensures var n := ((a as int * 64 + b) * 64 + c) * 64 + d;
            Sextet0(n) == a && Sextet1(n) == b && Sextet2(n) == c && Sextet3(n) == d
  {
    var n := ((a as int * 64 + b) * 64 + c) * 64 + d;
    Quotients(n);
    assert n / 64 == (a as int * 64 + b) * 64 + c && n % 64 == d;
    assert n / 64 / 64 == a as int * 64 + b && n / 64 % 64 == c;
    assert n / 64 / 64 / 64 == a && n / 64 / 64 % 64 == b;
  }

  // A group of one or two bytes at the end counts the missing bits as zero and leaves out the
  // symbols without a byte; Base64 pads them, Base64URL does not.
  lemma {:induction false} TailMeans(a: Byte, b: Byte)
    ensures Bare([a]) == [Symbol(a / 4), Symbol(a % 4 * 16)] && Encode([a]) == Bare([a]) + "=="
    ensures Bare([a, b]) == [Symbol(a / 4), Symbol(a % 4 * 16 + b / 16), Symbol(b % 16 * 4)]
    ensures Encode([a, b]) == Bare([a, b]) + "="
  {
    SextetsMean(a, 0, 0);
    SextetsMean(a, b, 0);
    assert Rest([a]) == [] && Rest([a, b]) == [];
    assert Bare([a]) == GroupCode([a]) + [] && Bare([a, b]) == GroupCode([a, b]) + [];
    assert Bare([a]) == [Symbol(a / 4), Symbol(a % 4 * 16)];
    assert Bare([a, b]) == [Symbol(a / 4), Symbol(a % 4 * 16 + b / 16), Symbol(b % 16 * 4)];
    PadTwo(Symbol(a / 4), Symbol(a % 4 * 16));
    PadThree(Symbol(a / 4), Symbol(a % 4 * 16 + b / 16), Symbol(b % 16 * 4));
  }

  // The URL alphabet of section 5 of RFC 4648 differs in two symbols.
  lemma {:induction false} UrlAlphabet(c: char)
    ensures ToUrl(c) == if c == '+' then '-' else if c == '/' then '_' else c
    ensures Symbol(62) == '+' && Symbol(63) == '/' && Lookup('+') == 62 && Lookup('/') == 63
  {
  }
}
