/** Strings as the C++ code uses them: substring search, decimal printing and reading. */
module Text {
  import opened Options

  const CRLF: string := "\r\n"

  // ----- std::string::find -----

  predicate OccursAt(text: string, pat: string, i: nat)
  {
    i + |pat| <= |text| && text[i..i + |pat|] == pat
  }

  function Find(text: string, pat: string, start: nat): (r: Option<nat>)
    ensures r.Some? ==> r.value >= start && OccursAt(text, pat, r.value)
    decreases |text| - start
  {
    if start + |pat| > |text| then None
    else if OccursAt(text, pat, start) then Some(start)
    else Find(text, pat, start + 1)
  }

  // find returns the first occurrence, or npos when there is none.
  lemma {:induction false} FindFirst(text: string, pat: string, start: nat, k: nat)
    requires start <= k && OccursAt(text, pat, k) && forall j | start <= j < k :: !OccursAt(text, pat, j)
    ensures Find(text, pat, start) == Some(k)
    decreases k - start
  {
    if start < k {
      FindFirst(text, pat, start + 1, k);
    }
  }

  lemma {:induction false} FindNone(text: string, pat: string, start: nat)
    requires forall j | start <= j :: !OccursAt(text, pat, j)
    ensures Find(text, pat, start) == None
    decreases |text| - start
  {
    if start + |pat| <= |text| {
      FindNone(text, pat, start + 1);
    }
  }

  lemma {:induction false} FindSkips(text: string, pat: string, start: nat)
    ensures Find(text, pat, start).Some? ==> forall j | start <= j < Find(text, pat, start).value ::
            !OccursAt(text, pat, j)
    ensures Find(text, pat, start).None? ==> forall j | start <= j :: !OccursAt(text, pat, j)
    decreases |text| - start
  {
    if start + |pat| <= |text| && !OccursAt(text, pat, start) {
      FindSkips(text, pat, start + 1);
    }
  }

  // ----- decimal numbers -----

  predicate IsDigit(c: char) { '0' <= c <= '9' }

  function DigitChar(d: nat): (c: char)
    requires d < 10
    ensures IsDigit(c)
  {
    '0' + d as char
  }

  function DigitValue(c: char): (d: nat)
    requires IsDigit(c)
    ensures d < 10
  {
    c as int - '0' as int
  }

  // std::to_string
  function NatText(n: nat): (s: string)
    ensures |s| > 0 && forall c | c in s :: IsDigit(c)
  {
    if n < 10 then [DigitChar(n)] else NatText(n / 10) + [DigitChar(n % 10)]
  }

  function IntText(n: int): string
  {
    if n < 0 then "-" + NatText(-n) else NatText(n)
  }

  // The number of leading digits, and the value of a string of digits.
  function DigitRun(s: string): (n: nat)
    ensures n <= |s| && forall i | 0 <= i < n :: IsDigit(s[i])
  {
    if s == [] || !IsDigit(s[0]) then 0 else 1 + DigitRun(s[1..])
  }

  function NatValue(s: string): nat
    requires forall i | 0 <= i < |s| :: IsDigit(s[i])
  {
    if s == [] then 0 else 10 * NatValue(s[..|s| - 1]) + DigitValue(s[|s| - 1])
  }

  predicate IsSpace(c: char)
  {
    c == ' ' || '\t' <= c <= '\r'
  }

  function SkipSpaces(s: string): string
  {
    if s != [] && IsSpace(s[0]) then SkipSpaces(s[1..]) else s
  }

  // strtol base 10: white space, an optional sign, digits; None when there are no digits.
  function ReadNumber(s: string): Option<int>
  {
    ReadSigned(SkipSpaces(s))
  }

  function ReadSigned(s: string): Option<int>
  {
    if s != [] && s[0] == '-' then
      match ReadDigits(s[1..])
      case None => None
      case Some(n) => Some(0 - n)
    else if s != [] && s[0] == '+' then ReadDigits(s[1..])
    else ReadDigits(s)
  }

  function ReadDigits(s: string): Option<int>
  {
    var n := DigitRun(s);
    if n == 0 then None else Some(NatValue(s[..n]))
  }

  const INT_MIN: int := -0x8000_0000
  const INT_MAX: int := 0x7FFF_FFFF
  const LONG_MIN: int := -0x8000_0000_0000_0000
  const LONG_MAX: int := 0x7FFF_FFFF_FFFF_FFFF

  // std::stoi and std::stol: None stands for their exceptions.
  function Stoi(s: string): Option<int>
  {
    match ReadNumber(s)
    case None => None
    case Some(n) => if INT_MIN <= n <= INT_MAX then Some(n) else None
  }

  function Stol(s: string): Option<int>
  {
    match ReadNumber(s)
    case None => None
    case Some(n) => if LONG_MIN <= n <= LONG_MAX then Some(n) else None
  }

  function Pow10(k: nat): nat
  {
    if k == 0 then 1 else 10 * Pow10(k - 1)
  }

  lemma {:induction false} Pow10Values()
    ensures Pow10(19) == 10_000_000_000_000_000_000 && Pow10(20) == 10 * Pow10(19)
  {
    assert Pow10(1) == 10 && Pow10(2) == 10 * Pow10(1) && Pow10(3) == 10 * Pow10(2) && Pow10(4) == 10 * Pow10(3);
    assert Pow10(5) == 10 * Pow10(4) && Pow10(6) == 10 * Pow10(5) && Pow10(7) == 10 * Pow10(6);
    assert Pow10(8) == 10 * Pow10(7) && Pow10(9) == 10 * Pow10(8) && Pow10(10) == 10 * Pow10(9);
    assert Pow10(11) == 10 * Pow10(10) && Pow10(12) == 10 * Pow10(11) && Pow10(13) == 10 * Pow10(12);
    assert Pow10(14) == 10 * Pow10(13) && Pow10(15) == 10 * Pow10(14) && Pow10(16) == 10 * Pow10(15);
    assert Pow10(17) == 10 * Pow10(16) && Pow10(18) == 10 * Pow10(17);
  }

  lemma {:induction false} DigitCount(n: nat, k: nat)
    requires k > 0 && n < Pow10(k) && (k > 1 ==> n >= Pow10(k - 1))
    ensures |NatText(n)| == k
  {
    if k > 1 {
      DigitCount(n / 10, k - 1);
    }
  }

  lemma {:induction false} NatTextValue(n: nat)
    ensures NatValue(NatText(n)) == n
  {
    if n < 10 {
      assert NatText(n)[..0] == [];
    } else {
      NatTextValue(n / 10);
      var s := NatText(n);
      assert s[..|s| - 1] == NatText(n / 10);
    }
  }

  lemma {:induction false} DigitRunIs(ds: string, rest: string)
    requires (forall c | c in ds :: IsDigit(c)) && (rest == [] || !IsDigit(rest[0]))
    ensures DigitRun(ds + rest) == |ds|
  {
    if ds == [] {
      assert ds + rest == rest;
    } else {
      assert (ds + rest)[1..] == ds[1..] + rest;
      DigitRunIs(ds[1..], rest);
    }
  }

  lemma {:induction false} ReadNat(n: nat, rest: string)
    requires rest == [] || !IsDigit(rest[0])
    ensures ReadDigits(NatText(n) + rest) == Some(n)
  {
    var ds := NatText(n);
    DigitRunIs(ds, rest);
    NatTextValue(n);
    assert (ds + rest)[..|ds|] == ds;
  }

  lemma {:induction false} ReadNegative(n: nat, rest: string)
    requires rest == [] || !IsDigit(rest[0])
    ensures ReadNumber("-" + NatText(n) + rest) == Some(0 - n)
  {
    ReadNat(n, rest);
    var s := "-" + NatText(n) + rest;
    assert s[1..] == NatText(n) + rest;
    assert SkipSpaces(s) == s;
  }

  lemma {:induction false} ReadPositive(n: nat, rest: string)
    requires rest == [] || !IsDigit(rest[0])
    ensures ReadNumber(NatText(n) + rest) == Some(n)
  {
    ReadNat(n, rest);
    var s := NatText(n) + rest;
    assert NatText(n)[0] in NatText(n);
    assert IsDigit(s[0]);
    assert SkipSpaces(s) == s;
  }

  // What to_string printed, strtol reads back, whatever non-digit follows.
  lemma {:induction false} ReadPrinted(n: int, rest: string)
    requires rest == [] || !IsDigit(rest[0])
    ensures ReadNumber(IntText(n) + rest) == Some(n)
  {
    if n < 0 { ReadNegative(-n, rest); } else { ReadPositive(n, rest); }
  }

  // ----- examples -----

  lemma {:induction false} Printed()
    ensures NatText(0) == "0" && NatText(1207) == "1207" && IntText(-35) == "-35"
  {
    assert NatText(1) == "1" && NatText(12) == "12" && NatText(120) == "120" && NatText(3) == "3";
  }

  // Leading white space, a sign, and digits up to the first other character; else an exception.
  lemma {:induction false} Scanned()
    ensures Stoi(" +12x") == Some(12) && Stoi("-7\r\n") == Some(-7)
  {
    ScannedDigits("12", 12, "x");
    ScannedDigits("7", 7, "\r\n");
    assert " +12x"[1..] == "+12x" && "+12x"[1..] == "12" + "x" && "-7\r\n"[1..] == "7" + "\r\n";
  }

  lemma {:induction false} ScannedDigits(ds: string, n: nat, rest: string)
    requires (ds == "12" && n == 12) || (ds == "7" && n == 7)
    requires rest != [] && !IsDigit(rest[0])
    ensures ReadDigits(ds + rest) == Some(n)
  {
    assert NatText(1) == "1" && NatText(12) == "12" && NatText(7) == "7";
    ReadNat(n, rest);
  }

  lemma {:induction false} NotScanned()
    ensures Stoi("") == None && Stoi("x1") == None && Stoi("-") == None
  {
    assert "-"[1..] == "";
  }
}
