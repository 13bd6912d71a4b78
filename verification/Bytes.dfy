/** Bytes as integers, exclusive or, and big-endian numbers. */
module Bytes {

  type Byte = x: int | 0 <= x < 256

  // ----- exclusive or, bit by bit -----

  function XorBit(a: nat, b: nat): nat
  {
    if a % 2 == b % 2 then 0 else 1
  }

  function XorBits(a: nat, b: nat, bits: nat): nat
    decreases bits
  {
    if bits == 0 then 0 else XorBit(a, b) + 2 * XorBits(a / 2, b / 2, bits - 1)
  }

  function Pow2(n: nat): nat
  {
    if n == 0 then 1 else 2 * Pow2(n - 1)
  }

  lemma {:induction false} XorBitsTwice(a: nat, b: nat, bits: nat)
    requires a < Pow2(bits)
    ensures XorBits(a, b, bits) < Pow2(bits)
    ensures XorBits(XorBits(a, b, bits), b, bits) == a
  {
    if bits > 0 {
      XorBitsTwice(a / 2, b / 2, bits - 1);
      var y := XorBits(a / 2, b / 2, bits - 1);
      LowBit(XorBit(a, b), y);
      assert XorBit(XorBit(a, b) + 2 * y, b) == a % 2;
    }
  }

  lemma {:induction false} LowBit(low: nat, y: nat)
    requires low < 2
    ensures (low + 2 * y) % 2 == low && (low + 2 * y) / 2 == y
  {
  }

  // a ^ b
  function Xor(a: Byte, b: Byte): (r: Byte)
  {
    XorBit(a, b) + 2 * XorBit(a / 2, b / 2) + 4 * XorBit(a / 4, b / 4) + 8 * XorBit(a / 8, b / 8) +
    16 * XorBit(a / 16, b / 16) + 32 * XorBit(a / 32, b / 32) + 64 * XorBit(a / 64, b / 64) +
    128 * XorBit(a / 128, b / 128)
  }

  lemma {:induction false} XorIsBits(a: Byte, b: Byte)
    ensures Xor(a, b) == XorBits(a, b, 8)
  {
    Halves(a);
    Halves(b);
    XorLow(a, b, 8);
    XorLow(a / 2, b / 2, 7);
    XorLow(a / 4, b / 4, 6);
    XorLow(a / 8, b / 8, 5);
    XorLow(a / 16, b / 16, 4);
    XorLow(a / 32, b / 32, 3);
    XorLow(a / 64, b / 64, 2);
    XorLow(a / 128, b / 128, 1);
  }

  lemma {:induction false} XorLow(a: nat, b: nat, bits: nat)
    requires bits > 0
    ensures XorBits(a, b, bits) == XorBit(a, b) + 2 * XorBits(a / 2, b / 2, bits - 1)
  {
  }

  lemma {:induction false} Halves(a: Byte)
    ensures a / 2 / 2 == a / 4 && a / 4 / 2 == a / 8 && a / 8 / 2 == a / 16 && a / 16 / 2 == a / 32
    ensures a / 32 / 2 == a / 64 && a / 64 / 2 == a / 128
  {
  }

  // Masking twice with the same byte gives the byte back.
  lemma {:induction false} XorTwice(a: Byte, b: Byte)
    ensures Xor(Xor(a, b), b) == a
  {
    XorIsBits(a, b);
    XorIsBits(Xor(a, b), b);
    assert Pow2(4) == 16 && Pow2(8) == 16 * Pow2(4);
    XorBitsTwice(a, b, 8);
  }

  // ----- big-endian numbers -----

  function BigEndian(s: seq<Byte>): nat
  {
    if s == [] then 0 else 256 * BigEndian(s[..|s| - 1]) + s[|s| - 1]
  }

  function ToBigEndian(n: nat, k: nat): (s: seq<Byte>)
    ensures |s| == k
  {
    if k == 0 then [] else ToBigEndian(n / 256, k - 1) + [n % 256]
  }

  // n >> (8 * j)
  function Shift(n: nat, j: nat): nat
  {
    if j == 0 then n else Shift(n, j - 1) / 256
  }

  function Pow256(k: nat): nat
  {
    if k == 0 then 1 else 256 * Pow256(k - 1)
  }

  lemma {:induction false} BigEndianRoundTrip(n: nat, k: nat)
    requires n < Pow256(k)
    ensures BigEndian(ToBigEndian(n, k)) == n
  {
    if k > 0 {
      BigEndianRoundTrip(n / 256, k - 1);
      var s := ToBigEndian(n, k);
      assert s[..|s| - 1] == ToBigEndian(n / 256, k - 1);
    }
  }

  lemma {:induction false} BigEndianBound(s: seq<Byte>)
    ensures BigEndian(s) < Pow256(|s|)
  {
    if s != [] {
      BigEndianBound(s[..|s| - 1]);
    }
  }

  lemma {:induction false} Pow256Values()
    ensures Pow256(2) == 0x1_0000 && Pow256(8) == 0x1_0000_0000_0000_0000
  {
    assert Pow256(1) == 256;
    assert Pow256(3) == 256 * Pow256(2) && Pow256(4) == 256 * Pow256(3);
    assert Pow256(5) == 256 * Pow256(4) && Pow256(6) == 256 * Pow256(5);
    assert Pow256(7) == 256 * Pow256(6);
  }
}
