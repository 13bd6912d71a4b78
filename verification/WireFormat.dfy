/** The WebSocket wire format byte by byte and bit by bit (sections 5.2 and 5.3 of RFC 6455): what
  * Parse reads and Serialize writes, in terms of the bytes of the buffer alone. */
module WireFormat {
  import opened Sizes
  import opened Bytes
  import opened Streams
  import opened WebSocketFrames

  // Bit k of b, counted from the lowest.
  predicate Bit(b: nat, k: nat)
    decreases k
  {
    if k == 0 then b % 2 == 1 else Bit(b / 2, k - 1)
  }

  lemma {:induction false} XorBitsAt(a: nat, b: nat, bits: nat, k: nat)
    requires k < bits
    ensures Bit(XorBits(a, b, bits), k) <==> Bit(a, k) != Bit(b, k)
    decreases bits
  {
    LowBit(XorBit(a, b), XorBits(a / 2, b / 2, bits - 1));
    if k > 0 { XorBitsAt(a / 2, b / 2, bits - 1, k - 1); }
  }

  // Exclusive or sets a bit iff exactly one of the two has it.
  lemma {:induction false} XorAt(a: Byte, b: Byte)
    ensures forall k | 0 <= k < 8 :: Bit(Xor(a, b), k) <==> Bit(a, k) != Bit(b, k)
  {
    forall k | 0 <= k < 8 ensures Bit(Xor(a, b), k) <==> Bit(a, k) != Bit(b, k) {
      XorIsBits(a, b);
      XorBitsAt(a, b, 8, k);
    }
  }

  // Where the payload starts, by the second byte.
  function Start(second: Byte): nat
  {
    if second == 127 then 10
    else if second == 126 then 4
    else if second < 126 then 2
    else if second == 255 then 14
    else if second == 254 then 8
    else 6
  }

  // The announced payload length.
  function Announced(data: seq<Byte>): nat
    requires |data| >= 2 && |data| >= Start(data[1])
  {
    if data[1] % 128 < 126 then data[1] % 128
    else if data[1] % 128 == 126 then Two(data[2], data[3])
    else Eight(data[2], data[3], data[4], data[5], data[6], data[7], data[8], data[9])
  }

  function Two(a: Byte, b: Byte): nat { a as int * 0x100 + b }

  // Eight bytes, the most significant first.
  function Eight(a: Byte, b: Byte, c: Byte, d: Byte, e: Byte, f: Byte, g: Byte, h: Byte): nat
  {
    a * 0x100_0000_0000_0000 + b * 0x1_0000_0000_0000 + c * 0x100_0000_0000 + d * 0x1_0000_0000 +
    e * 0x100_0000 + f * 0x1_0000 + g * 0x100 + h
  }

  lemma {:induction false} BigEndianAppend(s: seq<Byte>, b: Byte)
    ensures BigEndian(s + [b]) == 256 * BigEndian(s) + b
  {
    assert (s + [b])[..|s|] == s;
  }

  lemma {:induction false} EightIs(s: seq<Byte>)
    requires |s| == 8
    ensures BigEndian(s) == Eight(s[0], s[1], s[2], s[3], s[4], s[5], s[6], s[7])
  {
    var t: seq<Byte> := [];
    BigEndianAppend([], s[0]);
    assert [] + [s[0]] == s[..1];
    forall i | 1 <= i < 8 ensures BigEndian(s[..i + 1]) == 256 * BigEndian(s[..i]) + s[i] {
      BigEndianAppend(s[..i], s[i]);
      assert s[..i] + [s[i]] == s[..i + 1];
    }
    assert s[..8] == s;
    assert BigEndian(s[..2]) == 256 * BigEndian(s[..1]) + s[1] && BigEndian(s[..3]) == 256 * BigEndian(s[..2]) + s[2];
    assert BigEndian(s[..4]) == 256 * BigEndian(s[..3]) + s[3] && BigEndian(s[..5]) == 256 * BigEndian(s[..4]) + s[4];
    assert BigEndian(s[..6]) == 256 * BigEndian(s[..5]) + s[5] && BigEndian(s[..7]) == 256 * BigEndian(s[..6]) + s[6];
    assert BigEndian(s[..8]) == 256 * BigEndian(s[..7]) + s[7];
  }

  lemma {:induction false} HeaderMeans(data: seq<Byte>)
    requires |data| >= 2
    ensures Start(data[1]) == HeaderSize(data[1])
    ensures |data| >= Start(data[1]) ==>
              && PayloadLength(data) == Announced(data)
              && (data[1] >= 128 ==> HeaderKey(data) == data[Start(data[1]) - 4..Start(data[1])])
  {
    if |data| >= Start(data[1]) {
      if data[1] % 128 == 126 { TwoBytes(data[2..4]); }
      if data[1] % 128 == 127 { EightIs(data[2..10]); }
    }
  }

  // A payload byte under its mask byte.
  predicate Unmasks(plain: Byte, byte: Byte, key: Byte)
  {
    forall k | 0 <= k < 8 :: Bit(plain, k) <==> Bit(byte, k) != Bit(key, k)
  }

  // What a parsed frame is, read off the bytes of the buffer.
  predicate ReadsAs(data: seq<Byte>, f: Frame, size: nat)
    requires |data| >= 2 && |data| >= Start(data[1])
  {
    var pos := Start(data[1]);
    && (f.fin <==> data[0] >= 128) && f.opcode == data[0] % 16 && (f.masked <==> data[1] >= 128)
    && |f.payload| == Announced(data) && size == pos + Announced(data) <= |data|
    && (data[1] >= 128 ==> f.key == data[pos - 4..pos])
    && (forall i | 0 <= i < |f.payload| ::
          if data[1] < 128 then f.payload[i] == data[pos + i]
          else Unmasks(f.payload[i], data[pos + i], data[pos - 4 + i % 4]))
  }

  // Whenever Parse returns a frame, every field of it, bit by bit.
  lemma {:induction false} ParseMeans(data: seq<Byte>)
    requires Parsed(data).Item?
    ensures |data| >= 2 && |data| >= Start(data[1]) && ReadsAs(data, Parsed(data).value, Parsed(data).size)
  {
    HeaderMeans(data);
    var f, pos := Parsed(data).value, Start(data[1]);
    var body := data[pos..pos + Announced(data)];
    forall i | 0 <= i < |f.payload| && data[1] >= 128
      ensures Unmasks(f.payload[i], data[pos + i], data[pos - 4 + i % 4])
    {
      XorAt(body[i], HeaderKey(data)[i % 4]);
    }
  }

  // Parse returns a frame exactly when the header and the announced payload are there; it throws
  // exactly when their sizes add up to 2^64 or more.
  lemma {:induction false} ParseWhen(data: seq<Byte>)
    requires |data| <= MAX_SIZE
    ensures var header := |data| >= 2 && |data| >= Start(data[1]);
            && (Parsed(data).Item? <==> header && Start(data[1]) + Announced(data) <= |data|)
            && (Parsed(data).Fail? <==> header && Start(data[1]) + Announced(data) >= SIZE_WRAP)
  {
    if |data| >= 2 {
      HeaderMeans(data);
      FailsIff(data);
      if |data| >= Start(data[1]) && Start(data[1]) + Announced(data) < SIZE_WRAP {
        NoWrap(Start(data[1]) + Announced(data));
      }
    }
  }

  // The single-frame masked text message "Hello" of section 5.7 of RFC 6455.
  lemma {:induction false} MaskedHello(data: seq<Byte>)
    requires data == [0x81, 0x85, 0x37, 0xfa, 0x21, 0x3d, 0x7f, 0x9f, 0x4d, 0x51, 0x58]
    ensures Parsed(data) == Item(Frame(true, 1, true, [0x37, 0xfa, 0x21, 0x3d], [0x48, 0x65, 0x6c, 0x6c, 0x6f]), 11)
  {
    HelloBody(data[2..6], data[6..11]);
    ParsedIs(data, 5, data[2..6], data[6..11]);
  }

  lemma {:induction false} HelloBody(key: Key, body: seq<Byte>)
    requires key == [0x37, 0xfa, 0x21, 0x3d] && body == [0x7f, 0x9f, 0x4d, 0x51, 0x58]
    ensures Masked(body, key) == [0x48, 0x65, 0x6c, 0x6c, 0x6f]
  {
    HelloH();
    HelloEl();
    HelloLo();
    var hello: seq<Byte> := [0x48, 0x65, 0x6c, 0x6c, 0x6f];
    var plain := Masked(body, key);
    assert forall i | 0 <= i < 5 :: plain[i] == Xor(body[i], key[i % 4]);
    assert plain[0] == hello[0] && plain[1] == hello[1] && plain[2] == hello[2];
    assert plain[3] == hello[3] && plain[4] == hello[4];
  }

  lemma {:induction false} HelloH()
    ensures Xor(0x7f, 0x37) == 0x48
  {
  }

  lemma {:induction false} HelloEl()
    ensures Xor(0x9f, 0xfa) == 0x65 && Xor(0x4d, 0x21) == 0x6c
  {
  }

  lemma {:induction false} HelloLo()
    ensures Xor(0x51, 0x3d) == 0x6c && Xor(0x58, 0x37) == 0x6f
  {
  }

  // ----- Serialize -----

  // What Serialize writes, byte by byte: the payload comes unmasked behind the shortest length.
  lemma {:induction false} WireMeans(f: Frame)
    requires |f.payload| < SIZE_WRAP
    ensures var w, n := Wire(f), |f.payload|;
            && w[0] == (if f.fin then 128 else 0) + f.opcode
            && (n <= 125 ==> w[1] == n && w[2..] == f.payload)
            && (125 < n <= 65535 ==>
                  |w| == 4 + n && w[1] == 126 && Two(w[2], w[3]) == n && w[4..] == f.payload)
            && (65535 < n ==>
                  && |w| == 10 + n && w[1] == 127 && w[10..] == f.payload
                  && Eight(w[2], w[3], w[4], w[5], w[6], w[7], w[8], w[9]) == n)
  {
    var w, n, lf := Wire(f), |f.payload|, LengthField(|f.payload|);
    WirePieces((if f.fin then 128 else 0) + f.opcode, lf, f.payload);
    Pow256Values();
    if 125 < n <= 65535 {
      BigEndianRoundTrip(n, 2);
      TwoBytes(lf[1..]);
      assert w[2] == lf[1] && w[3] == lf[2];
    }
    if 65535 < n {
      BigEndianRoundTrip(n, 8);
      EightIs(lf[1..]);
      assert forall i | 1 <= i < 9 :: w[i + 1] == lf[i];
    }
  }

  lemma {:induction false} WirePieces(first: Byte, lf: seq<Byte>, payload: seq<Byte>)
    ensures var w := [first] + lf + payload;
            && w[0] == first && w[1 + |lf|..] == payload && forall i | 0 <= i < |lf| :: w[i + 1] == lf[i]
  {
  }
}
