/** WebSocket framing (WebSocketFrame.h; sections 5.2 and 5.3 of RFC 6455).
  *
  * `Serialize` writes unmasked server frames; `Parse` reads masked and unmasked ones.  Bit masks
  * on bytes are written arithmetically: `b & 0x80 != 0` is `b >= 128`, `b & 0x7F` is `b % 128`.
  */
module WebSocketFrames {
  import opened Sizes
  import opened Bytes
  import opened Streams

  type Opcode = x: int | 0 <= x < 16
  const TEXT: Opcode := 1
  const BINARY: Opcode := 2
  const CLOSE: Opcode := 8
  const PING: Opcode := 9
  const PONG: Opcode := 10

  type Key = k: seq<Byte> | |k| == 4 witness [0, 0, 0, 0]
  const NO_KEY: Key := [0, 0, 0, 0]

  datatype Frame = Frame(fin: bool, opcode: Opcode, masked: bool, key: Key, payload: seq<Byte>)

  // size_t arithmetic wraps at 2^64; std::vector<uint8_t>::resize throws beyond max_size().
  const MAX_SIZE: nat := 0x7FFF_FFFF_FFFF_FFFF

  // nullopt is More; Fail is the std::length_error of an impossible resize.
  type Outcome = Cut<Frame>

  function Masked(s: seq<Byte>, key: Key): (r: seq<Byte>)
    ensures |r| == |s|
  {
    seq(|s|, i requires 0 <= i < |s| => Xor(s[i], key[i % 4]))
  }

  // ----- the header -----

  // How many extended length bytes the second byte announces.
  function ExtendedLength(b: Byte): nat
  {
    if b % 128 == 126 then 2 else if b % 128 == 127 then 8 else 0
  }

  function HeaderSize(b: Byte): nat
  {
    2 + ExtendedLength(b) + if b >= 128 then 4 else 0
  }

  function PayloadLength(data: seq<Byte>): nat
    requires |data| >= 2 && |data| >= 2 + ExtendedLength(data[1])
  {
    var ext := ExtendedLength(data[1]);
    if ext == 0 then data[1] % 128 else BigEndian(data[2..2 + ext])
  }

  function HeaderKey(data: seq<Byte>): Key
    requires |data| >= 2 && |data| >= HeaderSize(data[1])
  {
    var at := 2 + ExtendedLength(data[1]);
    if data[1] >= 128 then data[at..at + 4] else NO_KEY
  }

  // What Parse answers, read off the whole buffer.
  function Parsed(data: seq<Byte>): (r: Outcome)
    ensures r.Item? ==> 2 <= r.size <= |data|
  {
    if |data| < 2 || |data| < HeaderSize(data[1]) then More
    else
      var pos, len, key := HeaderSize(data[1]), PayloadLength(data), HeaderKey(data);
      if |data| < (pos + len) % SIZE_WRAP then More
      else if len > MAX_SIZE then Fail
      else Unpacked(data[0], data[1] >= 128, key, data[pos..pos + len], pos + len)
  }

  // The frame with this first byte, mask bit, key and body.
  function Unpacked(first: Byte, masked: bool, key: Key, body: seq<Byte>, size: nat): Outcome
  {
    Item(Frame(first >= 128, first % 16, masked, key, if masked then Masked(body, key) else body), size)
  }

  // ----- Parse and Serialize as the code runs -----

  // The header part of Parse: extended length and masking key.
  method ReadHeader(data: seq<Byte>) returns (enough: bool, pos: nat, len: nat, key: Key)
    requires |data| >= 2
    ensures enough <==> |data| >= HeaderSize(data[1])
    ensures enough ==> pos == HeaderSize(data[1]) && len == PayloadLength(data) && key == HeaderKey(data)
  {
    enough, pos, len, key := false, 2, data[1] % 128, NO_KEY;
    if len == 126 {
      if |data| < pos + 2 {
        return;
      }
      len := data[pos] as int * 256 + data[pos + 1];
      TwoBytes(data[2..4]);
      pos := pos + 2;
    } else if len == 127 {
      if |data| < pos + 8 {
        return;
      }
      len := ReadLength(data[pos..pos + 8]);
      pos := pos + 8;
    }
    if data[1] >= 128 {
      if |data| < pos + 4 {
        return;
      }
      key := data[pos..pos + 4];
      pos := pos + 4;
    }
    enough := true;
  }

  method Parse(data: seq<Byte>) returns (r: Outcome)
    ensures r == Parsed(data)
  {
    if |data| < 2 {
      return More;
    }
    var fin, opcode, masked := data[0] >= 128, data[0] % 16, data[1] >= 128;
    var enough, pos, len, key := ReadHeader(data);
    if !enough || |data| < (pos + len) % SIZE_WRAP {
      return More;
    }
    if len > MAX_SIZE {
      return Fail;
    }
    var payload := data[pos..pos + len];
    if masked {
      payload := Unmask(payload, key);
    }
    return Item(Frame(fin, opcode, masked, key, payload), pos + len);
  }

  // The shift-and-or loop over the eight length bytes.
  method ReadLength(bytes: seq<Byte>) returns (len: nat)
    ensures len == BigEndian(bytes)
  {
    len := 0;
    for i := 0 to |bytes|
      invariant len == BigEndian(bytes[..i])
    {
      assert bytes[..i + 1][..i] == bytes[..i];
      len := 256 * len + bytes[i];
    }
    assert bytes[..|bytes|] == bytes;
  }

  lemma {:induction false} TwoBytes(s: seq<Byte>)
    requires |s| == 2
    ensures BigEndian(s) == s[0] as int * 256 + s[1]
  {
    assert s[..1] == [s[0]] && [s[0]][..0] == [];
    assert BigEndian(s) == 256 * BigEndian(s[..1]) + s[1];
    assert BigEndian([s[0]]) == 256 * BigEndian([]) + s[0];
  }

  // The in-place XOR loop.
  method Unmask(body: seq<Byte>, key: Key) returns (payload: seq<Byte>)
    ensures payload == Masked(body, key)
  {
    payload := body;
    for i := 0 to |body|
      invariant |payload| == |body|
      invariant forall j | 0 <= j < i :: payload[j] == Xor(body[j], key[j % 4])
      invariant forall j | i <= j < |body| :: payload[j] == body[j]
    {
      payload := payload[i := Xor(payload[i], key[i % 4])];
    }
  }

  function LengthField(n: nat): (s: seq<Byte>)
    ensures |s| >= 1
  {
    if n <= 125 then [n]
    else if n <= 65535 then [126] + ToBigEndian(n, 2)
    else [127] + ToBigEndian(n, 8)
  }

  // The bytes Serialize produces: always unmasked.
  function Wire(f: Frame): (s: seq<Byte>)
    ensures |s| >= 2
  {
    [(if f.fin then 128 else 0) + f.opcode] + LengthField(|f.payload|) + f.payload
  }

  method Serialize(f: Frame) returns (out: seq<Byte>)
    ensures out == Wire(f)
  {
    var n := |f.payload|;
    out := [(if f.fin then 128 else 0) + f.opcode];
    if n <= 125 {
      out := out + [n];
    } else if n <= 65535 {
      out := out + [126];
      out := out + [n / 256 % 256];
      out := out + [n % 256];
      assert ToBigEndian(n, 2) == [n / 256 % 256, n % 256] by {
        assert ToBigEndian(n / 256, 1) == [] + [n / 256 % 256];
      }
    } else {
      out := out + [127];
      ghost var head := out;
      var i := 8;
      while i > 0
        invariant i <= 8
        invariant out == head + ToBigEndian(Shift(n, i), 8 - i)
      {
        i := i - 1;
        assert ToBigEndian(Shift(n, i), 8 - i) == ToBigEndian(Shift(n, i + 1), 7 - i) + [Shift(n, i) % 256];
        out := out + [Shift(n, i) % 256];
      }
    }
    out := out + f.payload;
  }

  // ----- framing theorems -----

  lemma {:induction false} SliceConcat(a: seq<Byte>, b: seq<Byte>, i: nat, j: nat)
    requires i <= j <= |a|
    ensures (a + b)[i..j] == a[i..j]
  {
  }

  // A complete parse is not changed by what follows.
  lemma {:induction false} ParseExtends(data: seq<Byte>, rest: seq<Byte>)
    ensures !Parsed(data).More? ==> Parsed(data + rest) == Parsed(data)
  {
    if !Parsed(data).More? {
      var ext, pos := ExtendedLength(data[1]), HeaderSize(data[1]);
      SliceConcat(data, rest, 2, 2 + ext);
      if data[1] >= 128 { SliceConcat(data, rest, 2 + ext, 2 + ext + 4); }
      var len := PayloadLength(data);
      assert PayloadLength(data + rest) == len && HeaderKey(data + rest) == HeaderKey(data);
      if len <= MAX_SIZE {
        SliceConcat(data, rest, pos, pos + len);
      }
    }
  }

  // No strict prefix of a complete frame parses.
  lemma {:induction false} ParsePrefix(data: seq<Byte>, k: nat)
    requires Parsed(data).Item? && k < Parsed(data).size
    ensures Parsed(data[..k]) == More
  {
    ParseExtends(data[..k], data[k..]);
    assert data[..k] + data[k..] == data;
  }

  // The only exception is the wrap of pos + len, which needs a length close to 2^64.
  lemma {:induction false} FailsIff(data: seq<Byte>)
    requires |data| <= MAX_SIZE
    ensures Parsed(data).Fail? <==>
              |data| >= 2 && |data| >= HeaderSize(data[1]) && HeaderSize(data[1]) + PayloadLength(data) >= SIZE_WRAP
  {
    if |data| >= 2 && |data| >= HeaderSize(data[1]) {
      var ext := ExtendedLength(data[1]);
      BigEndianBound(data[2..2 + ext]);
      Pow256Values();
      var sum := HeaderSize(data[1]) + PayloadLength(data);
      assert sum < 2 * SIZE_WRAP;
      if sum >= SIZE_WRAP {
        assert sum % SIZE_WRAP == sum - SIZE_WRAP;
      } else {
        assert sum % SIZE_WRAP == sum;
      }
    }
  }

  lemma {:induction false} AllOnes(s: seq<Byte>)
    requires forall i | 0 <= i < |s| :: s[i] == 255
    ensures BigEndian(s) == Pow256(|s|) - 1
  {
    if s != [] { AllOnes(s[..|s| - 1]); }
  }

  // The ten bytes of a header that announces 2^64 - 1 bytes make it throw.
  lemma {:induction false} HugeLengthFails()
    ensures Parsed([130, 127, 255, 255, 255, 255, 255, 255, 255, 255]).Fail?
  {
    var data: seq<Byte> := [130, 127, 255, 255, 255, 255, 255, 255, 255, 255];
    assert data[2..10] == [255, 255, 255, 255, 255, 255, 255, 255];
    AllOnes(data[2..10]);
    Pow256Values();
    FailsIff(data);
  }

  // A length with the top bit clear, as section 5.2 demands, never wraps.
  lemma {:induction false} TopBitClear(data: seq<Byte>)
    requires |data| <= MAX_SIZE && (|data| >= 3 && data[1] % 128 == 127 ==> data[2] < 128)
    ensures !Parsed(data).Fail?
  {
    FailsIff(data);
    if |data| >= 2 && |data| >= HeaderSize(data[1]) {
      Pow256Values();
      var ext := ExtendedLength(data[1]);
      var field := data[2..2 + ext];
      if ext == 8 {
        HighByte(field);
        assert field[0] == data[2];
      } else if ext == 2 {
        BigEndianBound(field);
      }
    }
  }

  lemma {:induction false} HighByte(s: seq<Byte>)
    requires |s| > 0
    ensures BigEndian(s) < (s[0] + 1) * Pow256(|s| - 1)
  {
    if |s| > 1 {
      var t := s[..|s| - 1];
      HighByte(t);
      assert t[0] == s[0];
      assert 256 * ((s[0] + 1) * Pow256(|t| - 1)) == (s[0] + 1) * Pow256(|s| - 1) by {
        assert Pow256(|s| - 1) == 256 * Pow256(|t| - 1);
      }
    } else {
      assert BigEndian(s) == 256 * BigEndian(s[..0]) + s[0];
    }
  }

  // ----- round trips -----

  // A frame as section 5.2 lays it out, with section 5.3's masking when asked for.
  function Encoded(f: Frame): (s: seq<Byte>)
  {
    var lf := LengthField(|f.payload|);
    var first := [(if f.fin then 128 else 0) + f.opcode];
    if f.masked then first + [lf[0] % 128 + 128] + lf[1..] + f.key + Masked(f.payload, f.key)
    else first + lf + f.payload
  }

  // What the second byte and the length bytes say.
  lemma {:induction false} LengthFieldReads(n: nat, masked: bool)
    requires n <= MAX_SIZE
    ensures var lf := LengthField(n);
            var b: Byte := if masked then lf[0] % 128 + 128 else lf[0];
            && |lf| == 1 + ExtendedLength(b) && lf[0] < 128
            && n == (if ExtendedLength(b) == 0 then b % 128 else BigEndian(lf[1..]))
  {
    Pow256Values();
    if n > 65535 {
      BigEndianRoundTrip(n, 8);
      assert LengthField(n)[1..] == ToBigEndian(n, 8);
    } else if n > 125 {
      BigEndianRoundTrip(n, 2);
      assert LengthField(n)[1..] == ToBigEndian(n, 2);
    }
  }

  lemma {:induction false} MaskedTwice(s: seq<Byte>, key: Key)
    ensures Masked(Masked(s, key), key) == s
  {
    forall i | 0 <= i < |s| ensures Masked(Masked(s, key), key)[i] == s[i] {
      XorTwice(s[i], key[i % 4]);
    }
  }

  // The pieces of an encoded frame, at the positions where Parse looks for them.
  lemma {:induction false} EncodedPieces(f: Frame, rest: seq<Byte>)
    requires |f.payload| <= MAX_SIZE
    ensures var d, lf := Encoded(f) + rest, LengthField(|f.payload|);
            && |Encoded(f)| == HeaderSize(d[1]) + |f.payload|
            && d[0] == (if f.fin then 128 else 0) + f.opcode
            && d[1] == (if f.masked then lf[0] % 128 + 128 else lf[0])
            && d[2..2 + ExtendedLength(d[1])] == lf[1..]
            && (f.masked ==> d[2 + ExtendedLength(d[1])..HeaderSize(d[1])] == f.key)
            && d[HeaderSize(d[1])..HeaderSize(d[1]) + |f.payload|] ==
              (if f.masked then Masked(f.payload, f.key) else f.payload)
  {
    LengthFieldReads(|f.payload|, f.masked);
    var lf := LengthField(|f.payload|);
    var second: Byte := if f.masked then lf[0] % 128 + 128 else lf[0];
    EncodedSplit(f, second);
    Pieces([(if f.fin then 128 else 0) + f.opcode], second, lf[1..], if f.masked then f.key else [],
           if f.masked then Masked(f.payload, f.key) else f.payload, rest);
  }

  lemma {:induction false} EncodedSplit(f: Frame, second: Byte)
    requires second == if f.masked then LengthField(|f.payload|)[0] % 128 + 128 else LengthField(|f.payload|)[0]
    ensures Encoded(f) == [(if f.fin then 128 else 0) + f.opcode] + [second] + LengthField(|f.payload|)[1..] +
                          (if f.masked then f.key else []) + (if f.masked then Masked(f.payload, f.key) else f.payload)
  {
    var lf := LengthField(|f.payload|);
    assert lf == [lf[0]] + lf[1..];
    if !f.masked {
      var first := [(if f.fin then 128 else 0) + f.opcode];
      assert first + lf == first + [lf[0]] + lf[1..] + [];
    }
  }

  lemma {:induction false} Pieces(first: seq<Byte>, second: Byte, len: seq<Byte>, key: seq<Byte>, body: seq<Byte>,
      rest: seq<Byte>)
    requires |first| == 1
    ensures var d := first + [second] + len + key + body + rest;
            && d[0] == first[0] && d[1] == second
            && d[2..2 + |len|] == len
            && d[2 + |len|..2 + |len| + |key|] == key
            && d[2 + |len| + |key|..2 + |len| + |key| + |body|] == body
  {
  }

  lemma {:induction false} ParsedIs(d: seq<Byte>, len: nat, key: Key, body: seq<Byte>)
    requires |d| >= 2 && |d| >= HeaderSize(d[1]) && PayloadLength(d) == len <= MAX_SIZE && HeaderKey(d) == key
    requires HeaderSize(d[1]) + len <= |d| && d[HeaderSize(d[1])..HeaderSize(d[1]) + len] == body
    ensures Parsed(d) == Unpacked(d[0], d[1] >= 128, key, body, HeaderSize(d[1]) + len)
  {
    NoWrap(HeaderSize(d[1]) + len);
  }

  lemma {:induction false} NoWrap(n: nat)
    requires n < SIZE_WRAP
    ensures n % SIZE_WRAP == n
  {
  }

  lemma {:induction false} EncodedHeader(f: Frame, rest: seq<Byte>)
    requires |f.payload| <= MAX_SIZE && (!f.masked ==> f.key == NO_KEY)
    ensures var d := Encoded(f) + rest;
            && |d| >= 2 && |d| >= HeaderSize(d[1]) + |f.payload| && |Encoded(f)| == HeaderSize(d[1]) + |f.payload|
            && (d[0] >= 128 <==> f.fin) && d[0] % 16 == f.opcode && (d[1] >= 128 <==> f.masked)
            && PayloadLength(d) == |f.payload| && HeaderKey(d) == f.key
  {
    EncodedPieces(f, rest);
    HeaderReads(Encoded(f) + rest, f);
  }

  lemma {:induction false} HeaderReads(d: seq<Byte>, f: Frame)
    requires |f.payload| <= MAX_SIZE && (!f.masked ==> f.key == NO_KEY) && |d| >= 2 && |d| >= HeaderSize(d[1])
    requires d[0] == (if f.fin then 128 else 0) + f.opcode
    requires var lf := LengthField(|f.payload|);
             d[1] == (if f.masked then lf[0] % 128 + 128 else lf[0]) && d[2..2 + ExtendedLength(d[1])] == lf[1..]
    requires f.masked ==> d[2 + ExtendedLength(d[1])..HeaderSize(d[1])] == f.key
    ensures (d[0] >= 128 <==> f.fin) && d[0] % 16 == f.opcode && (d[1] >= 128 <==> f.masked)
    ensures PayloadLength(d) == |f.payload| && HeaderKey(d) == f.key
  {
    LengthFieldReads(|f.payload|, f.masked);
  }

  // Parse recovers any encoded frame, masked or not, in all three length tiers, and consumes
  // exactly its bytes.
  lemma {:induction false} ParseEncoded(f: Frame, rest: seq<Byte>)
    requires |f.payload| <= MAX_SIZE && (!f.masked ==> f.key == NO_KEY)
    ensures Parsed(Encoded(f) + rest) == Item(f, |Encoded(f)|)
  {
    EncodedHeader(f, rest);
    assert (Encoded(f) + rest)[HeaderSize((Encoded(f) + rest)[1])..|Encoded(f)|]
        == (if f.masked then Masked(f.payload, f.key) else f.payload) by { EncodedPieces(f, rest); }
    MaskedTwice(f.payload, f.key);
    ParsedIs(Encoded(f) + rest, |f.payload|, f.key, if f.masked then Masked(f.payload, f.key) else f.payload);
  }

  // Serialize and Parse: the payload, opcode and fin bit survive; the mask, which Serialize never
  // writes, does not.
  lemma {:induction false} ParseSerialized(f: Frame, rest: seq<Byte>)
    requires |f.payload| <= MAX_SIZE
    ensures Parsed(Wire(f) + rest) == Item(f.(masked := false, key := NO_KEY), |Wire(f)|)
    ensures forall k | 0 <= k < |Wire(f)| :: Parsed(Wire(f)[..k]) == More
  {
    var g := f.(masked := false, key := NO_KEY);
    assert Wire(f) == Encoded(g);
    ParseEncoded(g, rest);
    ParseEncoded(g, []);
    assert Encoded(g) + [] == Encoded(g);
    forall k | 0 <= k < |Wire(f)| ensures Parsed(Wire(f)[..k]) == More {
      ParsePrefix(Wire(f), k);
    }
  }

  // ----- decoding a byte stream -----

  lemma {:induction false} ParsedFraming()
    ensures Framing(Parsed)
  {
    forall a, b | !Parsed(a).More? ensures Parsed(a + b) == Parsed(a) {
      ParseExtends(a, b);
    }
  }

  // The decoded frames of a stream of encoded frames are those frames.
  lemma {:induction false} DecodeFrames(fs: seq<Frame>, rest: seq<Byte>)
    requires forall f | f in fs :: |f.payload| <= MAX_SIZE && (!f.masked ==> f.key == NO_KEY)
    ensures Decode(Parsed, EncodeAll(Encoded, fs) + rest) ==
            Decoded(fs + Decode(Parsed, rest).items, Decode(Parsed, rest).rest)
  {
    forall f | f in fs ensures Reads(Parsed, Encoded, f) {
      forall more ensures Parsed(Encoded(f) + more) == Item(f, |Encoded(f)|) {
        ParseEncoded(f, more);
      }
      EncodedPieces(f, []);
    }
    DecodeEncoded(Parsed, Encoded, fs, rest);
  }

  // However a stream is cut into chunks, decoding as they arrive yields the frames and the
  // leftover of decoding the whole.
  lemma {:induction false} FramesUnchunked(chunks: seq<seq<Byte>>)
    ensures DecodeChunks(Parsed, chunks) == Decode(Parsed, Concat(chunks))
  {
    ParsedFraming();
    ChunkingIrrelevant(Parsed, chunks);
  }
}
