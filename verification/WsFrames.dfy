/** WebSocket frames (RFC 6455, section 5.2) as `src/mongoose.c` writes and reads them. */
module WsFrames {
  import opened Bytes

  const FIN: int := 0x80
  const OP_CONTINUE: int := 0
  const OP_TEXT: int := 1
  const OP_BINARY: int := 2
  const OP_CLOSE: int := 8
  const OP_PING: int := 9
  const OP_PONG: int := 10

  // ------------------------------------------------------------------ masking

  type MaskKey = k: seq<byte> | |k| == 4 witness [0, 0, 0, 0]

  function Masked(data: seq<byte>, key: MaskKey): (r: seq<byte>)
    ensures |r| == |data|
  {
    seq(|data|, i requires 0 <= i < |data| => Xor(data[i], key[i % 4]))
  }

  /** Unmasking with the key that masked gives the payload back. */
  lemma MaskedTwice(data: seq<byte>, key: MaskKey)
    ensures Masked(Masked(data, key), key) == data
  {
    hide Xor;
    forall i | 0 <= i < |data|
      ensures Xor(Xor(data[i], key[i % 4]), key[i % 4]) == data[i]
    {
      XorInvolution(data[i], key[i % 4]);
    }
  }

  /** Byte `i` of a masked payload is the exclusive or of its own byte and byte `i` modulo 4 of the key. */
  lemma MaskedBits(data: seq<byte>, key: MaskKey, i: nat, bit: nat)
    requires i < |data| && bit < 8
    ensures Bit(Masked(data, key)[i], bit) == 1 <==> Bit(data[i], bit) != Bit(key[i % 4], bit)
    ensures Bit(Masked(data, key)[i], bit) in {0, 1}
  {
    hide Xor;
    XorIsExclusive(data[i], key[i % 4], bit);
  }

  // ------------------------------------------------------------------ frames

  type Nibble = n: int | 0 <= n < 16

  /** A payload whose length leaves room for the frame header in 64 bits. */
  type Sized = s: seq<byte> | |s| < 0x8000_0000_0000_0000

  datatype Frame = Frame(fin: bool, op: Nibble, key: Option<MaskKey>, payload: Sized)

  function BigEndian(n: nat, width: nat): (r: seq<byte>)
    ensures |r| == width
  {
    if width == 0 then [] else BigEndian(n / 256, width - 1) + [n % 256]
  }

  function FromBigEndian(s: seq<byte>): nat {
    if s == [] then 0 else FromBigEndian(s[..|s| - 1]) * 256 + s[|s| - 1]
  }

  function Pow256(n: nat): nat {
    if n == 0 then 1 else 256 * Pow256(n - 1)
  }

  lemma {:induction false} BigEndianInverse(n: nat, width: nat)
    requires n < Pow256(width)
    ensures FromBigEndian(BigEndian(n, width)) == n
  {
    if width > 0 {
      BigEndianInverse(n / 256, width - 1);
      assert BigEndian(n, width)[..width - 1] == BigEndian(n / 256, width - 1);
    }
  }

  lemma {:induction false} FromBigEndianBound(s: seq<byte>)
    ensures FromBigEndian(s) < Pow256(|s|)
  {
    if s != [] {
      FromBigEndianBound(s[..|s| - 1]);
    }
  }

  /** Network byte order: each byte counts 256 times as much as the one behind it. */
  lemma {:induction false} MostSignificantFirst(b: byte, s: seq<byte>)
    ensures FromBigEndian([b] + s) == b * Pow256(|s|) + FromBigEndian(s)
  {
    if s == [] {
      assert [b] + s == [b];
    } else {
      var n := |s| - 1;
      assert ([b] + s)[..|s|] == [b] + s[..n];
      MostSignificantFirst(b, s[..n]);
    }
  }

  lemma Pow256s()
    ensures Pow256(2) == 0x1_0000 && Pow256(8) == 0x1_0000_0000_0000_0000
  {
    assert Pow256(4) == 0x1_0000_0000;
    assert Pow256(6) == 0x1_0000_0000_0000;
  }

  function FirstByte(f: Frame): byte
  {
    (if f.fin then FIN else 0) + f.op
  }

  /** The length field; a length of exactly 65535 already takes the 64-bit form. */
  function LengthField(len: nat, maskBit: byte): seq<byte>
    requires maskBit in {0, 0x80} && len < 0x8000_0000_0000_0000
  {
    if len < 126 then [maskBit + len]
    else if len < 65535 then [maskBit + 126] + BigEndian(len, 2)
    else [maskBit + 127] + BigEndian(len, 8)
  }

  function Encode(f: Frame): seq<byte>
  {
    match f.key
    case None => [FirstByte(f)] + LengthField(|f.payload|, 0) + f.payload
    case Some(key) => [FirstByte(f)] + LengthField(|f.payload|, 0x80) + key + Masked(f.payload, key)
  }

  // ------------------------------------------------------------------ reading a header

  /** What the first bytes of `d` say: not enough, a length that overflows 64 bits, or a frame of
      `size` payload bytes behind a header of `len` bytes. */
  datatype Header = Incomplete | Overflow | Header(len: nat, size: nat, masked: bool)

  const U64: int := 0x1_0000_0000_0000_0000

  /** Length of the header and of the payload; both 0 while the header is incomplete. */
  function Lengths(d: seq<byte>): (r: (nat, nat))
    ensures r.0 <= 14 && (r.0 > 0 ==> 2 <= r.0)
  {
    if |d| < 2 then (0, 0)
    else
      var len7 := d[1] % 128;
      var mask := if d[1] >= 128 then 4 else 0;
      if len7 < 126 && |d| >= mask then (2 + mask, len7)
      else if len7 == 126 && |d| >= 4 + mask then (4 + mask, FromBigEndian(d[2..4]))
      else if |d| >= 10 + mask then (10 + mask, FromBigEndian(d[2..10]))
      else (0, 0)
  }

  function ReadHeader(d: seq<byte>): (h: Header)
    ensures h.Header? ==> 2 <= h.len && h.len + h.size <= |d| && (h.masked ==> h.len >= 6)
  {
    var (headerLen, dataLen) := Lengths(d);
    var frameLen := (headerLen + dataLen) % U64;
    if frameLen < headerLen || frameLen < dataLen then Overflow
    else if 0 < frameLen <= |d| then
      LengthsExact(d);
      Header(headerLen, dataLen, d[1] >= 128)
    else Incomplete
  }

  lemma LengthsExact(d: seq<byte>)
    ensures var (h, n) := Lengths(d);
            var frameLen := (h + n) % U64;
            && (h == 0 ==> n == 0)
            && (frameLen >= h && frameLen >= n ==> frameLen == h + n)
            && (frameLen > 0 && frameLen >= h && frameLen >= n ==> h > 0 && (d[1] >= 128 ==> h >= 6))
  {
    if |d| >= 10 {
      FromBigEndianBound(d[2..10]);
      FromBigEndianBound(d[2..4]);
    } else if |d| >= 4 {
      FromBigEndianBound(d[2..4]);
    }
    Pow256s();
  }

  /** A frame is there exactly when its header and payload are, in unbounded numbers; it is refused exactly when
      they add up to 2^64 or more. */
  lemma HeaderIff(d: seq<byte>)
    requires |d| < U64
    ensures var (h, n) := Lengths(d);
            && (ReadHeader(d).Header? <==> 0 < h && h + n <= |d|)
            && (ReadHeader(d).Overflow? <==> h + n >= U64)
  {
    hide Lengths;
    LengthsExact(d);
    LengthsBound(d);
  }

  lemma LengthsBound(d: seq<byte>)
    ensures Lengths(d).1 < U64
  {
    if |d| >= 10 {
      FromBigEndianBound(d[2..10]);
      FromBigEndianBound(d[2..4]);
    } else if |d| >= 4 {
      FromBigEndianBound(d[2..4]);
    }
    Pow256s();
  }

  /** The unmasked payload of the frame at the front of `d`. */
  function Payload(d: seq<byte>, h: Header): (p: seq<byte>)
    requires h.Header? && 2 <= h.len && h.len + h.size <= |d| && (h.masked ==> h.len >= 6)
    ensures |p| == h.size
  {
    var raw := d[h.len..h.len + h.size];
    if h.masked then Masked(raw, d[h.len - 4..h.len]) else raw
  }

  lemma LengthsExtend(d: seq<byte>, more: seq<byte>)
    requires Lengths(d).0 > 0
    ensures Lengths(d + more) == Lengths(d) && |d| >= 2 && (d + more)[1] == d[1]
  {
    hide FromBigEndian;
    if |d| >= 10 {
      assert (d + more)[2..10] == d[2..10];
    }
    if |d| >= 4 {
      assert (d + more)[2..4] == d[2..4];
    }
  }

  lemma PayloadExtends(d: seq<byte>, more: seq<byte>, h: Header)
    requires h.Header? && 2 <= h.len && h.len + h.size <= |d| && (h.masked ==> h.len >= 6)
    ensures Payload(d + more, h) == Payload(d, h)
  {
    hide Masked;
    assert (d + more)[h.len..h.len + h.size] == d[h.len..h.len + h.size];
    if h.masked {
      assert (d + more)[h.len - 4..h.len] == d[h.len - 4..h.len];
    }
  }

  /** More bytes behind a complete frame do not change how it is read. */
  lemma HeaderExtends(d: seq<byte>, more: seq<byte>)
    ensures ReadHeader(d).Header? ==>
              ReadHeader(d + more) == ReadHeader(d) && Payload(d + more, ReadHeader(d)) == Payload(d, ReadHeader(d))
    ensures ReadHeader(d).Overflow? ==> ReadHeader(d + more).Overflow?
  {
    hide Lengths, Payload;
    LengthsExact(d);
    if Lengths(d).0 > 0 {
      LengthsExtend(d, more);
    }
    if ReadHeader(d).Header? {
      PayloadExtends(d, more, ReadHeader(d));
    }
  }

  /** Where the parts of an encoded frame are, whatever follows it. */
  lemma EncodedParts(f: Frame, rest: seq<byte>)
    ensures var d := Encode(f) + rest;
            var (h, n) := Lengths(d);
            && n == |f.payload| && h + n == |Encode(f)| && h >= 2
            && d[0] == FirstByte(f) && (d[1] >= 128 <==> f.key.Some?)
            && (f.key.Some? ==> h >= 6 && d[h - 4..h] == f.key.value && d[h..h + n] == Masked(f.payload, f.key.value))
            && (f.key.None? ==> d[h..h + n] == f.payload)
            && d[h + n..] == rest
  {
    hide Masked, LengthField, Lengths, Encode;
    var n := |f.payload|;
    var bit: byte := if f.key.None? then 0 else 0x80;
    var field := LengthField(n, bit);
    var key := if f.key.None? then [] else f.key.value;
    var body := if f.key.None? then f.payload else Masked(f.payload, f.key.value);
    EncodedAs(f, field, key, body);
    FrameParts([FirstByte(f)], field, key, body, rest);
    LengthsOfEncoded(Encode(f) + rest, n, bit, field);
  }

  lemma EncodedAs(f: Frame, field: seq<byte>, key: seq<byte>, body: seq<byte>)
    requires field == LengthField(|f.payload|, if f.key.None? then 0 else 0x80)
    requires key == if f.key.None? then [] else f.key.value
    requires body == if f.key.None? then f.payload else Masked(f.payload, f.key.value)
    ensures Encode(f) == [FirstByte(f)] + field + key + body
  {
    hide Masked, LengthField;
  }

  /** The four parts of a frame in front of any bytes. */
  lemma FrameParts(first: seq<byte>, field: seq<byte>, key: seq<byte>, body: seq<byte>, rest: seq<byte>)
    requires |first| == 1
    ensures var d, at := first + field + key + body + rest, 1 + |field|;
            && d[0] == first[0] && d[1..at] == field && d[at..at + |key|] == key
            && d[at + |key|..at + |key| + |body|] == body && d[at + |key| + |body|..] == rest
  {
    var d := first + field + key + body + rest;
    assert d == first + field + (key + (body + rest));
    Middle(first, field, key + (body + rest));
    assert d == (first + field) + key + (body + rest);
    Middle(first + field, key, body + rest);
    assert d == (first + field + key) + body + rest;
    Middle(first + field + key, body, rest);
  }

  /** Reading back an encoded frame, whatever follows it. */
  lemma HeaderOfEncoded(f: Frame, rest: seq<byte>)
    ensures var d := Encode(f) + rest;
            var h := ReadHeader(d);
            && h.Header? && h.size == |f.payload| && h.len + h.size == |Encode(f)|
            && d[0] == FirstByte(f) && Payload(d, h) == f.payload && d[h.len + h.size..] == rest
  {
    hide Masked, Encode, Lengths;
    EncodedParts(f, rest);
    if f.key.Some? {
      MaskedTwice(f.payload, f.key.value);
    }
  }

  lemma Middle(a: seq<byte>, b: seq<byte>, c: seq<byte>)
    ensures (a + b + c)[|a|..|a| + |b|] == b && (a + b + c)[|a| + |b|..] == c
  {
  }

  lemma LengthsOfEncoded(d: seq<byte>, n: nat, bit: byte, field: seq<byte>)
    requires bit in {0, 0x80} && n < 0x8000_0000_0000_0000 && field == LengthField(n, bit)
    requires |d| >= 1 + |field| + (if bit == 0 then 0 else 4) && d[1..1 + |field|] == field
    ensures Lengths(d) == (1 + |field| + (if bit == 0 then 0 else 4), n)
    ensures |field| >= 1 && (d[1] >= 128 <==> bit != 0)
  {
    hide BigEndian, FromBigEndian, Pow256;
    Pow256s();
    assert d[1] == field[0];
    if 126 <= n < 65535 {
      BigEndianInverse(n, 2);
      assert d[2..4] == field[1..] == BigEndian(n, 2);
    } else if n >= 65535 {
      BigEndianInverse(n, 8);
      assert d[2..10] == field[1..] == BigEndian(n, 8);
    }
  }

  // ------------------------------------------------------------------ examples

  const HELLO: seq<byte> := [0x48, 0x65, 0x6c, 0x6c, 0x6f]

  /** The examples of RFC 6455, section 5.7: `Hello` in one frame and in two fragments, a ping with it. */
  lemma StandardExamples()
    ensures Encode(Frame(true, OP_TEXT, None, HELLO)) == [0x81, 0x05, 0x48, 0x65, 0x6c, 0x6c, 0x6f]
    ensures Encode(Frame(false, OP_TEXT, None, HELLO[..3])) == [0x01, 0x03, 0x48, 0x65, 0x6c]
    ensures Encode(Frame(true, OP_CONTINUE, None, HELLO[3..])) == [0x80, 0x02, 0x6c, 0x6f]
    ensures Encode(Frame(true, OP_PING, None, HELLO)) == [0x89, 0x05, 0x48, 0x65, 0x6c, 0x6c, 0x6f]
  {
    hide Masked, BigEndian;
    EncodedPlain(true, OP_TEXT, HELLO);
    EncodedPlain(false, OP_TEXT, HELLO[..3]);
    EncodedPlain(true, OP_CONTINUE, HELLO[3..]);
    EncodedPlain(true, OP_PING, HELLO);
  }

  lemma EncodedPlain(fin: bool, op: Nibble, payload: Sized)
    requires |payload| < 126
    ensures Encode(Frame(fin, op, None, payload)) == [(if fin then 0x80 else 0) + op, |payload|] + payload
  {
  }

  /** Its headers for 256 and for 65536 bytes. */
  lemma LongExamples(long: Sized, longer: Sized)
    requires |long| == 256 && |longer| == 65536
    ensures Encode(Frame(true, OP_BINARY, None, long)) == [0x82, 0x7e, 0x01, 0x00] + long
    ensures Encode(Frame(true, OP_BINARY, None, longer)) == [0x82, 0x7f, 0, 0, 0, 0, 0, 0x01, 0x00, 0x00] + longer
  {
    hide BigEndian, LengthField;
    LengthExamples();
  }

  /** Where the forms of the length change: at 126, and at 65535 already, one before RFC 6455 requires it. */
  lemma LengthBounds()
    ensures LengthField(125, 0) == [125] && LengthField(126, 0) == [126, 0, 126]
    ensures LengthField(65534, 0) == [126, 255, 254] && LengthField(65535, 0) == [127, 0, 0, 0, 0, 0, 0, 255, 255]
  {
    hide BigEndian;
    TwoBytes(126, 0, 126);
    TwoBytes(65534, 255, 254);
    LastTwoBytes();
  }

  lemma TwoBytes(n: nat, high: byte, low: byte)
    requires n == high * 256 + low
    ensures BigEndian(n, 2) == [high, low]
  {
  }

  lemma LastTwoBytes()
    ensures BigEndian(65535, 8) == [0, 0, 0, 0, 0, 0, 255, 255]
  {
  }

  lemma LengthExamples()
    ensures LengthField(256, 0) == [0x7e, 1, 0] && LengthField(65536, 0) == [0x7f, 0, 0, 0, 0, 0, 1, 0, 0]
  {
    assert BigEndian(256, 2) == [1, 0];
    assert BigEndian(65536, 8) == [0, 0, 0, 0, 0, 1, 0, 0];
  }
}
