/** `cs_sha1_*` and `cs_hmac_sha1` around an arbitrary `cs_sha1_transform`. */
module Sha1 {
  import opened Bytes
  import opened HashModel

  datatype Words = Words(a: U32, b: U32, c: U32, d: U32, e: U32)

  type Transform = (Words, seq<byte>) -> Words

  const START := Words(0x67452301, 0xEFCDAB89, 0x98BADCFE, 0x10325476, 0xC3D2E1F0)

  /** Longest update for which the 32-bit index arithmetic of `cs_sha1_update` does not wrap. */
  const MAX_UPDATE: nat := 0xffff_ffc0

  function Length(n: nat): (s: seq<byte>)
    ensures |s| == 8
  {
    BigEndian(HighBits(n)) + BigEndian(LowBits(n))
  }

  function DigestBytes(w: Words): (s: seq<byte>)
    ensures |s| == 20
  {
    BigEndian(w.a) + BigEndian(w.b) + BigEndian(w.c) + BigEndian(w.d) + BigEndian(w.e)
  }

  /** The initial state (RFC 3174, section 6.1), as bytes. */
  lemma StartBytes()
    ensures DigestBytes(START) == [0x67, 0x45, 0x23, 0x01, 0xef, 0xcd, 0xab, 0x89, 0x98, 0xba, 0xdc, 0xfe,
                                   0x10, 0x32, 0x54, 0x76, 0xc3, 0xd2, 0xe1, 0xf0]
  {
    hide BigEndian;
    WordBytes(0x67452301, 0x67, 0x45, 0x23, 0x01);
    WordBytes(0xefcdab89, 0xef, 0xcd, 0xab, 0x89);
    WordBytes(0x98badcfe, 0x98, 0xba, 0xdc, 0xfe);
    WordBytes(0x10325476, 0x10, 0x32, 0x54, 0x76);
    WordBytes(0xc3d2e1f0, 0xc3, 0xd2, 0xe1, 0xf0);
  }

  lemma WordBytes(w: U32, b0: byte, b1: byte, b2: byte, b3: byte)
    requires w == WordOf(b3, b2, b1, b0)
    ensures BigEndian(w) == [b0, b1, b2, b3]
  {
    hide BigEndian;
    BigEndianValue(w);
    var s := BigEndian(w);
    WordUnique(s[3], s[2], s[1], s[0], b3, b2, b1, b0);
  }

  /** The digest is the five words in order, high-order byte first. */
  lemma DigestWords(w: Words)
    ensures var s := DigestBytes(w);
            && w.a == WordOf(s[3], s[2], s[1], s[0])
            && w.b == WordOf(s[7], s[6], s[5], s[4])
            && w.c == WordOf(s[11], s[10], s[9], s[8])
            && w.d == WordOf(s[15], s[14], s[13], s[12])
            && w.e == WordOf(s[19], s[18], s[17], s[16])
  {
    hide BigEndian, WordOf;
    BigEndianValue(w.a);
    BigEndianValue(w.b);
    BigEndianValue(w.c);
    BigEndianValue(w.d);
    BigEndianValue(w.e);
  }

  /** The length field of a message: its bits as 64 bits, high-order byte first. */
  lemma LengthBits(n: nat)
    requires n < 0x2000_0000_0000_0000
    ensures var s := Length(n);
            8 * n == WordOf(s[7], s[6], s[5], s[4])
                     + 0x1_0000_0000 * WordOf(s[3], s[2], s[1], s[0])
  {
    hide BigEndian, WordOf;
    BigEndianValue(LowBits(n));
    BigEndianValue(HighBits(n));
  }

  /** SHA-1 by its definition: the fold of the compression function over the padded message. */
  function Digest(f: Transform, m: seq<byte>): (s: seq<byte>)
    ensures |s| == 20
  {
    DigestBytes(Blocks(f, START, Padded(m, Length(|m|))))
  }

  /** Different messages are padded to different inputs of the fold. */
  lemma PaddedInjective(m: seq<byte>, n: seq<byte>)
    requires |m| < 0x2000_0000_0000_0000 && |n| < 0x2000_0000_0000_0000
    ensures Padded(m, Length(|m|)) == Padded(n, Length(|n|)) <==> m == n
  {
    hide BigEndian, LowBits, HighBits, Padded;
    if Padded(m, Length(|m|)) == Padded(n, Length(|n|)) {
      PaddingInjective(m, Length(|m|), n, Length(|n|));
      assert Length(|m|)[..4] == BigEndian(HighBits(|m|)) && Length(|n|)[..4] == BigEndian(HighBits(|n|));
      assert Length(|m|)[4..] == BigEndian(LowBits(|m|)) && Length(|n|)[4..] == BigEndian(LowBits(|n|));
      BigEndianInjective(LowBits(|m|), LowBits(|n|));
      BigEndianInjective(HighBits(|m|), HighBits(|n|));
      CountsInjective(|m|, |n|);
    }
  }

  class Sha1Ctx {
    var state: Words
    var count0: U32
    var count1: U32
    const buffer: array<byte>
    const transform: Transform

    /** The context after the updates that make up `m`. */
    ghost predicate Holds(m: seq<byte>)
      reads this, buffer
    {
      && buffer.Length == 64 && Counts(count0, count1, |m|)
      && Absorbed(transform, START, m, state, buffer[..|m| % 64])
    }

    /** `cs_sha1_init`. */
    constructor (transform: Transform)
      ensures this.transform == transform && Holds([]) && fresh(buffer)
    {
      hide Absorbed, Counts;
      state := START;
      count0, count1 := 0, 0;
      buffer := new byte[64];
      this.transform := transform;
      new;
      AbsorbNone(transform, START);
      NothingCounted();
      assert buffer[..0] == [];
    }

    /** The two counter words, modulo 2 to the 64th. */
    method Count(len: nat, ghost n: nat)
      requires Counts(count0, count1, n) && len < 0x1_0000_0000
      modifies this`count0, this`count1
      ensures Counts(count0, count1, n + len)
    {
      hide Counts;
      CounterIff(count0, count1, n, len);
      var j := count0;
      count0 := Plus(j, Shifted(len));
      if count0 < j {
        count1 := Plus(count1, 1);
      }
      count1 := Plus(count1, Taken(len) / 0x2000_0000);
    }

    /** Whole blocks are transformed where they lie in `data`. */
    method TransformBlocks(data: seq<byte>, from: nat, ghost m: seq<byte>) returns (i: nat)
      requires from <= |data| <= MAX_UPDATE && Absorbed(transform, START, m + data[..from], state, [])
      modifies this`state
      ensures from <= i <= |data| < i + 64 && Absorbed(transform, START, m + data[..i], state, [])
    {
      hide Absorbed;
      i := from;
      while i + 63 < |data|
        invariant from <= i <= |data| && Absorbed(transform, START, m + data[..i], state, [])
      {
        assert i + 63 < 0x1_0000_0000;
        var block := data[i..i + 64];
        AbsorbBlock(transform, START, m + data[..i], state, [], block);
        assert m + data[..i] + block == m + data[..i + 64] && [] + block == block;
        state := transform(state, block);
        i := i + 64;
      }
      assert i + 63 < 0x1_0000_0000;
    }

    /** `cs_sha1_update`. */
    method Update(data: seq<byte>, ghost m: seq<byte>)
      requires Holds(m) && |data| <= MAX_UPDATE
      modifies this`state, this`count0, this`count1, buffer
      ensures Holds(m + data)
    {
      hide Absorbed, Counts, BlockIndex;
      var j := BlockIndex(count0);
      IndexIs(count0, count1, |m|);
      Count(|data|, |m|);
      assert j + |data| < 0x1_0000_0000;
      var i := 0;
      ghost var kept := buffer[..j];
      if j + |data| > 63 {
        i := 64 - j;
        CopyInto(buffer, j, data[..i]);
        assert buffer[..] == buffer[..64];
        AbsorbBlock(transform, START, m, state, kept, data[..i]);
        state := transform(state, buffer[..]);
        i := TransformBlocks(data, i, m);
        j := 0;
        kept := [];
        assert buffer[..0] == [];
      } else {
        assert m + data[..0] == m;
      }
      CopyInto(buffer, j, data[i..]);
      AbsorbShort(transform, START, m + data[..i], state, kept, data[i..]);
      assert m + data[..i] + data[i..] == m + data;
      PendingIs(transform, START, m + data, state, kept + data[i..]);
    }

    /** `cs_sha1_final`: the padding goes through `cs_sha1_update` byte by byte; the context is wiped. */
    method Final(ghost m: seq<byte>) returns (digest: seq<byte>)
      requires Holds(m)
      modifies this`state, this`count0, this`count1, buffer
      ensures digest == Digest(transform, m)
    {
      hide Absorbed, Blocks, Counts, BlockIndex, ZeroCount, Length, Holds, BigEndian, Zeros;
      var finalCount := BigEndian(count1) + BigEndian(count0);
      LengthIs(m);
      ghost var marked, k := m + [0x80], 0;
      Update([0x80], m);
      ZerosNone(marked);
      AtIndex(marked + Zeros(0));
      while BlockIndex(count0) != 56
        invariant 0 <= k <= ZeroCount(|m|) && Holds(marked + Zeros(k))
        invariant BlockIndex(count0) == (|m| + 1 + k) % 64
        decreases ZeroCount(|m|) - k
      {
        ZerosLeft(|m|, k);
        Update([0], marked + Zeros(k));
        ZerosSnoc(marked, k);
        k := k + 1;
        AtIndex(marked + Zeros(k));
      }
      ZerosLeft(|m|, k);
      Update(finalCount, marked + Zeros(k));
      StateAtEnd(marked + Zeros(k) + finalCount);
      digest := DigestBytes(state);
      state, count0, count1 := Words(0, 0, 0, 0, 0), 0, 0;
    }

    lemma LengthIs(m: seq<byte>)
      requires Holds(m)
      ensures BigEndian(count1) + BigEndian(count0) == Length(|m|)
    {
      hide Absorbed, BigEndian;
    }

    lemma AtIndex(m: seq<byte>)
      requires Holds(m)
      ensures BlockIndex(count0) == |m| % 64
    {
      hide Absorbed, Counts, BlockIndex;
      IndexIs(count0, count1, |m|);
    }

    lemma StateAtEnd(m: seq<byte>)
      requires Holds(m)
      ensures state == Blocks(transform, START, m)
    {
      hide Counts, Blocks;
    }
  }

  lemma ZerosNone(front: seq<byte>)
    ensures front + Zeros(0) == front
  {
  }

  lemma ZerosSnoc(front: seq<byte>, k: nat)
    ensures front + Zeros(k) + [0] == front + Zeros(k + 1)
  {
  }

  /** The loop of `cs_sha1_final` stops after exactly the zeros the padding calls for. */
  lemma ZerosLeft(n: nat, k: nat)
    requires k <= ZeroCount(n)
    ensures (n + 1 + k) % 64 == 56 <==> k == ZeroCount(n)
  {
  }

  /** `mg_hash_sha1_v`: the digest of several messages depends only on their concatenation. */
  method HashParts(transform: Transform, parts: seq<seq<byte>>) returns (digest: seq<byte>)
    requires forall i :: 0 <= i < |parts| ==> |parts[i]| <= MAX_UPDATE
    ensures digest == Digest(transform, Concat(parts))
  {
    hide Digest, Concat, Sha1Ctx.Holds;
    var ctx := new Sha1Ctx(transform);
    assert parts[..0] == [];
    ConcatNone();
    for i := 0 to |parts|
      invariant ctx.transform == transform && ctx.Holds(Concat(parts[..i])) && fresh(ctx) && fresh(ctx.buffer)
    {
      ctx.Update(parts[i], Concat(parts[..i]));
      ConcatSnoc(parts[..i], parts[i]);
      assert parts[..i] + [parts[i]] == parts[..i + 1];
    }
    assert parts[..|parts|] == parts;
    digest := ctx.Final(Concat(parts));
  }

  // ------------------------------------------------------------------ HMAC

  function XorAll(s: seq<byte>, pad: byte): (r: seq<byte>)
    ensures |r| == |s|
  {
    seq(|s|, i requires 0 <= i < |s| => Xor(s[i], pad))
  }

  /** The key brought to 64 bytes (RFC 2104, section 2). */
  function BlockKey(f: Transform, key: seq<byte>): (k: seq<byte>)
    ensures |k| == 64
  {
    var short := if |key| > 64 then Digest(f, key) else key;
    short + Zeros(64 - |short|)
  }

  /** HMAC by its definition (RFC 2104, section 2). */
  function Hmac(f: Transform, key: seq<byte>, data: seq<byte>): seq<byte> {
    var k := BlockKey(f, key);
    Digest(f, XorAll(k, 0x5c) + Digest(f, XorAll(k, 0x36) + data))
  }

  /** RFC 2104, section 2, for a key of at most a block: two nested digests, behind the key filled up with
      zeros and exclusive-ored with 0x36 inside and with 0x5c outside. */
  lemma HmacIsNested(f: Transform, key: seq<byte>, data: seq<byte>, ipad: seq<byte>, opad: seq<byte>)
    requires |key| <= 64 && |ipad| == |opad| == 64
    requires forall i :: 0 <= i < 64 ==> ipad[i] == Xor(if i < |key| then key[i] else 0, 0x36)
    requires forall i :: 0 <= i < 64 ==> opad[i] == Xor(if i < |key| then key[i] else 0, 0x5c)
    ensures Hmac(f, key, data) == Digest(f, opad + Digest(f, ipad + data))
  {
    hide Digest, Xor;
    assert XorAll(BlockKey(f, key), 0x36) == ipad;
    assert XorAll(BlockKey(f, key), 0x5c) == opad;
  }

  /** A longer key stands for its digest. */
  lemma HmacOfLongKey(f: Transform, key: seq<byte>, data: seq<byte>)
    requires 64 < |key|
    ensures Hmac(f, key, data) == Hmac(f, Digest(f, key), data)
  {
    hide Digest, Xor;
  }

  /** `cs_hmac_sha1`. */
  method HmacSha1(transform: Transform, key: seq<byte>, data: seq<byte>) returns (out: seq<byte>)
    requires |key| <= MAX_UPDATE && |data| <= MAX_UPDATE
    ensures out == Hmac(transform, key, data)
  {
    hide Digest, Xor, Zeros;
    var shortKey := key;
    if |key| > 64 {
      shortKey := HashParts(transform, [key]);
      ConcatOne(key);
    }
    var buf1, buf2 := new byte[64], new byte[64];
    PadKey(buf1, shortKey, 0x36);
    PadKey(buf2, shortKey, 0x5c);
    out := HashParts(transform, [buf1[..], data]);
    ConcatTwo(buf1[..], data);
    ghost var inner := out;
    out := HashParts(transform, [buf2[..], out]);
    ConcatTwo(buf2[..], inner);
  }

  /** The zero-filled key, exclusive-ored with the pad byte in place. */
  method PadKey(buf: array<byte>, key: seq<byte>, pad: byte)
    requires buf.Length == 64 && |key| <= 64
    modifies buf
    ensures buf[..] == XorAll(key + Zeros(64 - |key|), pad)
  {
    hide Xor;
    ghost var k := key + Zeros(64 - |key|);
    forall i | 0 <= i < 64 {
      buf[i] := if i < |key| then key[i] else 0;
    }
    for i := 0 to 64
      invariant forall j :: 0 <= j < 64 ==> buf[j] == if j < i then Xor(k[j], pad) else k[j]
    {
      buf[i] := Xor(buf[i], pad);
    }
  }

  lemma ConcatTwo(a: seq<byte>, b: seq<byte>)
    ensures Concat([a, b]) == a + b
  {
    assert [a, b][1..] == [b];
    ConcatOne(b);
  }
}
