/** `cs_md5_*`: buffering, counting and padding around an arbitrary `cs_md5_transform`. */
module Md5 {
  import opened Bytes
  import opened HashModel

  datatype Words = Words(a: U32, b: U32, c: U32, d: U32)

  type Transform = (Words, seq<byte>) -> Words

  const START := Words(0x67452301, 0xefcdab89, 0x98badcfe, 0x10325476)

  function Length(n: nat): (s: seq<byte>)
    ensures |s| == 8
  {
    LittleEndian(LowBits(n)) + LittleEndian(HighBits(n))
  }

  function DigestBytes(w: Words): seq<byte> {
    LittleEndian(w.a) + LittleEndian(w.b) + LittleEndian(w.c) + LittleEndian(w.d)
  }

  /** The initial state, as the bytes RFC 1321, section 3.3, lists. */
  lemma StartBytes()
    ensures DigestBytes(START) == [0x01, 0x23, 0x45, 0x67, 0x89, 0xab, 0xcd, 0xef,
                                   0xfe, 0xdc, 0xba, 0x98, 0x76, 0x54, 0x32, 0x10]
  {
    hide LittleEndian;
    WordBytes(0x67452301, 0x01, 0x23, 0x45, 0x67);
    WordBytes(0xefcdab89, 0x89, 0xab, 0xcd, 0xef);
    WordBytes(0x98badcfe, 0xfe, 0xdc, 0xba, 0x98);
    WordBytes(0x10325476, 0x76, 0x54, 0x32, 0x10);
  }

  lemma WordBytes(w: U32, b0: byte, b1: byte, b2: byte, b3: byte)
    requires w == WordOf(b0, b1, b2, b3)
    ensures LittleEndian(w) == [b0, b1, b2, b3]
  {
    hide LittleEndian;
    LittleEndianValue(w);
    var s := LittleEndian(w);
    WordUnique(s[0], s[1], s[2], s[3], b0, b1, b2, b3);
  }

  /** The digest is the four words in order, low-order byte first (RFC 1321, section 3.5). */
  lemma DigestWords(w: Words)
    ensures var s := DigestBytes(w);
            && |s| == 16
            && w.a == WordOf(s[0], s[1], s[2], s[3])
            && w.b == WordOf(s[4], s[5], s[6], s[7])
            && w.c == WordOf(s[8], s[9], s[10], s[11])
            && w.d == WordOf(s[12], s[13], s[14], s[15])
  {
    hide LittleEndian, WordOf;
    LittleEndianValue(w.a);
    LittleEndianValue(w.b);
    LittleEndianValue(w.c);
    LittleEndianValue(w.d);
  }

  /** The length field of a message: its bits as 64 bits, low-order byte first. */
  lemma LengthBits(n: nat)
    requires n < 0x2000_0000_0000_0000
    ensures var s := Length(n);
            8 * n == WordOf(s[0], s[1], s[2], s[3])
                     + 0x1_0000_0000 * WordOf(s[4], s[5], s[6], s[7])
  {
    hide LittleEndian, WordOf;
    LittleEndianValue(LowBits(n));
    LittleEndianValue(HighBits(n));
  }

  /** MD5 by its definition: the fold of the compression function over the padded message. */
  function Digest(f: Transform, m: seq<byte>): seq<byte> {
    DigestBytes(Blocks(f, START, Padded(m, Length(|m|))))
  }

  /** Different messages are padded to different inputs of the fold. */
  lemma PaddedInjective(m: seq<byte>, n: seq<byte>)
    requires |m| < 0x2000_0000_0000_0000 && |n| < 0x2000_0000_0000_0000
    ensures Padded(m, Length(|m|)) == Padded(n, Length(|n|)) <==> m == n
  {
    hide LittleEndian, LowBits, HighBits, Padded;
    if Padded(m, Length(|m|)) == Padded(n, Length(|n|)) {
      PaddingInjective(m, Length(|m|), n, Length(|n|));
      assert Length(|m|)[..4] == LittleEndian(LowBits(|m|)) && Length(|n|)[..4] == LittleEndian(LowBits(|n|));
      assert Length(|m|)[4..] == LittleEndian(HighBits(|m|)) && Length(|n|)[4..] == LittleEndian(HighBits(|n|));
      LittleEndianInjective(LowBits(|m|), LowBits(|n|));
      LittleEndianInjective(HighBits(|m|), HighBits(|n|));
      CountsInjective(|m|, |n|);
    }
  }

  class Md5Ctx {
    var buf: Words
    var bits0: U32
    var bits1: U32
    const input: array<byte>
    const transform: Transform

    /** The context after the updates that make up `m`. */
    ghost predicate Holds(m: seq<byte>)
      reads this, input
    {
      && input.Length == 64 && Counts(bits0, bits1, |m|)
      && Absorbed(transform, START, m, buf, input[..|m| % 64])
    }

    /** `cs_md5_init`. */
    constructor (transform: Transform)
      ensures this.transform == transform && Holds([]) && fresh(input)
    {
      hide Absorbed, Counts;
      buf := START;
      bits0, bits1 := 0, 0;
      input := new byte[64];
      this.transform := transform;
      new;
      AbsorbNone(transform, START);
      NothingCounted();
      assert input[..0] == [];
    }

    /** The two counter words, modulo 2 to the 64th. */
    method Count(len: nat, ghost n: nat)
      requires Counts(bits0, bits1, n) && len < 0x1_0000_0000
      modifies this`bits0, this`bits1
      ensures Counts(bits0, bits1, n + len)
    {
      hide Counts;
      CounterIff(bits0, bits1, n, len);
      var t := bits0;
      bits0 := Plus(t, Shifted(len));
      if bits0 < t {
        bits1 := Plus(bits1, 1);
      }
      bits1 := Plus(bits1, Taken(len) / 0x2000_0000);
    }

    /** The whole blocks of `data` from `from` on, each copied and transformed; the rest is kept. */
    method TakeBlocks(data: seq<byte>, from: nat, ghost m: seq<byte>)
      requires input.Length == 64 && from <= |data|
      requires Absorbed(transform, START, m + data[..from], buf, [])
      modifies this`buf, input
      ensures Absorbed(transform, START, m + data, buf, input[..|m + data| % 64])
    {
      hide Absorbed;
      var p := from;
      while |data| - p >= 64
        invariant from <= p <= |data| && Absorbed(transform, START, m + data[..p], buf, [])
      {
        CopyInto(input, 0, data[p..p + 64]);
        assert input[..] == input[..64] == [] + data[p..p + 64] by {
          assert input[..0] == [];
        }
        AbsorbBlock(transform, START, m + data[..p], buf, [], data[p..p + 64]);
        Advance(m, data, p, p + 64);
        buf := transform(buf, input[..]);
        p := p + 64;
      }
      assert input[..0] == [];
      CopyInto(input, 0, data[p..]);
      AbsorbShort(transform, START, m + data[..p], buf, [], data[p..]);
      Advance(m, data, p, |data|);
      PendingIs(transform, START, m + data, buf, input[..|data| - p]);
    }

    /** `cs_md5_update`. */
    method Update(data: seq<byte>, ghost m: seq<byte>)
      requires Holds(m) && |data| < 0x1_0000_0000
      modifies this`buf, this`bits0, this`bits1, input
      ensures Holds(m + data)
    {
      hide Absorbed, Counts, BlockIndex;
      var t := BlockIndex(bits0);
      IndexIs(bits0, bits1, |m|);
      Count(|data|, |m|);
      var p := 0;
      if t != 0 {
        var room := 64 - t;
        if |data| < room {
          CopyInto(input, t, data);
          AbsorbShort(transform, START, m, buf, old(input[..t]), data);
          PendingIs(transform, START, m + data, buf, input[..t + |data|]);
          return;
        }
        CopyInto(input, t, data[..room]);
        assert input[..] == input[..64];
        AbsorbBlock(transform, START, m, buf, old(input[..t]), data[..room]);
        buf := transform(buf, input[..]);
        p := room;
      } else {
        assert input[..0] == [] && m + data[..0] == m;
      }
      TakeBlocks(data, p, m);
    }

    /** The length goes into the last eight bytes of the block, which is then transformed. */
    method PutLength(ghost m: seq<byte>, ghost start: seq<byte>)
      requires input.Length == 64 && Counts(bits0, bits1, |m|)
      requires |start| % 64 == 56 && Absorbed(transform, START, start, buf, input[..56])
      modifies this`buf, input
      ensures buf == Blocks(transform, START, start + Length(|m|))
    {
      hide Blocks, LittleEndian, LowBits, HighBits;
      ghost var pending := input[..56];
      CopyInto(input, 56, LittleEndian(bits0) + LittleEndian(bits1));
      assert input[..] == input[..64] == pending + Length(|m|);
      AbsorbBlock(transform, START, start, buf, pending, Length(|m|));
      buf := transform(buf, input[..]);
    }

    /** `cs_md5_final`; the context is wiped. */
    method Final(ghost m: seq<byte>) returns (digest: seq<byte>)
      requires Holds(m)
      modifies this`buf, this`bits0, this`bits1, input
      ensures digest == Digest(transform, m)
    {
      hide Absorbed, Blocks, Counts, BlockIndex, ZeroCount, Length;
      var count := BlockIndex(bits0);
      IndexIs(bits0, bits1, |m|);
      ghost var start := m + [0x80] + Zeros(ZeroCount(|m|));
      MarkAndZeros(count, m);
      PutLength(m, start);
      digest := DigestBytes(buf);
      buf, bits0, bits1 := Words(0, 0, 0, 0), 0, 0;
    }

    /** The mark and zeros to the end of the block, which is transformed, and the zeros of the next one. */
    method MarkInTwoBlocks(count: nat, ghost m: seq<byte>)
      requires input.Length == 64 && count == |m| % 64 && 56 <= count
      requires Absorbed(transform, START, m, buf, input[..count])
      modifies this`buf, input
      ensures Absorbed(transform, START, m + ([0x80] + Zeros(63 - count)) + Zeros(56), buf, input[..56])
    {
      hide Absorbed, Zeros;
      ghost var pending := input[..count];
      CopyInto(input, count, [0x80]);
      CopyInto(input, count + 1, Zeros(63 - count));
      Regroup(pending, [0x80], Zeros(63 - count));
      assert input[..] == input[..64];
      AbsorbBlock(transform, START, m, buf, pending, [0x80] + Zeros(63 - count));
      buf := transform(buf, input[..]);
      assert input[..0] == [];
      CopyInto(input, 0, Zeros(56));
      AbsorbShort(transform, START, m + ([0x80] + Zeros(63 - count)), buf, [], Zeros(56));
    }

    /** The 0x80 mark and the zeros up to the length, through one more block when they need it. */
    method MarkAndZeros(count: nat, ghost m: seq<byte>)
      requires input.Length == 64 && count == |m| % 64
      requires Absorbed(transform, START, m, buf, input[..count])
      modifies this`buf, input
      ensures Absorbed(transform, START, m + [0x80] + Zeros(ZeroCount(|m|)), buf, input[..56])
    {
      hide Absorbed, Zeros, ZeroCount;
      ghost var pending := input[..count];
      var left := 64 - 1 - count;
      ZeroCountIs(|m|);
      if left < 8 {
        MarkInTwoBlocks(count, m);
        MarkJoins(m, left, 56);
      } else {
        CopyInto(input, count, [0x80]);
        CopyInto(input, count + 1, Zeros(left - 8));
        Regroup(pending, [0x80], Zeros(left - 8));
        AbsorbShort(transform, START, m, buf, pending, [0x80] + Zeros(left - 8));
        Regroup(m, [0x80], Zeros(left - 8));
      }
    }
  }

  lemma MarkJoins(m: seq<byte>, a: nat, b: nat)
    ensures m + ([0x80] + Zeros(a)) + Zeros(b) == m + [0x80] + Zeros(a + b)
  {
    hide Zeros;
    ZerosJoin(a, b);
    assert m + ([0x80] + Zeros(a)) + Zeros(b) == m + [0x80] + (Zeros(a) + Zeros(b));
  }

  lemma ZeroCountIs(n: nat)
    ensures var left := 63 - n % 64; ZeroCount(n) == if left < 8 then left + 56 else left - 8
  {
  }

  lemma ZerosJoin(a: nat, b: nat)
    ensures Zeros(a) + Zeros(b) == Zeros(a + b)
  {
  }

  /** `mg_hash_md5_v`: the digest of several messages depends only on their concatenation. */
  method HashParts(transform: Transform, parts: seq<seq<byte>>) returns (digest: seq<byte>)
    requires forall i :: 0 <= i < |parts| ==> |parts[i]| < 0x1_0000_0000
    ensures digest == Digest(transform, Concat(parts))
  {
    hide Digest, Concat, Md5Ctx.Holds;
    var ctx := new Md5Ctx(transform);
    assert parts[..0] == [];
    ConcatNone();
    for i := 0 to |parts|
      invariant ctx.transform == transform && ctx.Holds(Concat(parts[..i])) && fresh(ctx) && fresh(ctx.input)
    {
      ctx.Update(parts[i], Concat(parts[..i]));
      ConcatSnoc(parts[..i], parts[i]);
      assert parts[..i] + [parts[i]] == parts[..i + 1];
    }
    assert parts[..|parts|] == parts;
    digest := ctx.Final(Concat(parts));
  }
}
