/** What MD5 and SHA-1 share: a fold of a compression function over the padded message
    (RFC 1321, section 3; RFC 3174, section 4), and the bit counter kept in two words. */
module HashModel {
  import opened Bytes

  type U32 = n: int | 0 <= n < 0x1_0000_0000

  // ------------------------------------------------------------------ blocks

  /** The whole 64-byte blocks of the data, compressed in order. */
  function Blocks<S>(f: (S, seq<byte>) -> S, h: S, data: seq<byte>): S
    decreases |data|
  {
    if |data| < 64 then h else Blocks(f, f(h, data[..64]), data[64..])
  }

  /** What the blocks leave over. */
  function Tail(data: seq<byte>): (t: seq<byte>)
    ensures |t| == |data| % 64
  {
    data[|data| - |data| % 64..]
  }

  lemma {:induction false} BlocksAppend<S>(f: (S, seq<byte>) -> S, h: S, a: seq<byte>, b: seq<byte>)
    requires |a| % 64 == 0
    ensures Blocks(f, h, a + b) == Blocks(f, Blocks(f, h, a), b)
    decreases |a|
  {
    if a == [] {
      assert a + b == b;
    } else {
      assert (a + b)[..64] == a[..64] && (a + b)[64..] == a[64..] + b;
      BlocksAppend(f, f(h, a[..64]), a[64..], b);
    }
  }

  /** A running hash of `m`: `h` and the `pending` bytes of an unfinished block. */
  ghost predicate Absorbed<S(!new)>(f: (S, seq<byte>) -> S, start: S, m: seq<byte>, h: S, pending: seq<byte>) {
    h == Blocks(f, start, m) && pending == Tail(m)
  }

  /** Length of the whole blocks among `n` bytes. */
  function WholeLen(n: nat): (k: nat)
    ensures k % 64 == 0 && k + n % 64 == n
  {
    n / 64 * 64
  }

  lemma TailSplit<S>(f: (S, seq<byte>) -> S, h: S, m: seq<byte>)
    ensures m == m[..WholeLen(|m|)] + Tail(m)
    ensures Blocks(f, h, m[..WholeLen(|m|)]) == Blocks(f, h, m)
  {
    hide WholeLen, Blocks, Tail;
    var whole := m[..WholeLen(|m|)];
    TailIs(m);
    assert m == whole + m[WholeLen(|m|)..];
    BlocksAppend(f, h, whole, Tail(m));
    BlocksNone(f, Blocks(f, h, whole), Tail(m));
  }

  lemma TailIs(m: seq<byte>)
    ensures Tail(m) == m[WholeLen(|m|)..]
  {
    assert |m| - |m| % 64 == WholeLen(|m|);
  }

  lemma BlocksNone<S>(f: (S, seq<byte>) -> S, h: S, rest: seq<byte>)
    requires |rest| < 64
    ensures Blocks(f, h, rest) == h
  {
  }

  lemma PendingIs<S(!new)>(f: (S, seq<byte>) -> S, start: S, m: seq<byte>, h: S, pending: seq<byte>)
    requires Absorbed(f, start, m, h, pending)
    ensures |pending| == |m| % 64
  {
  }

  lemma AbsorbNone<S(!new)>(f: (S, seq<byte>) -> S, start: S)
    ensures Absorbed(f, start, [], start, [])
  {
  }

  lemma AbsorbShort<S(!new)>(f: (S, seq<byte>) -> S, start: S, m: seq<byte>, h: S, pending: seq<byte>, x: seq<byte>)
    requires Absorbed(f, start, m, h, pending) && |pending| + |x| < 64
    ensures Absorbed(f, start, m + x, h, pending + x)
  {
    hide Blocks;
    var whole := m[..WholeLen(|m|)];
    TailSplit(f, start, m);
    TailSplit(f, start, m + x);
    assert WholeLen(|m + x|) == |whole|;
    assert (m + x)[..|whole|] == whole;
    assert m + x == whole + (pending + x);
  }

  lemma AbsorbBlock<S(!new)>(f: (S, seq<byte>) -> S, start: S, m: seq<byte>, h: S, pending: seq<byte>, x: seq<byte>)
    requires Absorbed(f, start, m, h, pending) && |pending| + |x| == 64
    ensures Absorbed(f, start, m + x, f(h, pending + x), [])
  {
    var whole := m[..WholeLen(|m|)];
    TailSplit(f, start, m);
    assert m + x == whole + (pending + x);
    BlocksAppend(f, start, whole, pending + x);
    assert (pending + x)[..64] == pending + x && (pending + x)[64..] == [];
  }

  lemma Advance(m: seq<byte>, data: seq<byte>, p: nat, q: nat)
    requires p <= q <= |data|
    ensures m + data[..p] + data[p..q] == m + data[..q]
    ensures data[..|data|] == data && data[p..|data|] == data[p..]
  {
  }

  /** `memcpy` into the block buffer of a context. */
  method CopyInto(block: array<byte>, at: nat, data: seq<byte>)
    requires at + |data| <= block.Length
    modifies block
    ensures block[..at + |data|] == old(block[..at]) + data
  {
    forall i | 0 <= i < |data| {
      block[at + i] := data[i];
    }
    assert block[..at] == old(block[..at]) && block[at..at + |data|] == data;
    assert block[..at + |data|] == block[..at] + block[at..at + |data|];
  }

  // ------------------------------------------------------------------ padding

  function Zeros(n: nat): (z: seq<byte>)
    ensures |z| == n
  {
    seq(n, i => 0)
  }

  /** Zero bytes between the 0x80 mark and the length. */
  function ZeroCount(n: nat): (k: nat)
    ensures (n + 1 + k) % 64 == 56 && k < 64
  {
    (119 - n % 64) % 64
  }

  /** The message with its mark, its zeros and its length in `length` bytes. */
  function Padded(m: seq<byte>, length: seq<byte>): (p: seq<byte>)
    requires |length| == 8
    ensures |p| % 64 == 0
  {
    m + [0x80] + Zeros(ZeroCount(|m|)) + length
  }

  function LittleEndian(w: U32): (s: seq<byte>)
    ensures |s| == 4
  {
    [w % 256, w / 256 % 256, w / 65536 % 256, w / 16777216]
  }

  function BigEndian(w: U32): (s: seq<byte>)
    ensures |s| == 4
  {
    [w / 16777216, w / 65536 % 256, w / 256 % 256, w % 256]
  }

  /** The value of four bytes, the lowest first. */
  function WordOf(b0: int, b1: int, b2: int, b3: int): int {
    b0 + 0x100 * b1 + 0x1_0000 * b2 + 0x100_0000 * b3
  }

  lemma WordParts(w: U32)
    ensures w == w % 256 + 256 * (w / 256)
    ensures w / 256 == w / 256 % 256 + 256 * (w / 65536)
    ensures w / 65536 == w / 65536 % 256 + 256 * (w / 16777216)
  {
  }

  /** Four bytes are determined by their value. */
  lemma WordUnique(a0: byte, a1: byte, a2: byte, a3: byte, b0: byte, b1: byte, b2: byte, b3: byte)
    requires WordOf(a0, a1, a2, a3) == WordOf(b0, b1, b2, b3)
    ensures a0 == b0 && a1 == b1 && a2 == b2 && a3 == b3
  {
    LowByte(a0, a1 + 0x100 * a2 + 0x1_0000 * a3, b0, b1 + 0x100 * b2 + 0x1_0000 * b3);
    LowByte(a1, a2 + 0x100 * a3, b1, b2 + 0x100 * b3);
    LowByte(a2, a3, b2, b3);
  }

  lemma LowByte(a: byte, x: int, b: byte, y: int)
    requires a + 0x100 * x == b + 0x100 * y
    ensures a == b && x == y
  {
  }

  lemma LittleEndianValue(w: U32)
    ensures var s := LittleEndian(w); w == WordOf(s[0], s[1], s[2], s[3])
  {
    WordParts(w);
  }

  lemma BigEndianValue(w: U32)
    ensures var s := BigEndian(w); w == WordOf(s[3], s[2], s[1], s[0])
  {
    WordParts(w);
  }

  /** Padding is the message, a one bit, as few zeros as fill the block, and the length. */
  lemma PaddedShape(m: seq<byte>, length: seq<byte>)
    requires |length| == 8
    ensures var p := Padded(m, length);
            && |m| + 9 <= |p| < |m| + 73 && |p| % 64 == 0
            && p[..|m|] == m && p[|m|] == 0x80 && p[|p| - 8..] == length
            && forall i :: |m| < i < |p| - 8 ==> p[i] == 0
  {
  }

  function LowBits(n: nat): U32 { 8 * n % 0x1_0000_0000 }

  function HighBits(n: nat): U32 { 8 * n / 0x1_0000_0000 % 0x1_0000_0000 }

  // ------------------------------------------------------------------ the counter

  /** The two words hold the length of `n` bytes in bits, modulo 2 to the 64th. */
  predicate Counts(low: U32, high: U32, n: nat) {
    low == LowBits(n) && high == HighBits(n)
  }

  lemma NothingCounted()
    ensures Counts(0, 0, 0)
  {
  }

  /** `(uint32_t) len`. */
  function Taken(len: nat): (t: nat)
    ensures t < 0x1_0000_0000 && t <= len && (t == len <==> len < 0x1_0000_0000)
  {
    len % 0x1_0000_0000
  }

  /** `(uint32_t) len << 3`. */
  function Shifted(len: nat): U32 { Taken(len) * 8 % 0x1_0000_0000 }

  function Plus(a: U32, b: U32): U32 { (a + b) % 0x1_0000_0000 }

  /** The low word of the counter after `len` more bytes, as both update functions compute it. */
  function LowAfter(low: U32, len: nat): U32 { Plus(low, Shifted(len)) }

  /** The high word: the carry is seen in the low word having become smaller. */
  function HighAfter(low: U32, high: U32, len: nat): U32 {
    Plus(if LowAfter(low, len) < low then Plus(high, 1) else high, Taken(len) / 0x2000_0000)
  }

  /** The counter takes only the low 32 bits of a length, so it is right exactly below 2 to the 32nd. */
  lemma CounterIff(low: U32, high: U32, n: nat, len: nat)
    requires Counts(low, high, n) && len < 0x2000_0000_0000_0000
    ensures Counts(LowAfter(low, len), HighAfter(low, high, len), n + len) <==> len < 0x1_0000_0000
  {
    hide LowBits, HighBits, LowAfter, HighAfter;
    var taken := Taken(len);
    SameAfter(low, high, len);
    CounterAdds(low, high, n, taken);
    if len >= 0x1_0000_0000 {
      CountsDiffer(n + taken, len - taken);
    }
  }

  /** One update of 2^32 bytes to a fresh context: both words stay 0 where the high one ought to be 8. */
  lemma CounterCanFail()
    ensures LowAfter(0, 0x1_0000_0000) == 0 && HighAfter(0, 0, 0x1_0000_0000) == 0
    ensures LowBits(0x1_0000_0000) == 0 && HighBits(0x1_0000_0000) == 8
  {
    hide Taken, Plus, LowBits, HighBits;
    TakenNothing();
    BitsAre(0x1_0000_0000, 0x8_0000_0000);
  }

  lemma TakenNothing()
    ensures Taken(0x1_0000_0000) == 0 && Plus(0, 0) == 0
  {
  }

  lemma SameAfter(low: U32, high: U32, len: nat)
    ensures LowAfter(low, len) == LowAfter(low, Taken(len))
    ensures HighAfter(low, high, len) == HighAfter(low, high, Taken(len))
  {
    hide Taken, Plus;
  }

  lemma CounterAdds(low: U32, high: U32, n: nat, len: nat)
    requires Counts(low, high, n) && len < 0x1_0000_0000
    ensures Counts(LowAfter(low, len), HighAfter(low, high, len), n + len)
  {
    hide LowAfter, HighAfter, LowBits, HighBits;
    var ah, bh, bl := 8 * n / 0x1_0000_0000, len / 0x2000_0000, len * 8 % 0x1_0000_0000;
    Halves(n, ah, low, high);
    assert 8 * len == bh * 0x1_0000_0000 + bl;
    CarryAdds(ah, low, bh, bl);
    var c := if (low + bl) % 0x1_0000_0000 < low then 1 else 0;
    Wrapped(ah, c, bh);
    AfterIs(low, high, len, bl, bh, c);
    assert 8 * (n + len) == (ah + bh) * 0x1_0000_0000 + low + bl;
    BitsAre(n + len, (ah + bh) * 0x1_0000_0000 + low + bl);
  }

  lemma Halves(n: nat, ah: nat, low: U32, high: U32)
    requires Counts(low, high, n) && ah == 8 * n / 0x1_0000_0000
    ensures 8 * n == ah * 0x1_0000_0000 + low && high == ah % 0x1_0000_0000
  {
  }

  lemma BitsAre(n: nat, bits: nat)
    requires 8 * n == bits
    ensures LowBits(n) == bits % 0x1_0000_0000 && HighBits(n) == bits / 0x1_0000_0000 % 0x1_0000_0000
  {
  }

  lemma AfterIs(low: U32, high: U32, len: nat, bl: U32, bh: nat, c: nat)
    requires len < 0x1_0000_0000 && bl == len * 8 % 0x1_0000_0000 && bh == len / 0x2000_0000
    requires c == if (low + bl) % 0x1_0000_0000 < low then 1 else 0
    ensures LowAfter(low, len) == (low + bl) % 0x1_0000_0000
    ensures HighAfter(low, high, len) == ((high + c) % 0x1_0000_0000 + bh) % 0x1_0000_0000
  {
    hide Taken;
    assert Shifted(len) == bl && (high + 0) % 0x1_0000_0000 == high;
  }

  lemma Wrapped(a: nat, c: nat, b: nat)
    ensures ((a % 0x1_0000_0000 + c) % 0x1_0000_0000 + b) % 0x1_0000_0000 == (a + b + c) % 0x1_0000_0000
  {
    ModAdd(a % 0x1_0000_0000 + c, b);
    ModAdd(a, b + c);
  }

  lemma ModAdd(x: nat, y: nat)
    ensures (x % 0x1_0000_0000 + y) % 0x1_0000_0000 == (x + y) % 0x1_0000_0000
  {
  }

  lemma CarryAdds(ah: nat, al: U32, bh: nat, bl: U32)
    ensures var sum := (ah + bh) * 0x1_0000_0000 + al + bl;
            && sum % 0x1_0000_0000 == (al + bl) % 0x1_0000_0000
            && sum / 0x1_0000_0000 == ah + bh + (if (al + bl) % 0x1_0000_0000 < al then 1 else 0)
  {
  }

  lemma CountsDiffer(n: nat, more: nat)
    requires 0 < more < 0x2000_0000_0000_0000
    ensures !(LowBits(n) == LowBits(n + more) && HighBits(n) == HighBits(n + more))
  {
  }

  /** `(bits >> 3) & 0x3f`: where in the block buffer the next byte goes. */
  function BlockIndex(low: U32): nat { low / 8 % 64 }

  lemma IndexIs(low: U32, high: U32, n: nat)
    requires Counts(low, high, n)
    ensures BlockIndex(low) == n % 64
  {
    Halves(n, 8 * n / 0x1_0000_0000, low, high);
    IndexOf(n, 8 * n / 0x1_0000_0000, low);
  }

  lemma IndexOf(n: nat, q: nat, low: U32)
    requires 8 * n == q * 0x1_0000_0000 + low
    ensures low / 8 % 64 == n % 64
  {
    assert n == q * 0x2000_0000 + low / 8;
    assert n == 64 * (q * 0x80_0000) + low / 8;
  }

  // ------------------------------------------------------------------ padding tells messages apart

  lemma LittleEndianInjective(v: U32, w: U32)
    requires LittleEndian(v) == LittleEndian(w)
    ensures v == w
  {
    hide LittleEndian;
    LittleEndianValue(v);
    LittleEndianValue(w);
  }

  lemma BigEndianInjective(v: U32, w: U32)
    requires BigEndian(v) == BigEndian(w)
    ensures v == w
  {
    hide BigEndian;
    BigEndianValue(v);
    BigEndianValue(w);
  }

  /** Lengths below 2 to the 61st are told apart by their bit counts. */
  lemma CountsInjective(n: nat, k: nat)
    requires n < 0x2000_0000_0000_0000 && k < 0x2000_0000_0000_0000
    requires LowBits(n) == LowBits(k) && HighBits(n) == HighBits(k)
    ensures n == k
  {
    if n < k {
      CountsDiffer(n, k - n);
    } else if k < n {
      CountsDiffer(k, n - k);
    }
  }

  /** Messages with different lengths, or the same length and different bytes, are padded differently. */
  lemma PaddingInjective(m: seq<byte>, lm: seq<byte>, n: seq<byte>, ln: seq<byte>)
    requires |lm| == |ln| == 8 && Padded(m, lm) == Padded(n, ln)
    ensures lm == ln && (|m| == |n| ==> m == n)
  {
    hide Zeros;
    var p := Padded(m, lm);
    assert p[|p| - 8..] == lm && p[|p| - 8..] == ln;
    if |m| == |n| {
      assert p[..|m|] == m && p[..|m|] == n;
    }
  }
}
