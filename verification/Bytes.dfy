/** Bytes, byte strings and the small facts about them that every other module uses. */
module Bytes {

  /** One octet of a C `unsigned char` buffer. */
  type byte = x: int | 0 <= x < 256

  datatype Option<+T> = None | Some(value: T)

  function Min(a: int, b: int): (m: int)
    ensures m <= a && m <= b && (m == a || m == b)
  {
    if a <= b then a else b
  }

  lemma Regroup(a: seq<byte>, b: seq<byte>, c: seq<byte>)
    ensures a + (b + c) == a + b + c
  {
  }

  /** The bytes of a list of byte strings, in order. */
  function Concat(parts: seq<seq<byte>>): seq<byte> {
    if parts == [] then [] else parts[0] + Concat(parts[1..])
  }

  lemma {:induction false} ConcatAppend(a: seq<seq<byte>>, b: seq<seq<byte>>)
    ensures Concat(a + b) == Concat(a) + Concat(b)
  {
    if a == [] {
      assert a + b == b;
    } else {
      ConcatAppend(a[1..], b);
      assert a[0] + (Concat(a[1..]) + Concat(b)) == Concat(a) + Concat(b);
      assert (a + b)[0] == a[0] && (a + b)[1..] == a[1..] + b;
    }
  }

  lemma ConcatNone()
    ensures Concat([]) == []
  {
  }

  lemma ConcatOne(part: seq<byte>)
    ensures Concat([part]) == part
  {
    assert Concat([part]) == part + [];
  }

  lemma ConcatSnoc(parts: seq<seq<byte>>, part: seq<byte>)
    ensures Concat(parts + [part]) == Concat(parts) + part
  {
    hide Concat;
    ConcatAppend(parts, [part]);
    ConcatOne(part);
  }

  // ------------------------------------------------------------------ exclusive or

  function XorBits(a: nat, b: nat, bits: nat): nat {
    if bits == 0 then 0 else (a % 2 + b % 2) % 2 + 2 * XorBits(a / 2, b / 2, bits - 1)
  }

  function Pow2(n: nat): nat {
    if n == 0 then 1 else 2 * Pow2(n - 1)
  }

  lemma {:induction false} XorBound(a: nat, b: nat, bits: nat)
    ensures XorBits(a, b, bits) < Pow2(bits)
  {
    if bits > 0 {
      XorBound(a / 2, b / 2, bits - 1);
    }
  }

  lemma Halves(r: nat, x: nat)
    requires r < 2
    ensures (r + 2 * x) % 2 == r && (r + 2 * x) / 2 == x
  {
  }

  /** One bit of `XorTwice`. */
  lemma XorBit(a: nat, b: nat, x: nat)
    ensures var r := (a % 2 + b % 2) % 2 + 2 * x; (r % 2 + b % 2) % 2 == a % 2 && r / 2 == x
  {
    Halves((a % 2 + b % 2) % 2, x);
  }

  lemma {:induction false} XorTwice(a: nat, b: nat, bits: nat)
    requires a < Pow2(bits)
    ensures XorBits(XorBits(a, b, bits), b, bits) == a
  {
    if bits > 0 {
      var x := XorBits(a / 2, b / 2, bits - 1);
      XorBit(a, b, x);
      XorTwice(a / 2, b / 2, bits - 1);
      var r := (a % 2 + b % 2) % 2 + 2 * x;
      assert XorBits(r, b, bits) == (r % 2 + b % 2) % 2 + 2 * XorBits(r / 2, b / 2, bits - 1);
    }
  }

  lemma Pow8()
    ensures Pow2(8) == 256
  {
    assert Pow2(4) == 16;
  }

  /** The `^` of two octets. */
  function Xor(a: byte, b: byte): byte {
    XorBound(a, b, 8);
    Pow8();
    XorBits(a, b, 8)
  }

  lemma XorInvolution(a: byte, b: byte)
    ensures Xor(Xor(a, b), b) == a
  {
    Pow8();
    XorTwice(a, b, 8);
  }

  /** Bit `i` of a number. */
  function Bit(a: nat, i: nat): nat {
    if i == 0 then a % 2 else Bit(a / 2, i - 1)
  }

  lemma {:induction false} XorBitAt(a: nat, b: nat, bits: nat, i: nat)
    requires i < bits
    ensures Bit(XorBits(a, b, bits), i) == 1 <==> Bit(a, i) != Bit(b, i)
    ensures Bit(XorBits(a, b, bits), i) < 2 && Bit(a, i) < 2 && Bit(b, i) < 2
    decreases i
  {
    var x := XorBits(a / 2, b / 2, bits - 1);
    Halves((a % 2 + b % 2) % 2, x);
    if i > 0 {
      XorBitAt(a / 2, b / 2, bits - 1, i - 1);
    }
  }

  /** The result has a bit exactly where one of the two octets has it and the other has not. */
  lemma XorIsExclusive(a: byte, b: byte, i: nat)
    requires i < 8
    ensures Bit(Xor(a, b), i) == 1 <==> Bit(a, i) != Bit(b, i)
    ensures Bit(Xor(a, b), i) in {0, 1}
  {
    XorBitAt(a, b, 8, i);
  }

  /** Adding the weight of a clear bit sets it and leaves all others alone. */
  lemma {:induction false} BitSet(a: nat, i: nat, j: nat)
    requires Bit(a, i) == 0
    ensures Bit(a + Pow2(i), j) == if j == i then 1 else Bit(a, j)
    decreases i
  {
    if i > 0 {
      var half := Pow2(i - 1);
      assert (a + 2 * half) / 2 == a / 2 + half && (a + 2 * half) % 2 == a % 2;
      if j > 0 {
        BitSet(a / 2, i - 1, j - 1);
      }
    } else {
      assert (a + 1) / 2 == a / 2 && (a + 1) % 2 == 1;
    }
  }

  lemma {:induction false} BitFits(a: nat, i: nat, n: nat)
    requires Bit(a, i) == 0 && i < n && a < Pow2(n)
    ensures a + Pow2(i) < Pow2(n)
    decreases i
  {
    var half := Pow2(n - 1);
    if i > 0 {
      BitFits(a / 2, i - 1, n - 1);
      assert a / 2 + Pow2(i - 1) < half;
    } else {
      assert a % 2 == 0 && a < 2 * half;
    }
  }
}
