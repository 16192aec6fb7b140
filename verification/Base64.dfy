/** `cs_base64_*`: the one-shot encoder, the incremental one and the decoder (RFC 4648, section 4). */
module Base64 {
  import opened Bytes

  const PAD: byte := 61    // =
  const END: byte := 200   // the decoder's value for the pad character
  const BAD: byte := 255

  type Sextet = v: int | 0 <= v < 64

  /** `cs_base64_emit_code`, and entry `v` of the table of the one-shot encoder. */
  function Code(v: Sextet): byte {
    if v < 26 then v + 65
    else if v < 52 then v - 26 + 97
    else if v < 62 then v - 52 + 48
    else if v == 62 then 43 else 47
  }

  /** `from_b64`: the top bit of a character is ignored. */
  function FromB64(ch: byte): byte {
    var c := ch % 128;
    if 65 <= c <= 90 then c - 65
    else if 97 <= c <= 122 then c - 71
    else if 48 <= c <= 57 then c + 4
    else if c == 43 then 62
    else if c == 47 then 63
    else if c == PAD then END
    else BAD
  }

  /** The alphabet of RFC 4648, section 4: two of letters, the digits, and two more. */
  lemma CodeInAlphabet(v: Sextet)
    ensures Code(v) == if v < 26 then "ABCDEFGHIJKLMNOPQRSTUVWXYZ"[v] as int
                       else if v < 52 then "abcdefghijklmnopqrstuvwxyz"[v - 26] as int
                       else if v < 62 then "0123456789"[v - 52] as int
                       else "+/"[v - 62] as int
  {
  }

  lemma CodeRoundTrip(v: Sextet)
    ensures FromB64(Code(v)) == v
  {
  }

  function Sextets(a: byte, b: byte, c: byte): (Sextet, Sextet, Sextet, Sextet) {
    (a / 4, a % 4 * 16 + b / 16, b % 16 * 4 + c / 64, c % 64)
  }

  function Group(a: byte, b: byte, c: byte): (s: seq<byte>)
    ensures |s| == 4
  {
    var v := Sextets(a, b, c);
    [Code(v.0), Code(v.1), Code(v.2), Code(v.3)]
  }

  /** The four sextets are the 24 bits of the three bytes, in order. */
  lemma SextetsValue(a: byte, b: byte, c: byte)
    ensures var v := Sextets(a, b, c);
            a * 65536 + b * 256 + c == v.0 * 262144 + v.1 * 4096 + v.2 * 64 + v.3
  {
  }

  /** The text of some bytes, without the pad characters at its end. */
  function Stem(s: seq<byte>): seq<byte> {
    if s == [] then []
    else if |s| == 1 then Group(s[0], 0, 0)[..2]
    else if |s| == 2 then Group(s[0], s[1], 0)[..3]
    else Group(s[0], s[1], s[2]) + Stem(s[3..])
  }

  function Pads(n: nat): (t: seq<byte>)
    ensures |t| <= 2 && forall i :: 0 <= i < |t| ==> t[i] == PAD
  {
    if n % 3 == 0 then [] else if n % 3 == 1 then [PAD, PAD] else [PAD]
  }

  function Encode(s: seq<byte>): (t: seq<byte>) {
    Stem(s) + Pads(|s|)
  }

  /** The pad characters complete the last group of four. */
  lemma {:induction false} PadsComplete(s: seq<byte>)
    ensures (|Stem(s)| + |Pads(|s|)|) % 4 == 0
  {
    hide Group, Pads;
    if |s| >= 3 {
      PadsComplete(s[3..]);
      SamePads(|s|);
      assert |Stem(s)| + |Pads(|s|)| == 4 + (|Stem(s[3..])| + |Pads(|s| - 3)|);
    } else {
      FewPads(|s|);
    }
  }

  lemma SamePads(n: nat)
    requires n >= 3
    ensures Pads(n) == Pads(n - 3)
  {
  }

  lemma FewPads(n: nat)
    requires n < 3
    ensures |Pads(n)| == if n == 0 then 0 else 3 - n
  {
  }

  // ------------------------------------------------------------------ decoding

  datatype Decoded = Decoded(bytes: seq<byte>, used: nat)

  /** The bytes of one group of four values, and whether decoding goes on behind it. */
  function GroupBytes(a: byte, b: byte, c: byte, d: byte): (seq<byte>, bool) {
    var x: byte := (a as int * 4 + b / 16) % 256;
    var y: byte := (b as int * 16 + c / 4) % 256;
    var z: byte := (c as int * 64 + d) % 256;
    if a == END || b == END then ([], false)
    else if c == END then ([x], false)
    else if d == END then ([x, y], false)
    else ([x, y, z], true)
  }

  /** `cs_base64_decode`. */
  function Decode(s: seq<byte>): Decoded {
    if |s| < 4 || FromB64(s[0]) == BAD || FromB64(s[1]) == BAD || FromB64(s[2]) == BAD || FromB64(s[3]) == BAD then
      Decoded([], 0)
    else
      var g := GroupBytes(FromB64(s[0]), FromB64(s[1]), FromB64(s[2]), FromB64(s[3]));
      if !g.1 then Decoded(g.0, 4)
      else
        var rest := Decode(s[4..]);
        Decoded(g.0 + rest.bytes, 4 + rest.used)
  }

  lemma GroupRoundTrip(a: byte, b: byte, c: byte)
    ensures var v := Sextets(a, b, c);
            && GroupBytes(v.0, v.1, v.2, v.3) == ([a, b, c], true)
            && (c == 0 ==> GroupBytes(v.0, v.1, v.2, END) == ([a, b], false))
            && (b == 0 && c == 0 ==> GroupBytes(v.0, v.1, END, END) == ([a], false))
  {
    FirstByte(a, b);
    SecondByte(b, c);
    ThirdByte(c);
  }

  lemma FirstByte(a: byte, b: byte)
    ensures (a as int / 4 * 4 + (a % 4 * 16 + b / 16) / 16) % 256 == a
  {
    assert (a % 4 * 16 + b / 16) / 16 == a % 4;
  }

  lemma SecondByte(b: byte, c: byte)
    ensures forall a: byte :: ((a % 4 * 16 + b / 16) as int * 16 + (b % 16 * 4 + c / 64) / 4) % 256 == b
  {
    assert (b % 16 * 4 + c / 64) / 4 == b % 16;
    forall a: byte
      ensures ((a % 4 * 16 + b / 16) as int * 16 + (b % 16 * 4 + c / 64) / 4) % 256 == b
    {
      assert (a % 4 * 16 + b / 16) as int * 16 + b % 16 == a % 4 * 256 + b;
    }
  }

  lemma ThirdByte(c: byte)
    ensures forall b: byte :: ((b % 16 * 4 + c / 64) as int * 64 + c % 64) % 256 == c
  {
    forall b: byte
      ensures ((b % 16 * 4 + c / 64) as int * 64 + c % 64) % 256 == c
    {
      assert (b % 16 * 4 + c / 64) as int * 64 + c % 64 == b % 16 * 256 + c;
    }
  }

  lemma EncodeCons(s: seq<byte>)
    requires |s| >= 3
    ensures Encode(s) == Group(s[0], s[1], s[2]) + Encode(s[3..])
  {
    hide Group;
    assert Pads(|s|) == Pads(|s| - 3);
    assert Stem(s) == Group(s[0], s[1], s[2]) + Stem(s[3..]);
  }

  lemma EncodeShort(s: seq<byte>)
    requires 1 <= |s| <= 2
    ensures var g := Group(s[0], if |s| > 1 then s[1] else 0, 0);
            Encode(s) == [g[0], g[1], if |s| > 1 then g[2] else PAD, PAD]
  {
    hide Group;
  }

  lemma DecodeCons(t: seq<byte>, rest: seq<byte>)
    requires |t| == 4 && FromB64(t[0]) != BAD && FromB64(t[1]) != BAD && FromB64(t[2]) != BAD && FromB64(t[3]) != BAD
    ensures var g := GroupBytes(FromB64(t[0]), FromB64(t[1]), FromB64(t[2]), FromB64(t[3]));
            Decode(t + rest) == if g.1 then Decoded(g.0 + Decode(rest).bytes, 4 + Decode(rest).used)
              else Decoded(g.0, 4)
  {
    hide GroupBytes, FromB64;
    assert (t + rest)[4..] == rest;
  }

  /** Decoding an encoding gives the bytes back and takes the whole text. */
  lemma {:induction false} RoundTrip(s: seq<byte>)
    ensures Decode(Encode(s)) == Decoded(s, |Encode(s)|)
  {
    hide GroupBytes, Sextets, FromB64, Code, Encode, Decode, Group;
    if s == [] {
      EncodeNothing();
    } else {
      var a := s[0];
      var b := if |s| > 1 then s[1] else 0;
      var c := if |s| > 2 then s[2] else 0;
      GroupRoundTrip(a, b, c);
      GroupCodes(a, b, c);
      if |s| >= 3 {
        EncodeCons(s);
        RoundTrip(s[3..]);
        DecodeCons(Group(a, b, c), Encode(s[3..]));
        assert [a, b, c] + s[3..] == s;
      } else {
        EncodeShort(s);
        DecodeCons(Encode(s), []);
        assert Encode(s) + [] == Encode(s);
      }
    }
  }

  lemma EncodeNothing()
    ensures Encode([]) == [] && Decode([]) == Decoded([], 0)
  {
  }

  lemma GroupCodes(a: byte, b: byte, c: byte)
    ensures var v, g := Sextets(a, b, c), Group(a, b, c);
            FromB64(g[0]) == v.0 && FromB64(g[1]) == v.1 && FromB64(g[2]) == v.2 && FromB64(g[3]) == v.3
    ensures FromB64(PAD) == END
  {
    hide Sextets, Code;
    var v := Sextets(a, b, c);
    CodeRoundTrip(v.0);
    CodeRoundTrip(v.1);
    CodeRoundTrip(v.2);
    CodeRoundTrip(v.3);
  }

  // ------------------------------------------------------------------ the loops

  lemma {:induction false} StemSplit(s: seq<byte>, more: seq<byte>)
    requires |s| % 3 == 0
    ensures Stem(s + more) == Stem(s) + Stem(more)
  {
    hide Group;
    if s == [] {
      assert s + more == more && [] + Stem(more) == Stem(more);
    } else {
      StemSplit(s[3..], more);
      assert (s + more)[3..] == s[3..] + more;
    }
  }

  /** What one round of the one-shot encoder writes. */
  lemma StemStep(src: seq<byte>, i: nat)
    requires i % 3 == 0 && i < |src|
    ensures var b, c := if i + 1 < |src| then src[i + 1] else 0, if i + 2 < |src| then src[i + 2] else 0;
            var v := Sextets(src[i], b, c);
            Stem(src[..Min(i + 3, |src|)]) == Stem(src[..i]) + [Code(v.0)] + [Code(v.1)]
              + (if i + 1 < |src| then [Code(v.2)] else []) + (if i + 2 < |src| then [Code(v.3)] else [])
  {
    hide Stem, Group;
    var here := src[i..Min(i + 3, |src|)];
    StemSplit(src[..i], here);
    assert src[..i] + here == src[..Min(i + 3, |src|)];
    var b, c := if i + 1 < |src| then src[i + 1] else 0, if i + 2 < |src| then src[i + 2] else 0;
    GroupIs(src[i], b, c);
    if |here| == 3 {
      StemThree(here);
    } else {
      StemRest(here);
    }
  }

  lemma GroupIs(a: byte, b: byte, c: byte)
    ensures var v := Sextets(a, b, c); Group(a, b, c) == [Code(v.0), Code(v.1), Code(v.2), Code(v.3)]
  {
  }

  /** `cs_base64_encode`. */
  method EncodeOnce(src: seq<byte>) returns (dst: seq<byte>)
    ensures dst == Encode(src)
  {
    hide Code, Sextets, Stem;
    dst := [];
    var i := 0;
    StemNone();
    while i < |src|
      invariant 0 <= i <= |src| + 2 && i % 3 == 0 && dst == Stem(src[..Min(i, |src|)])
    {
      var a := src[i];
      var b := if i + 1 >= |src| then 0 else src[i + 1];
      var c := if i + 2 >= |src| then 0 else src[i + 2];
      StemStep(src, i);
      var v := Sextets(a, b, c);
      dst := dst + [Code(v.0)] + [Code(v.1)];
      if i + 1 < |src| {
        dst := dst + [Code(v.2)];
      }
      if i + 2 < |src| {
        dst := dst + [Code(v.3)];
      }
      i := i + 3;
    }
    assert src[..|src|] == src;
    PadsComplete(src);
    ghost var k := 0;
    while |dst| % 4 != 0
      invariant k <= |Pads(|src|)| && dst == Stem(src) + Pads(|src|)[..k]
      decreases |Pads(|src|)| - k
    {
      dst := dst + [PAD];
      k := k + 1;
    }
    assert k == |Pads(|src|)|;
    assert Pads(|src|)[..k] == Pads(|src|);
  }

  lemma StemNone()
    ensures Stem([]) == []
  {
  }

  /** The incremental encoder; `text` is what has been put out. */
  class Base64Ctx {
    const chunk: array<byte>
    var chunkSize: nat
    var text: seq<byte>

    ghost var whole: seq<byte>   // the bytes put out so far

    /** The encoder after updates that make up `m`. */
    ghost predicate Holds(m: seq<byte>)
      reads this, chunk
    {
      && chunk.Length == 3 && chunkSize < 3 && |whole| % 3 == 0
      && m == whole + chunk[..chunkSize] && text == Stem(whole)
    }

    /** `cs_base64_init`. */
    constructor ()
      ensures Holds([]) && fresh(chunk)
    {
      chunk := new byte[3];
      chunkSize, text, whole := 0, [], [];
    }

    /** `cs_base64_emit_chunk`. */
    method EmitChunk()
      requires chunk.Length == 3
      modifies this`text
      ensures var t := Group(chunk[0], chunk[1], chunk[2]);
              text == old(text) + t[..2] + (if chunkSize > 1 then [t[2]] else [])
                + (if chunkSize > 2 then [t[3]] else [])
    {
      hide Code, Sextets;
      var v := Sextets(chunk[0], chunk[1], chunk[2]);
      text := text + [Code(v.0)];
      text := text + [Code(v.1)];
      if chunkSize > 1 {
        text := text + [Code(v.2)];
      }
      if chunkSize > 2 {
        text := text + [Code(v.3)];
      }
    }

    /** One byte of `cs_base64_update`. */
    method PutByte(x: byte, ghost m: seq<byte>)
      requires Holds(m)
      modifies this, chunk
      ensures Holds(m + [x])
    {
      hide Group, Stem;
      ghost var kept := chunk[..chunkSize];
      chunk[chunkSize] := x;
      chunkSize := chunkSize + 1;
      assert chunk[..chunkSize] == kept + [x];
      Regroup(whole, kept, [x]);
      if chunkSize == 3 {
        StemGroup(whole, chunk[0], chunk[1], chunk[2]);
        EmitChunk();
        assert chunk[..3] == [chunk[0], chunk[1], chunk[2]];
        whole := m + [x];
        chunkSize := 0;
        Nothing(whole, chunk[..0]);
      }
    }

    /** `cs_base64_update`. */
    method Update(src: seq<byte>, ghost m: seq<byte>)
      requires Holds(m)
      modifies this, chunk
      ensures Holds(m + src)
    {
      hide Holds;
      assert m + src[..0] == m;
      for i := 0 to |src|
        invariant Holds(m + src[..i])
      {
        PutByte(src[i], m + src[..i]);
        assert m + src[..i] + [src[i]] == m + src[..i + 1];
      }
      assert src[..|src|] == src;
    }

    /** `cs_base64_finish`: the text is that of the one-shot encoder. */
    method Finish(ghost m: seq<byte>)
      requires Holds(m)
      modifies this`text, chunk
      ensures text == Encode(m)
    {
      hide Group, Stem;
      ghost var rest := chunk[..chunkSize];
      StemSplit(whole, rest);
      if chunkSize > 0 {
        forall i | chunkSize <= i < 3 {
          chunk[i] := 0;
        }
        StemRest(rest);
        assert chunk[..chunkSize] == rest;
        EmitChunk();
        PutPads(m);
      } else {
        Nothing(Stem(m), Pads(|m|));
        Nothing(whole, rest);
      }
    }

    method PutPads(ghost m: seq<byte>)
      requires 0 < chunkSize < 3 && |m| % 3 == chunkSize && text == Stem(m)
      modifies this`text
      ensures text == Encode(m)
    {
      hide Stem;
      for i := 0 to 3 - chunkSize
        invariant text == Stem(m) + Pads(|m|)[..i]
      {
        text := text + [PAD];
      }
      assert Pads(|m|)[..3 - chunkSize] == Pads(|m|);
    }
  }

  lemma Nothing(a: seq<byte>, b: seq<byte>)
    requires b == []
    ensures a + b == a
  {
  }

  lemma StemGroup(whole: seq<byte>, a: byte, b: byte, c: byte)
    requires |whole| % 3 == 0
    ensures var t := Group(a, b, c); Stem(whole + [a, b, c]) == Stem(whole) + t[..2] + [t[2]] + [t[3]]
  {
    hide Group, Stem;
    StemSplit(whole, [a, b, c]);
    StemThree([a, b, c]);
    FourParts(Stem(whole), Group(a, b, c));
  }

  lemma FourParts(front: seq<byte>, t: seq<byte>)
    requires |t| == 4
    ensures front + t == front + t[..2] + [t[2]] + [t[3]]
  {
  }

  lemma StemThree(s: seq<byte>)
    requires |s| == 3
    ensures Stem(s) == Group(s[0], s[1], s[2])
  {
    hide Group;
    assert s[3..] == [];
    assert Stem([]) == [];
  }

  lemma StemRest(rest: seq<byte>)
    requires 1 <= |rest| <= 2
    ensures var t := Group(rest[0], if |rest| > 1 then rest[1] else 0, 0);
            Stem(rest) == t[..2] + if |rest| > 1 then [t[2]] else []
  {
    hide Group;
    var t := Group(rest[0], if |rest| > 1 then rest[1] else 0, 0);
    if |rest| == 1 {
      assert Stem(rest) == t[..2] == t[..2] + [];
    } else {
      assert Stem(rest) == t[..3] == t[..2] + [t[2]];
    }
  }

  /** `cs_base64_update` for each part, then `cs_base64_finish`: how the bytes are split is immaterial. */
  method EncodeParts(parts: seq<seq<byte>>) returns (text: seq<byte>)
    ensures text == Encode(Concat(parts))
  {
    hide Base64Ctx.Holds, Concat, Encode;
    var ctx := new Base64Ctx();
    assert parts[..0] == [];
    ConcatNone();
    for i := 0 to |parts|
      invariant ctx.Holds(Concat(parts[..i])) && fresh(ctx) && fresh(ctx.chunk)
    {
      ctx.Update(parts[i], Concat(parts[..i]));
      ConcatSnoc(parts[..i], parts[i]);
      assert parts[..i] + [parts[i]] == parts[..i + 1];
    }
    assert parts[..|parts|] == parts;
    ctx.Finish(Concat(parts));
    text := ctx.text;
  }

  /** `cs_base64_decode` into `dst`. */
  method DecodeInto(s: seq<byte>, dst: array<byte>) returns (used: nat, decLen: nat)
    requires dst.Length > |s| / 4 * 3
    modifies dst
    ensures decLen < dst.Length && dst[..decLen] == Decode(s).bytes && used == Decode(s).used && dst[decLen] == 0
  {
    hide GroupBytes, FromB64, Decode;
    var p, n := 0, 0;
    var more := true;
    ghost var out: seq<byte> := [];
    assert s[0..] == s && [] + Decode(s).bytes == Decode(s).bytes;
    while more && |s| - p >= 4 && FromB64(s[p]) != BAD && FromB64(s[p + 1]) != BAD
          && FromB64(s[p + 2]) != BAD && FromB64(s[p + 3]) != BAD
      invariant 0 <= p <= |s| && p % 4 == 0 && 0 <= n <= p / 4 * 3 && out == dst[..n]
      invariant Decode(s) == if more then Decoded(out + Decode(s[p..]).bytes, p + Decode(s[p..]).used)
          else Decoded(out, p)
      decreases more, |s| - p
    {
      var g := GroupBytes(FromB64(s[p]), FromB64(s[p + 1]), FromB64(s[p + 2]), FromB64(s[p + 3]));
      DecodeStep(s, p, out);
      PutGroup(dst, n, g.0);
      out := out + g.0;
      n := n + |g.0|;
      p := p + 4;
      more := g.1;
    }
    if more {
      DecodeStop(s[p..], out);
    }
    dst[n] := 0;
    assert dst[..n] == out;
    return p, n;
  }

  method PutGroup(dst: array<byte>, n: nat, bytes: seq<byte>)
    requires n + |bytes| <= dst.Length
    modifies dst
    ensures dst[..n + |bytes|] == old(dst[..n]) + bytes
  {
    forall i | 0 <= i < |bytes| {
      dst[n + i] := bytes[i];
    }
    assert dst[..n] == old(dst[..n]) && dst[n..n + |bytes|] == bytes;
    assert dst[..n + |bytes|] == dst[..n] + dst[n..n + |bytes|];
  }

  lemma DecodeStop(s: seq<byte>, out: seq<byte>)
    requires |s| < 4 || FromB64(s[0]) == BAD || FromB64(s[1]) == BAD || FromB64(s[2]) == BAD || FromB64(s[3]) == BAD
    ensures Decode(s) == Decoded([], 0) && out + [] == out
  {
    hide FromB64, GroupBytes;
  }

  lemma DecodeStep(s: seq<byte>, p: nat, out: seq<byte>)
    requires p + 4 <= |s| && FromB64(s[p]) != BAD && FromB64(s[p + 1]) != BAD
    requires FromB64(s[p + 2]) != BAD && FromB64(s[p + 3]) != BAD
    ensures var g := GroupBytes(FromB64(s[p]), FromB64(s[p + 1]), FromB64(s[p + 2]), FromB64(s[p + 3]));
            var d, rest := Decode(s[p..]), Decode(s[p + 4..]);
            && |g.0| <= 3
            && (g.1 ==> out + d.bytes == out + g.0 + rest.bytes && d.used == 4 + rest.used)
            && (!g.1 ==> out + d.bytes == out + g.0 && d.used == 4)
  {
    hide GroupBytes, FromB64;
    GroupAtMost(FromB64(s[p]), FromB64(s[p + 1]), FromB64(s[p + 2]), FromB64(s[p + 3]));
    var here := s[p..];
    assert here[4..] == s[p + 4..];
    var g := GroupBytes(FromB64(s[p]), FromB64(s[p + 1]), FromB64(s[p + 2]), FromB64(s[p + 3]));
    assert out + (g.0 + Decode(s[p + 4..]).bytes) == out + g.0 + Decode(s[p + 4..]).bytes;
  }

  lemma GroupAtMost(a: byte, b: byte, c: byte, d: byte)
    ensures |GroupBytes(a, b, c, d).0| <= 3
  {
  }
}
