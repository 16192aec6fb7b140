/** Chunked bodies (RFC 7230, section 4.1) as `src/mongoose.c` writes and reads them. */
module ChunkModel {
  import opened Bytes

  const CR: byte := 13
  const LF: byte := 10

  predicate IsHex(c: byte) {
    48 <= c <= 57 || 65 <= c <= 70 || 97 <= c <= 102
  }

  function HexDigit(c: byte): (d: nat)
    requires IsHex(c)
    ensures d < 16
  {
    if c <= 57 then c - 48 else if c <= 70 then c - 55 else c - 87
  }

  /** Number of hexadecimal digits at the front. */
  function HexRun(s: seq<byte>): (n: nat)
    ensures n <= |s|
    ensures forall i :: 0 <= i < n ==> IsHex(s[i])
    ensures n < |s| ==> !IsHex(s[n])
  {
    if s == [] || !IsHex(s[0]) then 0 else 1 + HexRun(s[1..])
  }

  function HexValue(s: seq<byte>): nat
    requires forall i :: 0 <= i < |s| ==> IsHex(s[i])
  {
    if s == [] then 0 else HexValue(s[..|s| - 1]) * 16 + HexDigit(s[|s| - 1])
  }

  predicate CrLfAt(s: seq<byte>, i: nat) {
    i + 2 <= |s| && s[i] == CR && s[i + 1] == LF
  }

  /** Sizes and indices of the parser are `size_t`. */
  const U64: int := 0x1_0000_0000_0000_0000

  /** A chunk the parser finds: `size` data bytes at `data`, and the next chunk at `total`. */
  datatype Chunk = Chunk(data: nat, size: nat, total: nat)

  function Wrap(x: nat): (r: nat)
    ensures r < U64 && (x < U64 ==> r == x) && (U64 <= x < 2 * U64 ==> r == x - U64)
  {
    x % 0x1_0000_0000_0000_0000
  }

  /** The length field of the chunk at the front, as far as it fits. */
  function SizeField(s: seq<byte>): (n: nat)
    ensures n < U64
  {
    Wrap(HexValue(s[..HexRun(s)]))
  }

  /** `mg_http_parse_chunk`. An index within two of 2^64 makes the test of the length wrap as well; the bytes
      tested then lie before the chunk, and the parser returns 0, as if none were found, whatever they are. */
  function ParseChunk(s: seq<byte>): (r: Option<Chunk>)
    ensures r.Some? ==> r.value.data <= |s| && 3 <= r.value.data && 3 <= r.value.total <= |s|
    ensures r.Some? ==> r.value.total == Wrap(r.value.data + r.value.size) + 2
  {
    var i := HexRun(s);
    if i == 0 || !CrLfAt(s, i) then None
    else
      var n := SizeField(s);
      var next := Wrap(i + 2 + n);
      if next != 0 && CrLfAt(s, next) then Some(Chunk(i + 2, n, next + 2)) else None
  }

  /** The data and the line end behind it lie inside the buffer. */
  predicate Inside(c: Chunk) {
    c.data + c.size + 2 == c.total
  }

  /** The chunk found lies inside the buffer exactly when its length field is not 2^64 - 2. With that one the
      index wraps to the line end of the length field itself, which is taken for the end of the data. */
  lemma InsideIff(s: seq<byte>)
    requires ParseChunk(s).Some? && |s| < 0x8000_0000_0000_0000
    ensures var c := ParseChunk(s).value;
            && (Inside(c) <==> SizeField(s) != 0xffff_ffff_ffff_fffe)
            && (!Inside(c) ==> c == Chunk(HexRun(s) + 2, 0xffff_ffff_ffff_fffe, HexRun(s) + 2))
  {
    hide ParseChunk, SizeField, Wrap, CrLfAt;
    var i, n := HexRun(s), SizeField(s);
    FoundParts(s);
    if i + 2 + n >= U64 {
      FirstLineEnd(s, Wrap(i + 2 + n));
    }
  }

  lemma FoundParts(s: seq<byte>)
    requires ParseChunk(s).Some?
    ensures var c, i, n := ParseChunk(s).value, HexRun(s), SizeField(s);
            && c == Chunk(i + 2, n, Wrap(i + 2 + n) + 2) && c.data <= |s|
            && CrLfAt(s, i) && CrLfAt(s, Wrap(i + 2 + n))
  {
    hide SizeField, Wrap, CrLfAt, HexRun, HexValue;
  }

  /** The digits of the length field hold no line end. */
  lemma FirstLineEnd(s: seq<byte>, next: nat)
    requires CrLfAt(s, HexRun(s)) && CrLfAt(s, next) && next < HexRun(s) + 2
    ensures next == HexRun(s)
  {
  }

  /** That length field, with its line end, is taken for a whole chunk of 2^64 - 2 bytes. */
  lemma WrappedIsFound()
    ensures var field: seq<byte> := [70, 70, 70, 70, 70, 70, 70, 70, 70, 70, 70, 70, 70, 70, 70, 69];
            ParseChunk(field + [CR, LF]) == Some(Chunk(18, 0xffff_ffff_ffff_fffe, 18))
  {
    hide HexValue;
    var field: seq<byte> := [70, 70, 70, 70, 70, 70, 70, 70, 70, 70, 70, 70, 70, 70, 70, 69];
    var s := field + [CR, LF];
    HexRunOf(field, [CR, LF]);
    assert s[..16] == field;
    WrappedValue(field);
  }

  lemma WrappedValue(field: seq<byte>)
    requires |field| == 16 && (forall i :: 0 <= i < 15 ==> field[i] == 70) && field[15] == 69
    ensures HexValue(field) == 0xffff_ffff_ffff_fffe
  {
    hide HexValue;
    AllF(field[..15], 15);
    assert field[..|field| - 1] == field[..15];
    HexSnoc(field);
  }

  lemma HexSnoc(s: seq<byte>)
    requires s != [] && forall i :: 0 <= i < |s| ==> IsHex(s[i])
    ensures HexValue(s) == HexValue(s[..|s| - 1]) * 16 + HexDigit(s[|s| - 1])
  {
  }

  function Power16(n: nat): nat {
    if n == 0 then 1 else Power16(n - 1) * 16
  }

  lemma {:induction false} AllF(s: seq<byte>, n: nat)
    requires |s| == n && forall i :: 0 <= i < n ==> s[i] == 70
    ensures HexValue(s) == Power16(n) - 1
    ensures n == 15 ==> Power16(n) == 0x1000_0000_0000_0000
  {
    if n > 0 {
      AllF(s[..n - 1], n - 1);
    }
    assert Power16(5) == 0x10_0000;
    assert Power16(10) == 0x100_0000_0000;
  }

  function ChunkData(s: seq<byte>, c: Chunk): seq<byte>
    requires c.data + c.size <= |s|
  {
    s[c.data..c.data + c.size]
  }

  // ------------------------------------------------------------------ decoding a buffer

  /** What the complete chunks at the front of a buffer amount to: their data, the bytes they take,
      whether the last of them is the empty chunk that ends the body, and whether a chunk that is not
      inside the buffer comes next. */
  datatype Parsed = Parsed(data: seq<byte>, used: nat, last: bool, wild: bool)

  const NOTHING := Parsed([], 0, false, false)

  function Collect(s: seq<byte>): (p: Parsed)
    ensures p.used <= |s| && |p.data| <= p.used && (p.used > 0 ==> |p.data| < p.used)
    decreases |s|
  {
    match ParseChunk(s)
    case None => NOTHING
    case Some(c) =>
      if !Inside(c) then NOTHING.(wild := true)
      else if c.size == 0 then Parsed([], c.total, true, false)
      else
        var rest := Collect(s[c.total..]);
        Parsed(ChunkData(s, c) + rest.data, c.total + rest.used, rest.last, rest.wild)
  }

  /** The body part of a connection: `done` is the decoded front of the buffer (`chunk.body_len`
      bytes), `raw` what follows it, `events` the bodies shown to the user, `dropped` the data deleted
      at the user's request. It is `lost` when a chunk that is not inside the buffer has been moved, which
      the source leaves undefined. */
  datatype Body = Body(done: seq<byte>, raw: seq<byte>, events: seq<seq<byte>>, dropped: seq<byte>,
                       finished: bool, lost: bool)

  /** `mg_handle_chunked`, when the user's handler asks for deletion if `delete` holds. */
  function Handle(b: Body, delete: bool): Body {
    var p := Collect(b.raw);
    if p.wild then b.(lost := true)
    else if p.used == 0 then b
    else
      var body := b.done + p.data;
      Body(if delete then [] else body, b.raw[p.used..], b.events + [body],
           if delete then b.dropped + body else b.dropped, p.last, b.lost)
  }

  /** One arrival, and what the handler asks for if it is called. */
  datatype Arrival = Arrival(segment: seq<byte>, delete: bool)

  function Arrive(b: Body, a: Arrival): Body {
    var c := b.(raw := b.raw + a.segment);
    if b.finished || b.lost then c else Handle(c, a.delete)
  }

  function ArriveAll(b: Body, arrivals: seq<Arrival>): Body
    decreases arrivals
  {
    if arrivals == [] then b else ArriveAll(Arrive(b, arrivals[0]), arrivals[1..])
  }

  function Received(arrivals: seq<Arrival>): seq<byte> {
    if arrivals == [] then [] else arrivals[0].segment + Received(arrivals[1..])
  }

  // ------------------------------------------------------------------ cuts do not matter

  lemma {:induction false} HexRunExtends(s: seq<byte>, more: seq<byte>)
    requires HexRun(s) < |s|
    ensures HexRun(s + more) == HexRun(s)
  {
    if IsHex(s[0]) {
      assert (s + more)[0] == s[0] && (s + more)[1..] == s[1..] + more;
      HexRunExtends(s[1..], more);
    }
  }

  lemma ParseExtends(s: seq<byte>, more: seq<byte>)
    requires ParseChunk(s).Some?
    ensures ParseChunk(s + more) == ParseChunk(s)
    ensures var c := ParseChunk(s).value; Inside(c) ==> ChunkData(s + more, c) == ChunkData(s, c)
  {
    hide HexValue, Wrap, HexRun, SizeField, CrLfAt;
    FoundParts(s);
    var i := HexRun(s);
    SizeExtends(s, more);
    LineEndExtends(s, more, i);
    LineEndExtends(s, more, Wrap(i + 2 + SizeField(s)));
  }

  lemma SizeExtends(s: seq<byte>, more: seq<byte>)
    requires CrLfAt(s, HexRun(s))
    ensures HexRun(s + more) == HexRun(s) && SizeField(s + more) == SizeField(s)
  {
    hide HexValue, Wrap, HexRun;
    HexRunExtends(s, more);
    assert (s + more)[..HexRun(s)] == s[..HexRun(s)];
  }

  lemma LineEndExtends(s: seq<byte>, more: seq<byte>, i: nat)
    requires CrLfAt(s, i)
    ensures CrLfAt(s + more, i)
  {
  }

  /** One unfolding of `Collect`. */
  lemma CollectStep(s: seq<byte>)
    ensures ParseChunk(s).None? ==> Collect(s) == NOTHING
    ensures ParseChunk(s).Some? ==>
              var c := ParseChunk(s).value;
              Collect(s) == if !Inside(c) then NOTHING.(wild := true)
                            else if c.size == 0 then Parsed([], c.total, true, false)
                            else
                              var rest := Collect(s[c.total..]);
                              Parsed(ChunkData(s, c) + rest.data, c.total + rest.used, rest.last, rest.wild)
  {
  }

  /** `p`, and then `q` unless `p` ended the traversal for good. */
  function Then(p: Parsed, q: Parsed): Parsed {
    if p.last || p.wild then p else Parsed(p.data + q.data, p.used + q.used, q.last, q.wild)
  }

  /** Chunks complete in `s` are found first in any extension of `s`. */
  lemma {:induction false} CollectExtends(s: seq<byte>, more: seq<byte>)
    ensures Collect(s + more) == Then(Collect(s), Collect(s[Collect(s).used..] + more))
    decreases |s|
  {
    hide ParseChunk, ChunkData, Collect;
    CollectStep(s);
    match ParseChunk(s)
    case None =>
      assert s[0..] + more == s + more;
      assert [] + Collect(s + more).data == Collect(s + more).data;
    case Some(c) =>
      ParseExtends(s, more);
      CollectStep(s + more);
      var t := s[c.total..];
      assert (s + more)[c.total..] == t + more;
      if Inside(c) && c.size != 0 {
        CollectExtends(t, more);
        var p, q := Collect(t), Collect(t[Collect(t).used..] + more);
        assert s[c.total + p.used..] == t[p.used..];
        Regroup(ChunkData(s, c), p.data, q.data);
      }
  }

  /** Everything decoded so far, deleted or not. */
  function Output(b: Body): seq<byte> {
    b.dropped + b.done
  }

  lemma HandleOutput(b: Body, delete: bool)
    requires !b.finished && !b.lost
    ensures var r, p := Handle(b, delete), Collect(b.raw);
            && r.lost == p.wild
            && (!p.wild ==> Output(r) == Output(b) + p.data && r.raw == b.raw[p.used..] && r.finished == p.last)
  {
    hide Collect;
    if Collect(b.raw).used == 0 && !Collect(b.raw).wild {
      EmptyCollect(b.raw);
      assert Output(b) + [] == Output(b);
    }
  }

  /** Nothing is left to decode in a body that goes on. */
  predicate Settled(b: Body) {
    b.finished || b.lost || (Collect(b.raw).used == 0 && !Collect(b.raw).wild)
  }

  lemma CollectRest(s: seq<byte>)
    ensures !Collect(s).last && !Collect(s).wild ==> Collect(s[Collect(s).used..]) == NOTHING
  {
    CollectExtends(s, []);
    assert s + [] == s && s[Collect(s).used..] + [] == s[Collect(s).used..];
  }

  /** `r` is `b` after `more` bytes: what is decoded, what is left over and whether the body has ended
      are as if everything not yet decoded were decoded at once; and it is lost exactly when that meets a
      chunk outside the buffer. */
  predicate Decodes(b: Body, more: seq<byte>, r: Body) {
    if b.lost then r.lost
    else if b.finished then Output(r) == Output(b) && r.finished && !r.lost && r.raw == b.raw + more
    else
      var p := Collect(b.raw + more);
      && r.lost == p.wild
      && (!p.wild ==> Output(r) == Output(b) + p.data && r.finished == p.last && r.raw == (b.raw + more)[p.used..])
  }

  lemma ArriveDecodes(b: Body, a: Arrival)
    requires Settled(b)
    ensures Decodes(b, a.segment, Arrive(b, a)) && Settled(Arrive(b, a))
  {
    hide Collect, Handle, Output;
    var s := b.raw + a.segment;
    FinishedOutput(b, s);
    if !b.finished && !b.lost {
      HandleOutput(b.(raw := s), a.delete);
      CollectRest(s);
    }
  }

  lemma DecodesThen(b: Body, x: seq<byte>, c: Body, y: seq<byte>, r: Body)
    requires Decodes(b, x, c) && Decodes(c, y, r)
    ensures Decodes(b, x + y, r)
  {
    hide Collect, Output;
    var s := b.raw + x;
    Regroup(b.raw, x, y);
    if !b.finished && !b.lost {
      CollectExtends(s, y);
      var p := Collect(s);
      if p.last {
        assert (s + y)[p.used..] == s[p.used..] + y;
      } else if !p.wild {
        var q := Collect(s[p.used..] + y);
        Regroup(Output(b), p.data, q.data);
        assert (s + y)[p.used + q.used..] == (s[p.used..] + y)[q.used..];
      }
    }
  }

  lemma DecodesNothing(b: Body)
    requires Settled(b)
    ensures Decodes(b, [], b)
  {
    hide Output, Collect;
    assert b.raw + [] == b.raw;
    if !b.finished && !b.lost {
      EmptyCollect(b.raw);
      assert Output(b) + [] == Output(b);
    }
  }

  /** Whatever the bytes are: after any arrivals, with deletion asked for at any of them, the decoded
      bytes, the bytes left over and the end of the body are those of decoding the whole at once, unless
      decoding the whole meets a chunk outside the buffer. */
  lemma {:induction false} ArrivalsDecodeWhole(b: Body, arrivals: seq<Arrival>)
    requires Settled(b)
    ensures Decodes(b, Received(arrivals), ArriveAll(b, arrivals))
    decreases arrivals
  {
    hide Decodes, Settled, Arrive;
    if arrivals == [] {
      DecodesNothing(b);
    } else {
      ArriveDecodes(b, arrivals[0]);
      ArrivalsDecodeWhole(Arrive(b, arrivals[0]), arrivals[1..]);
      DecodesThen(b, arrivals[0].segment, Arrive(b, arrivals[0]), Received(arrivals[1..]), ArriveAll(b, arrivals));
    }
  }

  lemma EmptyCollect(s: seq<byte>)
    requires Collect(s).used == 0 && !Collect(s).wild
    ensures Collect(s) == NOTHING && s[0..] == s
  {
  }

  lemma FinishedOutput(b: Body, s: seq<byte>)
    ensures Output(b.(raw := s)) == Output(b)
  {
  }

  // ------------------------------------------------------------------ the sender

  function HexChar(d: nat): (c: byte)
    requires d < 16
    ensures IsHex(c) && HexDigit(c) == d
  {
    if d < 10 then d + 48 else d + 55
  }

  /** The digits of `%lX`. */
  function HexOf(n: nat): (s: seq<byte>)
    ensures s != [] && forall i :: 0 <= i < |s| ==> IsHex(s[i])
  {
    if n < 16 then [HexChar(n)] else HexOf(n / 16) + [HexChar(n % 16)]
  }

  lemma {:induction false} HexInverse(n: nat)
    ensures HexValue(HexOf(n)) == n
  {
    if n < 16 {
      assert HexOf(n)[..0] == [];
    } else {
      HexInverse(n / 16);
      assert HexOf(n)[..|HexOf(n)| - 1] == HexOf(n / 16);
    }
  }

  lemma {:induction false} HexRunOf(digits: seq<byte>, rest: seq<byte>)
    requires forall i :: 0 <= i < |digits| ==> IsHex(digits[i])
    requires rest != [] && !IsHex(rest[0])
    ensures HexRun(digits + rest) == |digits|
  {
    if digits == [] {
      assert digits + rest == rest;
    } else {
      assert (digits + rest)[0] == digits[0] && (digits + rest)[1..] == digits[1..] + rest;
      HexRunOf(digits[1..], rest);
    }
  }

  /** `mg_send_http_chunk`. */
  function EncodeChunk(data: seq<byte>): seq<byte> {
    HexOf(|data|) + [CR, LF] + data + [CR, LF]
  }

  function EncodeChunks(chunks: seq<seq<byte>>): seq<byte> {
    if chunks == [] then [] else EncodeChunk(chunks[0]) + EncodeChunks(chunks[1..])
  }

  lemma ParseEncoded(data: seq<byte>, rest: seq<byte>)
    requires |EncodeChunk(data)| < U64
    ensures var s := EncodeChunk(data) + rest;
            var c := ParseChunk(s);
            && c.Some? && Inside(c.value) && c.value.size == |data| && c.value.total == |EncodeChunk(data)|
            && ChunkData(s, c.value) == data && s[c.value.total..] == rest
  {
    hide HexOf, HexValue, Wrap;
    var digits := HexOf(|data|);
    var s := EncodeChunk(data) + rest;
    var tail := [CR, LF] + data + [CR, LF] + rest;
    assert s == digits + tail;
    HexRunOf(digits, tail);
    HexInverse(|data|);
    assert s[..|digits|] == digits;
    assert s[|digits| + 2..|digits| + 2 + |data|] == data;
  }

  /** The chunks before the first empty one. */
  function BeforeEmpty(chunks: seq<seq<byte>>): seq<seq<byte>> {
    if chunks == [] || chunks[0] == [] then [] else [chunks[0]] + BeforeEmpty(chunks[1..])
  }

  lemma {:induction false} CollectEncoded(chunks: seq<seq<byte>>, trailing: seq<byte>)
    requires [] in chunks && |EncodeChunks(chunks)| < U64
    ensures var ahead := BeforeEmpty(chunks);
            var s := EncodeChunks(chunks) + trailing;
            var p := Collect(s);
            && p.data == Concat(ahead) && p.last && !p.wild && |ahead| < |chunks|
            && s[p.used..] == EncodeChunks(chunks[|ahead| + 1..]) + trailing
    decreases chunks
  {
    hide EncodeChunk, ParseChunk, ChunkData, Inside;
    var rest := EncodeChunks(chunks[1..]) + trailing;
    var s := EncodeChunks(chunks) + trailing;
    assert s == EncodeChunk(chunks[0]) + rest;
    ParseEncoded(chunks[0], rest);
    if chunks[0] != [] {
      CollectEncoded(chunks[1..], trailing);
      var total := |EncodeChunk(chunks[0])|;
      var ahead := BeforeEmpty(chunks[1..]);
      assert BeforeEmpty(chunks)[1..] == ahead;
      assert s[total + Collect(rest).used..] == rest[Collect(rest).used..];
      assert chunks[|ahead| + 2..] == chunks[1..][|ahead| + 1..];
    }
  }

  const FRESH := Body([], [], [], [], false, false)

  /**
   * Any chunks, ended by an empty one, arriving in any cuts, with the handler asking for deletion at
   * any event: the body is the concatenation of the chunks, kept or deleted, and the bytes behind the
   * ending chunk are left alone.
   */
  lemma ChunkedRoundTrip(chunks: seq<seq<byte>>, trailing: seq<byte>, arrivals: seq<Arrival>)
    requires forall c :: c in chunks ==> c != []
    requires Received(arrivals) == EncodeChunks(chunks + [[]]) + trailing && |Received(arrivals)| < U64
    ensures var r := ArriveAll(FRESH, arrivals);
            Output(r) == Concat(chunks) && r.finished && !r.lost && r.raw == trailing
  {
    hide Collect, ArriveAll, EncodeChunks, Output;
    FreshSettled();
    ArrivalsDecodeWhole(FRESH, arrivals);
    assert [] + Received(arrivals) == Received(arrivals);
    assert [] in chunks + [[]] by {
      assert (chunks + [[]])[|chunks|] == [];
    }
    CollectEncoded(chunks + [[]], trailing);
    AllBeforeEmpty(chunks);
    assert (chunks + [[]])[|chunks| + 1..] == [];
  }

  lemma FreshSettled()
    ensures Settled(FRESH) && Output(FRESH) == [] && EncodeChunks([]) == []
  {
  }

  lemma {:induction false} AllBeforeEmpty(chunks: seq<seq<byte>>)
    requires forall c :: c in chunks ==> c != []
    ensures BeforeEmpty(chunks + [[]]) == chunks
  {
    if chunks == [] {
    } else {
      assert chunks[0] in chunks && forall c :: c in chunks[1..] ==> c in chunks;
      assert (chunks + [[]])[0] == chunks[0] && (chunks + [[]])[1..] == chunks[1..] + [[]];
      AllBeforeEmpty(chunks[1..]);
    }
  }

  /** Without deletion the buffer ends up holding the whole body, and every event showed a prefix of it. */
  lemma {:induction false} KeptBodies(b: Body, arrivals: seq<Arrival>)
    requires b.dropped == [] && forall a :: a in arrivals ==> !a.delete
    ensures var r := ArriveAll(b, arrivals);
            && r.dropped == [] && b.done <= r.done && b.events <= r.events
            && forall e :: e in r.events[|b.events|..] ==> e <= r.done
    decreases arrivals
  {
    hide Collect;
    if arrivals != [] {
      assert arrivals[0] in arrivals;
      var c := Arrive(b, arrivals[0]);
      KeptBodies(c, arrivals[1..]);
      var r := ArriveAll(c, arrivals[1..]);
      forall e | e in r.events[|b.events|..]
        ensures e <= r.done
      {
        assert e in r.events[|c.events|..] || e == c.done;
      }
    }
  }

  /** With deletion at every event the events, in order, make up the body. */
  lemma {:induction false} DeletedBodies(b: Body, arrivals: seq<Arrival>)
    requires b.done == [] && b.dropped == Concat(b.events) && forall a :: a in arrivals ==> a.delete
    ensures var r := ArriveAll(b, arrivals); r.done == [] && r.dropped == Concat(r.events)
    decreases arrivals
  {
    hide Collect;
    if arrivals != [] {
      assert arrivals[0] in arrivals;
      var c := Arrive(b, arrivals[0]);
      if c.events != b.events {
        var body := c.events[|b.events|];
        ConcatAppend(b.events, [body]);
        assert Concat([body]) == body + Concat([]);
      }
      DeletedBodies(c, arrivals[1..]);
    }
  }

  // ------------------------------------------------------------------ examples

  /** Lengths are written high digit first, in capitals: 4, 26 and 418 bytes; and `Wiki` as a chunk. */
  lemma WrittenExamples()
    ensures HexOf(4) == [52] && HexOf(26) == [49, 65] && HexOf(418) == [49, 65, 50]
    ensures EncodeChunk([87, 105, 107, 105]) == [52, 13, 10, 87, 105, 107, 105, 13, 10]
    ensures EncodeChunk([]) == [48, 13, 10, 13, 10]
  {
    assert HexOf(1) == [49];
    assert HexOf(26) == HexOf(1) + [65];
    assert HexOf(418) == HexOf(26) + [50];
  }
}
