/** Facts about the flat cache: its byte view, its size accounting and how writing changes both. */
module CacheFacts {
  import opened Bytes
  import opened CacheModel

  lemma {:induction false} SumExtensional(p: map<int, seq<byte>>, q: map<int, seq<byte>>, n: nat)
    requires forall k :: 0 <= k < n ==> (k in p <==> k in q) && (k in p ==> |p[k]| == |q[k]|)
    ensures SumBelow(p, n) == SumBelow(q, n)
  {
    if n > 0 {
      SumExtensional(p, q, n - 1);
    }
  }

  lemma {:induction false} SumSet(p: map<int, seq<byte>>, n: nat, k: int, v: seq<byte>)
    requires 0 <= k < n
    ensures SumBelow(p[k := v], n) == SumBelow(p, n) + |v| - (if k in p then |p[k]| else 0)
  {
    if k == n - 1 {
      SumExtensional(p[k := v], p, n - 1);
    } else {
      SumSet(p, n - 1, k, v);
    }
  }

  lemma SumRemove(p: map<int, seq<byte>>, n: nat, k: int)
    requires 0 <= k < n && k in p
    ensures SumBelow(p - {k}, n) == SumBelow(p, n) - |p[k]|
  {
    SumSet(p - {k}, n, k, p[k]);
    assert (p - {k})[k := p[k]] == p;
  }

  lemma {:induction false} SumMonotone(p: map<int, seq<byte>>, q: map<int, seq<byte>>, n: nat)
    requires forall k :: k in p ==> k in q && p[k] == q[k]
    ensures SumBelow(p, n) <= SumBelow(q, n)
  {
    if n > 0 {
      SumMonotone(p, q, n - 1);
    }
  }

  lemma WrittenKey(pos: int, data: seq<byte>, k: int)
    ensures k in WrittenPieces(pos, data) <==> Covers(pos, |data|, k)
  {
  }

  /** One more piece of the data extends the written map by exactly that piece. */
  lemma WrittenStep(pos: int, data: seq<byte>, w: nat, k: int)
    requires w < |data| && pos + w == PieceStart(k)
    ensures var wl := Min(PIECE_SIZE, |data| - w);
            WrittenPieces(pos, data[..w + wl]) == WrittenPieces(pos, data[..w])[k := data[w..w + wl]]
  {
    var wl := Min(PIECE_SIZE, |data| - w);
    var a, b := WrittenPieces(pos, data[..w + wl]), WrittenPieces(pos, data[..w])[k := data[w..w + wl]];
    forall j
      ensures j in a <==> j in b
      ensures j in a ==> a[j] == b[j]
    {
      WrittenKey(pos, data[..w + wl], j);
      WrittenKey(pos, data[..w], j);
      WrittenStepAt(pos, data, w, k, j);
    }
  }

  lemma WriteFlatStep(before: Flat, pos: int, data: seq<byte>, w: nat, wl: nat, k: int)
    requires w < |data| && pos + w == PieceStart(k) && wl == Min(PIECE_SIZE, |data| - w)
    ensures var cur := WriteFlat(before, pos, data[..w]);
            WriteFlat(before, pos, data[..w + wl]) == cur.(pieces := cur.pieces[k := data[w..w + wl]])
  {
    hide WrittenPieces;
    WrittenStep(pos, data, w, k);
  }

  lemma WrittenStepAt(pos: int, data: seq<byte>, w: nat, k: int, j: int)
    requires w < |data| && pos + w == PieceStart(k)
    ensures var w' := w + Min(PIECE_SIZE, |data| - w);
            && (Covers(pos, w', j) <==> Covers(pos, w, j) || j == k)
            && (Covers(pos, w, j) ==> PieceOf(pos, data[..w'], j) == PieceOf(pos, data[..w], j))
            && PieceOf(pos, data[..w'], k) == data[w..w']
            && !Covers(pos, w, k)
  {
    if Covers(pos, w, j) {
      var lo, hi := PieceStart(j) - pos, PieceStart(j + 1) - pos;
      assert hi <= w;
      assert data[..w][lo..hi] == data[lo..hi];
      assert data[..w + Min(PIECE_SIZE, |data| - w)][lo..hi] == data[lo..hi];
    }
  }

  lemma OffsetParts(off: int)
    ensures PieceStart(PieceIndex(off)) + PieceOffset(off) == off
    ensures 0 <= PieceOffset(off) < PIECE_SIZE
  {
  }

  lemma WriteFills(pos: int, data: seq<byte>, k: int, size: int)
    requires 0 <= pos && PieceOffset(pos) == 0 && pos + |data| <= size
    requires pos + |data| == size || PieceOffset(|data|) == 0
    requires Covers(pos, |data|, k)
    ensures |PieceOf(pos, data, k)| == PieceLen(size, k)
  {
  }

  lemma WriteKeepsValid(f: Flat, pos: int, data: seq<byte>)
    requires FlatValid(f)
    requires 0 <= pos && PieceOffset(pos) == 0 && pos + |data| <= f.size
    requires pos + |data| == f.size || PieceOffset(|data|) == 0
    ensures FlatValid(WriteFlat(f, pos, data))
  {
    var g := WriteFlat(f, pos, data);
    forall k | k in g.pieces
      ensures PieceValid(g, k)
    {
      WrittenKey(pos, data, k);
      if Covers(pos, |data|, k) {
        WriteFills(pos, data, k, f.size);
      } else {
        assert PieceValid(f, k);
      }
    }
  }

  lemma PieceAfterWrite(f: Flat, pos: int, data: seq<byte>, k: int)
    ensures var g := WriteFlat(f, pos, data);
            && g.size == f.size
            && (k in g.pieces <==> k in f.pieces || Covers(pos, |data|, k))
            && (Covers(pos, |data|, k) ==> g.pieces[k] == PieceOf(pos, data, k))
            && (!Covers(pos, |data|, k) && k in f.pieces ==> g.pieces[k] == f.pieces[k])
  {
    WrittenKey(pos, data, k);
  }

  /** What a write to `[pos, pos + |data|)` does to the byte view. */
  lemma WriteBytes(f: Flat, pos: int, data: seq<byte>, off: int)
    requires FlatValid(f)
    requires 0 <= pos && PieceOffset(pos) == 0 && pos + |data| <= f.size
    requires pos + |data| == f.size || PieceOffset(|data|) == 0
    ensures FlatValid(WriteFlat(f, pos, data))
    ensures ByteAt(WriteFlat(f, pos, data), off)
         == if pos <= off < pos + |data| then Some(data[off - pos]) else ByteAt(f, off)
  {
    hide WriteFlat, FlatValid, PieceIndex, PieceOffset, PieceOf, Covers;
    WriteKeepsValid(f, pos, data);
    OffsetParts(off);
    PieceAfterWrite(f, pos, data, PieceIndex(off));
    if 0 <= off < f.size {
      WriteTouches(pos, data, PieceIndex(off), PieceOffset(off), f.size);
    }
  }

  lemma WriteTouches(pos: int, data: seq<byte>, k: int, o: int, size: int)
    requires PieceOffset(pos) == 0 && pos + |data| <= size && 0 <= o < PIECE_SIZE
    requires pos + |data| == size || PieceOffset(|data|) == 0
    requires PieceStart(k) + o < size
    ensures pos <= PieceStart(k) + o < pos + |data| <==> Covers(pos, |data|, k)
    ensures Covers(pos, |data|, k) ==>
              o < |PieceOf(pos, data, k)| && PieceOf(pos, data, k)[o] == data[PieceStart(k) + o - pos]
  {
  }

  lemma EvictKeepsValid(f: Flat, n: int, hold: seq<int>)
    requires FlatValid(f)
    ensures FlatValid(EvictBelow(f, n, hold))
  {
    var g := EvictBelow(f, n, hold);
    forall k | k in g.pieces
      ensures PieceValid(g, k)
    {
      assert PieceValid(f, k);
    }
  }

  /** Eviction leaves every surviving byte alone and removes whole pieces only. */
  lemma EvictBytes(f: Flat, n: int, hold: seq<int>, off: int)
    requires FlatValid(f)
    ensures FlatValid(EvictBelow(f, n, hold))
    ensures ByteAt(EvictBelow(f, n, hold), off)
         == if Survives(PieceIndex(off), n, hold) then ByteAt(f, off) else None
  {
    EvictKeepsValid(f, n, hold);
  }

  /** `piece_len` of the C code computes with `filesize`. On a store that knows its size only as an
      estimate it differs from the valid length of every addressable piece. */
  lemma PieceLenNeedsFilesize(filesize: int, estimate: int, k: int)
    requires filesize == 0 || filesize == estimate
    requires 0 <= PieceStart(k) < estimate
    ensures PieceLen(filesize, k) == PieceLen(estimate, k) <==> filesize == estimate
  {
  }

  /** A piece below both sizes counts alike, so settled growth leaves the total unchanged. */
  lemma {:induction false} SumNothingAbove(p: map<int, seq<byte>>, n: nat, n': nat)
    requires n <= n' && forall k :: k in p ==> k < n
    ensures SumBelow(p, n') == SumBelow(p, n)
  {
    if n < n' {
      SumNothingAbove(p, n, n' - 1);
    }
  }

  lemma GrowthKeepsCompleted(f: Flat, size: int)
    requires FlatValid(f) && f.size <= size
    ensures CompletedSize(Flat(size, f.pieces)) == CompletedSize(f)
  {
    forall k | k in f.pieces
      ensures k < PieceNum(f.size)
    {
      assert PieceValid(f, k);
    }
    if 0 < size {
      SumNothingAbove(f.pieces, PieceNum(f.size), PieceNum(size));
    }
  }
}
