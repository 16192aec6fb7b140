/** The two-level block table of `src/ms_mem_storage.c` and the flat cache it stands for. */
module BlockTable {
  import opened Bytes
  import opened CacheModel
  import opened CacheFacts

  datatype Piece = Piece(buf: Option<seq<byte>>)
  datatype Block = Block(pieces: seq<Piece>)
  type Blocks = seq<Option<Block>>

  const EMPTY_BLOCK := Block(seq(PIECES_PER_BLOCK, _ => Piece(None)))

  // ------------------------------------------------------------------ the block table as a flat map

  /** Slot `p` of block `b` holds a buffer. */
  predicate Has(blocks: Blocks, b: int, p: int) {
    0 <= b < |blocks| && blocks[b].Some? && 0 <= p < |blocks[b].value.pieces| && blocks[b].value.pieces[p].buf.Some?
  }

  function BufOf(blocks: Blocks, b: int, p: int): seq<byte>
    requires Has(blocks, b, p)
  {
    blocks[b].value.pieces[p].buf.value
  }

  ghost predicate BlockShape(blocks: Blocks, size: int, b: int)
    requires 0 <= b < |blocks|
  {
    blocks[b].Some? ==>
      && |blocks[b].value.pieces| == PIECES_PER_BLOCK
      && forall p :: Has(blocks, b, p) ==> |BufOf(blocks, b, p)| == PIECE_SIZE && PieceStart(Slot(b, p)) < size
  }

  /** Every block has all its slots, every buffer is one piece long and starts below `size`. */
  ghost predicate Shape(blocks: Blocks, size: int) {
    && 0 <= size <= MAX_FILE_SIZE
    && |blocks| == BlockNum(size)
    && forall b :: 0 <= b < |blocks| ==> BlockShape(blocks, size, b)
  }

  function BlockOf(k: int): int { k / 128 }

  function SlotOf(k: int): int { k % 128 }

  lemma SlotParts(k: int)
    ensures Slot(BlockOf(k), SlotOf(k)) == k && 0 <= SlotOf(k) < PIECES_PER_BLOCK
  {
  }

  lemma SlotUnique(b: int, p: int)
    requires 0 <= p < PIECES_PER_BLOCK
    ensures BlockOf(Slot(b, p)) == b && SlotOf(Slot(b, p)) == p
  {
  }

  predicate Present(blocks: Blocks, k: int) {
    Has(blocks, BlockOf(k), SlotOf(k))
  }

  function BufAt(blocks: Blocks, k: int): seq<byte>
    requires Present(blocks, k)
  {
    BufOf(blocks, BlockOf(k), SlotOf(k))
  }

  lemma PresentShape(blocks: Blocks, size: int, k: int)
    requires Shape(blocks, size) && Present(blocks, k)
    ensures 0 <= k < PieceNum(size) && |BufAt(blocks, k)| == PIECE_SIZE
    ensures 0 < PieceLen(size, k) <= PIECE_SIZE
  {
    SlotParts(k);
    assert BlockShape(blocks, size, BlockOf(k));
  }

  /** The valid bytes of piece `k`. */
  ghost function ValidPart(blocks: Blocks, size: int, k: int): seq<byte>
    requires Shape(blocks, size) && Present(blocks, k)
  {
    PresentShape(blocks, size, k);
    BufAt(blocks, k)[..PieceLen(size, k)]
  }

  ghost function FlatPieces(blocks: Blocks, size: int): map<int, seq<byte>>
    requires Shape(blocks, size)
  {
    map k: int | 0 <= k < PieceNum(size) && Present(blocks, k) :: ValidPart(blocks, size, k)
  }

  lemma FlatKey(blocks: Blocks, size: int, k: int)
    requires Shape(blocks, size)
    ensures k in FlatPieces(blocks, size) <==> Present(blocks, k)
  {
    if Present(blocks, k) {
      PresentShape(blocks, size, k);
    }
  }

  /** No block is allocated without a cached piece in it. */
  ghost predicate NoIdleBlocks(blocks: Blocks) {
    forall b :: 0 <= b < |blocks| && blocks[b].Some? ==> BlockUsed(blocks, b)
  }

  ghost predicate BlockUsed(blocks: Blocks, b: int) {
    exists p :: Has(blocks, b, p)
  }

  // ------------------------------------------------------------------ single updates of the table

  function SetPiece(blocks: Blocks, b: nat, p: nat, buf: Option<seq<byte>>): Blocks
    requires b < |blocks| && blocks[b].Some? && p < |blocks[b].value.pieces|
  {
    blocks[b := Some(Block(blocks[b].value.pieces[p := Piece(buf)]))]
  }

  lemma SetPieceShape(blocks: Blocks, size: int, b: nat, p: nat, buf: Option<seq<byte>>)
    requires Shape(blocks, size)
    requires b < |blocks| && blocks[b].Some? && p < PIECES_PER_BLOCK
    requires buf.Some? ==> |buf.value| == PIECE_SIZE && PieceStart(Slot(b, p)) < size
    ensures BlockShape(blocks, size, b) && Shape(SetPiece(blocks, b, p, buf), size)
    ensures forall c, q :: c != b || q != p ==> Has(SetPiece(blocks, b, p, buf), c, q) == Has(blocks, c, q)
    ensures Has(SetPiece(blocks, b, p, buf), b, p) == buf.Some?
  {
    assert BlockShape(blocks, size, b);
    var blocks' := SetPiece(blocks, b, p, buf);
    forall c | 0 <= c < |blocks|
      ensures BlockShape(blocks', size, c)
    {
      assert BlockShape(blocks, size, c);
      forall q | Has(blocks', c, q)
        ensures |BufOf(blocks', c, q)| == PIECE_SIZE && PieceStart(Slot(c, q)) < size
      {
        if c != b || q != p {
          assert Has(blocks, c, q) && BufOf(blocks', c, q) == BufOf(blocks, c, q);
        }
      }
    }
  }

  lemma SetPieceFlatAt(blocks: Blocks, size: int, b: nat, p: nat, buf: Option<seq<byte>>, j: int)
    requires Shape(blocks, size)
    requires b < |blocks| && blocks[b].Some? && p < |blocks[b].value.pieces|
    requires Shape(SetPiece(blocks, b, p, buf), size)
    requires j != Slot(b, p)
    ensures var m, m' := FlatPieces(blocks, size), FlatPieces(SetPiece(blocks, b, p, buf), size);
            (j in m' <==> j in m) && (j in m ==> m'[j] == m[j])
  {
    var blocks' := SetPiece(blocks, b, p, buf);
    SlotParts(j);
    FlatKey(blocks, size, j);
    FlatKey(blocks', size, j);
    assert Present(blocks', j) == Present(blocks, j);
    assert Present(blocks, j) ==> BufAt(blocks', j) == BufAt(blocks, j);
  }

  lemma SetPieceFlat(blocks: Blocks, size: int, b: nat, p: nat, buf: Option<seq<byte>>)
    requires Shape(blocks, size)
    requires b < |blocks| && blocks[b].Some? && p < PIECES_PER_BLOCK
    requires buf.Some? ==> |buf.value| == PIECE_SIZE && PieceStart(Slot(b, p)) < size
    ensures BlockShape(blocks, size, b) && Shape(SetPiece(blocks, b, p, buf), size)
    ensures FlatPieces(SetPiece(blocks, b, p, buf), size)
         == var k := Slot(b, p);
            if buf.Some? then FlatPieces(blocks, size)[k := buf.value[..Min(PIECE_SIZE, size - PieceStart(k))]]
            else FlatPieces(blocks, size) - {k}
  {
    SetPieceShape(blocks, size, b, p, buf);
    var blocks' := SetPiece(blocks, b, p, buf);
    var k := Slot(b, p);
    SlotUnique(b, p);
    FlatKey(blocks', size, k);
    var m, m' := FlatPieces(blocks, size), FlatPieces(blocks', size);
    var target := if buf.Some? then m[k := buf.value[..Min(PIECE_SIZE, size - PieceStart(k))]] else m - {k};
    forall j
      ensures j in m' <==> j in target
      ensures j in m' ==> m'[j] == target[j]
    {
      if j != k {
        SetPieceFlatAt(blocks, size, b, p, buf, j);
      }
    }
  }

  lemma SetBlockFlat(blocks: Blocks, size: int, b: nat, block: Option<Block>)
    requires Shape(blocks, size) && b < |blocks|
    requires !BlockUsed(blocks, b)
    requires block == None || block == Some(EMPTY_BLOCK)
    ensures Shape(blocks[b := block], size)
    ensures forall c, q :: Has(blocks[b := block], c, q) == Has(blocks, c, q)
    ensures FlatPieces(blocks[b := block], size) == FlatPieces(blocks, size)
  {
    var blocks' := blocks[b := block];
    forall c, q
      ensures Has(blocks', c, q) == Has(blocks, c, q)
    {
      if c == b {
        assert !Has(blocks, b, q) && !Has(blocks', b, q);
      }
    }
    forall c | 0 <= c < |blocks|
      ensures BlockShape(blocks', size, c)
    {
      assert BlockShape(blocks, size, c);
      forall q | Has(blocks', c, q)
        ensures |BufOf(blocks', c, q)| == PIECE_SIZE && PieceStart(Slot(c, q)) < size
      {
        assert Has(blocks, c, q) && c != b;
      }
    }
    forall j
      ensures j in FlatPieces(blocks', size) <==> j in FlatPieces(blocks, size)
      ensures j in FlatPieces(blocks, size) ==> FlatPieces(blocks', size)[j] == FlatPieces(blocks, size)[j]
    {
      FlatKey(blocks, size, j);
      FlatKey(blocks', size, j);
    }
  }

  /** Copying `len` fresh bytes to the front of piece `p` of block `b`. */
  lemma StorePiece(blocks: Blocks, size: int, b: nat, p: nat, buf: seq<byte>, len: nat)
    requires Shape(blocks, size)
    requires b < |blocks| && blocks[b].Some? && p < PIECES_PER_BLOCK
    requires |buf| == PIECE_SIZE && PieceStart(Slot(b, p)) < size
    requires len == PieceLen(size, Slot(b, p))
    ensures BlockShape(blocks, size, b) && Shape(SetPiece(blocks, b, p, Some(buf)), size)
    ensures Has(SetPiece(blocks, b, p, Some(buf)), b, p)
    ensures forall c, q :: Has(blocks, c, q) ==> Has(SetPiece(blocks, b, p, Some(buf)), c, q)
    ensures FlatPieces(SetPiece(blocks, b, p, Some(buf)), size) == FlatPieces(blocks, size)[Slot(b, p) := buf[..len]]
    ensures CompletedSize(Flat(size, FlatPieces(SetPiece(blocks, b, p, Some(buf)), size)))
         == CompletedSize(Flat(size, FlatPieces(blocks, size))) + (if Has(blocks, b, p) then 0 else len)
  {
    var k := Slot(b, p);
    SetPieceShape(blocks, size, b, p, Some(buf));
    SetPieceFlat(blocks, size, b, p, Some(buf));
    SlotUnique(b, p);
    FlatKey(blocks, size, k);
    SumSet(FlatPieces(blocks, size), PieceNum(size), k, buf[..len]);
  }

  lemma FlatIsValid(blocks: Blocks, size: int)
    requires Shape(blocks, size)
    ensures FlatValid(Flat(size, FlatPieces(blocks, size)))
  {
    var f := Flat(size, FlatPieces(blocks, size));
    forall k | k in f.pieces
      ensures PieceValid(f, k)
    {
      PresentShape(blocks, size, k);
    }
  }

  /** Slot `p` of block `b` is empty exactly when the flat cache has no such piece. */
  lemma HasFlat(blocks: Blocks, size: int, b: int, p: int)
    requires Shape(blocks, size) && 0 <= p < PIECES_PER_BLOCK
    ensures Has(blocks, b, p) <==> Slot(b, p) in FlatPieces(blocks, size)
    ensures Has(blocks, b, p) ==> |BufOf(blocks, b, p)| == PIECE_SIZE && PieceStart(Slot(b, p)) < size
    ensures Has(blocks, b, p) ==>
              FlatPieces(blocks, size)[Slot(b, p)]
                == BufOf(blocks, b, p)[..Min(PIECE_SIZE, size - PieceStart(Slot(b, p)))]
  {
    SlotUnique(b, p);
    FlatKey(blocks, size, Slot(b, p));
    if Has(blocks, b, p) {
      PresentShape(blocks, size, Slot(b, p));
    }
  }

  // ------------------------------------------------------------------ growing the table

  /** No partly filled tail piece is cached, or the size does not change. */
  ghost predicate TailSettled(f: Flat, size: int) {
    size == f.size || PieceOffset(f.size) == 0 || PieceIndex(f.size) !in f.pieces
  }

  /** The reallocated table: `realloc_blocks` zeroes the added entries. */
  function Extend(blocks: Blocks, n: int): Blocks
    requires |blocks| <= n
  {
    blocks + seq(n - |blocks|, _ => None)
  }

  lemma ExtendHas(blocks: Blocks, size: int, size': int, b: int, p: int)
    requires Shape(blocks, size) && size <= size' <= MAX_FILE_SIZE
    ensures |blocks| <= BlockNum(size')
    ensures Has(Extend(blocks, BlockNum(size')), b, p) == Has(blocks, b, p)
    ensures Has(blocks, b, p) ==> BufOf(Extend(blocks, BlockNum(size')), b, p) == BufOf(blocks, b, p)
  {
  }

  lemma ExtendShape(blocks: Blocks, size: int, size': int)
    requires Shape(blocks, size) && size <= size' <= MAX_FILE_SIZE
    ensures |blocks| <= BlockNum(size') && Shape(Extend(blocks, BlockNum(size')), size')
    ensures NoIdleBlocks(blocks) ==> NoIdleBlocks(Extend(blocks, BlockNum(size')))
  {
    assert |blocks| <= BlockNum(size');
    var blocks' := Extend(blocks, BlockNum(size'));
    forall b | 0 <= b < |blocks'|
      ensures BlockShape(blocks', size', b)
      ensures NoIdleBlocks(blocks) && blocks'[b].Some? ==> BlockUsed(blocks', b)
    {
      if b < |blocks| {
        assert BlockShape(blocks, size, b);
        assert forall p :: Has(blocks', b, p) == Has(blocks, b, p);
      }
    }
  }

  /** A piece reads the same under the larger size unless it is the partly filled tail. */
  lemma ExtendPiece(blocks: Blocks, size: int, size': int, k: int)
    requires Shape(blocks, size) && size <= size' <= MAX_FILE_SIZE
    requires |blocks| <= BlockNum(size') && Shape(Extend(blocks, BlockNum(size')), size')
    ensures var blocks' := Extend(blocks, BlockNum(size'));
            && Present(blocks', k) == Present(blocks, k)
            && (Present(blocks, k) ==>
                  (ValidPart(blocks', size', k) == ValidPart(blocks, size, k)
                   <==> size == size' || PieceOffset(size) == 0 || k != PieceIndex(size)))
  {
    ExtendHas(blocks, size, size', BlockOf(k), SlotOf(k));
    if Present(blocks, k) {
      PresentShape(blocks, size, k);
      PresentShape(Extend(blocks, BlockNum(size')), size', k);
      TailLength(size, size', k);
      assert |ValidPart(blocks, size, k)| == PieceLen(size, k);
    }
  }

  lemma TailLength(size: int, size': int, k: int)
    requires 0 <= PieceStart(k) < size <= size'
    ensures PieceLen(size', k) == PieceLen(size, k)
        <==> size == size' || PieceOffset(size) == 0 || k != PieceIndex(size)
  {
  }

  /** Growing the addressable size keeps the cached contents exactly when no partly filled tail is cached. */
  lemma GrowthKeepsPiecesIff(blocks: Blocks, size: int, size': int)
    requires Shape(blocks, size) && size <= size' <= MAX_FILE_SIZE
    ensures |blocks| <= BlockNum(size') && Shape(Extend(blocks, BlockNum(size')), size')
    ensures FlatPieces(Extend(blocks, BlockNum(size')), size') == FlatPieces(blocks, size)
            <==> TailSettled(Flat(size, FlatPieces(blocks, size)), size')
  {
    ExtendShape(blocks, size, size');
    var m, m' := FlatPieces(blocks, size), FlatPieces(Extend(blocks, BlockNum(size')), size');
    forall k
      ensures k in m' <==> k in m
      ensures k in m ==> (m'[k] == m[k] <==> size == size' || PieceOffset(size) == 0 || k != PieceIndex(size))
    {
      FlatKey(blocks, size, k);
      FlatKey(Extend(blocks, BlockNum(size')), size', k);
      ExtendPiece(blocks, size, size', k);
    }
  }

  /** A store of one byte, cached, that grows to two: the piece then counts two bytes. */
  lemma TailLostOnGrowth(buf: seq<byte>)
    requires |buf| == PIECE_SIZE
    ensures var blocks: Blocks := [Some(Block([Piece(Some(buf))] + seq(127, _ => Piece(None))))];
            && Shape(blocks, 1) && Shape(Extend(blocks, 1), 2)
            && 0 in FlatPieces(blocks, 1) && FlatPieces(blocks, 1)[0] == buf[..1]
            && 0 in FlatPieces(Extend(blocks, 1), 2) && FlatPieces(Extend(blocks, 1), 2)[0] == buf[..2]
  {
    var blocks: Blocks := [Some(Block([Piece(Some(buf))] + seq(127, _ => Piece(None))))];
    OnlyFirst(blocks, buf);
    var grown := Extend(blocks, 1);
    assert grown == blocks;
    FlatKey(blocks, 1, 0);
    FlatKey(grown, 2, 0);
  }

  lemma OnlyFirst(blocks: Blocks, buf: seq<byte>)
    requires |buf| == PIECE_SIZE && blocks == [Some(Block([Piece(Some(buf))] + seq(127, _ => Piece(None))))]
    ensures Shape(blocks, 1) && Shape(blocks, 2) && Present(blocks, 0) && BufAt(blocks, 0) == buf
  {
    assert forall p :: Has(blocks, 0, p) ==> p == 0;
    assert BlockShape(blocks, 1, 0) && BlockShape(blocks, 2, 0);
  }
}
