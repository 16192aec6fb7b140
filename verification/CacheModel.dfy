/**
 * The piece cache as a plain map: piece number to bytes. This is the reference the two-level
 * block table of `MemStorage` is proved against, together with the geometry both share.
 */
module CacheModel {
  import opened Bytes

  const PIECE_SIZE: int := 16384
  const PIECES_PER_BLOCK: int := 128

  /** Largest file whose block products stay inside a C `int`; see `BlockProductsFitIff`. */
  const MAX_FILE_SIZE: int := 0x8000_0000

  const MAX_CACHE_LEN: int := 20971520
  const MAX_CACHE_LEFT: int := 10485760
  const HOLD_HEAD_SIZE: int := 2097152

  // The geometry, with the unit sizes written out so that every fact about it is linear arithmetic.

  function PieceStart(k: int): int { k * 16384 }

  function PieceIndex(off: int): int { off / 16384 }

  function PieceOffset(off: int): int { off % 16384 }

  function BlockStart(b: int): int { b * 2097152 }

  function BlockIndex(off: int): int { off / 2097152 }

  /** Number of piece slot `p` of block `b`, counted through the whole file. */
  function Slot(b: int, p: int): int { b * 128 + p }

  function BlockNum(size: int): int { (size + 2097151) / 2097152 }

  function PieceNum(size: int): int { (size + 16383) / 16384 }

  /** Number of valid bytes in piece `k` of a file of `size` bytes. */
  function PieceLen(size: int, k: int): int {
    if PieceStart(k + 1) > size then size - PieceStart(k) else PIECE_SIZE
  }

  function HoldSize(positions: nat): (size: int)
    ensures size == HOLD_HEAD_SIZE + (MAX_CACHE_LEFT + MAX_CACHE_LEN) * positions
  {
    2097152 + 31457280 * positions
  }

  function HoldFrom(pos: int): int {
    if pos < MAX_CACHE_LEFT then 0 else pos - MAX_CACHE_LEFT
  }

  function HoldEnd(pos: int): int {
    pos + MAX_CACHE_LEN
  }

  predicate InWindow(k: int, pos: int) {
    HoldFrom(pos) <= PieceStart(k) && PieceStart(k + 1) <= HoldEnd(pos)
  }

  /** Piece `k` lies wholly inside the window of one of the hold positions. */
  predicate Held(k: int, hold: seq<int>) {
    exists i :: 0 <= i < |hold| && InWindow(k, hold[i])
  }

  /** A piece is held for a position exactly when all of its bytes lie between 10 MiB in front of it, or the
      start of the file, and 20 MiB behind it. */
  lemma WindowBytes(k: nat, pos: nat)
    ensures Held(k, [pos])
            <==> forall off :: PieceIndex(off) == k ==> pos - 10485760 <= off < pos + 20971520
  {
    assert PieceIndex(PieceStart(k)) == k && PieceIndex(PieceStart(k) + 16383) == k;
    assert Held(k, [pos]) <==> InWindow(k, [pos][0]);
  }

  predicate BlockInWindow(b: int, pos: int) {
    HoldFrom(pos) <= BlockStart(b) && BlockStart(b + 1) <= HoldEnd(pos)
  }

  /** That is so exactly when all of its pieces do. */
  lemma BlockWindowIff(b: int, pos: int)
    ensures BlockInWindow(b, pos) <==> forall p :: 0 <= p < 128 ==> InWindow(Slot(b, p), pos)
  {
    if forall p :: 0 <= p < 128 ==> InWindow(Slot(b, p), pos) {
      assert InWindow(Slot(b, 0), pos) && InWindow(Slot(b, 127), pos);
    }
  }

  /** Block `b` lies wholly inside the window of one of the hold positions. */
  predicate HeldBlock(b: int, hold: seq<int>) {
    exists i :: 0 <= i < |hold| && BlockInWindow(b, hold[i])
  }

  /** Skipping a whole held block agrees with the per-piece test. */
  lemma HeldBlockHoldsPieces(b: int, p: int, hold: seq<int>)
    requires HeldBlock(b, hold)
    requires 0 <= p < PIECES_PER_BLOCK
    ensures Held(Slot(b, p), hold)
  {
    var i :| 0 <= i < |hold| && BlockInWindow(b, hold[i]);
    assert InWindow(Slot(b, p), hold[i]);
  }

  /** The C `int` products `index_for_block * MS_BLOCK_UNIT_SIZE + index_for_piece * MS_PIECE_UNIT_SIZE`
      of every piece slot are representable exactly for files of at most 2^31 bytes. */
  lemma BlockProductsFitIff(size: nat)
    ensures (forall b, p ::
               0 <= b < BlockNum(size) && 0 <= p < PIECES_PER_BLOCK ==> PieceStart(Slot(b, p)) < 0x8000_0000)
            <==> size <= MAX_FILE_SIZE
  {
    if size > MAX_FILE_SIZE {
      assert 0 <= 1024 < BlockNum(size) && PieceStart(Slot(1024, 0)) == 0x8000_0000;
    }
  }

  // ------------------------------------------------------------------ the flat cache

  /** A cache of `size` addressable bytes; `pieces` holds the valid bytes of the cached pieces. */
  datatype Flat = Flat(size: int, pieces: map<int, seq<byte>>)

  ghost predicate PieceValid(f: Flat, k: int)
    requires k in f.pieces
  {
    0 <= PieceStart(k) < f.size && |f.pieces[k]| == PieceLen(f.size, k)
  }

  ghost predicate FlatValid(f: Flat) {
    0 <= f.size && forall k :: k in f.pieces ==> PieceValid(f, k)
  }

  ghost predicate Cached(f: Flat, off: int) {
    0 <= off < f.size && PieceIndex(off) in f.pieces
  }

  /** The byte the cache holds at `off`: the "offset to byte, or absent" view. */
  ghost function ByteAt(f: Flat, off: int): Option<byte>
    requires FlatValid(f)
  {
    if Cached(f, off) then
      assert PieceValid(f, PieceIndex(off));
      Some(f.pieces[PieceIndex(off)][PieceOffset(off)])
    else None
  }

  /** `out` is what the cache holds from `pos` on. */
  ghost predicate Copied(f: Flat, pos: int, out: seq<byte>)
    requires FlatValid(f)
  {
    forall i :: 0 <= i < |out| ==> ByteAt(f, pos + i) == Some(out[i])
  }

  /** Total length of the cached pieces numbered below `n`. */
  ghost function SumBelow(pieces: map<int, seq<byte>>, n: nat): nat {
    if n == 0 then 0
    else SumBelow(pieces, n - 1) + (if n - 1 in pieces then |pieces[n - 1]| else 0)
  }

  ghost function CompletedSize(f: Flat): nat {
    if f.size <= 0 then 0 else SumBelow(f.pieces, PieceNum(f.size))
  }

  // ------------------------------------------------------------------ operations

  /** Piece `k` starts inside the `len` bytes written at `pos`. */
  predicate Covers(pos: int, len: int, k: int) {
    pos <= PieceStart(k) < pos + len
  }

  /** The part of `data`, written at `pos`, that lands in piece `k`. */
  function PieceOf(pos: int, data: seq<byte>, k: int): seq<byte>
    requires Covers(pos, |data|, k)
  {
    data[PieceStart(k) - pos..Min(|data|, PieceStart(k + 1) - pos)]
  }

  ghost function WrittenPieces(pos: int, data: seq<byte>): map<int, seq<byte>> {
    map k: int | PieceNum(pos) <= k < PieceNum(pos + |data|) && Covers(pos, |data|, k) :: PieceOf(pos, data, k)
  }

  /** Writing `data` at the piece-aligned offset `pos`. */
  ghost function WriteFlat(f: Flat, pos: int, data: seq<byte>): Flat {
    f.(pieces := f.pieces + WrittenPieces(pos, data))
  }

  /** Piece `k` survives dropping every unheld piece that is numbered below `n` and outside the head block. */
  predicate Survives(k: int, n: int, hold: seq<int>) {
    k < PIECES_PER_BLOCK || n <= k || Held(k, hold)
  }

  ghost function EvictBelow(f: Flat, n: int, hold: seq<int>): Flat {
    f.(pieces := map k | k in f.pieces && Survives(k, n, hold) :: f.pieces[k])
  }

  ghost function Released(f: Flat, n: int, hold: seq<int>): int {
    CompletedSize(f) - CompletedSize(EvictBelow(f, n, hold))
  }

  ghost predicate BlockEmpty(f: Flat, b: int) {
    forall p :: 0 <= p < PIECES_PER_BLOCK ==> Slot(b, p) !in f.pieces
  }

  /** First block, counting from `b`, before which the eviction scan stops. */
  ghost function StopBlock(f: Flat, b: int, release: int, hold: seq<int>): (c: int)
    requires b <= BlockNum(f.size)
    ensures b <= c <= BlockNum(f.size)
    decreases BlockNum(f.size) - b
  {
    if b == BlockNum(f.size) then b
    else if !BlockEmpty(f, b) && !HeldBlock(b, hold) && Released(f, Slot(b + 1, 0), hold) >= release then b + 1
    else StopBlock(f, b + 1, release, hold)
  }

  /** `clear_buffer_for`: nothing when there is room, otherwise drop unheld pieces block by block
      until `len` bytes are released or the blocks are exhausted. */
  ghost function EvictFlat(f: Flat, len: nat, hold: seq<int>): Flat {
    if CompletedSize(f) + len <= HoldSize(|hold|) || BlockNum(f.size) <= 1 then f
    else EvictBelow(f, Slot(StopBlock(f, 1, len, hold), 0), hold)
  }
}
