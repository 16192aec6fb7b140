/** `src/ms_mem_storage.c`: the store that reads, writes, searches and evicts through the block table. */
module MemStorage {
  import opened Bytes
  import opened CacheModel
  import opened CacheFacts
  import opened BlockTable

  /** `ms_malloc_piece_buf`: one piece of memory with unspecified contents. */
  method MallocPieceBuf() returns (buf: seq<byte>)
    ensures |buf| == PIECE_SIZE
  {
    assert |seq(PIECE_SIZE, i => 0 as byte)| == PIECE_SIZE;
    buf :| |buf| == PIECE_SIZE;
  }

  /** The table kept its blocks and lost no piece. */
  ghost predicate Grows(table: Blocks, table': Blocks) {
    && |table| == |table'|
    && (forall c :: 0 <= c < |table| ==> table'[c].Some? == table[c].Some?)
    && forall c, q :: Has(table, c, q) ==> Has(table', c, q)
  }

  lemma GrowsReflexive(table: Blocks)
    ensures Grows(table, table)
  {
  }

  lemma GrowsTransitive(t0: Blocks, t1: Blocks, t2: Blocks)
    requires Grows(t0, t1) && Grows(t1, t2)
    ensures Grows(t0, t2)
  {
  }

  lemma StillUsed(table: Blocks, table': Blocks, b: int)
    requires Grows(table, table') && BlockUsed(table', b)
    requires forall c :: 0 <= c < |table| && c != b && table[c].Some? ==> BlockUsed(table, c)
    ensures NoIdleBlocks(table')
  {
  }

  lemma SlotOfOffset(pos: int, w: int)
    requires 0 <= pos && 0 <= w && PieceOffset(pos) == 0 && PieceOffset(w) == 0
    ensures PieceStart(Slot(BlockIndex(pos + w), PieceIndex((pos + w) % 2097152))) == pos + w
    ensures 0 <= PieceIndex((pos + w) % 2097152) < PIECES_PER_BLOCK
  {
  }

  lemma SlotStep(b: int, p: int)
    requires 0 <= p < PIECES_PER_BLOCK
    ensures PieceStart(Slot(b, p + 1)) == PieceStart(Slot(b, p)) + PIECE_SIZE
    ensures p + 1 == PIECES_PER_BLOCK ==> BlockIndex(PieceStart(Slot(b, p + 1))) == b + 1
  {
  }

  lemma ChunkFits(pos: int, len: int, w: int, k: int, size: int)
    requires PieceOffset(pos) == 0 && w < len && pos + w == PieceStart(k) && pos + len <= size
    requires pos + len == size || PieceOffset(len) == 0
    ensures PieceOffset(w) == 0
    ensures Min(PIECE_SIZE, len - w) == PieceLen(size, k)
    ensures len - w <= PIECE_SIZE || PieceOffset(w + PIECE_SIZE) == 0
  {
  }

  class MemStorage {
    var filesize: int
    var estimateSize: int
    var completedSize: int
    var blocks: Blocks

    ghost predicate Valid()
      reads this
    {
      && (filesize == 0 || filesize == estimateSize)
      && Shape(blocks, estimateSize)
      && NoIdleBlocks(blocks)
      && completedSize == CompletedSize(Contents())
    }

    ghost function Contents(): (f: Flat)
      requires Shape(blocks, estimateSize)
      reads this
      ensures FlatValid(f)
    {
      FlatIsValid(blocks, estimateSize);
      Flat(estimateSize, FlatPieces(blocks, estimateSize))
    }

    constructor ()
      ensures Valid()
      ensures filesize == 0 && Contents() == Flat(0, map[])
    {
      filesize, estimateSize, completedSize, blocks := 0, 0, 0, [];
    }

    /** Everything but `NoIdleBlocks`, which fails while a fresh block awaits its first piece. */
    ghost predicate Accounted()
      reads this
    {
      Shape(blocks, estimateSize) && completedSize == CompletedSize(Contents())
    }

    /** The body of the inner loop of `storage_write`: one piece of the data goes to slot `p` of block `b`. */
    method WritePiece(chunk: seq<byte>, b: nat, p: nat)
      requires Accounted()
      requires b < |blocks| && blocks[b].Some? && p < PIECES_PER_BLOCK
      requires PieceStart(Slot(b, p)) < estimateSize && |chunk| == PieceLen(estimateSize, Slot(b, p))
      modifies this`blocks, this`completedSize
      ensures Accounted() && Grows(old(blocks), blocks)
      ensures Contents() == old(Contents()).(pieces := old(Contents()).pieces[Slot(b, p) := chunk])
      ensures |blocks| == old(|blocks|) && Has(blocks, b, p)
    {
      assert BlockShape(blocks, estimateSize, b);
      var buf;
      if blocks[b].value.pieces[p].buf.None? {
        buf := MallocPieceBuf();
        completedSize := completedSize + |chunk|;
      } else {
        buf := blocks[b].value.pieces[p].buf.value;
        assert Has(blocks, b, p);
      }
      buf := chunk + buf[|chunk|..];
      StorePiece(blocks, estimateSize, b, p, buf, |chunk|);
      assert buf[..|chunk|] == chunk;
      blocks := SetPiece(blocks, b, p, Some(buf));
    }

    /** The inner loop of `storage_write`: fills block `b` from offset `pos + start` on. */
    method WriteBlock(data: seq<byte>, pos: int, b: nat, start: nat, ghost before: Flat) returns (written: nat)
      requires Accounted()
      requires 0 <= pos && PieceOffset(pos) == 0 && start < |data| && PieceOffset(start) == 0
      requires pos + |data| == estimateSize || PieceOffset(|data|) == 0
      requires pos + |data| <= estimateSize
      requires b < |blocks| && blocks[b].Some? && b == BlockIndex(pos + start)
      requires Contents() == WriteFlat(before, pos, data[..start])
      modifies this`blocks, this`completedSize
      ensures Accounted() && Grows(old(blocks), blocks) && |blocks| == old(|blocks|)
      ensures start < written <= |data|
      ensures Contents() == WriteFlat(before, pos, data[..written])
      ensures written < |data| ==> PieceOffset(written) == 0 && BlockIndex(pos + written) == b + 1
      ensures BlockUsed(blocks, b)
    {
      hide FlatPieces, WriteFlat, CompletedSize, Grows, Shape;
      GrowsReflexive(blocks);
      written := start;
      var p := PieceIndex((pos + written) % 2097152);
      SlotOfOffset(pos, written);
      while written < |data|
        invariant start <= written <= |data|
        invariant Accounted() && Grows(old(blocks), blocks)
        invariant |blocks| == old(|blocks|) && blocks[b].Some?
        invariant written > start ==> BlockUsed(blocks, b)
        invariant written < |data| ==> 0 <= p < PIECES_PER_BLOCK && PieceStart(Slot(b, p)) == pos + written
        invariant Contents() == WriteFlat(before, pos, data[..written])
        decreases |data| - written
      {
        var writeLen := PIECE_SIZE;
        if writeLen > |data| - written {
          writeLen := |data| - written;
        }
        ChunkFits(pos, |data|, written, Slot(b, p), estimateSize);
        WriteFlatStep(before, pos, data, written, writeLen, Slot(b, p));
        ghost var table := blocks;
        WritePiece(data[written..written + writeLen], b, p);
        GrowsTransitive(old(blocks), table, blocks);
        written := written + writeLen;
        p := p + 1;
        SlotStep(b, p - 1);
        if p >= PIECES_PER_BLOCK {
          break;
        }
      }
    }

    method Write(data: seq<byte>, pos: int) returns (written: nat)
      requires Valid()
      requires 0 <= pos && PieceOffset(pos) == 0
      requires pos + |data| == estimateSize || PieceOffset(|data|) == 0
      requires pos + |data| <= estimateSize
      modifies this`blocks, this`completedSize
      ensures Valid()
      ensures written == |data|
      ensures Contents() == WriteFlat(old(Contents()), pos, data)
    {
      hide FlatPieces, CompletedSize;
      written := 0;
      ghost var before := Contents();
      var b := BlockIndex(pos);
      assert WriteFlat(before, pos, data[..0]) == before;
      while written < |data|
        invariant 0 <= written <= |data|
        invariant Accounted() && NoIdleBlocks(blocks)
        invariant written < |data| ==> b == BlockIndex(pos + written) && PieceOffset(written) == 0
        invariant Contents() == WriteFlat(before, pos, data[..written])
        decreases |data| - written
      {
        if blocks[b].None? {
          SetBlockFlat(blocks, estimateSize, b, Some(EMPTY_BLOCK));
          blocks := blocks[b := Some(EMPTY_BLOCK)];
        }
        ghost var table := blocks;
        written := WriteBlock(data, pos, b, written, before);
        StillUsed(table, blocks, b);
        b := b + 1;
        if b >= BlockNum(estimateSize) {
          break;
        }
      }
      assert data[..written] == data;
    }

    /** `realloc_blocks`, which `set_filesize` and `set_content_size` share. */
    method ReallocBlocks(newSize: int)
      requires Valid()
      requires estimateSize <= newSize <= MAX_FILE_SIZE
      modifies this`blocks
      ensures |old(blocks)| <= BlockNum(newSize) && blocks == Extend(old(blocks), BlockNum(newSize))
    {
      var oldSize := estimateSize;
      if filesize > 0 {
        oldSize := filesize;
      }
      blocks := blocks + seq(BlockNum(newSize) - BlockNum(oldSize), _ => None);
    }

    method SetFilesize(size: int)
      requires Valid()
      requires 0 < size && filesize <= size && estimateSize <= size <= MAX_FILE_SIZE
      requires TailSettled(Contents(), size)
      modifies this
      ensures Valid()
      ensures filesize == size && Contents() == Flat(size, old(Contents()).pieces)
    {
      hide FlatPieces, CompletedSize, Extend, Shape, NoIdleBlocks, TailSettled;
      Growth(blocks, estimateSize, size);
      ReallocBlocks(size);
      filesize := size;
      estimateSize := size;
    }

    method SetContentSize(from: int, size: int)
      requires Valid()
      requires from + size <= MAX_FILE_SIZE
      requires filesize == 0 && from + size > estimateSize ==> TailSettled(Contents(), from + size)
      modifies this
      ensures Valid() && filesize == old(filesize)
      ensures var keeps := filesize > 0 || from + size <= old(estimateSize);
              Contents() == Flat(if keeps then old(estimateSize) else from + size, old(Contents()).pieces)
    {
      hide FlatPieces, CompletedSize, Extend, Shape, NoIdleBlocks, TailSettled;
      if filesize > 0 {
        return;
      }
      if from + size > estimateSize {
        Growth(blocks, estimateSize, from + size);
        ReallocBlocks(from + size);
        estimateSize := from + size;
      }
    }

    /** One round of the loop of `storage_read`, for a piece that is there. */
    method ReadPiece(pos: int, len: nat, b: nat, p: nat, start: seq<byte>) returns (out: seq<byte>)
      requires Valid()
      requires 0 <= pos && pos + len <= estimateSize && |start| < len
      requires b < |blocks| && blocks[b].Some? && p < PIECES_PER_BLOCK
      requires |blocks[b].value.pieces| > p && blocks[b].value.pieces[p].buf.Some?
      requires PieceStart(Slot(b, p)) <= pos + |start| < PieceStart(Slot(b, p)) + PIECE_SIZE
      requires Copied(Contents(), pos, start)
      ensures Copied(Contents(), pos, out) && |start| < |out| <= len
      ensures |out| == len || pos + |out| == PieceStart(Slot(b, p)) + PIECE_SIZE
    {
      hide FlatPieces, CompletedSize, NoIdleBlocks, Copied, Cached, Shape, PieceIndex, PieceOffset, BlockIndex;
      HasFlat(blocks, estimateSize, b, p);
      InPiece(pos + |start|, Slot(b, p));
      var offset := PieceOffset(pos + |start|);
      var readLen := PIECE_SIZE - offset;
      if readLen > len - |start| {
        readLen := len - |start|;
      }
      var chunk := blocks[b].value.pieces[p].buf.value[offset..offset + readLen];
      assert chunk == Contents().pieces[Slot(b, p)][offset..offset + readLen];
      CopyStep(Contents(), pos, start, Slot(b, p), chunk);
      out := start + chunk;
    }

    /** The inner loop of `storage_read`: copies out of block `b` until a piece is missing. */
    method ReadBlock(pos: int, len: nat, b: nat, start: seq<byte>) returns (out: seq<byte>, missing: bool)
      requires Valid()
      requires 0 <= pos && pos + len <= estimateSize && |start| < len
      requires b == BlockIndex(pos + |start|) && b < |blocks| && blocks[b].Some?
      requires Copied(Contents(), pos, start)
      ensures |start| <= |out| <= len && Copied(Contents(), pos, out)
      ensures missing ==> |out| < len && !Cached(Contents(), pos + |out|)
      ensures !missing && |out| < len ==> |start| < |out| && BlockIndex(pos + |out|) == b + 1
    {
      hide FlatPieces, CompletedSize, NoIdleBlocks, Copied, Cached, Shape, PieceIndex, PieceOffset, BlockIndex;
      out := start;
      missing := false;
      var p := PieceIndex((pos + |out|) % 2097152);
      SlotBelow(pos + |out|);
      while |out| < len
        invariant |start| <= |out| <= len && Copied(Contents(), pos, out)
        invariant |out| < len ==>
                    && 0 <= p < PIECES_PER_BLOCK
                    && PieceStart(Slot(b, p)) <= pos + |out| < PieceStart(Slot(b, p)) + PIECE_SIZE
        invariant |out| == |start| || |out| == len || pos + |out| == PieceStart(Slot(b, p))
        decreases len - |out|
      {
        HasFlat(blocks, estimateSize, b, p);
        BlockFull(blocks, estimateSize, b);
        InPiece(pos + |out|, Slot(b, p));
        if blocks[b].value.pieces[p].buf.None? {
          CachedIff(Contents(), pos + |out|, Slot(b, p));
          return out, true;
        }
        out := ReadPiece(pos, len, b, p, out);
        p := p + 1;
        SlotStep(b, p - 1);
        if p >= PIECES_PER_BLOCK {
          break;
        }
      }
    }

    /** `storage_read`: the longest cached prefix of `[pos, pos + len)`. */
    method Read(pos: int, len: nat) returns (out: seq<byte>)
      requires Valid()
      requires 0 <= pos && (estimateSize == 0 || pos + len <= estimateSize)
      ensures |out| <= len && Copied(Contents(), pos, out)
      ensures |out| < len ==> !Cached(Contents(), pos + |out|)
    {
      hide FlatPieces, CompletedSize;
      out := [];
      if estimateSize == 0 && filesize == 0 {
        return;
      }
      var b := BlockIndex(pos);
      while |out| < len
        invariant |out| <= len && Copied(Contents(), pos, out)
        invariant |out| < len ==> b == BlockIndex(pos + |out|)
        decreases len - |out|
      {
        if blocks[b].None? {
          MissingBlock(blocks, estimateSize, b, pos + |out|);
          break;
        }
        var missing;
        out, missing := ReadBlock(pos, len, b, out);
        if missing {
          return;
        }
        b := b + 1;
        if BlockNum(estimateSize) <= b {
          break;
        }
      }
    }

    /** The inner loop of `cached_from`: scans block `b` from slot `p0` on. */
    method ScanBlock(from: int, b: nat, p0: nat, pos0: int, len0: int, found0: bool)
      returns (pos: int, len: int, found: bool, done: bool)
      requires Valid() && from <= estimateSize
      requires b < |blocks| && blocks[b].Some? && p0 < PIECES_PER_BLOCK
      requires Scanning(Contents(), from, PieceStart(Slot(b, p0)), pos0, len0, found0)
      ensures done ==> EarliestRun(Contents(), from, pos, len)
      ensures !done ==> Scanning(Contents(), from, PieceStart(Slot(b + 1, 0)), pos, len, found)
    {
      hide FlatPieces, CompletedSize, NoIdleBlocks, Scanning, EarliestRun, Shape, FlatValid;
      pos, len, found, done := pos0, len0, found0, false;
      var p := p0;
      BlockFull(blocks, estimateSize, b);
      while p < PIECES_PER_BLOCK
        invariant p0 <= p <= PIECES_PER_BLOCK
        invariant Scanning(Contents(), from, PieceStart(Slot(b, p)), pos, len, found)
      {
        HasFlat(blocks, estimateSize, b, p);
        if blocks[b].value.pieces[p].buf.None? {
          ScanAbsent(Contents(), from, Slot(b, p), pos, len, found);
          if found {
            assert pos <= estimateSize;
            if pos + len > estimateSize {
              len := estimateSize - pos;
            }
            return pos, len, found, true;
          }
        } else {
          ScanPresent(Contents(), from, Slot(b, p), pos, len, found);
          if !found {
            pos := PieceStart(Slot(b, p));
            found := true;
            len := PIECE_SIZE;
            if pos < from {
              len := PIECE_SIZE - (from - pos);
              pos := from;
            }
          } else {
            len := len + PIECE_SIZE;
          }
        }
        p := p + 1;
      }
    }

    /** `cached_from`: the earliest maximal cached run at or after `from`. */
    method CachedFrom(from: int) returns (pos: int, len: int)
      requires Valid()
      requires 0 <= from && (estimateSize == 0 || from <= estimateSize)
      ensures estimateSize == 0 ==> pos == from && len == -1
      ensures estimateSize > 0 ==> EarliestRun(Contents(), from, pos, len)
    {
      hide FlatPieces, CompletedSize, NoIdleBlocks, Scanning, EarliestRun, FlatValid;
      pos, len := 0, 0;
      if estimateSize == 0 {
        return from, -1;
      }
      var b := BlockIndex(from);
      var p := PieceIndex(from % 2097152);
      var found := false;
      SlotBelow(from);
      ScanStart(Contents(), from, PieceStart(Slot(b, p)));
      while b < BlockNum(estimateSize)
        invariant BlockIndex(from) <= b
        invariant b == BlockIndex(from) ==> 0 <= p < PIECES_PER_BLOCK && !found
        invariant Scanning(Contents(), from, PieceStart(Slot(b, if b == BlockIndex(from) then p else 0)),
                           pos, len, found)
        decreases BlockNum(estimateSize) - b
      {
        if blocks[b].None? {
          var q := if b == BlockIndex(from) then p else 0;
          ScanGap(blocks, estimateSize, from, b, q, pos, len, found);
          if found {
            assert pos + len <= estimateSize;
            return;
          }
        } else {
          if b > BlockIndex(from) {
            p := 0;
          }
          var done;
          pos, len, found, done := ScanBlock(from, b, p, pos, len, found);
          if done {
            return;
          }
        }
        b := b + 1;
      }
      ScanEnd(Contents(), from, PieceStart(Slot(b, if b == BlockIndex(from) then p else 0)), pos, len, found);
      assert pos <= estimateSize;
      if pos + len > estimateSize {
        len := estimateSize - pos;
      }
    }

    /** The inner loop of `clear_buffer_for`: frees the unheld pieces of block `b`. */
    method EvictBlock(b: nat, hold: seq<int>, release0: int, ghost f: Flat)
      returns (release: int, bufCount: nat, releaseCount: nat)
      requires Accounted() && filesize == estimateSize
      requires 1 <= b < |blocks| && blocks[b].Some?
      requires FlatValid(f) && Contents() == EvictBelow(f, Slot(b, 0), hold)
      modifies this`blocks, this`completedSize
      ensures Accounted() && Contents() == EvictBelow(f, Slot(b + 1, 0), hold)
      ensures release0 - release == old(completedSize) - completedSize
      ensures |blocks| == old(|blocks|) && blocks[b].Some?
      ensures forall c :: 0 <= c < |blocks| && c != b ==> blocks[c] == old(blocks)[c]
      ensures releaseCount <= bufCount && (releaseCount == bufCount <==> !BlockUsed(blocks, b))
      ensures releaseCount == 0 ==> blocks == old(blocks)
    {
      hide FlatPieces, CompletedSize, EvictBelow, Held, FlatValid, Shape;
      release, bufCount, releaseCount := release0, 0, 0;
      var p := 0;
      BlockFull(blocks, estimateSize, b);
      while p < PIECES_PER_BLOCK
        invariant 0 <= p <= PIECES_PER_BLOCK
        invariant Accounted() && Contents() == EvictBelow(f, Slot(b, p), hold)
        invariant release0 - release == old(completedSize) - completedSize
        invariant |blocks| == old(|blocks|) && blocks[b].Some? && |blocks[b].value.pieces| == PIECES_PER_BLOCK
        invariant forall c :: 0 <= c < |blocks| && c != b ==> blocks[c] == old(blocks)[c]
        invariant releaseCount <= bufCount
        invariant releaseCount == bufCount ==> forall q :: 0 <= q < p ==> !Has(blocks, b, q)
        invariant releaseCount < bufCount ==> exists q :: 0 <= q < p && Has(blocks, b, q)
        invariant releaseCount == 0 ==> blocks == old(blocks)
      {
        EvictStep(f, Slot(b, p), hold);
        HasFlat(blocks, estimateSize, b, p);
        if blocks[b].value.pieces[p].buf.Some? {
          bufCount := bufCount + 1;
          if Held(Slot(b, p), hold) {
            assert Has(blocks, b, p);
          } else {
            releaseCount := releaseCount + 1;
            FreePiece(blocks, estimateSize, b, p);
            blocks := SetPiece(blocks, b, p, None);
            completedSize := completedSize - PieceLen(filesize, Slot(b, p));
            release := release - PieceLen(filesize, Slot(b, p));
          }
        }
        p := p + 1;
      }
    }

    /** `clear_buffer_for`: makes room for `len` bytes without touching the head or a held piece. */
    method ClearBufferFor(len: nat, hold: seq<int>)
      requires Valid() && filesize == estimateSize
      requires len < 0x8000_0000
      modifies this`blocks, this`completedSize
      ensures Valid()
      ensures Contents() == EvictFlat(old(Contents()), len, hold)
    {
      hide FlatPieces, CompletedSize, EvictBelow, HeldBlock, FlatValid, Shape, BlockEmpty;
      if completedSize + len <= HoldSize(|hold|) {
        return;
      }
      var release := len;
      var b := BlockIndex(HOLD_HEAD_SIZE);
      ghost var f := Contents();
      EvictStart(f, hold);
      while b < BlockNum(estimateSize)
        invariant 1 <= b && (b <= BlockNum(estimateSize) || b == 1)
        invariant Valid() && Contents() == EvictBelow(f, Slot(b, 0), hold)
        invariant release == len - (CompletedSize(f) - completedSize)
        invariant b <= BlockNum(estimateSize) ==> StopBlock(f, 1, len, hold) == StopBlock(f, b, len, hold)
        decreases BlockNum(estimateSize) - b
      {
        BlockScan(blocks, estimateSize, f, b, hold);
        if blocks[b].Some? && !HeldBlock(b, hold) {
          ghost var table := blocks;
          var bufCount, releaseCount;
          release, bufCount, releaseCount := EvictBlock(b, hold, release, f);
          OthersUsed(table, blocks, b);
          if releaseCount > 0 && releaseCount == bufCount {
            SetBlockFlat(blocks, estimateSize, b, None);
            blocks := blocks[b := None];
          }
          if release <= 0 {
            return;
          }
        }
        b := b + 1;
      }
    }
  }

  lemma Growth(blocks: Blocks, size: int, size': int)
    requires Shape(blocks, size) && NoIdleBlocks(blocks) && size <= size' <= MAX_FILE_SIZE
    requires TailSettled(Flat(size, FlatPieces(blocks, size)), size')
    ensures |blocks| <= BlockNum(size')
    ensures var blocks' := Extend(blocks, BlockNum(size'));
            && Shape(blocks', size')
            && NoIdleBlocks(blocks')
            && FlatPieces(blocks', size') == FlatPieces(blocks, size)
            && CompletedSize(Flat(size', FlatPieces(blocks', size')))
              == CompletedSize(Flat(size, FlatPieces(blocks, size)))
  {
    GrowthKeepsPiecesIff(blocks, size, size');
    ExtendShape(blocks, size, size');
    FlatIsValid(blocks, size);
    GrowthKeepsCompleted(Flat(size, FlatPieces(blocks, size)), size');
  }

  lemma BlockFull(blocks: Blocks, size: int, b: int)
    requires Shape(blocks, size) && 0 <= b < |blocks| && blocks[b].Some?
    ensures |blocks[b].value.pieces| == PIECES_PER_BLOCK
  {
    assert BlockShape(blocks, size, b);
  }

  lemma SlotBelow(off: int)
    requires 0 <= off
    ensures var k := Slot(BlockIndex(off), PieceIndex(off % 2097152));
            PieceStart(k) <= off < PieceStart(k) + PIECE_SIZE
    ensures 0 <= PieceIndex(off % 2097152) < PIECES_PER_BLOCK
  {
  }

  lemma InPiece(off: int, k: int)
    requires PieceStart(k) <= off < PieceStart(k) + PIECE_SIZE
    ensures PieceIndex(off) == k && PieceOffset(off) == off - PieceStart(k)
  {
  }

  lemma CachedIff(f: Flat, off: int, k: int)
    requires PieceIndex(off) == k
    ensures Cached(f, off) <==> 0 <= off < f.size && k in f.pieces
  {
  }

  lemma CopyStep(f: Flat, pos: int, out: seq<byte>, k: int, chunk: seq<byte>)
    requires FlatValid(f) && Copied(f, pos, out)
    requires PieceStart(k) <= pos + |out| && pos + |out| + |chunk| <= PieceStart(k) + PIECE_SIZE
    requires 0 <= pos && pos + |out| + |chunk| <= f.size
    requires k in f.pieces
    requires var o := pos + |out| - PieceStart(k);
             o + |chunk| <= |f.pieces[k]| && chunk == f.pieces[k][o..o + |chunk|]
    ensures Copied(f, pos, out + chunk)
  {
    forall i | |out| <= i < |out| + |chunk|
      ensures ByteAt(f, pos + i) == Some((out + chunk)[i])
    {
      InPiece(pos + i, k);
    }
  }

  lemma MissingBlock(blocks: Blocks, size: int, b: int, off: int)
    requires Shape(blocks, size) && 0 <= off && b == BlockIndex(off) && b < |blocks| && blocks[b].None?
    ensures !Cached(Flat(size, FlatPieces(blocks, size)), off)
  {
    SlotBelow(off);
    var p := PieceIndex(off % 2097152);
    InPiece(off, Slot(b, p));
    HasFlat(blocks, size, b, p);
  }

  // ------------------------------------------------------------------ searching

  ghost predicate NoneCached(f: Flat, lo: int, hi: int) {
    forall off :: lo <= off < hi ==> !Cached(f, off)
  }

  ghost predicate AllCached(f: Flat, lo: int, hi: int) {
    forall off :: lo <= off < hi ==> Cached(f, off)
  }

  /** `[pos, pos + len)` is the first maximal cached run at or after `from`; no run is reported as
      length 0, at offset 0 or, when the search starts at the very end, possibly at `from`. */
  ghost predicate EarliestRun(f: Flat, from: int, pos: int, len: int) {
    && 0 <= len
    && (len == 0 ==> NoneCached(f, from, f.size) && (pos == 0 || pos == from == f.size))
    && (len > 0 ==>
          && from <= pos && pos + len <= f.size
          && NoneCached(f, from, pos)
          && AllCached(f, pos, pos + len)
          && (pos + len == f.size || !Cached(f, pos + len)))
  }

  /** A read of `n` bytes at the start of a reported run hands out the whole run, or as much as was asked for. */
  lemma ReadTakesTheRun(f: Flat, from: int, pos: int, len: int, n: nat, out: seq<byte>)
    requires FlatValid(f) && EarliestRun(f, from, pos, len) && 0 < len
    requires pos + n <= f.size && |out| <= n && Copied(f, pos, out)
    requires |out| < n ==> !Cached(f, pos + |out|)
    ensures |out| == Min(n, len)
  {
    hide Cached, ByteAt;
    forall off | pos <= off < pos + |out|
      ensures Cached(f, off)
    {
      assert ByteAt(f, pos + (off - pos)) == Some(out[off - pos]);
      ByteIsCached(f, off);
    }
  }

  lemma ByteIsCached(f: Flat, off: int)
    requires FlatValid(f)
    ensures ByteAt(f, off).Some? <==> Cached(f, off)
  {
  }

  /** What `cached_from` knows when it has looked at all pieces that start below `at`. */
  ghost predicate Scanning(f: Flat, from: int, at: int, pos: int, len: int, found: bool) {
    if found then
      && 0 <= from <= pos <= f.size && (pos < f.size || pos == from) && 0 < len && pos + len == at
      && NoneCached(f, from, pos) && AllCached(f, pos, Min(at, f.size))
    else
      0 <= from < at + PIECE_SIZE && pos == 0 && len == 0 && NoneCached(f, from, at)
  }

  lemma ScanStart(f: Flat, from: int, at: int)
    requires 0 <= from && at <= from < at + PIECE_SIZE
    ensures Scanning(f, from, at, 0, 0, false)
  {
  }

  lemma AbsentPiece(f: Flat, k: int)
    requires k !in f.pieces
    ensures NoneCached(f, PieceStart(k), PieceStart(k + 1))
  {
    forall off | PieceStart(k) <= off < PieceStart(k + 1)
      ensures !Cached(f, off)
    {
      InPiece(off, k);
    }
  }

  lemma PresentPiece(f: Flat, k: int)
    requires k in f.pieces && 0 <= PieceStart(k)
    ensures AllCached(f, PieceStart(k), Min(PieceStart(k + 1), f.size))
  {
    forall off | PieceStart(k) <= off < Min(PieceStart(k + 1), f.size)
      ensures Cached(f, off)
    {
      InPiece(off, k);
    }
  }

  lemma ScanAbsent(f: Flat, from: int, k: int, pos: int, len: int, found: bool)
    requires k !in f.pieces && from <= f.size && Scanning(f, from, PieceStart(k), pos, len, found)
    ensures !found ==> Scanning(f, from, PieceStart(k + 1), pos, len, found)
    ensures found ==> pos <= f.size && EarliestRun(f, from, pos, Min(len, f.size - pos))
  {
    hide Cached;
    AbsentPiece(f, k);
    assert PieceStart(k) < PieceStart(k + 1);
    assert found && PieceStart(k) < f.size ==> !Cached(f, PieceStart(k));
  }

  lemma ScanPresent(f: Flat, from: int, k: int, pos: int, len: int, found: bool)
    requires FlatValid(f) && k in f.pieces && from <= f.size && Scanning(f, from, PieceStart(k), pos, len, found)
    ensures found ==> Scanning(f, from, PieceStart(k + 1), pos, len + PIECE_SIZE, true)
    ensures !found && PieceStart(k) >= from ==> Scanning(f, from, PieceStart(k + 1), PieceStart(k), PIECE_SIZE, true)
    ensures !found && PieceStart(k) < from ==>
              Scanning(f, from, PieceStart(k + 1), from, PIECE_SIZE - (from - PieceStart(k)), true)
  {
    hide Cached;
    assert PieceValid(f, k);
    PresentPiece(f, k);
  }

  lemma ScanGap(blocks: Blocks, size: int, from: int, b: int, q: int, pos: int, len: int, found: bool)
    requires Shape(blocks, size) && from <= size && 0 <= q < PIECES_PER_BLOCK
    requires 0 <= b < |blocks| && blocks[b].None? && (found ==> q == 0)
    requires Scanning(Flat(size, FlatPieces(blocks, size)), from, PieceStart(Slot(b, q)), pos, len, found)
    ensures !found ==> Scanning(Flat(size, FlatPieces(blocks, size)), from, PieceStart(Slot(b + 1, 0)), pos, len, found)
    ensures found ==> pos + len <= size && EarliestRun(Flat(size, FlatPieces(blocks, size)), from, pos, len)
  {
    hide Cached, FlatPieces;
    var f := Flat(size, FlatPieces(blocks, size));
    forall off | PieceStart(Slot(b, q)) <= off < PieceStart(Slot(b + 1, 0))
      ensures !Cached(f, off)
    {
      MissingBlock(blocks, size, b, off);
    }
    if found {
      assert PieceStart(Slot(b, q)) < PieceStart(Slot(b + 1, 0));
    }
  }

  lemma ScanEnd(f: Flat, from: int, at: int, pos: int, len: int, found: bool)
    requires 0 <= f.size && f.size <= at && from <= f.size && Scanning(f, from, at, pos, len, found)
    ensures pos <= f.size && EarliestRun(f, from, pos, Min(len, f.size - pos))
  {
  }

  // ------------------------------------------------------------------ evicting

  lemma EvictStep(f: Flat, k: int, hold: seq<int>)
    requires k >= PIECES_PER_BLOCK
    ensures var cur := EvictBelow(f, k, hold);
            EvictBelow(f, k + 1, hold) == if Held(k, hold) then cur else cur.(pieces := cur.pieces - {k})
    ensures k in EvictBelow(f, k, hold).pieces <==> k in f.pieces
  {
    hide Held;
  }

  lemma EvictStart(f: Flat, hold: seq<int>)
    ensures EvictBelow(f, Slot(1, 0), hold) == f
    ensures Slot(1, 0) == PIECES_PER_BLOCK
  {
    hide Held;
  }

  lemma FreePiece(blocks: Blocks, size: int, b: nat, p: nat)
    requires Shape(blocks, size) && b < |blocks| && blocks[b].Some? && p < PIECES_PER_BLOCK
    requires Has(blocks, b, p)
    ensures BlockShape(blocks, size, b) && Shape(SetPiece(blocks, b, p, None), size)
    ensures FlatPieces(SetPiece(blocks, b, p, None), size) == FlatPieces(blocks, size) - {Slot(b, p)}
    ensures CompletedSize(Flat(size, FlatPieces(SetPiece(blocks, b, p, None), size)))
         == CompletedSize(Flat(size, FlatPieces(blocks, size))) - PieceLen(size, Slot(b, p))
    ensures forall q :: q != p ==> Has(SetPiece(blocks, b, p, None), b, q) == Has(blocks, b, q)
    ensures !Has(SetPiece(blocks, b, p, None), b, p)
  {
    SetPieceShape(blocks, size, b, p, None);
    SetPieceFlat(blocks, size, b, p, None);
    HasFlat(blocks, size, b, p);
    SumRemove(FlatPieces(blocks, size), PieceNum(size), Slot(b, p));
  }

  lemma OthersUsed(table: Blocks, table': Blocks, b: int)
    requires NoIdleBlocks(table) && |table| == |table'|
    requires forall c :: 0 <= c < |table| && c != b ==> table'[c] == table[c]
    ensures forall c :: 0 <= c < |table| && c != b && table'[c].Some? ==> BlockUsed(table', c)
  {
    forall c | 0 <= c < |table| && c != b && table'[c].Some?
      ensures BlockUsed(table', c)
    {
      var p :| Has(table, c, p);
      assert Has(table', c, p);
    }
  }

  /** What the scan sees at block `b`: a null entry is an empty block, and skipping an empty or a
      held block is what the per-piece test would do. */
  lemma BlockScan(blocks: Blocks, size: int, f: Flat, b: int, hold: seq<int>)
    requires Shape(blocks, size) && NoIdleBlocks(blocks) && 1 <= b < BlockNum(size) && f.size == size
    requires FlatPieces(blocks, size) == EvictBelow(f, Slot(b, 0), hold).pieces
    ensures b < |blocks|
    ensures blocks[b].None? <==> BlockEmpty(f, b)
    ensures blocks[b].None? || HeldBlock(b, hold) ==>
              EvictBelow(f, Slot(b + 1, 0), hold) == EvictBelow(f, Slot(b, 0), hold)
  {
    hide Held, HeldBlock;
    forall p | 0 <= p < PIECES_PER_BLOCK
      ensures Has(blocks, b, p) <==> Slot(b, p) in f.pieces
      ensures HeldBlock(b, hold) ==> Held(Slot(b, p), hold)
    {
      HasFlat(blocks, size, b, p);
      if HeldBlock(b, hold) {
        HeldBlockHoldsPieces(b, p, hold);
      }
    }
    if blocks[b].Some? {
      assert BlockUsed(blocks, b);
      assert BlockShape(blocks, size, b);
    }
    if blocks[b].None? || HeldBlock(b, hold) {
      forall k | k in f.pieces && Slot(b, 0) <= k < Slot(b + 1, 0)
        ensures Held(k, hold)
      {
        assert k == Slot(b, k - Slot(b, 0));
      }
    }
  }
}
