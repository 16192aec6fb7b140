/**
 * Whole runs of the cache: under any interleaving of writes and evictions the cache never shows a
 * byte other than the last one written, and a task that makes room before every write stays within
 * the hold budget.
 */
module CacheRuns {
  import opened Bytes
  import opened CacheModel
  import opened CacheFacts

  datatype Op =
    | Evict(len: nat, hold: seq<int>)
    | Write(pos: int, data: seq<byte>)

  /** What `storage_write` asserts of its caller. */
  ghost predicate Allowed(size: int, op: Op) {
    op.Write? ==>
      && 0 <= op.pos && PieceOffset(op.pos) == 0 && op.pos + |op.data| <= size
      && (op.pos + |op.data| == size || PieceOffset(|op.data|) == 0)
  }

  ghost function Apply(f: Flat, op: Op): Flat {
    match op
    case Evict(len, hold) => EvictFlat(f, len, hold)
    case Write(pos, data) => WriteFlat(f, pos, data)
  }

  ghost predicate AllAllowed(size: int, ops: seq<Op>) {
    forall i :: 0 <= i < |ops| ==> Allowed(size, ops[i])
  }

  /** The cache after `ops`, starting empty. */
  ghost function Run(size: int, ops: seq<Op>): Flat {
    if ops == [] then Flat(size, map[]) else Apply(Run(size, ops[..|ops| - 1]), ops[|ops| - 1])
  }

  lemma ApplyKeepsValid(f: Flat, op: Op)
    requires FlatValid(f) && Allowed(f.size, op)
    ensures FlatValid(Apply(f, op)) && Apply(f, op).size == f.size
  {
    match op
    case Evict(len, hold) =>
      if BlockNum(f.size) > 1 {
        EvictKeepsValid(f, Slot(StopBlock(f, 1, len, hold), 0), hold);
      }
    case Write(pos, data) => WriteKeepsValid(f, pos, data);
  }

  lemma {:induction false} RunValid(size: nat, ops: seq<Op>)
    requires AllAllowed(size, ops)
    ensures FlatValid(Run(size, ops)) && Run(size, ops).size == size
  {
    if ops != [] {
      RunValid(size, ops[..|ops| - 1]);
      ApplyKeepsValid(Run(size, ops[..|ops| - 1]), ops[|ops| - 1]);
    }
  }

  // ------------------------------------------------------------------ refinement of "last write wins"

  predicate Overwrites(op: Op, off: int) {
    op.Write? && op.pos <= off < op.pos + |op.data|
  }

  /** The byte most recently written at `off`, evictions ignored. */
  function LastWritten(ops: seq<Op>, off: int): Option<byte> {
    if ops == [] then None
    else
      var op := ops[|ops| - 1];
      if Overwrites(op, off) then Some(op.data[off - op.pos]) else LastWritten(ops[..|ops| - 1], off)
  }

  /** `off` lies in the head or in a held piece at every eviction since it was last written. */
  predicate Protected(ops: seq<Op>, off: int) {
    if ops == [] then false
    else
      var op := ops[|ops| - 1];
      if op.Write? && Overwrites(op, off) then true
      else
        && Protected(ops[..|ops| - 1], off)
        && (op.Evict? ==> PieceIndex(off) < PIECES_PER_BLOCK || Held(PieceIndex(off), op.hold))
  }

  /** Eviction keeps the head block and every held piece, and never changes a byte it keeps. */
  lemma EvictFlatBytes(f: Flat, len: nat, hold: seq<int>, off: int)
    requires FlatValid(f)
    ensures FlatValid(EvictFlat(f, len, hold))
    ensures ByteAt(EvictFlat(f, len, hold), off) in {ByteAt(f, off), None}
    ensures PieceIndex(off) < PIECES_PER_BLOCK || Held(PieceIndex(off), hold) ==>
              ByteAt(EvictFlat(f, len, hold), off) == ByteAt(f, off)
  {
    if BlockNum(f.size) > 1 {
      EvictBytes(f, Slot(StopBlock(f, 1, len, hold), 0), hold, off);
    }
  }

  /** After any run the byte at `off` is absent or the last one written there, and it is present
      whenever every eviction since then had to keep it. */
  lemma {:induction false} CacheRefinesLastWrite(size: nat, ops: seq<Op>, off: int)
    requires AllAllowed(size, ops)
    ensures FlatValid(Run(size, ops))
    ensures ByteAt(Run(size, ops), off) in {LastWritten(ops, off), None}
    ensures Protected(ops, off) ==> LastWritten(ops, off).Some? && ByteAt(Run(size, ops), off) == LastWritten(ops, off)
  {
    hide EvictFlat, WriteFlat, Held;
    RunValid(size, ops);
    if ops != [] {
      var before, op := ops[..|ops| - 1], ops[|ops| - 1];
      RunValid(size, before);
      CacheRefinesLastWrite(size, before, off);
      match op
      case Evict(len, hold) => EvictFlatBytes(Run(size, before), len, hold, off);
      case Write(pos, data) => WriteBytes(Run(size, before), pos, data, off);
    }
  }

  /** A read that follows any run hands out the bytes last written. */
  lemma ReadsLastWritten(size: nat, ops: seq<Op>, pos: int, out: seq<byte>)
    requires AllAllowed(size, ops)
    requires FlatValid(Run(size, ops)) && Copied(Run(size, ops), pos, out)
    ensures forall i :: 0 <= i < |out| ==> LastWritten(ops, pos + i) == Some(out[i])
  {
    forall i | 0 <= i < |out|
      ensures LastWritten(ops, pos + i) == Some(out[i])
    {
      CacheRefinesLastWrite(size, ops, pos + i);
    }
  }

  // ------------------------------------------------------------------ the memory bound

  lemma {:induction false} SumSplit(p: map<int, seq<byte>>, q: map<int, seq<byte>>, r: map<int, seq<byte>>, n: nat)
    requires forall k :: k in p ==> (k in q && p[k] == q[k]) || (k in r && p[k] == r[k])
    ensures SumBelow(p, n) <= SumBelow(q, n) + SumBelow(r, n)
  {
    if n > 0 {
      SumSplit(p, q, r, n - 1);
    }
  }

  /** Pieces that lie inside `[lo, hi)` total at most its length. */
  lemma {:induction false} SumInRange(p: map<int, seq<byte>>, n: nat, lo: int, hi: int)
    requires forall k :: k in p ==> |p[k]| <= PIECE_SIZE && lo <= PieceStart(k) && PieceStart(k + 1) <= hi
    ensures SumBelow(p, n) <= if lo <= Min(hi, PieceStart(n)) then Min(hi, PieceStart(n)) - lo else 0
  {
    if n > 0 {
      SumInRange(p, n - 1, lo, hi);
    }
  }

  /** Head plus hold windows: at most 2 MiB and 30 MiB per position, however the windows overlap. */
  lemma {:induction false} HeldTotal(p: map<int, seq<byte>>, n: nat, hold: seq<int>)
    requires forall k :: k in p ==> 0 <= k && |p[k]| <= PIECE_SIZE && (k < PIECES_PER_BLOCK || Held(k, hold))
    ensures SumBelow(p, n) <= HoldSize(|hold|)
  {
    if hold == [] {
      SumInRange(p, n, 0, HOLD_HEAD_SIZE);
    } else {
      var rest, pos := hold[..|hold| - 1], hold[|hold| - 1];
      var q := map k | k in p && (k < PIECES_PER_BLOCK || Held(k, rest)) :: p[k];
      var r := map k | k in p && InWindow(k, pos) :: p[k];
      forall k | k in p
        ensures k in q || k in r
      {
        if k >= PIECES_PER_BLOCK {
          var i :| 0 <= i < |hold| && InWindow(k, hold[i]);
          assert i < |rest| ==> InWindow(k, rest[i]);
        }
      }
      SumSplit(p, q, r, n);
      HeldTotal(q, n, rest);
      SumInRange(r, n, HoldFrom(pos), HoldEnd(pos));
    }
  }

  /** Either the scan of `clear_buffer_for` released enough or it went through every block. */
  lemma {:induction false} StopReleasesOrExhausts(f: Flat, b: int, release: int, hold: seq<int>)
    requires b <= BlockNum(f.size)
    ensures var c := StopBlock(f, b, release, hold);
            c == BlockNum(f.size) || Released(f, Slot(c, 0), hold) >= release
    decreases BlockNum(f.size) - b
  {
    hide Released, BlockEmpty, HeldBlock;
    if b < BlockNum(f.size) {
      StopReleasesOrExhausts(f, b + 1, release, hold);
    }
  }

  /** After `clear_buffer_for`, `len` more bytes fit, or the store shrank by `len`, or it is within budget. */
  lemma EvictMakesRoom(f: Flat, len: nat, hold: seq<int>)
    requires FlatValid(f)
    ensures var after := CompletedSize(EvictFlat(f, len, hold));
            && after <= CompletedSize(f)
            && (after + len <= HoldSize(|hold|) || after + len <= CompletedSize(f) || after <= HoldSize(|hold|))
  {
    hide Held;
    if CompletedSize(f) + len > HoldSize(|hold|) {
      if BlockNum(f.size) <= 1 {
        HeldTotal(f.pieces, PieceNum(f.size), []) by {
          forall k | k in f.pieces
            ensures 0 <= k < PIECES_PER_BLOCK && |f.pieces[k]| <= PIECE_SIZE
          {
            assert PieceValid(f, k);
          }
        }
      } else {
        var c := StopBlock(f, 1, len, hold);
        var g := EvictBelow(f, Slot(c, 0), hold);
        StopReleasesOrExhausts(f, 1, len, hold);
        SumMonotone(g.pieces, f.pieces, PieceNum(f.size));
        if c == BlockNum(f.size) {
          forall k | k in g.pieces
            ensures 0 <= k && |g.pieces[k]| <= PIECE_SIZE && (k < PIECES_PER_BLOCK || Held(k, hold))
          {
            assert PieceValid(f, k);
          }
          HeldTotal(g.pieces, PieceNum(f.size), hold);
        }
      }
    }
  }

  // ------------------------------------------------------------------ what an eviction may drop

  /** What dropping one more block adds to what is released. */
  lemma SumOnlyLosesBlock(f: Flat, b: int, hold: seq<int>)
    requires FlatValid(f) && 1 <= b < BlockNum(f.size)
    ensures Released(f, Slot(b + 1, 0), hold) <= Released(f, Slot(b, 0), hold) + 2097152
    ensures Released(f, Slot(b, 0), hold) <= Released(f, Slot(b + 1, 0), hold)
  {
    hide Held;
    var p, q := EvictBelow(f, Slot(b, 0), hold).pieces, EvictBelow(f, Slot(b + 1, 0), hold).pieces;
    var r := map k | k in f.pieces && Slot(b, 0) <= k < Slot(b + 1, 0) :: f.pieces[k];
    var n := PieceNum(f.size);
    forall k | k in r
      ensures |r[k]| <= PIECE_SIZE && BlockStart(b) <= PieceStart(k) && PieceStart(k + 1) <= BlockStart(b + 1)
    {
      assert PieceValid(f, k);
    }
    SumSplit(p, q, r, n);
    SumInRange(r, n, BlockStart(b), BlockStart(b + 1));
    SumMonotone(q, p, n);
  }

  /** An empty or held block adds nothing. */
  lemma KeptBlock(f: Flat, b: int, hold: seq<int>)
    requires 1 <= b && (BlockEmpty(f, b) || HeldBlock(b, hold))
    ensures Released(f, Slot(b + 1, 0), hold) == Released(f, Slot(b, 0), hold)
  {
    hide HeldBlock, Held, CompletedSize;
    var p, q := EvictBelow(f, Slot(b, 0), hold).pieces, EvictBelow(f, Slot(b + 1, 0), hold).pieces;
    forall k | k in p
      ensures k in q
    {
      if Slot(b, 0) <= k < Slot(b + 1, 0) {
        assert k == Slot(b, k - Slot(b, 0));
        if HeldBlock(b, hold) {
          HeldBlockHoldsPieces(b, k - Slot(b, 0), hold);
        }
      }
    }
    assert p == q;
  }

  /** The scan goes past a block only while less has been released than asked for. */
  lemma {:induction false} StopReleasesLittle(f: Flat, b: int, release: nat, hold: seq<int>)
    requires FlatValid(f) && 1 <= b <= BlockNum(f.size) && Released(f, Slot(b, 0), hold) <= release
    ensures var c := StopBlock(f, b, release, hold);
            && Released(f, Slot(c, 0), hold) <= release + 2097152
            && forall d :: b <= d < c ==> Released(f, Slot(d, 0), hold) <= release
    decreases BlockNum(f.size) - b
  {
    hide Released, BlockEmpty, HeldBlock;
    if b < BlockNum(f.size) {
      SumOnlyLosesBlock(f, b, hold);
      if BlockEmpty(f, b) || HeldBlock(b, hold) {
        KeptBlock(f, b, hold);
      }
      if !(!BlockEmpty(f, b) && !HeldBlock(b, hold) && Released(f, Slot(b + 1, 0), hold) >= release) {
        StopReleasesLittle(f, b + 1, release, hold);
      }
    }
  }

  lemma HeadReleasesNothing(f: Flat, hold: seq<int>)
    ensures Released(f, Slot(1, 0), hold) == 0
  {
    assert EvictBelow(f, Slot(1, 0), hold) == f;
  }

  /** An eviction for `len` bytes releases at most that and one block. */
  lemma EvictReleasesLittle(f: Flat, len: nat, hold: seq<int>)
    requires FlatValid(f)
    ensures CompletedSize(f) <= CompletedSize(EvictFlat(f, len, hold)) + len + 2097152
  {
    hide BlockEmpty, HeldBlock;
    if CompletedSize(f) + len > HoldSize(|hold|) && BlockNum(f.size) > 1 {
      HeadReleasesNothing(f, hold);
      StopReleasesLittle(f, 1, len, hold);
    }
  }

  /**
   * Eviction goes through the blocks from the front. A piece is dropped only when there is no room, it is
   * outside the head and all windows, and all that could be dropped in front of its block is not more than
   * asked for; and whatever could be dropped in its block or in front of it is dropped as well.
   */
  lemma EvictScans(f: Flat, len: nat, hold: seq<int>, k: int)
    requires FlatValid(f) && k in f.pieces && k !in EvictFlat(f, len, hold).pieces
    ensures CompletedSize(f) + len > HoldSize(|hold|)
    ensures PIECES_PER_BLOCK <= k && !Held(k, hold)
    ensures Released(f, Slot(k / 128, 0), hold) <= len
    ensures forall j :: j in EvictFlat(f, len, hold).pieces && j < Slot(k / 128 + 1, 0) ==>
              j < PIECES_PER_BLOCK || Held(j, hold)
  {
    hide BlockEmpty, HeldBlock, Held, Released;
    HeadReleasesNothing(f, hold);
    StopReleasesLittle(f, 1, len, hold);
  }

  /** Bytes handed to all writes. */
  function TotalWritten(ops: seq<Op>): nat {
    if ops == [] then 0
    else TotalWritten(ops[..|ops| - 1]) + match ops[|ops| - 1] case Evict(_, _) => 0 case Write(_, data) => |data|
  }

  /** Before every eviction all bytes written so far and the ones it makes room for fit the hold budget. */
  predicate AlwaysRoom(ops: seq<Op>) {
    forall i :: 0 <= i < |ops| && ops[i].Evict? ==> TotalWritten(ops[..i]) + ops[i].len <= HoldSize(|ops[i].hold|)
  }

  lemma {:induction false} CompletedAtMostWritten(size: nat, ops: seq<Op>)
    requires AllAllowed(size, ops)
    ensures CompletedSize(Run(size, ops)) <= TotalWritten(ops)
  {
    hide EvictFlat, WriteFlat, FlatValid, Allowed, CompletedSize;
    if ops == [] {
      EmptyRun(size);
    } else {
      var before, op := ops[..|ops| - 1], ops[|ops| - 1];
      CompletedAtMostWritten(size, before);
      RunValid(size, before);
      match op
      case Evict(len, hold) => EvictMakesRoom(Run(size, before), len, hold);
      case Write(pos, data) => WriteGrowth(Run(size, before), pos, data);
    }
  }

  /** As long as there is room, nothing is ever lost: every offset shows the byte last written there. */
  lemma {:induction false} NothingLost(size: nat, ops: seq<Op>, off: int)
    requires AllAllowed(size, ops) && AlwaysRoom(ops)
    ensures FlatValid(Run(size, ops)) && ByteAt(Run(size, ops), off) == LastWritten(ops, off)
  {
    hide WriteFlat, CompletedSize;
    RunValid(size, ops);
    if ops != [] {
      var i := |ops| - 1;
      var before, op := ops[..i], ops[i];
      forall j | 0 <= j < |before| && before[j].Evict?
        ensures TotalWritten(before[..j]) + before[j].len <= HoldSize(|before[j].hold|)
      {
        assert ops[j].Evict? && before[..j] == ops[..j];
      }
      RunValid(size, before);
      NothingLost(size, before, off);
      match op
      case Evict(len, hold) =>
        assert ops[i].Evict?;
        CompletedAtMostWritten(size, before);
      case Write(pos, data) => WriteBytes(Run(size, before), pos, data, off);
    }
  }

  lemma {:induction false} WrittenTotal(pos: int, data: seq<byte>, n: nat)
    ensures SumBelow(WrittenPieces(pos, data), n)
         <= if 0 <= Min(|data|, PieceStart(n) - pos) then Min(|data|, PieceStart(n) - pos) else 0
  {
    if n > 0 {
      WrittenTotal(pos, data, n - 1);
      WrittenKey(pos, data, n - 1);
      if Covers(pos, |data|, n - 1) {
        assert WrittenPieces(pos, data)[n - 1] == PieceOf(pos, data, n - 1);
      }
    }
  }

  lemma WriteGrowth(f: Flat, pos: int, data: seq<byte>)
    ensures CompletedSize(WriteFlat(f, pos, data)) <= CompletedSize(f) + |data|
  {
    if 0 < f.size {
      var n := PieceNum(f.size);
      SumSplit(WriteFlat(f, pos, data).pieces, f.pieces, WrittenPieces(pos, data), n);
      WrittenTotal(pos, data, n);
    }
  }

  /** Every write is announced to `clear_buffer_for` with its own length, as the media task's `on_recv` does. */
  predicate Announced(ops: seq<Op>) {
    forall i :: 0 <= i < |ops| && ops[i].Write? ==> 0 < i && ops[i - 1].Evict? && ops[i - 1].len == |ops[i].data|
  }

  predicate Within(ops: seq<Op>, positions: nat, longest: nat) {
    forall i :: 0 <= i < |ops| ==>
      match ops[i]
      case Evict(len, hold) => |hold| <= positions
      case Write(pos, data) => |data| <= longest
  }

  lemma EmptyRun(size: nat)
    ensures CompletedSize(Flat(size, map[])) == 0
  {
    if 0 < size {
      SumInRange(map[], PieceNum(size), 0, 0);
    }
  }

  /** In every reachable state the completed size stays within the hold budget plus one write.
      Prefixes of an announced run are announced, so this covers every intermediate state. */
  lemma {:induction false} CacheBounded(size: nat, ops: seq<Op>, positions: nat, longest: nat)
    requires AllAllowed(size, ops) && Announced(ops) && Within(ops, positions, longest)
    ensures CompletedSize(Run(size, ops)) <= HoldSize(positions) + longest
  {
    hide EvictFlat, WriteFlat, FlatValid, Allowed, CompletedSize;
    if ops == [] {
      EmptyRun(size);
    } else {
      var before, op := ops[..|ops| - 1], ops[|ops| - 1];
      CacheBounded(size, before, positions, longest);
      RunValid(size, before);
      match op
      case Evict(len, hold) => EvictMakesRoom(Run(size, before), len, hold);
      case Write(pos, data) =>
        var i := |ops| - 1;
        assert ops[i].Write?;
        var earlier := before[..i - 1];
        assert before[i - 1] == ops[i - 1];
        RunValid(size, earlier);
        CacheBounded(size, earlier, positions, longest);
        EvictMakesRoom(Run(size, earlier), |data|, ops[i - 1].hold);
        WriteGrowth(Run(size, before), pos, data);
    }
  }
}
