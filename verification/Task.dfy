/** `src/ms_task.c`: what the media task does when a pipe delivers data, and which pipes it opens. */
module Task {
  import opened Bytes
  import opened CacheModel
  import P = HttpPipe
  import PR = HttpPipeRuns
  import S = MemStorage

  /** The hold positions `on_recv` passes to `clear_buffer_for`, for readers at the given offsets.
      The second loop never advances its index. */
  method HoldPositions(readers: seq<int>) returns (hold: seq<int>)
    ensures hold == HoldList(readers)
  {
    var count := 0;
    for i := 0 to |readers|
      invariant count == i
    {
      count := count + 1;
    }
    hold := seq(count, _ => 0);
    var index := 0;
    for i := 0 to |readers|
      invariant |hold| == |readers| && (i == 0 ==> hold == seq(count, _ => 0))
      invariant i > 0 ==> hold == HoldList(readers)[0 := readers[i - 1]]
    {
      hold := hold[index := readers[i]];
    }
  }

  /** The last reader's position, then zeros. */
  function HoldList(readers: seq<int>): (hold: seq<int>)
    ensures |hold| == |readers|
  {
    if readers == [] then [] else [readers[|readers| - 1]] + seq(|readers| - 1, _ => 0)
  }

  /** Which pieces survive an eviction: those around the last reader and, as soon as there is a second
      reader, those around offset 0. The windows of the other readers are not protected. */
  lemma HeldIff(readers: seq<int>, k: int)
    ensures Held(k, HoldList(readers))
            <==> (readers != [] && InWindow(k, readers[|readers| - 1])) || (|readers| >= 2 && InWindow(k, 0))
  {
    var hold := HoldList(readers);
    if readers != [] {
      assert hold[0] == readers[|readers| - 1];
      assert |readers| >= 2 ==> hold[1] == 0;
    }
  }

  /** Two readers: the piece the first one is at can be evicted. */
  lemma EarlierReaderUnprotected()
    ensures var readers := [104857600, 0];
            InWindow(6400, readers[0]) && !Held(6400, HoldList(readers))
  {
    HeldIff([104857600, 0], 6400);
  }

  // ------------------------------------------------------------------ opening pipes

  /** What a pipe is opened for; length 0 asks for everything behind `pos`. */
  datatype Range = Range(pos: int, len: int)

  function Along(direction: int, distance: int): int {
    if direction > 0 then distance else -distance
  }

  /** `nearest_pipe`, for the current positions of the pipes and a direction of 1 or -1. */
  method NearestPipe(pipes: seq<int>, pos: int, direction: int) returns (near: Option<int>)
    ensures near.None? ==> forall p :: p in pipes ==> Along(direction, p - pos) < 0
    ensures near.Some? ==> near.value in pipes && Along(direction, near.value - pos) >= 0
    ensures near.Some? ==>
              forall p :: p in pipes && Along(direction, p - pos) >= 0 ==> Along(direction, p - near.value) >= 0
  {
    near := None;
    for i := 0 to |pipes|
      invariant near.None? ==> forall k :: 0 <= k < i ==> Along(direction, pipes[k] - pos) < 0
      invariant near.Some? ==> near.value in pipes && Along(direction, near.value - pos) >= 0
      invariant near.Some? ==>
                  forall k :: 0 <= k < i && Along(direction, pipes[k] - pos) >= 0 ==>
                    Along(direction, pipes[k] - near.value) >= 0
    {
      if Along(direction, pipes[i] - pos) >= 0 {
        if near.None? {
          near := Some(pipes[i]);
        } else if Along(direction, pipes[i] - near.value) < 0 {
          near := Some(pipes[i]);
        }
      }
    }
  }

  /** Where a pipe for a reader at `at` is to end. */
  function RangeEnd(at: int, estimate: int): int {
    Min(at + MAX_CACHE_LEN, estimate)
  }

  /** The first byte of a reader at `at` that the store lacks, when `cached_from` found this run. */
  function NextNeeded(at: int, estimate: int, cached: Range): int {
    if estimate > 0 && cached.pos == at && cached.len > 0 then at + cached.len else at
  }

  /** The pipe opened for a reader at `at`, if any; `cached` is the answer of `cached_from`. */
  function Dispatched(at: int, estimate: int, cached: Range, pipes: seq<int>): Option<Range> {
    var next, end := NextNeeded(at, estimate, cached), RangeEnd(at, estimate);
    var pos := next - PieceOffset(next);
    if estimate > 0 && cached.pos == at && cached.len >= MAX_CACHE_LEN / 2 then None
    else if (next > 0 && next == end) || pos in pipes || (end != 0 && pos >= end) then None
    else Some(Range(pos, if end > 0 then end - pos else 0))
  }

  /** `dispatch_reader` for a reader whose `pos` and `sending` add up to `at`. */
  method DispatchReader(at: int, estimate: int, cached: Range, pipes: seq<int>) returns (open: Option<Range>)
    requires 0 <= at
    ensures open == Dispatched(at, estimate, cached, pipes)
  {
    var pos, end := at, at + MAX_CACHE_LEN;
    if end > estimate {
      end := estimate;
    }
    if estimate > 0 {
      if cached.pos == pos && cached.len >= MAX_CACHE_LEN / 2 {
        return None;
      }
      if cached.pos == pos && cached.len > 0 {
        pos := pos + cached.len;
      }
    }
    if pos > 0 && pos == end {
      return None;
    }
    pos := pos - PieceOffset(pos);
    var near := NearestPipe(pipes, pos, 1);
    if near == Some(pos) {
      return None;
    }
    if pos >= end && end != 0 {
      return None;
    }
    var len := 0;
    if end > 0 {
      len := end - pos;
    }
    return Some(Range(pos, len));
  }

  /** A pipe starts on a piece where no other pipe stands, and reaches 20 MiB past its reader or, if that
      comes first, to the end of the store. Before any size is known it starts at its reader's piece and
      has no length. */
  lemma DispatchedRange(at: int, estimate: int, cached: Range, pipes: seq<int>)
    requires 0 <= at && 0 <= estimate && Dispatched(at, estimate, cached, pipes).Some?
    requires cached.pos == at ==> 0 <= cached.len
    ensures var r := Dispatched(at, estimate, cached, pipes).value;
            && 0 <= r.pos && PieceOffset(r.pos) == 0 && r.pos !in pipes
            && (if estimate == 0 then r.pos <= at && r.len == 0
                else 0 < r.len && r.pos + r.len == RangeEnd(at, estimate) <= estimate)
  {
  }

  /**
   * When a pipe is opened for a reader, and where: `next` is the first byte from the reader on that the
   * cache lacks. None is opened exactly when 10 MiB or more are cached from the reader on, or all the rest
   * of the file is, or a pipe stands at the piece of `next` already; any other starts at that piece.
   */
  lemma DispatchedIff(f: Flat, at: int, next: int, cached: Range, pipes: seq<int>)
    requires 0 < f.size && 0 <= at <= next <= f.size && S.EarliestRun(f, at, cached.pos, cached.len)
    requires S.AllCached(f, at, next) && (next == f.size || !Cached(f, next))
    ensures Dispatched(at, f.size, cached, pipes).None?
            <==> next - at >= 10485760 || next == f.size || PieceStart(PieceIndex(next)) in pipes
    ensures Dispatched(at, f.size, cached, pipes).Some? ==>
              var r := Dispatched(at, f.size, cached, pipes).value;
              r.pos == PieceStart(PieceIndex(next)) && r.pos + r.len == Min(at + 20971520, f.size)
  {
    RunEnds(f, at, next, cached);
    assert next - PieceOffset(next) == PieceStart(PieceIndex(next));
  }

  /** The run `cached_from` reports ends where the first missing byte is. */
  lemma RunEnds(f: Flat, at: int, next: int, cached: Range)
    requires 0 < f.size && 0 <= at <= next <= f.size && S.EarliestRun(f, at, cached.pos, cached.len)
    requires S.AllCached(f, at, next) && (next == f.size || !Cached(f, next))
    ensures NextNeeded(at, f.size, cached) == next
    ensures at < next ==> cached.pos == at && cached.len == next - at
    ensures at == next && cached.pos == at ==> cached.len == 0
  {
    hide Cached;
    assert at < next ==> Cached(f, at);
    if cached.len > 0 {
      assert Cached(f, cached.pos);
      assert at <= cached.pos + cached.len < next ==> Cached(f, cached.pos + cached.len);
      assert cached.pos <= next < cached.pos + cached.len ==> Cached(f, next);
    }
  }

  /** The end of that range is on a piece or at the end of the store exactly when the reader is on a piece
      or at most 20 MiB from the end. */
  lemma RangeEndsWellIff(at: int, estimate: int)
    ensures PieceOffset(RangeEnd(at, estimate)) == 0 || RangeEnd(at, estimate) == estimate
            <==> PieceOffset(at) == 0 || estimate <= at + MAX_CACHE_LEN
  {
  }

  /** A reader at offset 1 of an empty store of 100 MiB: its pipe ends one byte into a piece. However the
      response is cut, if a fragment ends exactly there, one of its deliveries fails `storage_write`. */
  lemma UnalignedReaderFails(bodies: seq<seq<byte>>, body: seq<byte>, ds: seq<P.Delivery>)
    requires body != [] && |Concat(bodies)| + |body| == 20971521
    requires P.WellCut(ds, 20971521)
    requires var q := PR.Feed(P.Pipe(20971521, 0, []), bodies); P.Carries(ds, q.pos, P.Sent(q, body))
    ensures Dispatched(1, 104857600, Range(0, 0), []) == Some(Range(0, 20971521))
    ensures exists d :: d in ds && !PR.WriteAsserts(d, 104857600)
  {
    hide PR.Feed, P.Sent, P.Carries, P.WellCut, Concat, PR.WriteAsserts, PR.Overruns;
    var p := P.Pipe(20971521, 0, []);
    ShortBefore(p, bodies, body);
    PR.WriteAssertsIff(p, bodies, body, ds, 104857600);
    assert PR.CompletesUnaligned(p, |Concat(bodies)|, body, 104857600);
  }

  lemma ShortBefore(p: P.Pipe, bodies: seq<seq<byte>>, body: seq<byte>)
    requires p.pos + |Concat(bodies)| + |body| <= p.end
    ensures !PR.Overruns(p, bodies + [body])
  {
    ConcatSnoc(bodies, body);
    PR.ShortRunsDoNotOverrun(p, bodies + [body]);
  }
}
