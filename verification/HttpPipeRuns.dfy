/** Whole responses: what leaves the pipe depends on the bytes received, not on how they were cut. */
module HttpPipeRuns {
  import opened Bytes
  import opened CacheModel
  import opened HttpPipe

  ghost function Step(p: Pipe, body: seq<byte>): Pipe {
    if body == [] then p else AfterChunk(p, body)
  }

  ghost function Feed(p: Pipe, bodies: seq<seq<byte>>): Pipe {
    if bodies == [] then p else Step(Feed(p, bodies[..|bodies| - 1]), bodies[|bodies| - 1])
  }

  /** Everything handed to `on_recv`, in order. */
  ghost function Emitted(p: Pipe, bodies: seq<seq<byte>>): seq<byte> {
    if bodies == [] then []
    else
      var before, last := bodies[..|bodies| - 1], bodies[|bodies| - 1];
      Emitted(p, before) + if last == [] then [] else Sent(Feed(p, before), last)
  }

  /** The position assert of the chunk handler holds each time a non-empty fragment arrives. */
  ghost predicate PositionAsserts(p: Pipe, bodies: seq<seq<byte>>) {
    bodies == [] ||
    var before, last := bodies[..|bodies| - 1], bodies[|bodies| - 1];
    PositionAsserts(p, before) && (last != [] ==> PieceOffset(Feed(p, before).pos) == 0)
  }

  /** A non-empty fragment follows the exact end of a request that does not end on a piece. */
  ghost predicate Overruns(p: Pipe, bodies: seq<seq<byte>>) {
    bodies != [] &&
    var before, last := bodies[..|bodies| - 1], bodies[|bodies| - 1];
    Overruns(p, before) || (last != [] && p.pos + |Concat(before)| == p.end && PieceOffset(p.end) != 0)
  }

  predicate FreshPipe(p: Pipe) {
    p.pending == [] && PieceOffset(p.pos) == 0
  }

  lemma ConcatLast(bodies: seq<seq<byte>>)
    requires bodies != []
    ensures Concat(bodies) == Concat(bodies[..|bodies| - 1]) + bodies[|bodies| - 1]
  {
    var before, last := bodies[..|bodies| - 1], bodies[|bodies| - 1];
    assert bodies == before + [last];
    ConcatAppend(before, [last]);
    assert Concat([last]) == last + Concat([]);
  }

  /** Conservation and the closed form of progress: after `t` bytes the pipe has passed on the whole
      pieces among them, or everything when `t` completes the request. */
  lemma {:induction false} PipeConserves(p: Pipe, bodies: seq<seq<byte>>)
    requires FreshPipe(p)
    ensures Emitted(p, bodies) + Feed(p, bodies).pending == Concat(bodies)
    ensures Feed(p, bodies).pos == p.pos + |Emitted(p, bodies)| && Feed(p, bodies).end == p.end
    ensures !Overruns(p, bodies) ==> |Emitted(p, bodies)| == Leaving(p.end, p.pos, |Concat(bodies)|)
  {
    hide AfterChunk, Sent, Leaving, PieceOffset;
    if bodies != [] {
      var before, last := bodies[..|bodies| - 1], bodies[|bodies| - 1];
      PipeConserves(p, before);
      ConcatLast(bodies);
      if last != [] {
        var q, e := Feed(p, before), Emitted(p, before);
        ChunkConserves(q, last);
        assert e + Sent(q, last) + AfterChunk(q, last).pending == e + (q.pending + last);
        assert e + (q.pending + last) == e + q.pending + last;
        if !Overruns(p, bodies) {
          LeavingSteps(p.end, p.pos, |Concat(before)|, |last|);
        }
      }
    }
  }

  /** How much is passed on: everything when the request is complete, and otherwise whole pieces of 16 KiB, so
      that less than one is held back. */
  lemma PassesOn(p: Pipe, bodies: seq<seq<byte>>)
    requires FreshPipe(p) && !Overruns(p, bodies)
    ensures var t := |Concat(bodies)|;
            if p.pos + t == p.end then Emitted(p, bodies) == Concat(bodies) && Feed(p, bodies).pending == []
            else |Emitted(p, bodies)| % 16384 == 0 && |Feed(p, bodies).pending| == t % 16384
  {
    hide Emitted, Feed, Overruns;
    PipeConserves(p, bodies);
    assert Emitted(p, bodies) + [] == Emitted(p, bodies);
  }

  lemma ChunkConserves(q: Pipe, body: seq<byte>)
    ensures Sent(q, body) + AfterChunk(q, body).pending == q.pending + body
    ensures AfterChunk(q, body).pos == q.pos + |Sent(q, body)| && AfterChunk(q, body).end == q.end
    ensures |Sent(q, body)| == Leaving(q.end, q.pos, |q.pending| + |body|)
  {
  }

  /** Passing on `t` bytes and then `n` more leaves the same amount behind as passing on `t + n`. */
  lemma LeavingSteps(end: int, pos: int, t: nat, n: nat)
    requires PieceOffset(pos) == 0 && n > 0
    requires pos + t == end ==> PieceOffset(end) == 0
    ensures var d := Leaving(end, pos, t);
            d + Leaving(end, pos + d, t - d + n) == Leaving(end, pos, t + n)
  {
  }

  /** The position assert holds through a run exactly when nothing follows an unaligned end. */
  lemma {:induction false} PositionAssertsIff(p: Pipe, bodies: seq<seq<byte>>)
    requires FreshPipe(p)
    ensures PositionAsserts(p, bodies) <==> !Overruns(p, bodies)
  {
    if bodies != [] {
      var before, last := bodies[..|bodies| - 1], bodies[|bodies| - 1];
      PositionAssertsIff(p, before);
      if !Overruns(p, before) && last != [] {
        PipeConserves(p, before);
        LeavingAligned(p.end, p.pos, |Concat(before)|);
      }
    }
  }

  /** Such a run: five bytes answer a request for five, and one more follows. */
  lemma PositionAssertCanFail()
    ensures !PositionAsserts(Pipe(5, 0, []), [[1, 2, 3, 4, 5], [6]])
  {
    var p, bodies: seq<seq<byte>> := Pipe(5, 0, []), [[1, 2, 3, 4, 5], [6]];
    assert bodies[..|bodies| - 1] == [[1, 2, 3, 4, 5]];
    ConcatOne([1, 2, 3, 4, 5]);
    PositionAssertsIff(p, bodies);
  }

  lemma LeavingAligned(end: int, pos: int, t: nat)
    requires PieceOffset(pos) == 0
    ensures PieceOffset(pos + Leaving(end, pos, t)) == 0 <==> !(pos + t == end && PieceOffset(end) != 0)
  {
  }

  /** A response no longer than the request never overruns it, however it is cut. */
  lemma {:induction false} ShortRunsDoNotOverrun(p: Pipe, bodies: seq<seq<byte>>)
    requires p.pos + |Concat(bodies)| <= p.end
    ensures !Overruns(p, bodies)
  {
    if bodies != [] {
      ConcatLast(bodies);
      ShortRunsDoNotOverrun(p, bodies[..|bodies| - 1]);
    }
  }

  /** Two ways of cutting the same response leave the pipe in the same state with the same output. */
  lemma CutsDoNotMatter(p: Pipe, bodies: seq<seq<byte>>, bodies': seq<seq<byte>>)
    requires FreshPipe(p) && Concat(bodies) == Concat(bodies')
    requires !Overruns(p, bodies) && !Overruns(p, bodies')
    ensures Emitted(p, bodies) == Emitted(p, bodies') && Feed(p, bodies) == Feed(p, bodies')
  {
    PipeConserves(p, bodies);
    PipeConserves(p, bodies');
    var k := |Emitted(p, bodies)|;
    assert Emitted(p, bodies) == Concat(bodies)[..k] && Feed(p, bodies).pending == Concat(bodies)[k..];
    assert Emitted(p, bodies') == Concat(bodies)[..k] && Feed(p, bodies').pending == Concat(bodies)[k..];
  }

  lemma {:induction false} DeliveryInside(ds: seq<Delivery>, pos: int, bytes: seq<byte>, i: nat)
    requires Carries(ds, pos, bytes) && i < |ds|
    ensures pos <= ds[i].pos && ds[i].pos + |ds[i].data| <= pos + |bytes|
    ensures ds[i].data == bytes[ds[i].pos - pos..ds[i].pos - pos + |ds[i].data|]
  {
    if i > 0 {
      var n := |ds[0].data|;
      DeliveryInside(ds[1..], pos + n, bytes[n..], i - 1);
    }
  }

  lemma {:induction false} LastDeliveryEnds(ds: seq<Delivery>, pos: int, bytes: seq<byte>)
    requires Carries(ds, pos, bytes) && bytes != []
    ensures ds != [] && var d := ds[|ds| - 1]; d.pos + |d.data| == pos + |bytes|
  {
    var n := |ds[0].data|;
    if |ds| == 1 {
      assert ds[1..] == [];
    } else if bytes[n..] != [] {
      LastDeliveryEnds(ds[1..], pos + n, bytes[n..]);
    } else {
      EmptyDeliveries(ds[1..], pos + n);
    }
  }

  lemma {:induction false} EmptyDeliveries(ds: seq<Delivery>, pos: int)
    requires Carries(ds, pos, [])
    ensures forall d :: d in ds ==> d.pos == pos && d.data == []
  {
    if ds != [] {
      EmptyDeliveries(ds[1..], pos);
    }
  }

  /** The asserts of `storage_write` on a store of `estimate` addressable bytes. */
  predicate WriteAsserts(d: Delivery, estimate: int) {
    && 0 <= d.pos && PieceOffset(d.pos) == 0 && d.pos + |d.data| <= estimate
    && (d.pos + |d.data| == estimate || PieceOffset(|d.data|) == 0)
  }

  /** The fragment that arrives `received` bytes into the request ends exactly where it does, and that is
      neither on a piece nor at the end of the addressable range. */
  predicate CompletesUnaligned(p: Pipe, received: nat, body: seq<byte>, estimate: int) {
    p.pos + received + |body| == p.end && PieceOffset(p.end) != 0 && p.end != estimate
  }

  /** All deliveries of a fragment are ones `storage_write` accepts, unless the fragment completes a
      request that ends neither on a piece nor at the end of the addressable range. Fragments that go
      past the end of the request are included. */
  lemma WriteAssertsIff(p: Pipe, bodies: seq<seq<byte>>, body: seq<byte>, ds: seq<Delivery>, estimate: int)
    requires FreshPipe(p) && 0 <= p.pos && body != [] && !Overruns(p, bodies + [body])
    requires p.pos + |Concat(bodies)| + |body| <= estimate
    requires var q := Feed(p, bodies); Carries(ds, q.pos, Sent(q, body)) && WellCut(ds, p.end)
    ensures (forall d :: d in ds ==> WriteAsserts(d, estimate))
            <==> !CompletesUnaligned(p, |Concat(bodies)|, body, estimate)
  {
    hide AfterChunk, Sent, Carries, PieceOffset, Leaving, Feed, Emitted, Overruns, WriteAsserts;
    var q := Feed(p, bodies);
    NotYetOver(p, bodies, body);
    PipeConserves(p, bodies);
    ChunkConserves(q, body);
    if p.pos + |Concat(bodies)| + |body| == p.end {
      CompletingSent(q, body);
      LastDeliveryEnds(ds, q.pos, Sent(q, body));
      EndingDeliveries(ds, q, body, p.end, estimate);
    } else {
      LeavingAligned(p.end, p.pos, |Concat(bodies)|);
      InnerDeliveries(ds, q, body, estimate);
    }
  }

  /** A fragment that does not complete the request sends whole pieces only. */
  lemma InnerDeliveries(ds: seq<Delivery>, q: Pipe, body: seq<byte>, estimate: int)
    requires 0 <= q.pos && PieceOffset(q.pos) == 0 && q.pos + |q.pending| + |body| != q.end
    requires q.pos + |q.pending| + |body| <= estimate
    requires Carries(ds, q.pos, Sent(q, body)) && WellCut(ds, q.end)
    ensures forall d :: d in ds ==> WriteAsserts(d, estimate)
  {
    hide Carries, PieceOffset, Sent;
    WholeSent(q, body);
    forall i | 0 <= i < |ds|
      ensures WriteAsserts(ds[i], estimate)
    {
      DeliveryInside(ds, q.pos, Sent(q, body), i);
      assert Storable(ds[i], q.end);
      if i == |ds| - 1 {
        if Sent(q, body) == [] {
          EmptyDeliveries(ds, q.pos);
          AlignedEnd(ds[i].pos, 0);
        } else {
          LastDeliveryEnds(ds, q.pos, Sent(q, body));
          AlignedSum(q.pos, |Sent(q, body)|);
          AlignedEnd(ds[i].pos, |ds[i].data|);
        }
      }
    }
  }

  lemma WholeSent(q: Pipe, body: seq<byte>)
    requires q.pos + |q.pending| + |body| != q.end
    ensures PieceOffset(|Sent(q, body)|) == 0 && |Sent(q, body)| <= |q.pending| + |body|
  {
  }

  lemma NotYetOver(p: Pipe, bodies: seq<seq<byte>>, body: seq<byte>)
    requires !Overruns(p, bodies + [body])
    ensures !Overruns(p, bodies)
    ensures body != [] ==> p.pos + |Concat(bodies)| != p.end || PieceOffset(p.end) == 0
  {
    var all := bodies + [body];
    assert all[..|all| - 1] == bodies;
  }

  /** The deliveries of a fragment that completes the request. */
  lemma EndingDeliveries(ds: seq<Delivery>, q: Pipe, body: seq<byte>, end: int, estimate: int)
    requires body != [] && 0 <= q.pos && q.pos + |q.pending| + |body| == end <= estimate
    requires Carries(ds, q.pos, Sent(q, body)) && WellCut(ds, end) && |Sent(q, body)| == |q.pending| + |body|
    requires ds != [] && var d := ds[|ds| - 1]; d.pos + |d.data| == end
    ensures (forall d :: d in ds ==> WriteAsserts(d, estimate)) <==> PieceOffset(end) == 0 || end == estimate
  {
    hide Sent, Carries, PieceOffset;
    var last := ds[|ds| - 1];
    assert Storable(last, end);
    forall i | 0 <= i < |ds|
      ensures 0 <= ds[i].pos && ds[i].pos + |ds[i].data| <= end && Storable(ds[i], end)
      ensures PieceOffset(end) == 0 ==> PieceOffset(|ds[i].data|) == 0
    {
      DeliveryInside(ds, q.pos, Sent(q, body), i);
      assert Storable(ds[i], end);
      if ds[i].pos + |ds[i].data| == end && PieceOffset(end) == 0 {
        AlignedEnd(ds[i].pos, |ds[i].data|);
      }
    }
    if PieceOffset(end) != 0 && end != estimate {
      assert last in ds;
      if PieceOffset(|last.data|) == 0 {
        AlignedSum(last.pos, |last.data|);
      }
    }
  }

  lemma CompletingSent(q: Pipe, body: seq<byte>)
    requires q.pos + |q.pending| + |body| == q.end
    ensures Sent(q, body) == q.pending + body
  {
  }

  lemma AlignedEnd(pos: int, n: int)
    requires PieceOffset(pos) == 0 && PieceOffset(pos + n) == 0
    ensures PieceOffset(n) == 0
  {
  }

  /** The Range header names its last byte, one past the bytes wanted. A server that honours it for a
      request ending on a piece leaves exactly that extra byte in the pipe. */
  lemma OneByteTooMany(p: Pipe, bodies: seq<seq<byte>>)
    requires FreshPipe(p) && PieceOffset(p.end) == 0 && p.pos < p.end
    requires |Concat(bodies)| == p.end - p.pos + 1
    ensures Emitted(p, bodies) == Concat(bodies)[..p.end - p.pos]
    ensures Feed(p, bodies).pending == [Concat(bodies)[p.end - p.pos]]
  {
    hide PieceOffset, Leaving, Feed, Emitted, Overruns, Concat;
    AlignedRunsDoNotOverrun(p, bodies);
    PipeConserves(p, bodies);
    OneOver(p.pos, p.end);
    var k := |Emitted(p, bodies)|;
    assert Emitted(p, bodies) == Concat(bodies)[..k] && Feed(p, bodies).pending == Concat(bodies)[k..];
  }

  lemma OneOver(pos: int, end: int)
    requires PieceOffset(pos) == 0 && PieceOffset(end) == 0 && pos < end
    ensures Leaving(end, pos, end - pos + 1) == end - pos
  {
  }

  lemma {:induction false} AlignedRunsDoNotOverrun(p: Pipe, bodies: seq<seq<byte>>)
    requires PieceOffset(p.end) == 0
    ensures !Overruns(p, bodies)
  {
    if bodies != [] {
      AlignedRunsDoNotOverrun(p, bodies[..|bodies| - 1]);
    }
  }
}
