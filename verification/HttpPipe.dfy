/** `src/ms_http_pipe.c`: upstream bytes arrive in arbitrary fragments and leave in whole pieces. */
module HttpPipe {
  import opened Bytes
  import opened CacheModel
  import opened Mbuf

  /** One `on_recv` call of the pipe: `data` belongs at file offset `pos`. */
  datatype Delivery = Delivery(pos: int, data: seq<byte>)

  // ------------------------------------------------------------------ what one fragment does

  /** The bytes a pipe has asked for and the part of them it still holds back. */
  datatype Pipe = Pipe(end: int, pos: int, pending: seq<byte>)

  /** How many of `n` buffered bytes starting at `pos` leave: all of them at the end of the
      request, otherwise the whole pieces. */
  function Leaving(end: int, pos: int, n: nat): (k: nat)
    ensures k <= n
  {
    if pos + n == end then n else n - PieceOffset(n)
  }

  ghost function AfterChunk(p: Pipe, body: seq<byte>): Pipe {
    var all := p.pending + body;
    var k := Leaving(p.end, p.pos, |all|);
    Pipe(p.end, p.pos + k, all[k..])
  }

  ghost function Sent(p: Pipe, body: seq<byte>): seq<byte> {
    var all := p.pending + body;
    all[..Leaving(p.end, p.pos, |all|)]
  }

  /** The deliveries carry `bytes`, in order and without a gap, from offset `pos` on. */
  ghost predicate Carries(ds: seq<Delivery>, pos: int, bytes: seq<byte>) {
    if ds == [] then bytes == []
    else
      && ds[0].pos == pos
      && |ds[0].data| <= |bytes| && ds[0].data == bytes[..|ds[0].data|]
      && Carries(ds[1..], pos + |ds[0].data|, bytes[|ds[0].data|..])
  }

  /** The asserts of `storage_write`, for a request that ends at `end`. */
  predicate Storable(d: Delivery, end: int) {
    PieceOffset(d.pos) == 0 && (PieceOffset(|d.data|) == 0 || d.pos + |d.data| == end)
  }

  /** Whole pieces, except that the last delivery may be the tail that ends the request. */
  ghost predicate WellCut(ds: seq<Delivery>, end: int) {
    forall i :: 0 <= i < |ds| ==> Storable(ds[i], end) && (i < |ds| - 1 ==> WholePieces(ds[i]))
  }

  predicate WholePieces(d: Delivery) {
    PieceOffset(|d.data|) == 0 && d.data != []
  }

  lemma {:induction false} CarriesAppend(ds: seq<Delivery>, pos: int, bytes: seq<byte>, d: Delivery)
    requires Carries(ds, pos, bytes) && d.pos == pos + |bytes|
    ensures Carries(ds + [d], pos, bytes + d.data)
  {
    if ds == [] {
      assert ds + [d] == [d];
      assert (bytes + d.data)[|d.data|..] == [];
    } else {
      var n := |ds[0].data|;
      CarriesAppend(ds[1..], pos + n, bytes[n..], d);
      assert (ds + [d])[0] == ds[0] && (ds + [d])[1..] == ds[1..] + [d];
      assert (bytes + d.data)[n..] == bytes[n..] + d.data;
    }
  }

  class HttpPipe {
    var reqPos: int
    var reqLen: int
    var pos: int
    var len: int
    const buf: Mbuf
    var contentCalled: bool   // MS_F_ON_CONTENT_CALLED of the connection
    var deleteChunk: bool     // MG_F_DELETE_CHUNK of the connection

    ghost predicate Valid()
      reads this, buf
    {
      buf.Valid() && buf.buf.Length == PIECE_SIZE && buf.len < PIECE_SIZE
    }

    ghost function State(): Pipe
      requires Valid()
      reads this, buf, buf.buf
    {
      Pipe(reqPos + len, pos, buf.Contents())
    }

    constructor (pos: int, len: int)
      ensures Valid() && fresh(buf) && fresh(buf.buf)
      ensures reqPos == pos && this.len == (if len > 0 then len else 0) && reqLen == this.len
      ensures State() == Pipe(pos + this.len, pos, [])
      ensures !contentCalled
    {
      buf := new Mbuf(PIECE_SIZE);
      this.pos := pos;
      reqPos := pos;
      this.len := if len > 0 then len else 0;
      reqLen := if len > 0 then len else 0;
      contentCalled, deleteChunk := false, false;
    }

    /** Start of a response: learn the length unless this was a ranged request on a file of known size. */
    method OnHeader(knownFilesize: int, rangeTotal: int, contentLength: int)
      returns (announceFilesize: Option<int>, announceContent: Option<(int, int)>)
      requires Valid()
      modifies this`contentCalled, this`len
      ensures contentCalled
      ensures var learns := !old(contentCalled) && (knownFilesize == 0 || old(len) == 0);
              && len == (if learns then contentLength else old(len))
              && announceFilesize == (if learns && rangeTotal > 0 then Some(rangeTotal) else None)
              && announceContent == (if learns then Some((reqPos, contentLength)) else None)
    {
      announceFilesize, announceContent := None, None;
      if !contentCalled {
        contentCalled := true;
        if knownFilesize == 0 || len == 0 {
          if rangeTotal > 0 {
            announceFilesize := Some(rangeTotal);
          }
          len := contentLength;
          announceContent := Some((reqPos, contentLength));
        }
      }
    }

    /** The state in which `sent` has left and the rest of `all` is pending. */
    ghost predicate Split(all: seq<byte>, start: int, sent: seq<byte>)
      requires Valid()
      reads this, buf, buf.buf
    {
      sent + buf.Contents() == all && pos == start + |sent| && PieceOffset(|sent|) == 0
    }

    /** Hands the first `n` buffered bytes to `on_recv` and drops them from the buffer. */
    method Flush() returns (d: Delivery)
      requires buf.Valid()
      modifies this`pos, buf, buf.buf
      ensures buf.Valid() && buf.buf == old(buf.buf) && buf.len == 0
      ensures d == Delivery(old(pos), old(buf.Contents())) && pos == old(pos + buf.len)
    {
      pos := pos + buf.len;
      d := Delivery(pos - buf.len, buf.buf[..buf.len]);
      buf.Remove(buf.len);
    }

    /** First step of a fragment: fill up a piece that is already begun. */
    method TopUp(body: seq<byte>) returns (off: nat, ds: seq<Delivery>)
      requires Valid() && body != []
      modifies this`pos, buf, buf.buf
      ensures Valid() && buf.buf == old(buf.buf)
      ensures off <= |body| && (off < |body| ==> buf.len == 0)
      ensures |ds| <= 1 && (|ds| == 1 ==> ds[0].pos == old(pos) && |ds[0].data| == PIECE_SIZE)
      ensures Split(old(buf.Contents()) + body[..off], old(pos), if ds == [] then [] else ds[0].data)
    {
      off, ds := 0, [];
      if buf.len > 0 || |body| < PIECE_SIZE {
        var dataSize := buf.buf.Length - buf.len;
        if dataSize > |body| {
          dataSize := |body|;
        }
        buf.Append(body[..dataSize]);
        off := dataSize;
        if buf.buf.Length == buf.len {
          var d := Flush();
          ds := [d];
        }
      }
    }

    /** Second step: whole pieces go straight through, the remainder is buffered. */
    method PassWhole(body: seq<byte>, off: nat) returns (ds: seq<Delivery>)
      requires Valid() && off <= |body| && (off < |body| ==> buf.len == 0)
      modifies this`pos, buf, buf.buf
      ensures Valid() && buf.buf == old(buf.buf)
      ensures |ds| <= 1 && (|ds| == 1 ==> ds[0].pos == old(pos) && ds[0].data != [])
      ensures Split(old(buf.Contents()) + body[off..], old(pos), if ds == [] then [] else ds[0].data)
    {
      ds := [];
      if |body| - off > 0 {
        var dataSize := PieceOffset(|body| - off);
        var recv := |body| - off - dataSize;
        if recv > 0 {
          pos := pos + recv;
          ds := [Delivery(pos - recv, body[off..off + recv])];
        }
        buf.Append(body[off + recv..off + recv + dataSize]);
        assert body[off..] == body[off..off + recv] + body[off + recv..off + recv + dataSize];
      }
    }

    /** Both steps: every whole piece of what was pending and the fragment leaves, `gone` in all. */
    method CutPieces(body: seq<byte>) returns (ds: seq<Delivery>, ghost gone: seq<byte>)
      requires Valid() && body != [] && PieceOffset(pos) == 0
      modifies this`pos, buf, buf.buf
      ensures Valid() && buf.buf == old(buf.buf)
      ensures var all := old(buf.Contents()) + body;
              gone + buf.Contents() == all && |gone| == |all| - PieceOffset(|all|)
      ensures pos == old(pos) + |gone| && PieceOffset(pos) == 0
      ensures Carries(ds, old(pos), gone) && WellCut(ds, reqPos + len) && forall d :: d in ds ==> WholePieces(d)
    {
      hide Carries, PieceOffset, WellCut, Storable, WholePieces;
      ghost var start, all := pos, buf.Contents() + body;
      var off, first := TopUp(body);
      ghost var sent := if first == [] then [] else first[0].data;
      ghost var mid := buf.Contents();
      var second := PassWhole(body, off);
      ghost var more := if second == [] then [] else second[0].data;
      ds := first + second;
      gone := sent + more;
      Chain(first, second, start, sent, more, reqPos + len);
      Remainder(all, body, off, sent, mid, more, buf.Contents());
    }

    /** The body part of the `MG_EV_HTTP_CHUNK` branch. */
    method OnBody(body: seq<byte>) returns (ds: seq<Delivery>)
      requires Valid()
      requires body != [] ==> PieceOffset(pos) == 0
      modifies this`pos, this`deleteChunk, buf, buf.buf
      ensures Valid() && buf.buf == old(buf.buf)
      ensures body == [] ==> ds == [] && State() == old(State()) && deleteChunk == old(deleteChunk)
      ensures body != [] ==> deleteChunk && State() == AfterChunk(old(State()), body)
      ensures body != [] ==> Carries(ds, old(pos), Sent(old(State()), body))
      ensures WellCut(ds, reqPos + len)
    {
      hide Carries, PieceOffset, WellCut, Storable, WholePieces, AfterChunk, Sent;
      ds := [];
      NothingCarried(pos, reqPos + len);
      if |body| == 0 {
        return;
      }
      ghost var p, gone := State(), [];
      ds, gone := CutPieces(body);
      if pos + buf.len == reqPos + len {
        var d := Flush();
        CarriesAppend(ds, p.pos, gone, d);
        LastCut(ds, p.pos + |gone|, d, p.end);
        ds := ds + [d];
        gone := gone + d.data;
      }
      Settles(p, body, gone, buf.Contents());
      deleteChunk := true;
    }
  }

  lemma NothingCarried(pos: int, end: int)
    ensures Carries([], pos, []) && WellCut([], end)
  {
  }

  lemma Settles(p: Pipe, body: seq<byte>, gone: seq<byte>, rest: seq<byte>)
    requires gone + rest == p.pending + body
    requires var n := |p.pending + body|;
             if p.pos + n == p.end then rest == [] else |gone| == n - PieceOffset(n)
    ensures Sent(p, body) == gone && AfterChunk(p, body) == Pipe(p.end, p.pos + |gone|, rest)
  {
    assert (gone + rest)[..|gone|] == gone && (gone + rest)[|gone|..] == rest;
  }

  lemma AlignedSum(a: int, b: int)
    requires PieceOffset(a) == 0 && PieceOffset(b) == 0
    ensures PieceOffset(a + b) == 0
  {
  }

  /** At most one delivery from each of the two steps, one after the other. */
  lemma Chain(first: seq<Delivery>, second: seq<Delivery>, pos: int, sent: seq<byte>, more: seq<byte>, end: int)
    requires |first| <= 1 && sent == (if first == [] then [] else first[0].data)
    requires first != [] ==> first[0].pos == pos && sent != []
    requires |second| <= 1 && more == (if second == [] then [] else second[0].data)
    requires second != [] ==> second[0].pos == pos + |sent| && more != []
    requires PieceOffset(pos) == 0 && PieceOffset(|sent|) == 0 && PieceOffset(|more|) == 0
    ensures Carries(first + second, pos, sent + more)
    ensures WellCut(first + second, end) && forall d :: d in first + second ==> WholePieces(d)
    ensures PieceOffset(pos + |sent + more|) == 0
  {
    hide PieceOffset;
    AlignedSum(pos, |sent|);
    AlignedSum(pos + |sent|, |more|);
    CarriesOne(first, pos, sent);
    if second == [] {
      assert first + second == first && sent + more == sent;
    } else {
      CarriesAppend(first, pos, sent, second[0]);
      assert first + second == first + [second[0]];
    }
  }

  lemma LastCut(ds: seq<Delivery>, pos: int, d: Delivery, end: int)
    requires WellCut(ds, end) && forall d :: d in ds ==> WholePieces(d)
    requires d.pos == pos && PieceOffset(pos) == 0 && d.pos + |d.data| == end
    ensures WellCut(ds + [d], end)
  {
    hide PieceOffset;
  }

  lemma CarriesOne(ds: seq<Delivery>, pos: int, bytes: seq<byte>)
    requires |ds| <= 1 && bytes == (if ds == [] then [] else ds[0].data) && (ds != [] ==> ds[0].pos == pos)
    ensures Carries(ds, pos, bytes)
  {
  }

  lemma Remainder(all: seq<byte>, body: seq<byte>, off: nat, sent: seq<byte>, mid: seq<byte>,
                  more: seq<byte>, rest: seq<byte>)
    requires off <= |body| <= |all| && body == all[|all| - |body|..]
    requires sent + mid == all[..|all| - |body|] + body[..off] && more + rest == mid + body[off..]
    requires PieceOffset(|sent|) == 0 && PieceOffset(|more|) == 0 && |rest| < PIECE_SIZE
    ensures sent + more + rest == all && |all| - PieceOffset(|all|) == |sent + more| && PieceOffset(|sent + more|) == 0
  {
    hide PieceOffset;
    AlignedSum(|sent|, |more|);
    calc {
      sent + more + rest;
      sent + (more + rest);
      sent + mid + body[off..];
      all[..|all| - |body|] + (body[..off] + body[off..]);
      { assert body[..off] + body[off..] == body; }
      all;
    }
    OffsetOfSum(|sent + more|, |rest|);
  }

  lemma OffsetOfSum(whole: int, rest: int)
    requires PieceOffset(whole) == 0 && 0 <= rest < PIECE_SIZE
    ensures PieceOffset(whole + rest) == rest
  {
  }
}
