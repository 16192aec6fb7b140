/** `mg_handle_chunked`: chunk data is collapsed onto the decoded body inside `recv_mbuf`. */
module ChunkedBody {
  import opened Bytes
  import opened ChunkModel
  import M = Mbuf

  /** `mg_send_http_chunk`. */
  method SendChunk(send: M.Mbuf, data: seq<byte>)
    requires send.Valid()
    modifies send, send.buf
    ensures send.Valid() && send.Contents() == old(send.Contents()) + EncodeChunk(data)
  {
    hide HexOf;
    send.Append(HexOf(|data|) + [CR, LF]);
    send.Append(data);
    send.Append([CR, LF]);
  }

  lemma {:induction false} HexRunIs(s: seq<byte>, n: nat)
    requires n <= |s| && forall i :: 0 <= i < n ==> IsHex(s[i])
    requires n < |s| ==> !IsHex(s[n])
    ensures HexRun(s) == n
  {
    if n > 0 {
      HexRunIs(s[1..], n - 1);
    }
  }

  lemma NoDigits(s: seq<byte>)
    ensures Wrap(HexValue(s[..0])) == 0
  {
  }

  /** One digit of the length, in `size_t` arithmetic. */
  lemma OneDigit(s: seq<byte>, i: nat)
    requires i < |s| && forall k :: 0 <= k <= i ==> IsHex(s[k])
    ensures Wrap(HexValue(s[..i + 1])) == Wrap(Wrap(Wrap(HexValue(s[..i])) * 16) + HexDigit(s[i]))
  {
    hide HexValue;
    assert s[..i + 1][..i] == s[..i];
    HexSnoc(s[..i + 1]);
    WrapDigit(HexValue(s[..i]), HexDigit(s[i]));
  }

  lemma WrapDigit(v: nat, d: nat)
    ensures Wrap(Wrap(Wrap(v) * 16) + d) == Wrap(v * 16 + d)
  {
    var q := v / U64;
    assert v == q * U64 + Wrap(v);
    WrapMultiple(Wrap(v) * 16, q * 16);
    WrapMultiple(Wrap(Wrap(v) * 16) + d, Wrap(v) * 16 / U64);
    assert Wrap(v) * 16 == Wrap(v) * 16 / U64 * U64 + Wrap(Wrap(v) * 16);
    WrapMultiple(Wrap(v) * 16 + d, q * 16);
  }

  lemma WrapMultiple(x: nat, q: nat)
    ensures Wrap(x + q * U64) == Wrap(x)
  {
  }

  class ChunkedBody {
    const recv: M.Mbuf
    const bodyAt: nat               // the body follows the message head
    var bodyLen: nat                // chunk.body_len
    var events: seq<seq<byte>>      // the bodies shown by MG_EV_HTTP_CHUNK
    var finished: bool
    ghost var dropped: seq<byte>    // what MG_F_DELETE_CHUNK has removed

    ghost predicate Valid()
      reads this, recv
    {
      recv.Valid() && bodyAt + bodyLen <= recv.len
    }

    ghost function Head(): seq<byte>
      requires Valid()
      reads this, recv, recv.buf
    {
      recv.Contents()[..bodyAt]
    }

    ghost function State(): Body
      requires Valid()
      reads this, recv, recv.buf
    {
      Body(recv.Contents()[bodyAt..bodyAt + bodyLen], recv.Contents()[bodyAt + bodyLen..], events, dropped,
           finished, false)
    }

    ghost function Rest(at: nat): (s: seq<byte>)
      requires Valid() && at <= recv.len
      reads this, recv, recv.buf
      ensures |s| == recv.len - at
    {
      recv.Contents()[at..]
    }

    /** `p` has been parsed from the front of `raw`: its data follows `front`, and `raw` goes on at `i`. */
    ghost predicate Traversed(front: seq<byte>, raw: seq<byte>, p: Parsed, i: nat, newLen: nat)
      requires Valid()
      reads this, recv, recv.buf
    {
      && newLen == bodyLen + |p.data| && i == bodyLen + p.used
      && newLen <= i && bodyAt + i <= recv.len
      && Collapsed(front, raw, p, recv.Contents(), bodyAt + newLen, bodyAt + i)
    }

    constructor (recv: M.Mbuf)
      requires recv.Valid()
      ensures Valid() && this.recv == recv && Head() == recv.Contents() && State() == FRESH
    {
      this.recv := recv;
      bodyAt, bodyLen := recv.len, 0;
      events, finished, dropped := [], false, [];
    }

    /** The loop over the hexadecimal length of a chunk. */
    method ParseHex(at: nat) returns (n: nat, i: nat)
      requires Valid() && at <= recv.len
      ensures i == HexRun(Rest(at)) && n == SizeField(Rest(at))
    {
      hide Wrap, HexValue;
      ghost var s := Rest(at);
      n, i := 0, 0;
      NoDigits(s);
      while i < recv.len - at && IsHex(recv.buf[at + i])
        invariant 0 <= i <= recv.len - at
        invariant forall k :: 0 <= k < i ==> IsHex(s[k])
        invariant n == Wrap(HexValue(s[..i]))
      {
        OneDigit(s, i);
        n := Wrap(n * 16);
        n := Wrap(n + HexDigit(recv.buf[at + i]));
        i := i + 1;
      }
      HexRunIs(s, i);
    }

    /** `mg_http_parse_chunk` on the buffer from `at` on. */
    method ParseAt(at: nat) returns (chunk: Option<Chunk>)
      requires Valid() && at <= recv.len
      ensures chunk == ParseChunk(Rest(at))
    {
      hide HexRun, SizeField, Wrap;
      ghost var s := Rest(at);
      assert forall k :: 0 <= k < |s| ==> s[k] == recv.buf[at + k];
      var len := recv.len - at;
      var n, i := ParseHex(at);
      if i == 0 || i + 2 > len || recv.buf[at + i] != CR || recv.buf[at + i + 1] != LF {
        return None;
      }
      i := i + 2;
      var data := i;
      i := Wrap(i + n);
      if i == 0 || i + 2 > len || recv.buf[at + i] != CR || recv.buf[at + i + 1] != LF {
        return None;
      }
      return Some(Chunk(data, n, i + 2));
    }

    /** One `memmove` of the traversal: the data of the chunk at `i` joins the body that ends at `newLen`. */
    method MoveChunk(i: nat, newLen: nat, c: Chunk)
      requires Valid() && newLen <= i && bodyAt + i <= recv.len
      requires c.data + c.size + 2 == c.total <= recv.len - bodyAt - i
      modifies recv.buf
      ensures Valid()
      ensures var s := old(recv.Contents())[bodyAt + i..];
              && recv.Contents()[..bodyAt + newLen + c.size]
                == old(recv.Contents())[..bodyAt + newLen] + ChunkData(s, c)
              && recv.Contents()[bodyAt + i + c.total..] == s[c.total..]
    {
      hide ChunkData, M.Mbuf.Contents;
      ghost var before := recv.Contents();
      recv.MoveDown(bodyAt + newLen, bodyAt + i + c.data, c.size);
      ChunkMoved(before, recv.Contents(), bodyAt + newLen, bodyAt + i, c);
    }

    /** One round of the traversal, for the complete chunk at `i`. */
    method TakeChunk(i: nat, newLen: nat, c: Chunk, ghost front: seq<byte>, ghost raw: seq<byte>, ghost p: Parsed)
      returns (ghost q: Parsed)
      requires Valid() && Traversed(front, raw, p, i, newLen) && bodyAt + i <= recv.len && !p.last && !p.wild
      requires ParseChunk(Rest(bodyAt + i)) == Some(c) && !Collect(raw).wild
      modifies recv.buf
      ensures Valid() && bodyAt + i + c.total <= recv.len && c.total > 0 && q.last == (c.size == 0) && !q.wild
      ensures Traversed(front, raw, q, i + c.total, newLen + c.size)
    {
      hide Collect, ParseChunk, ChunkData, Collapsed;
      ghost var all := recv.Contents();
      NotWild(front, raw, p, all, bodyAt + newLen, bodyAt + i);
      ParseFits(all[bodyAt + i..]);
      CollapsedFits(front, raw, p, all, bodyAt + newLen, bodyAt + i);
      MoveChunk(i, newLen, c);
      CollapsedStep(front, raw, p, all, bodyAt + newLen, bodyAt + i, recv.Contents(), c);
      q := Parsed(p.data + ChunkData(all[bodyAt + i..], c), p.used + c.total, c.size == 0, false);
    }

    /** The body so far and the data of the complete chunks stand together, the unparsed bytes at `i`. */
    ghost predicate Folded(head: seq<byte>, b: Body, i: nat, newLen: nat)
      requires Valid()
      reads this, recv, recv.buf
    {
      var p := Collect(b.raw);
      && newLen <= i && bodyAt + i <= recv.len && |b.done| + p.used == i && |b.done| + |p.data| == newLen
      && recv.Contents()[..bodyAt + newLen] == head + b.done + p.data
      && p.used <= |b.raw| && recv.Contents()[bodyAt + i..] == b.raw[p.used..]
    }

    lemma TraversedStart()
      requires Valid()
      ensures Traversed(Head() + State().done, State().raw, NOTHING, bodyLen, bodyLen)
    {
      var front := Head() + State().done;
      assert recv.Contents() == front + State().raw;
      CollapsedStart(front, State().raw, recv.Contents());
    }

    lemma TraversedEnd(head: seq<byte>, b: Body, p: Parsed, i: nat, newLen: nat)
      requires Valid() && |b.done| == bodyLen && Traversed(head + b.done, b.raw, p, i, newLen) && bodyAt + i <= recv.len
      requires !p.wild && (p.last || ParseChunk(Rest(bodyAt + i)).None?)
      ensures Folded(head, b, i, newLen) && Collect(b.raw) == p
    {
      hide Collect, ParseChunk;
      CollapsedEnd(head + b.done, b.raw, p, recv.Contents(), bodyAt + newLen, bodyAt + i);
    }

    /** The traversal of `mg_handle_chunked`: complete chunks are moved up against the body. */
    method CollapseChunks() returns (i: nat, newLen: nat, last: bool)
      requires Valid() && !Collect(State().raw).wild
      modifies recv.buf
      ensures Valid() && Folded(old(Head()), old(State()), i, newLen) && last == Collect(old(State()).raw).last
    {
      hide Collect, ParseChunk, Traversed, Folded, Rest, M.Mbuf.Contents;
      ghost var head, b := Head(), State();
      ghost var p := NOTHING;
      i, newLen, last := bodyLen, bodyLen, false;
      TraversedStart();
      var chunk := ParseAt(bodyAt + i);
      while chunk.Some?
        invariant Valid() && bodyAt + i <= recv.len && last == p.last && !p.wild
        invariant Traversed(head + b.done, b.raw, p, i, newLen)
        invariant chunk == if last then None else ParseChunk(Rest(bodyAt + i))
        decreases recv.len - i
      {
        p := TakeChunk(i, newLen, chunk.value, head + b.done, b.raw, p);
        newLen := newLen + chunk.value.size;
        i := i + chunk.value.total;
        if chunk.value.size == 0 {
          last := true;
          chunk := None;
        } else {
          chunk := ParseAt(bodyAt + i);
        }
      }
      TraversedEnd(head, b, p, i, newLen);
    }

    /** Drops the bytes of the parsed chunks and shows the body to the user. */
    method ShowBody(i: nat, newLen: nat, ghost head: seq<byte>, ghost b: Body)
      requires Valid() && Folded(head, b, i, newLen) && newLen <= i && bodyAt + i <= recv.len && |head| == bodyAt
      modifies this`bodyLen, this`events, recv`len, recv.buf
      ensures Valid() && Head() == head
      ensures var body := b.done + Collect(b.raw).data;
              State() == Body(body, b.raw[Collect(b.raw).used..], old(events) + [body], dropped, finished, false)
    {
      hide Collect, M.Mbuf.Contents;
      ghost var all := recv.Contents();
      recv.CloseGap(bodyAt + newLen, bodyAt + i);
      GapClosed(all, recv.Contents(), head, b.done, Collect(b.raw).data, newLen, i);
      bodyLen := newLen;
      ContentsAt(recv, bodyAt, bodyAt + newLen);
      events := events + [recv.buf[bodyAt..bodyAt + newLen]];
    }

    lemma NothingFolded(head: seq<byte>, b: Body, i: nat, newLen: nat)
      requires Valid() && Folded(head, b, i, newLen) && i <= newLen && |head| == bodyAt && |b.done| == bodyLen
      requires !Collect(b.raw).wild && !b.lost
      ensures Head() == head && Collect(b.raw).used == 0
      ensures State() == b.(events := events, dropped := dropped, finished := finished)
    {
      hide Collect;
      EmptyCollect(b.raw);
      var all := recv.Contents();
      assert all[..bodyAt + newLen] == head + b.done;
      assert all[..bodyAt] == all[..bodyAt + newLen][..bodyAt] == head;
      assert all[bodyAt..bodyAt + newLen] == all[..bodyAt + newLen][bodyAt..] == b.done;
    }

    /** Deletes the body the user has just been shown. */
    method DeleteBody()
      requires Valid()
      modifies this`bodyLen, this`dropped, recv`len, recv.buf
      ensures Valid() && Head() == old(Head())
      ensures State() == old(State()).(done := [], dropped := old(dropped) + old(State()).done)
    {
      assert recv.buf[bodyAt..bodyAt + bodyLen] == State().done;
      dropped := dropped + recv.buf[bodyAt..bodyAt + bodyLen];
      recv.CloseGap(bodyAt, bodyAt + bodyLen);
      bodyLen := 0;
    }

    /** `mg_handle_chunked`; `delete` is whether the user's handler sets MG_F_DELETE_CHUNK. */
    method HandleChunked(delete: bool)
      requires Valid() && !finished && !Collect(State().raw).wild
      modifies this`bodyLen, this`events, this`finished, this`dropped, recv`len, recv.buf
      ensures Valid() && Head() == old(Head()) && State() == Handle(old(State()), delete)
    {
      hide Collect, Folded, M.Mbuf.Contents;
      ghost var b, head := State(), Head();
      var i, newLen, last := CollapseChunks();
      FoldedAt(head, b, i, newLen);
      if i > newLen {
        ShowBody(i, newLen, head, b);
        if delete {
          DeleteBody();
        }
        if last {
          finished := true;
        }
      } else {
        NothingFolded(head, b, i, newLen);
      }
    }

    lemma FoldedAt(head: seq<byte>, b: Body, i: nat, newLen: nat)
      requires Valid() && Folded(head, b, i, newLen)
      ensures bodyAt + i <= recv.len
      ensures |b.done| + Collect(b.raw).used == i && |b.done| + |Collect(b.raw).data| == newLen
    {
      hide Collect;
    }

    /** One receive event for a body that has not ended, or bytes behind one that has. */
    method OnRecv(segment: seq<byte>, delete: bool)
      requires Valid() && (finished || !Collect(State().raw + segment).wild)
      modifies this`bodyLen, this`events, this`finished, this`dropped, recv, recv.buf
      ensures Valid() && Head() == old(Head()) && State() == Arrive(old(State()), Arrival(segment, delete))
    {
      hide Handle, Collect, M.Mbuf.Contents;
      ghost var all := recv.Contents();
      recv.Append(segment);
      Appended(all, segment, bodyAt, bodyAt + bodyLen);
      if !finished {
        HandleChunked(delete);
      }
    }
  }

  lemma ParseFits(s: seq<byte>)
    ensures ParseChunk(s).Some? && Inside(ParseChunk(s).value) ==>
              var c := ParseChunk(s).value; c.data + c.size + 2 == c.total <= |s| && |ChunkData(s, c)| == c.size
  {
  }

  /** When decoding the whole meets no chunk outside the buffer, the one found next is inside it. */
  lemma NotWild(front: seq<byte>, raw: seq<byte>, p: Parsed, all: seq<byte>, at: nat, from: nat)
    requires Collapsed(front, raw, p, all, at, from) && !p.last && !p.wild && !Collect(raw).wild
    requires ParseChunk(all[from..]).Some?
    ensures Inside(ParseChunk(all[from..]).value)
  {
    hide ParseChunk, ChunkData;
    CollectStep(all[from..]);
  }

  /** `p` has been parsed from the front of `raw`: its data is joined to `front`, up to `at`, and the
      rest of `raw` begins at `from`. */
  ghost predicate Collapsed(front: seq<byte>, raw: seq<byte>, p: Parsed, all: seq<byte>, at: nat, from: nat) {
    && p.used <= |raw| && at <= from <= |all|
    && all[..at] == front + p.data && all[from..] == raw[p.used..]
    && Collect(raw) == Then(p, Collect(raw[p.used..]))
  }

  lemma CollapsedStart(front: seq<byte>, raw: seq<byte>, all: seq<byte>)
    requires all == front + raw
    ensures Collapsed(front, raw, NOTHING, all, |front|, |front|)
  {
    hide Collect;
    assert raw[0..] == raw && front + [] == front;
    EmptyThen(Collect(raw));
  }

  lemma CollapsedStep(front: seq<byte>, raw: seq<byte>, p: Parsed, all: seq<byte>, at: nat, from: nat,
                      after: seq<byte>, c: Chunk)
    requires Collapsed(front, raw, p, all, at, from) && !p.last && !p.wild
    requires ParseChunk(all[from..]) == Some(c) && Inside(c)
    requires c.data + c.size <= |all[from..]| && at + c.size <= |after| == |all|
    requires c.data + c.size + 2 == c.total <= |all| - from
    requires after[..at + c.size] == all[..at] + ChunkData(all[from..], c)
    requires after[from + c.total..] == all[from..][c.total..]
    ensures Collapsed(front, raw, Parsed(p.data + ChunkData(all[from..], c), p.used + c.total, c.size == 0, false),
                      after, at + c.size, from + c.total)
  {
    hide Collect, ParseChunk, ChunkData;
    var s := raw[p.used..];
    CollectStep(s);
    ThenMore(p, ChunkData(s, c), c.total, Collect(s[c.total..]));
    ParseFits(s);
    assert s[c.total..] == raw[p.used + c.total..];
    Regroup(front, p.data, ChunkData(s, c));
    if c.size == 0 {
      assert p.data + ChunkData(s, c) == p.data;
    }
  }

  lemma CollapsedFits(front: seq<byte>, raw: seq<byte>, p: Parsed, all: seq<byte>, at: nat, from: nat)
    requires Collapsed(front, raw, p, all, at, from)
    ensures at <= from <= |all|
  {
  }

  lemma CollapsedEnd(front: seq<byte>, raw: seq<byte>, p: Parsed, all: seq<byte>, at: nat, from: nat)
    requires Collapsed(front, raw, p, all, at, from) && !p.wild && (p.last || ParseChunk(all[from..]).None?)
    ensures Collect(raw) == p && at <= from <= |all| && p.used <= |raw|
    ensures all[..at] == front + p.data && all[from..] == raw[p.used..]
  {
    ThenNothing(p, raw[p.used..]);
  }

  lemma ThenNothing(p: Parsed, s: seq<byte>)
    requires p.last || ParseChunk(s).None?
    requires !p.wild
    ensures Then(p, Collect(s)) == p
  {
    if !p.last {
      assert p.data + [] == p.data;
    }
  }

  lemma Appended(all: seq<byte>, segment: seq<byte>, at: nat, end: nat)
    requires at <= end <= |all|
    ensures (all + segment)[..at] == all[..at] && (all + segment)[at..end] == all[at..end]
    ensures (all + segment)[end..] == all[end..] + segment
  {
  }

  lemma ContentsAt(m: M.Mbuf, from: nat, to: nat)
    requires m.Valid() && from <= to <= m.len
    ensures m.buf[from..to] == m.Contents()[from..to]
  {
  }

  lemma GapClosed(all: seq<byte>, after: seq<byte>, head: seq<byte>, done: seq<byte>, data: seq<byte>,
                  newLen: nat, i: nat)
    requires newLen == |done| + |data| && newLen <= i && |head| + i <= |all|
    requires all[..|head| + newLen] == head + done + data
    requires after == all[..|head| + newLen] + all[|head| + i..]
    ensures after[..|head|] == head && after[|head|..|head| + newLen] == done + data
    ensures after[|head| + newLen..] == all[|head| + i..]
  {
    assert after == head + (done + data) + all[|head| + i..];
  }

  lemma EmptyThen(p: Parsed)
    ensures Then(NOTHING, p) == p
  {
  }

  lemma ThenMore(p: Parsed, data: seq<byte>, total: nat, rest: Parsed)
    requires !p.last && !p.wild
    ensures Then(p, Parsed(data + rest.data, total + rest.used, rest.last, rest.wild))
         == Then(Parsed(p.data + data, p.used + total, false, false), rest)
    ensures Then(p, Parsed([], total, true, false)) == Parsed(p.data, p.used + total, true, false)
  {
  }

  lemma ChunkMoved(before: seq<byte>, after: seq<byte>, dst: nat, at: nat, c: Chunk)
    requires dst <= at <= |before| && c.data + c.size + 2 == c.total <= |before| - at
    requires after == before[..dst] + before[at + c.data..at + c.data + c.size] + before[dst + c.size..]
    ensures after[..dst + c.size] == before[..dst] + ChunkData(before[at..], c)
    ensures after[at + c.total..] == before[at..][c.total..]
  {
    hide ChunkData;
    ChunkPlace(before, at, before[at..], c);
    MovedView(before, after, dst, at + c.data, c.size, at + c.total);
  }

  lemma ChunkPlace(contents: seq<byte>, at: nat, s: seq<byte>, c: Chunk)
    requires at <= |contents| && contents[at..] == s && c.data + c.size + 2 == c.total <= |s|
    ensures contents[at + c.data..at + c.data + c.size] == ChunkData(s, c)
    ensures contents[at + c.total..] == s[c.total..]
  {
    var there := contents[at + c.data..at + c.data + c.size];
    assert forall i :: 0 <= i < c.size ==> there[i] == contents[at + (c.data + i)] == s[c.data + i];
    assert there == s[c.data..c.data + c.size];
  }

  lemma MovedView(before: seq<byte>, after: seq<byte>, dst: nat, src: nat, n: nat, from: nat)
    requires dst <= src && src + n <= from <= |before|
    requires after == before[..dst] + before[src..src + n] + before[dst + n..]
    ensures |after| == |before|
    ensures after[..dst + n] == before[..dst] + before[src..src + n]
    ensures after[from..] == before[from..]
  {
  }
}
