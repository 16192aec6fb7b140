/** `src/ms_session.c`: the client session object, transferring from the store to its connection. */
module Session {
  import opened Bytes
  import opened CacheModel
  import opened SessionModel
  import opened SessionRuns
  import M = Mbuf
  import S = MemStorage
  import opened BlockTable

  /** The sizes a transfer works with: room for the staged bytes, and for the header if it sends one. */
  ghost predicate CanTransfer(s: SessionModel.Session, limit: nat, filesize: int, header: seq<byte>) {
    s.sending + s.header == |s.outbox| && |s.staged| <= limit
    && (!Idle(s, limit, filesize) ==>
          var t := WithHeader(s, header);
          t.sending + t.header == |t.outbox| && t.header <= limit / 2)
  }

  /** The read of a GET in this state is one that an assert refuses, or that lies outside the file. */
  predicate Refused(s: SessionModel.Session, limit: nat, filesize: int) {
    Faulty(s, limit, filesize, RangeAssert) || Faulty(s, limit, filesize, BadRead)
  }

  /** The transfer of a GET in this state makes a read, and it is refused. */
  predicate Blocked(s: SessionModel.Session, limit: nat, filesize: int, header: seq<byte>) {
    !Idle(s, limit, filesize) && Refused(WithHeader(s, header), limit, filesize)
  }

  /** In every state of a session `try_transfer_data` may be called, and its read is refused exactly when the
      run may not go on. */
  lemma InvCanTransfer(s: SessionModel.Session, u: Setup, wire: seq<byte>, filesize: int)
    requires Inv(s, u, wire) && filesize in {0, |u.file|} && !s.closed
    ensures CanTransfer(s, u.limit, filesize, u.header)
    ensures Blocked(s, u.limit, filesize, u.header) <==> !Passes(s, u, filesize)
  {
    hide Faulty, Accounts, Carries;
    StagedFits(s, u, wire);
    if !Idle(s, u.limit, filesize) && Inside(u) {
      HeaderKeeps(s, u, wire);
      StagedFits(WithHeader(s, u.header), u, wire);
    }
  }

  lemma StagedFits(s: SessionModel.Session, u: Setup, wire: seq<byte>)
    requires Quiet(s, u, wire) || Flowing(s, u, wire)
    ensures s.sending + s.header == |s.outbox| && |s.staged| <= u.limit
  {
  }

  lemma PushIs(s: SessionModel.Session, t: SessionModel.Session, limit: nat, got: seq<byte>)
    requires |s.staged| + |got| <= limit && s.header <= limit / 2
    requires var all := s.staged + got;
             var n := Outgoing(s, limit, |all|);
             0 <= n <= |all| && t == s.(outbox := s.outbox + all[..n], sending := s.sending + n, staged := all[n..])
    ensures t == Push(s, limit, got)
  {
    var all := s.staged + got;
    if all == [] {
      assert s.outbox + all[..0] == s.outbox;
    }
  }

  /** In every state of a session, `on_send` may be called for any part of the outbox. */
  lemma InvCanTake(s: SessionModel.Session, u: Setup, wire: seq<byte>, filesize: int, n: nat)
    requires Inv(s, u, wire) && filesize in {0, |u.file|} && !s.closed && n <= |s.outbox|
    ensures s.len > 0 ==> n - s.header <= s.len
    ensures !Acknowledge(s, n).closed ==> CanTransfer(Acknowledge(s, n), u.limit, filesize, u.header)
  {
    AcknowledgeKeeps(s, u, wire, n);
    if !Acknowledge(s, n).closed {
      InvCanTransfer(Acknowledge(s, n), u, wire + s.outbox[..n], filesize);
    }
  }

  class MediaSession {
    var pos: int
    var len: int
    var sending: int
    var headerSending: int
    const reqPos: int
    const reqLen: int
    const limit: nat              // MS_SEND_BUF_LIMIT
    const isHead: bool
    const buf: M.Mbuf
    const sendMbuf: M.Mbuf        // of the connection
    var headerSent: bool          // MS_F_HEADER_SEND
    var sendAndClose: bool        // MG_F_SEND_AND_CLOSE
    var closed: bool

    ghost predicate Valid()
      reads this, buf, sendMbuf
    {
      && buf.Valid() && sendMbuf.Valid() && buf != sendMbuf && buf.buf != sendMbuf.buf
      && buf.buf.Length == limit && 0 <= sending && 0 <= headerSending
    }

    ghost function State(): SessionModel.Session
      requires Valid()
      reads this, buf, sendMbuf, buf.buf, sendMbuf.buf
    {
      SessionModel.Session(pos, len, sending, headerSending, reqPos, reqLen,
                           buf.Contents(), sendMbuf.Contents(), headerSent, sendAndClose, closed)
    }

    /** `count` numbers have been read from the Range header, if there is one: `first` and `last`, or 0. */
    constructor (count: int, first: int, last: int, isHead: bool, limit: nat, filesize: int)
      requires RequestOf(count, first, last).Some?
      ensures var r := RequestOf(count, first, last).value; Valid() && State() == Open(r.0, r.1, filesize)
      ensures this.limit == limit && this.isHead == isHead
      ensures fresh(buf) && fresh(buf.buf) && fresh(sendMbuf) && fresh(sendMbuf.buf)
    {
      buf := new M.Mbuf(limit);
      sendMbuf := new M.Mbuf(0);
      this.limit, this.isHead := limit, isHead;
      var r2 := last;
      if count > 0 && first >= 0 && last >= 0 {
        if count == 1 {
          r2 := 0;
        } else {
          r2 := last - first + 1;
        }
        assert r2 >= 0;
      }
      reqPos, reqLen := first, r2;
      pos, len := first, r2;
      if r2 == 0 && filesize > 0 {
        len := filesize - first;
      }
      sending, headerSending := 0, 0;
      headerSent, sendAndClose, closed := false, false, false;
    }

    method OnContentSizeFrom(filesize: int)
      requires Valid()
      modifies this`len
      ensures Valid() && State() == ContentSizeKnown(old(State()), filesize)
    {
      if len > 0 {
        return;
      }
      if filesize > 0 {
        len := filesize - pos;
      }
    }

    method SendHeader(header: seq<byte>)
      requires Valid()
      modifies this`headerSent, this`headerSending, sendMbuf, sendMbuf.buf
      ensures Valid() && State() == WithHeader(old(State()), header)
      ensures buf.buf == old(buf.buf) && (sendMbuf.buf == old(sendMbuf.buf) || fresh(sendMbuf.buf))
    {
      if !headerSent {
        headerSent := true;
        sendMbuf.Append(header);
        headerSending := headerSending + sendMbuf.len;
      }
    }

    /** `mg_send` of the first `n` staged bytes, then `mbuf_remove`. */
    method MoveOut(n: nat)
      requires Valid() && n <= buf.len
      modifies buf, buf.buf, sendMbuf, sendMbuf.buf
      ensures Valid() && buf.buf == old(buf.buf) && (sendMbuf.buf == old(sendMbuf.buf) || fresh(sendMbuf.buf))
      ensures sendMbuf.Contents() == old(sendMbuf.Contents()) + old(buf.Contents())[..n]
      ensures buf.Contents() == old(buf.Contents())[n..]
    {
      ghost var all := buf.Contents();
      var out := buf.buf[..n];
      assert out == all[..n];
      sendMbuf.Append(out);
      buf.Remove(n);
    }

    /** All that is staged, or what the header still in the outbox leaves of it, goes out. */
    method SendStaged() returns (moved: nat)
      requires Valid() && headerSending <= limit / 2 && buf.len <= limit
      requires reqLen == 0 || pos + sending + buf.len <= reqPos + reqLen
      modifies this`sending, buf, buf.buf, sendMbuf, sendMbuf.buf
      ensures Valid() && buf.buf == old(buf.buf) && (sendMbuf.buf == old(sendMbuf.buf) || fresh(sendMbuf.buf))
      ensures moved == old(Outgoing(State(), limit, buf.len)) <= old(buf.len) && sending == old(sending) + moved
      ensures sendMbuf.Contents() == old(sendMbuf.Contents()) + old(buf.Contents())[..moved]
      ensures buf.Contents() == old(buf.Contents())[moved..]
    {
      moved := 0;
      ghost var all := buf.Contents();
      if buf.len == 0 {
        assert all == [] && all[..0] == all[0..] == [];
        return;
      }
      var n := buf.len;
      if n + headerSending > buf.buf.Length {
        n := n - headerSending;
      }
      MoveOut(n);
      assert reqLen == 0 || pos + sending + n <= reqPos + reqLen;
      sending := sending + n;
      moved := n;
    }

    /** The end of `try_transfer_data`: what was read joins the staged bytes, as much as fits goes out. */
    method PushRead(read: seq<byte>) returns (moved: int)
      requires Valid() && buf.len + |read| <= limit
      requires headerSending <= limit / 2
      requires reqLen == 0 || pos + sending + buf.len + |read| <= reqPos + reqLen
      modifies this`sending, buf, buf.buf, sendMbuf, sendMbuf.buf
      ensures Valid() && State() == Push(old(State()), limit, read)
      ensures moved == sending - old(sending)
      ensures buf.buf == old(buf.buf) && (sendMbuf.buf == old(sendMbuf.buf) || fresh(sendMbuf.buf))
    {
      hide Push;
      ghost var before := State();
      buf.Append(read);
      moved := SendStaged();
      PushIs(before, State(), limit, read);
    }

    /** The read of a GET and what follows it; `got` is what the store answered. A read that is refused, or
        that the source's `size_t` turns into an immense one, is not made. */
    method ReadAndPush(store: S.MemStorage) returns (refused: bool, moved: int, ghost got: seq<byte>)
      requires Valid() && store.Valid() && store.filesize != 0 && buf.len <= limit
      requires sending + headerSending == sendMbuf.len && headerSending <= limit / 2
      modifies this`sending, buf, buf.buf, sendMbuf, sendMbuf.buf
      ensures refused == Refused(old(State()), limit, store.filesize)
      ensures Valid() && State() == if refused then old(State()) else Push(old(State()), limit, got)
      ensures moved == sending - old(sending)
      ensures buf.buf == old(buf.buf) && (sendMbuf.buf == old(sendMbuf.buf) || fresh(sendMbuf.buf))
      ensures !refused ==>
                LongestPrefix(store, ReadFrom(old(State())), Wanted(old(State()), limit, store.filesize), got)
    {
      hide Push, Copied, Cached, CompletedSize, FlatPieces, Shape, NoIdleBlocks;
      var readFrom := pos + buf.len + sendMbuf.len - headerSending;
      var wanted, rest := buf.buf.Length - buf.len, len - sending;
      if 0 <= rest < wanted {
        wanted := rest;
      }
      if readFrom + wanted > store.filesize {
        wanted := store.filesize - readFrom;
      }
      refused, moved, got := true, 0, [];
      if reqLen != 0 && readFrom + wanted > reqPos + reqLen {
        return;
      }
      if readFrom < 0 || wanted < 0 {
        return;
      }
      refused := false;
      var read := store.Read(readFrom, wanted);
      got := read;
      moved := PushRead(read);
    }

    /** `try_transfer_data`. */
    method TryTransferData(store: S.MemStorage, header: seq<byte>)
      returns (refused: bool, moved: int, ghost got: seq<byte>)
      requires Valid() && store.Valid() && sending + headerSending == sendMbuf.len
      requires !isHead ==> CanTransfer(State(), limit, store.filesize, header)
      modifies this`headerSent, this`headerSending, this`sending, this`sendAndClose, buf, buf.buf,
               sendMbuf, sendMbuf.buf
      ensures Valid()
      ensures refused == (!isHead && old(Blocked(State(), limit, store.filesize, header)))
      ensures State() == if refused then WithHeader(old(State()), header)
                         else if isHead then HeadTransfer(old(State()), limit, store.filesize, header)
                         else Transfer(old(State()), limit, store.filesize, header, got)
      ensures moved == sending - old(sending)
      ensures buf.buf == old(buf.buf) && (sendMbuf.buf == old(sendMbuf.buf) || fresh(sendMbuf.buf))
      ensures !isHead && !refused ==> Answered(old(State()), limit, header, store, got)
    {
      hide Push, Wanted, LongestPrefix, Faulty;
      refused, moved, got := false, 0, [];
      if sending > limit / 2 {
        return;
      }
      if len == 0 {
        return;
      }
      if store.filesize == 0 {
        return;
      }
      SendHeader(header);
      if isHead {
        sendAndClose := true;
        return;
      }
      refused, moved, got := ReadAndPush(store);
    }

    /** The accounting half of `on_send`, after the socket took `n` bytes of the outbox. */
    method AcknowledgeBytes(n: nat)
      requires Valid() && n <= sendMbuf.len && !closed
      requires sending + headerSending == sendMbuf.len && (len > 0 ==> n - headerSending <= len)
      modifies this, sendMbuf, sendMbuf.buf
      ensures Valid() && State() == Acknowledge(old(State()), n)
      ensures buf.buf == old(buf.buf) && sendMbuf.buf == old(sendMbuf.buf)
    {
      sendMbuf.Remove(n);
      var bodyLen: int := n;
      if headerSending > 0 {
        if headerSending > n {
          headerSending := headerSending - n;
          bodyLen := 0;
        } else {
          bodyLen := n - headerSending;
          headerSending := 0;
        }
      }
      if len == 0 {
        return;
      }
      pos := pos + bodyLen;
      if len > 0 {
        assert len >= bodyLen;
        len := len - bodyLen;
      }
      sending := sending - bodyLen;
      if len == 0 && sending == 0 {
        closed := true;
      }
    }

    /** The socket takes `n` bytes of the outbox, then `on_send(n)` runs. */
    method SocketTook(n: nat, store: S.MemStorage, header: seq<byte>) returns (refused: bool, ghost got: seq<byte>)
      requires Valid() && store.Valid() && sending + headerSending == sendMbuf.len && n <= sendMbuf.len && !closed
      requires !sendAndClose && len > 0 ==> n - headerSending <= len
      requires !sendAndClose && !isHead && len != 0 && !Acknowledge(State(), n).closed ==>
                 CanTransfer(Acknowledge(State(), n), limit, store.filesize, header)
      modifies this, buf, buf.buf, sendMbuf, sendMbuf.buf
      ensures Valid()
      ensures refused == (!isHead && !old(sendAndClose) && !closed && old(len) != 0 &&
                            Blocked(Acknowledge(old(State()), n), limit, store.filesize, header))
      ensures State() == if refused then WithHeader(Acknowledge(old(State()), n), header)
                         else if isHead then HeadSent(old(State()), n, limit, store.filesize, header)
                         else Sent(old(State()), n, limit, store.filesize, header, got)
      ensures !old(sendAndClose) && !isHead && old(len) != 0 && !closed && !refused ==>
                Answered(Acknowledge(old(State()), n), limit, header, store, got)
    {
      hide Transfer, HeadTransfer, CanTransfer, Answered, Acknowledge, Blocked;
      refused, got := false, [];
      if sendAndClose {
        sendMbuf.Remove(n);
        return;
      }
      var active := len != 0;
      AcknowledgeSizes(State(), n);
      AcknowledgeBytes(n);
      if active && !closed {
        var moved;
        refused, moved, got := TryTransferData(store, header);
      }
    }
  }

  lemma AcknowledgeSizes(s: SessionModel.Session, n: nat)
    requires n <= |s.outbox| && s.sending + s.header == |s.outbox|
    ensures var t := Acknowledge(s, n); s.len != 0 ==> t.sending + t.header == |t.outbox|
  {
  }

  /** `got` is the longest cached prefix of the `wanted` bytes from `from` on. */
  ghost predicate LongestPrefix(store: S.MemStorage, from: int, wanted: int, got: seq<byte>)
    requires store.Valid()
    reads store
  {
    && |got| <= wanted && Copied(store.Contents(), from, got)
    && (|got| < wanted ==> !Cached(store.Contents(), from + |got|))
  }

  /** The store answered the read of a transfer with its longest cached prefix. */
  ghost predicate Answered(s: SessionModel.Session, limit: nat, header: seq<byte>, store: S.MemStorage, got: seq<byte>)
    requires store.Valid()
    reads store
  {
    !Idle(s, limit, store.filesize) ==>
      var t := WithHeader(s, header);
      LongestPrefix(store, ReadFrom(t), Wanted(t, limit, store.filesize), got)
  }
}
