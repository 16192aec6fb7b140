/** The WebSocket part of a connection: frames are unmasked and joined in place in `recv_mbuf`. */
module WsConnection {
  import opened Bytes
  import opened WsFrames
  import opened WsModel
  import M = Mbuf

  /** `mg_send_websocket_frame`: appends the frame and, for a client, masks the payload in place. */
  method SendFrame(send: M.Mbuf, fin: bool, op: Nibble, data: Sized, mask: Option<MaskKey>)
    requires send.Valid()
    modifies send, send.buf
    ensures send.Valid() && send.Contents() == old(send.Contents()) + Encode(Frame(fin, op, mask, data))
    ensures send.buf == old(send.buf) || fresh(send.buf)
  {
    hide Masked, LengthField, Encode, M.Mbuf.Contents;
    ghost var before := send.Contents();
    var first: byte := (if fin then FIN else 0) + op;
    var header := [first] + LengthField(|data|, if mask.None? then 0 else 0x80);
    EncodeIs(before, Frame(fin, op, mask, data), header);
    send.Append(header);
    if mask.Some? {
      send.Append(mask.value);
      SendMasked(send, data);
      SentBytes(before + header, mask.value, data);
    } else {
      send.Append(data);
    }
  }

  /** The payload is appended as it is and masked where it lies, with the key sent just before it. */
  method SendMasked(send: M.Mbuf, data: seq<byte>)
    requires send.Valid() && send.len >= 4
    modifies send, send.buf
    ensures var all := old(send.Contents()) + data;
            var at := |all| - |data|;
            && send.Valid()
            && send.Contents() == all[..at] + Masked(all[at..at + |data|], all[at - 4..at]) + all[at + |data|..]
    ensures send.buf == old(send.buf) || fresh(send.buf)
  {
    hide Masked, M.Mbuf.Contents;
    var pos := send.len;
    send.Append(data);
    MaskInPlace(send, pos, |data|, pos - 4);
  }

  lemma EncodeIs(before: seq<byte>, f: Frame, header: seq<byte>)
    requires header == [FirstByte(f)] + LengthField(|f.payload|, if f.key.None? then 0 else 0x80)
    ensures var body := if f.key.None? then f.payload else f.key.value + Masked(f.payload, f.key.value);
            before + Encode(f) == before + header + body
  {
    hide Masked, LengthField;
    var body := if f.key.None? then f.payload else f.key.value + Masked(f.payload, f.key.value);
    assert Encode(f) == header + body;
  }

  lemma SentBytes(front: seq<byte>, key: MaskKey, data: seq<byte>)
    ensures var all := front + key + data;
            var at := |front| + 4;
            all[..at] + Masked(all[at..at + |data|], all[at - 4..at]) + all[at + |data|..]
              == front + (key + Masked(data, key))
  {
    hide Masked;
    var all := front + key + data;
    var at := |front| + 4;
    assert all[at..at + |data|] == data && all[at - 4..at] == key;
    assert all[..at] == front + key && all[at + |data|..] == [];
  }

  /** Masks or unmasks `n` bytes at `at` with the four key bytes stored at `key`. */
  method MaskInPlace(m: M.Mbuf, at: nat, n: nat, key: nat)
    requires m.Valid() && at + n <= m.len && key + 4 <= at
    modifies m.buf
    ensures m.Valid()
    ensures var all := old(m.Contents());
            m.Contents() == all[..at] + Masked(all[at..at + n], all[key..key + 4]) + all[at + n..]
  {
    hide Xor, Masked;
    ghost var all := m.Contents();
    for i := 0 to n
      invariant forall k :: 0 <= k < i ==> m.buf[at + k] == Xor(all[at + k], all[key + k % 4])
      invariant forall k :: 0 <= k < m.len && !(at <= k < at + i) ==> m.buf[k] == all[k]
    {
      m.buf[at + i] := Xor(m.buf[at + i], m.buf[key + i % 4]);
    }
    ghost var after := m.Contents();
    assert forall k :: 0 <= k < |after| ==> after[k] == m.buf[k];
    MaskedView(all, after, at, n, key);
  }

  lemma MaskedView(all: seq<byte>, after: seq<byte>, at: nat, n: nat, key: nat)
    requires at + n <= |all| == |after| && key + 4 <= at
    requires forall k :: 0 <= k < n ==> after[at + k] == Xor(all[at + k], all[key + k % 4])
    requires forall k :: 0 <= k < |all| && !(at <= k < at + n) ==> after[k] == all[k]
    ensures after == all[..at] + Masked(all[at..at + n], all[key..key + 4]) + all[at + n..]
  {
    hide Xor;
    assert after[..at] == all[..at] && after[at + n..] == all[at + n..];
    assert after[at..at + n] == Masked(all[at..at + n], all[key..key + 4]);
    assert after == after[..at] + after[at..at + n] + after[at + n..];
  }

  class WsConnection {
    const recv: M.Mbuf
    var reassLen: nat
    const noDefrag: bool        // MG_F_WEBSOCKET_NO_DEFRAG
    var events: seq<Event>      // calls of the user handler
    var replies: seq<Reply>     // pongs and close echoes sent
    var errors: nat             // close frames sent for protocol errors

    ghost predicate Valid()
      reads this, recv
    {
      recv.Valid() && reassLen <= recv.len
    }

    ghost function State(): Conn
      requires Valid()
      reads this, recv, recv.buf
    {
      Conn(recv.Contents()[..reassLen], recv.Contents()[reassLen..], events, replies, errors)
    }

    constructor (noDefrag: bool)
      ensures Valid() && State() == FRESH && this.noDefrag == noDefrag
      ensures fresh(recv) && fresh(recv.buf)
    {
      recv := new M.Mbuf(0);
      reassLen := 0;
      this.noDefrag := noDefrag;
      events, replies, errors := [], [], 0;
    }

    /** The fragment branch: the payload at `data` moves up against the reassembled bytes. */
    method JoinFragment(flags: byte, data: nat, size: nat)
      requires Valid() && reassLen + 2 <= data && data + size <= recv.len && recv.buf[reassLen] == flags
      modifies this`reassLen, recv`len, recv.buf
      ensures Valid()
      ensures var all := old(recv.Contents());
              State() == Joined(old(State()), flags, all[data..data + size], all[data + size..])
    {
      ghost var c, all := State(), recv.Contents();
      var dst := reassLen;
      if IsFirstFragment(flags) {
        dst := dst + 1;
        reassLen := 1;
      }
      recv.CloseGap(dst, data);
      reassLen := reassLen + size;
      assert all[data..] == all[data..data + size] + all[data + size..];
      if IsFirstFragment(flags) {
        assert all[..dst] == c.partial + [flags];
        assert recv.Contents() == c.partial + [flags] + all[data..data + size] + all[data + size..];
      }
    }

    /** The branch for a complete message or control frame between the fragments of another. */
    method DeliverWhole(flags: byte, data: nat, size: nat)
      requires Valid() && reassLen <= data && data + size <= recv.len
      modifies this`events, this`replies, recv`len, recv.buf
      ensures Valid()
      ensures var all := old(recv.Contents());
              var payload := all[data..data + size];
              State() == Conn(old(State()).partial, all[data + size..], old(events) + [Message(flags, payload)],
                              old(replies) + RepliesTo(flags, payload), errors)
    {
      hide RepliesTo;
      var payload := recv.buf[data..data + size];
      assert payload == recv.Contents()[data..data + size];
      replies := replies + RepliesTo(flags, payload);
      events := events + [Message(flags, payload)];
      recv.CloseGap(reassLen, data + size);
    }

    /** On the last fragment: pass the reassembled message to the user and drop it from the buffer. */
    method FinishMessage()
      requires Valid()
      modifies this`reassLen, this`events, recv`len, recv.buf
      ensures Valid()
      ensures State() == old(State()).(partial := [], events := old(events) + [Reassembled(old(State()).partial)])
    {
      if reassLen == 0 {
        events := events + [SizeUnderflow];
      } else {
        assert recv.buf[1..reassLen] == State().partial[1..];
        events := events + [Message(WithFin(recv.buf[0]), recv.buf[1..reassLen])];
      }
      var cleanupLen := reassLen;
      reassLen := 0;
      recv.Remove(cleanupLen);
    }

    /** Takes the complete frame described by `h` off the pending bytes. */
    method Consume(h: Header, flags: byte)
      requires Valid() && reassLen < recv.len && flags == recv.buf[reassLen]
      requires h.Header? && 2 <= h.len && reassLen + h.len + h.size <= recv.len && (h.masked ==> h.len >= 6)
      modifies this`reassLen, this`events, this`replies, recv`len, recv.buf
      ensures Valid()
      ensures var d := old(State()).pending;
              State() == Accept(old(State()), flags, Payload(d, h), d[h.len + h.size..], noDefrag)
    {
      hide Masked, Joined, Reassembled, RepliesTo, Payload;
      ghost var c := State();
      ghost var raw := recv.Contents();
      var data := reassLen + h.len;
      if h.masked {
        MaskInPlace(recv, data, h.size, data - 4);
      }
      ghost var all := recv.Contents();
      UnmaskedView(raw, all, reassLen, h);
      if IsFragment(flags) && !noDefrag {
        JoinedFrom(c, State(), flags, all[data..data + h.size], all[data + h.size..]);
        JoinFragment(flags, data, h.size);
        if IsFinal(flags) {
          FinishMessage();
        }
      } else {
        DeliverWhole(flags, data, h.size);
      }
    }

    /** `mg_deliver_websocket_data`. */
    method DeliverData() returns (ok: bool)
      requires Valid()
      modifies this`reassLen, this`events, this`replies, this`errors, recv`len, recv.buf
      ensures Valid() && (State(), ok) == Deliver(old(State()), noDefrag)
    {
      hide Accept, ReadHeader;
      ghost var c := State();
      var newDataLen := recv.len - reassLen;
      if newDataLen == 0 {
        return false;
      }
      var flags := recv.buf[reassLen];
      var reass := IsFragment(flags) && !noDefrag;
      if reass && IsControl(flags) {
        errors := errors + 1;
        return false;
      } else if !reass && !IsControl(flags) && reassLen > 0 {
        errors := errors + 1;
        return false;
      }
      var h := ReadHeader(recv.buf[reassLen..recv.len]);
      assert recv.buf[reassLen..recv.len] == c.pending;
      match h
      case Incomplete => return false;
      case Overflow =>
        errors := errors + 1;
        return false;
      case Header(len, size, masked) =>
        Consume(h, flags);
        ok := true;
    }

    /** One receive event: the segment is appended, then frames are delivered until none is complete. */
    method OnRecv(segment: seq<byte>)
      requires Valid()
      modifies this`reassLen, this`events, this`replies, this`errors, recv, recv.buf
      ensures Valid() && State() == Receive(old(State()), segment, noDefrag)
    {
      hide Deliver;
      ghost var c := State();
      recv.Append(segment);
      assert State() == Append(c, segment);
      var ok := true;
      while ok
        invariant Valid() && (recv.buf == old(recv.buf) || fresh(recv.buf))
        invariant if ok then Drain(State(), noDefrag) == Receive(c, segment, noDefrag)
                  else State() == Receive(c, segment, noDefrag)
        decreases ok, recv.len
      {
        DeliverShrinks(State(), noDefrag);
        ok := DeliverData();
      }
    }
  }

  lemma JoinedFrom(c: Conn, d: Conn, flags: byte, payload: seq<byte>, rest: seq<byte>)
    requires d == c.(pending := d.pending)
    ensures Joined(d, flags, payload, rest) == Joined(c, flags, payload, rest)
  {
  }

  /** The buffer after unmasking, seen as the frame model sees it. */
  lemma UnmaskedView(raw: seq<byte>, all: seq<byte>, at: nat, h: Header)
    requires at <= |raw| == |all|
    requires h.Header? && 2 <= h.len && at + h.len + h.size <= |raw| && (h.masked ==> h.len >= 6)
    requires var data := at + h.len;
             all == if h.masked then raw[..data] + Masked(raw[data..data + h.size], raw[data - 4..data])
               + raw[data + h.size..]
                    else raw
    ensures var data := at + h.len;
            && all[data..data + h.size] == Payload(raw[at..], h)
            && all[data + h.size..] == raw[at..][h.len + h.size..]
            && all[..at] == raw[..at] && all[at] == raw[at]
  {
    hide Masked;
    var d := raw[at..];
    assert d[h.len..h.len + h.size] == raw[at + h.len..at + h.len + h.size];
    if h.masked {
      assert d[h.len - 4..h.len] == raw[at + h.len - 4..at + h.len];
    }
  }
}
