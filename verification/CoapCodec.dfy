/** `mg_coap_compose` and `mg_coap_parse`: the loops that write a packet in place and read it back. */
module CoapCodec {
  import opened Bytes
  import opened CoapModel
  import M = Mbuf

  /** `coap_calculate_packet_size`. */
  method CalculatePacketSize(m: Message) returns (r: Sized)
    ensures r == PacketSize(m)
  {
    var len := 4;
    if m.msgType > 3 {
      return Rejected(TypeField);
    }
    if |m.token| > 8 {
      return Rejected(TokenField);
    }
    if m.codeClass > 7 {
      return Rejected(ClassField);
    }
    if m.codeDetail > 31 {
      return Rejected(DetailField);
    }
    len := len + |m.token|;
    if |m.payload| != 0 {
      len := len + |m.payload| + 1;
    }
    ghost var base := len;
    var i: nat, prev: nat := 0, 0;
    while i < |m.options|
      invariant 0 <= i <= |m.options|
      invariant i < |m.options| ==> prev <= m.options[i].number
      invariant OptionsOk(0, m.options) <==> OptionsOk(prev, m.options[i..])
      invariant OptionsOk(0, m.options) ==> len + OptionsSize(prev, m.options[i..]) == base + OptionsSize(0, m.options)
    {
      var o := m.options[i];
      assert m.options[i..][1..] == m.options[i + 1..];
      len := len + 1;
      len := len + ExtSize(o.number - prev);
      len := len + ExtSize(|o.value|);
      if (i + 1 < |m.options| && o.number > m.options[i + 1].number)
         || |o.value| > MAX_EXTENDED || o.number - prev > MAX_EXTENDED {
        return Rejected(OptionsField);
      }
      len := len + |o.value|;
      prev := o.number;
      i := i + 1;
    }
    return Size(len);
  }

  /** Writes `bytes` over the buffer at `ptr` and returns the position behind them. */
  method Put(io: M.Mbuf, ptr: nat, bytes: seq<byte>) returns (next: nat)
    requires io.Valid() && ptr + |bytes| <= io.len
    modifies io.buf
    ensures io.Valid() && next == ptr + |bytes|
    ensures io.Contents()[..next] == old(io.Contents())[..ptr] + bytes
  {
    forall i | 0 <= i < |bytes| {
      io.buf[ptr + i] := bytes[i];
    }
    next := ptr + |bytes|;
  }

  /** The option loop of `mg_coap_compose`. */
  method PutOptions(opts: seq<CoapOption>, io: M.Mbuf, start: nat) returns (ptr: nat)
    requires io.Valid() && OptionsOk(0, opts) && start + OptionsSize(0, opts) <= io.len
    modifies io.buf
    ensures io.Valid() && ptr == start + OptionsSize(0, opts)
    ensures io.Contents()[..ptr] == old(io.Contents())[..start] + EncodeOptions(0, opts)
  {
    hide EncodeOption, EncodeOptions, OptionsSize;
    ptr := start;
    ghost var front, done := io.Contents()[..start], [];
    var i: nat, prev: nat := 0, 0;
    assert opts[0..] == opts && front + [] == front;
    while i < |opts|
      invariant 0 <= i <= |opts| && io.Valid()
      invariant i < |opts| ==> prev <= opts[i].number
      invariant OptionsOk(prev, opts[i..])
      invariant EncodeOptions(0, opts) == done + EncodeOptions(prev, opts[i..])
      invariant ptr == start + |done| && ptr <= io.len
      invariant io.Contents()[..ptr] == front + done
    {
      var o := opts[i];
      assert opts[i..][1..] == opts[i + 1..];
      ghost var e := EncodeOption(o.number - prev, o.value);
      EncodeSplit(prev, opts[i..], done);
      ptr := PutOption(io, ptr, o.number - prev, o.value);
      assert front + done + e == front + (done + e);
      done := done + e;
      prev := o.number;
      i := i + 1;
    }
    NoneLeft(prev, opts[i..]);
    assert done + [] == done;
  }

  lemma EncodeSplit(prev: nat, opts: seq<CoapOption>, done: seq<byte>)
    requires opts != [] && prev <= opts[0].number && OptionsOk(prev, opts)
    ensures var e := EncodeOption(opts[0].number - prev, opts[0].value);
            done + EncodeOptions(prev, opts) == done + e + EncodeOptions(opts[0].number, opts[1..])
  {
    hide EncodeOption;
  }

  lemma NoneLeft(prev: nat, opts: seq<CoapOption>)
    requires opts == []
    ensures EncodeOptions(prev, opts) == []
  {
  }

  /** One round of it: the combined nibbles, both extensions and the value. */
  method PutOption(io: M.Mbuf, start: nat, delta: nat, value: seq<byte>) returns (ptr: nat)
    requires io.Valid() && start + |EncodeOption(delta, value)| <= io.len
    modifies io.buf
    ensures io.Valid() && ptr == start + |EncodeOption(delta, value)|
    ensures io.Contents()[..ptr] == old(io.Contents())[..start] + EncodeOption(delta, value)
  {
    hide Ext, Base;
    ptr := Put(io, start, [Base(delta) * 16 + Base(|value|)]);
    ptr := Put(io, ptr, Ext(delta));
    ptr := Put(io, ptr, Ext(|value|));
    ptr := Put(io, ptr, value);
  }

  /** `mg_coap_compose`: nothing is appended to a rejected message's buffer. */
  method Compose(m: Message, io: M.Mbuf) returns (rejected: Option<Field>)
    requires io.Valid()
    modifies io, io.buf
    ensures io.Valid()
    ensures PacketSize(m).Rejected? ==> rejected == Some(PacketSize(m).field) && io.Contents() == old(io.Contents())
    ensures PacketSize(m).Size? ==> rejected == None && io.Contents() == old(io.Contents()) + Encode(m)
  {
    hide Encode, EncodeOptions, EncodePayload, EncodeHeader, PacketSize, OptionsOk;
    var res := CalculatePacketSize(m);
    if res.Rejected? {
      return Some(res.field);
    }
    PacketParts(m);
    var start := io.len;
    io.Append(seq(res.bytes, _ => 0));
    assert io.Contents()[..start] == old(io.Contents());
    var ptr := Put(io, start, EncodeHeader(m));
    ptr := Put(io, ptr, m.token);
    ptr := PutOptions(m.options, io, ptr);
    ptr := Put(io, ptr, EncodePayload(m.payload));
    JoinParts(old(io.Contents()), m);
    assert io.Contents() == io.Contents()[..ptr];
    return None;
  }

  lemma PacketParts(m: Message)
    requires PacketSize(m).Size?
    ensures m.msgType <= 3 && |m.token| <= 8 && m.codeClass <= 7 && m.codeDetail <= 31 && OptionsOk(0, m.options)
    ensures PacketSize(m).bytes
         == |EncodeHeader(m)| + |m.token| + OptionsSize(0, m.options) + |EncodePayload(m.payload)|
  {
  }

  lemma JoinParts(before: seq<byte>, m: Message)
    requires PacketSize(m).Size?
    ensures m.msgType <= 3 && |m.token| <= 8 && m.codeClass <= 7 && m.codeDetail <= 31 && OptionsOk(0, m.options)
    ensures before + EncodeHeader(m) + m.token + EncodeOptions(0, m.options) + EncodePayload(m.payload)
         == before + Encode(m)
  {
    hide EncodeHeader, EncodeOptions, EncodePayload;
  }

  // ------------------------------------------------------------------ reading

  /** `mg_coap_add_option`. */
  method AddInOrder(opts: seq<CoapOption>, o: CoapOption) returns (r: seq<CoapOption>)
    ensures r == AddOption(opts, o)
  {
    if opts == [] || opts[|opts| - 1].number <= o.number {
      return opts + [o];
    }
    var i := 0;
    while i < |opts| && opts[i].number <= o.number
      invariant 0 <= i <= |opts|
      invariant forall k :: 0 <= k < i ==> opts[k].number <= o.number
    {
      i := i + 1;
    }
    InsertAt(opts, o, i);
    r := opts[..i] + [o] + opts[i..];
  }

  /** The loop of `coap_get_options`, from `start` on. */
  method GetOptions(d: seq<byte>, start: nat) returns (r: OptionsRead)
    requires start <= |d|
    ensures r == ReadOptions(d[start..], 0, [])
  {
    hide ReadOption, AddOption;
    var ptr := start;
    var prev: u16 := 0;
    var opts: seq<CoapOption> := [];
    while ptr < |d| && d[ptr] != PAYLOAD_MARKER
      invariant start <= ptr <= |d|
      invariant ReadOptions(d[start..], 0, []) == ReadOptions(d[ptr..], prev, opts)
    {
      var o := ReadOption(d[ptr..]);
      if o.OptionFailed? {
        return OptionsFailed(o.failure);
      }
      assert d[ptr..][o.used..] == d[ptr + o.used..];
      prev := (o.delta + prev) % 0x1_0000;
      opts := AddInOrder(opts, CoapOption(prev, o.value));
      ptr := ptr + o.used;
    }
    return OptionsRead(opts, d[ptr..]);
  }
}
