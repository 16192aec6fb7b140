/** `src/mongoose.c`: sending MQTT packets and the receive loop of `mqtt_handler` on `recv_mbuf`. */
module MqttConnection {
  import opened Bytes
  import opened MqttModel
  import opened MqttCommands
  import M = Mbuf

  /** The loop of `mg_send_mqtt_header` that writes the remaining length, low digits first. */
  method PutLength(n: nat) returns (field: seq<byte>)
    ensures field == LengthBytes(n)
  {
    field := [];
    var len := n;
    var more := true;
    while more
      invariant if more then field + LengthBytes(len) == LengthBytes(n) else field == LengthBytes(n)
      decreases more, len
    {
      var digit: byte := len % 0x80;
      ghost var before := len;
      len := len / 0x80;
      if len > 0 {
        digit := digit + 0x80;
      }
      assert LengthBytes(before) == [digit] + if before < 128 then [] else LengthBytes(len);
      assert before >= 128 ==> field + ([digit] + LengthBytes(len)) == field + [digit] + LengthBytes(len);
      field := field + [digit];
      more := len > 0;
    }
  }

  /** `mg_send_mqtt_header`. */
  method SendHeader(send: M.Mbuf, cmd: Nibble, flags: Nibble, len: nat)
    requires send.Valid()
    modifies send, send.buf
    ensures send.Valid() && send.Contents() == old(send.Contents()) + FixedHeader(cmd, flags, len)
    ensures send.buf == old(send.buf) || fresh(send.buf)
  {
    hide LengthBytes, M.Mbuf.Contents;
    var first: byte := cmd * 16 + flags;
    var field := PutLength(len);
    send.Append([first] + field);
  }

  /** `mg_mqtt_publish`. */
  method Publish(send: M.Mbuf, topic: seq<byte>, id: U16, flags: Nibble, data: seq<byte>)
    requires send.Valid()
    modifies send, send.buf
    ensures send.Valid() && send.Contents() == old(send.Contents()) + Encode(Call(topic, id, flags, data))
    ensures send.buf == old(send.buf) || fresh(send.buf)
  {
    hide LengthBytes, FixedHeader, U16Bytes, M.Mbuf.Contents;
    ghost var before := send.Contents();
    var topicLen: U16 := |topic| % 0x1_0000;
    var totalLen := 2 + topicLen + |data|;
    if Qos(flags) > 0 {
      totalLen := totalLen + 2;
    }
    SendHeader(send, PUBLISH, flags, totalLen);
    send.Append(U16Bytes(topicLen));
    send.Append(topic[..topicLen]);
    if Qos(flags) > 0 {
      send.Append(U16Bytes(id));
    }
    send.Append(data);
    EncodeParts(before, Call(topic, id, flags, data), totalLen);
  }

  lemma EncodeParts(before: seq<byte>, c: Call, total: nat)
    requires total == |BodyOf(c)|
    ensures var id := if Qos(c.flags) > 0 then U16Bytes(c.id) else [];
            var front := before + FixedHeader(PUBLISH, c.flags, total) + U16Bytes(|SentTopic(c)|) + SentTopic(c);
            && before + Encode(c) == front + id + c.payload
            && (id == [] ==> before + Encode(c) == front + c.payload)
  {
    hide FixedHeader, U16Bytes;
  }

  /** `htons` of the length and the string itself. */
  method SendString(send: M.Mbuf, s: seq<byte>)
    requires send.Valid()
    modifies send, send.buf
    ensures send.Valid() && send.Contents() == old(send.Contents()) + Str(s)
    ensures send.buf == old(send.buf) || fresh(send.buf)
  {
    hide U16Bytes, M.Mbuf.Contents;
    ghost var before := send.Contents();
    var n: U16 := |s| % 0x1_0000;
    send.Append(U16Bytes(n));
    send.Append(s[..n]);
    Regroup(before, U16Bytes(n), s[..n]);
  }

  /** A string that is sent when its flag is set; one that is not there is sent as an empty one. */
  method SendIf(send: M.Mbuf, present: bool, s: Option<seq<byte>>)
    requires send.Valid()
    modifies send, send.buf
    ensures send.Valid() && (send.buf == old(send.buf) || fresh(send.buf))
    ensures send.Contents() == old(send.Contents())
                             + if present then Str(if s.Some? then s.value else []) else []
  {
    hide Str, M.Mbuf.Contents;
    if present {
      if s.Some? {
        SendString(send, s.value);
      } else {
        SendString(send, []);
      }
    } else {
      assert send.Contents() + [] == send.Contents();
    }
  }

  /** The first half of `mg_send_mqtt_handshake_opt`: flags, keep-alive time and length of the packet. */
  method ConnectFields(h: Handshake) returns (flags: byte, alive: U16, total: nat)
    requires CallOk(h)
    ensures flags == SentFlags(h) && alive == SentKeepAlive(h) && total == |ConnectBody(h)|
  {
    hide Str, WithBit, HasBit, ConnectBody;
    flags := WithBit(h.flags, HAS_USER, h.user.Some?);
    flags := WithBit(flags, HAS_PASSWORD, h.password.Some?);
    flags := WithBit(flags, HAS_WILL, h.will.Some?);
    alive := if h.keepAlive == 0 then 60 else h.keepAlive;
    SentBits(h, HAS_WILL);
    SentBits(h, HAS_USER);
    SentBits(h, HAS_PASSWORD);
    ConnectLength(h);
    total := 12 + |h.clientId| % 65536;
    if HasBit(flags, HAS_WILL) {
      if h.will.Some? {
        total := total + 2 + |h.will.value.0| % 65536 + 2 + |h.will.value.1| % 65536;
      } else {
        total := total + 4;
      }
    }
    if HasBit(flags, HAS_USER) {
      total := total + 2 + |h.user.value| % 65536;
    }
    if HasBit(flags, HAS_PASSWORD) {
      total := total + 2 + |h.password.value| % 65536;
    }
  }

  /** The end of it: will, user name and password. */
  method SendStrings(send: M.Mbuf, h: Handshake, flags: byte)
    requires send.Valid() && CallOk(h) && flags == SentFlags(h)
    modifies send, send.buf
    ensures send.Valid() && (send.buf == old(send.buf) || fresh(send.buf))
    ensures send.Contents() == old(send.Contents()) + ConnectStrings(h)
  {
    hide Str, M.Mbuf.Contents, HasBit, SentFlags;
    ghost var before := send.Contents();
    SentBits(h, HAS_WILL);
    SentBits(h, HAS_USER);
    SentBits(h, HAS_PASSWORD);
    SendIf(send, HasBit(flags, HAS_WILL), if h.will.Some? then Some(h.will.value.0) else None);
    SendIf(send, HasBit(flags, HAS_WILL), if h.will.Some? then Some(h.will.value.1) else None);
    SendIf(send, HasBit(flags, HAS_USER), h.user);
    SendIf(send, HasBit(flags, HAS_PASSWORD), h.password);
    var a, b, c, d := MaybeStr(WillTopic(h)), MaybeStr(WillMessage(h)), MaybeStr(h.user), MaybeStr(h.password);
    assert send.Contents() == before + a + b + c + d;
    Regroup(before + a + b, c, d);
    Regroup(before + a, b, c + d);
    Regroup(before, a, b + (c + d));
  }

  /** `mg_send_mqtt_handshake_opt`; a user name or password whose flag is set must be there. */
  method SendHandshake(send: M.Mbuf, h: Handshake)
    requires send.Valid() && CallOk(h)
    modifies send, send.buf
    ensures send.Valid() && send.Contents() == old(send.Contents()) + EncodeConnect(h)
    ensures send.buf == old(send.buf) || fresh(send.buf)
  {
    hide FixedHeader, Str, M.Mbuf.Contents, U16Bytes, SentFlags, SentKeepAlive, ConnectStrings, ConnectBody;
    ghost var before := send.Contents();
    var flags, alive, total := ConnectFields(h);
    SendHeader(send, CONNECT, 0, total);
    send.Append(PROTOCOL);
    send.Append([flags]);
    send.Append(U16Bytes(alive));
    SendString(send, h.clientId);
    SendStrings(send, h, flags);
    BodyParts(before + FixedHeader(CONNECT, 0, total), h);
    Regroup(before, FixedHeader(CONNECT, 0, total), ConnectBody(h));
  }

  lemma BodyParts(s: seq<byte>, h: Handshake)
    ensures s + PROTOCOL + [SentFlags(h)] + U16Bytes(SentKeepAlive(h)) + Str(h.clientId) + ConnectStrings(h)
         == s + ConnectBody(h)
  {
    hide U16Bytes, SentFlags, SentKeepAlive, Str, MaybeStr;
    var a, b, c, d := [SentFlags(h)], U16Bytes(SentKeepAlive(h)), Str(h.clientId), ConnectStrings(h);
    Regroup(s + PROTOCOL + a + b, c, d);
    Regroup(s + PROTOCOL + a, b, c + d);
    Regroup(s + PROTOCOL, a, b + (c + d));
    Regroup(s, PROTOCOL, a + (b + (c + d)));
  }

  lemma ConnectLength(h: Handshake)
    ensures |ConnectBody(h)| == 12 + |h.clientId| % 65536 + |MaybeStr(WillTopic(h))| + |MaybeStr(WillMessage(h))|
                                + |MaybeStr(h.user)| + |MaybeStr(h.password)|
  {
    hide Str;
  }

  /** `mg_mqtt_subscribe`. */
  method SendSubscribe(send: M.Mbuf, topics: seq<Filter>, id: U16)
    requires send.Valid()
    modifies send, send.buf
    ensures send.Valid() && send.Contents() == old(send.Contents()) + EncodeSubscribe(topics, id)
    ensures send.buf == old(send.buf) || fresh(send.buf)
  {
    hide FixedHeader, Str, M.Mbuf.Contents, U16Bytes;
    ghost var before := send.Contents();
    var total := 2;
    for i := 0 to |topics|
      invariant total + FilterLength(topics[i..]) == 2 + FilterLength(topics)
    {
      assert topics[i..][1..] == topics[i + 1..];
      total := total + 2 + |topics[i].topic| + 1;
    }
    SendHeader(send, SUBSCRIBE, 2, total);
    send.Append(U16Bytes(id));
    ghost var head := send.Contents();
    for i := 0 to |topics|
      invariant send.Valid() && (send.buf == old(send.buf) || fresh(send.buf))
      invariant send.Contents() + FilterBytes(topics[i..]) == head + FilterBytes(topics)
    {
      ghost var sent := send.Contents();
      assert topics[i..][1..] == topics[i + 1..];
      SendString(send, topics[i].topic);
      send.Append([topics[i].qos]);
      Regroup(sent, Str(topics[i].topic), [topics[i].qos]);
      Regroup(sent, Str(topics[i].topic) + [topics[i].qos], FilterBytes(topics[i + 1..]));
    }
    assert send.Contents() + [] == send.Contents();
    Regroup(before, FixedHeader(SUBSCRIBE, 2, total), U16Bytes(id));
    Regroup(before, FixedHeader(SUBSCRIBE, 2, total) + U16Bytes(id), FilterBytes(topics));
  }

  /** `mg_mqtt_connack`. */
  method SendConnack(send: M.Mbuf, code: byte)
    requires send.Valid()
    modifies send, send.buf
    ensures send.Valid() && send.Contents() == old(send.Contents()) + EncodeConnack(code)
    ensures send.buf == old(send.buf) || fresh(send.buf)
  {
    hide FixedHeader, M.Mbuf.Contents;
    ghost var before := send.Contents();
    SendHeader(send, CONNACK, 0, 2);
    send.Append([0]);
    send.Append([code]);
    assert before + FixedHeader(CONNACK, 0, 2) + [0] + [code] == before + (FixedHeader(CONNACK, 0, 2) + [0, code]);
  }

  /** `mg_send_mqtt_short_command`. */
  method SendShort(send: M.Mbuf, cmd: Nibble, id: U16)
    requires send.Valid()
    modifies send, send.buf
    ensures send.Valid() && send.Contents() == old(send.Contents()) + EncodeShort(cmd, id)
    ensures send.buf == old(send.buf) || fresh(send.buf)
  {
    hide FixedHeader, M.Mbuf.Contents, U16Bytes;
    ghost var before := send.Contents();
    var flags := if cmd == PUBREL then 2 else 0;
    SendHeader(send, cmd, flags, 2);
    send.Append(U16Bytes(id));
    Regroup(before, FixedHeader(cmd, flags, 2), U16Bytes(id));
  }

  /** `mg_mqtt_suback`. */
  method SendSuback(send: M.Mbuf, codes: seq<byte>, id: U16)
    requires send.Valid()
    modifies send, send.buf
    ensures send.Valid() && send.Contents() == old(send.Contents()) + EncodeSuback(codes, id)
    ensures send.buf == old(send.buf) || fresh(send.buf)
  {
    hide FixedHeader, M.Mbuf.Contents, U16Bytes;
    ghost var before := send.Contents();
    SendHeader(send, SUBACK, 2, 2 + |codes|);
    send.Append(U16Bytes(id));
    ghost var head := send.Contents();
    for i := 0 to |codes|
      invariant send.Valid() && (send.buf == old(send.buf) || fresh(send.buf))
      invariant send.Contents() == head + codes[..i]
    {
      send.Append([codes[i]]);
      assert head + codes[..i] + [codes[i]] == head + codes[..i + 1];
    }
    assert codes[..|codes|] == codes;
    Regroup(before, FixedHeader(SUBACK, 2, 2 + |codes|), U16Bytes(id));
    Regroup(before + FixedHeader(SUBACK, 2, 2 + |codes|), U16Bytes(id), codes);
    Regroup(before, FixedHeader(SUBACK, 2, 2 + |codes|), U16Bytes(id) + codes);
  }

  /** `scanto` of a string that the packet `s` holds at `p`, unless it is not to be read. */
  method TakeString(s: seq<byte>, present: bool, p: nat) returns (ok: bool, text: Option<seq<byte>>, next: nat)
    requires p <= |s|
    ensures StringAt(s, present, Some(p)) == if ok then (text, Some(next)) else (None, None)
    ensures ok ==> next <= |s|
  {
    ok, text, next := true, None, p;
    if present {
      if p + 2 > |s| {
        return false, None, p;
      }
      next := p + 2 + U16At(s, p);
      if next > |s| {
        return false, None, p;
      }
      text := Some(s[p + 2..next]);
    }
  }

  /** The CONNECT case of `parse_mqtt`. */
  method ParseConnect(qos: int, s: seq<byte>) returns (m: Option<Message>)
    ensures m == ConnectOf(qos, s)
  {
    hide StringAt, HasBit;
    var ok, protocol, p := TakeString(s, true, 0);
    FailedStays(s);
    if !ok || p + 4 >= |s| {
      return None;
    }
    var version, flags, alive := s[p], s[p + 1], U16At(s, p + 2);
    p := p + 4;
    var id, topic, will, user, password;
    ok, id, p := TakeString(s, true, p);
    if !ok {
      return None;
    }
    ok, topic, p := TakeString(s, HasBit(flags, HAS_WILL), p);
    if !ok {
      return None;
    }
    ok, will, p := TakeString(s, HasBit(flags, HAS_WILL), p);
    if !ok {
      return None;
    }
    ok, user, p := TakeString(s, HasBit(flags, HAS_USER), p);
    if !ok {
      return None;
    }
    ok, password, p := TakeString(s, HasBit(flags, HAS_PASSWORD), p);
    if !ok || p != |s| {
      return None;
    }
    return Some(Connect(qos, protocol.value, version, flags, alive, id.value, topic, will, user, password));
  }

  lemma FailedStays(s: seq<byte>)
    ensures forall present :: StringAt(s, present, None) == (None, None)
  {
  }

  /** The PUBLISH case of `parse_mqtt`. */
  method ParsePublish(qos: int, s: seq<byte>) returns (m: Option<Message>)
    ensures m == PublishOf(qos, s)
  {
    if |s| < 2 {
      return None;
    }
    var p := 2 + U16At(s, 0);
    if p > |s| {
      return None;
    }
    var topic := s[2..p];
    if qos > 0 {
      if |s| - p < 2 {
        return None;
      }
      return Some(Message.Publish(qos, topic, Some(U16At(s, p)), s[p + 2..]));
    }
    return Some(Message.Publish(qos, topic, None, s[p..]));
  }

  /** The cases of `parse_mqtt`, for the bytes of a packet behind its fixed header. */
  method ParseBody(header: byte, body: seq<byte>) returns (m: Option<Message>)
    ensures m == MessageOf(header, body)
  {
    hide ConnectOf, PublishOf;
    var cmd, qos := header / 16, Qos(header);
    if cmd == CONNECT {
      m := ParseConnect(qos, body);
    } else if cmd == CONNACK {
      if |body| < 2 {
        return None;
      }
      m := Some(Connack(qos, body[1]));
    } else if cmd in {PUBACK, PUBREC, PUBREL, PUBCOMP, SUBACK} {
      m := Some(Ack(cmd, qos, None));
      if |body| >= 2 {
        m := Some(Ack(cmd, qos, Some(U16At(body, 0))));
      }
    } else if cmd == PUBLISH {
      m := ParsePublish(qos, body);
    } else if cmd == SUBSCRIBE {
      if |body| < 2 {
        return None;
      }
      m := Some(Subscribe(qos, U16At(body, 0), body[2..]));
    } else {
      m := Some(Other(cmd, qos));
    }
  }

  /** A handler that goes through a SUBSCRIBE with `mg_mqtt_next_subscribe_topic`. */
  method ListTopics(payload: seq<byte>) returns (topics: seq<Filter>)
    ensures topics == Topics(payload, 0)
  {
    topics := [];
    var pos := 0;
    while true
      invariant pos <= |payload| && topics + Topics(payload, pos) == Topics(payload, 0)
      decreases |payload| - pos
    {
      if pos >= |payload| || pos + 2 > |payload| {
        break;
      }
      var end := pos + 2 + U16At(payload, pos);
      if end + 1 > |payload| {
        break;
      }
      topics := topics + [Filter(payload[pos + 2..end], payload[end])];
      pos := end + 1;
    }
  }

  class MqttConnection {
    const recv: M.Mbuf
    const limit: nat             // recv_mbuf_limit
    var events: seq<Message>     // calls of the user handler
    var closed: bool             // MG_F_CLOSE_IMMEDIATELY

    ghost predicate Valid()
      reads this, recv
    {
      recv.Valid()
    }

    ghost function State(): Conn
      requires Valid()
      reads this, recv, recv.buf
    {
      Conn(recv.Contents(), events, closed)
    }

    constructor (limit: nat)
      ensures Valid() && State() == FRESH && this.limit == limit
      ensures fresh(recv) && fresh(recv.buf)
    {
      recv := new M.Mbuf(0);
      this.limit := limit;
      events, closed := [], false;
    }

    /** The loop of `parse_mqtt` over the length field. */
    method ScanField() returns (r: Length)
      requires Valid() && recv.len >= 2
      ensures r == ScanLength(recv.Contents()[1..], 0)
    {
      hide Digit;
      ghost var s := recv.Contents()[1..];
      var len, lenLen := 0, 0;
      while 1 + lenLen < recv.len
        invariant 0 <= len && 0 <= lenLen <= 4 && 1 + lenLen <= recv.len
        invariant ScanLength(s, 0) == Shifted(len, lenLen, ScanLength(s[lenLen..], lenLen))
      {
        var lc := recv.buf[1 + lenLen];
        assert s[lenLen..][0] == lc && s[lenLen..][1..] == s[lenLen + 1..];
        len := len + Digit(lc, lenLen);
        lenLen := lenLen + 1;
        if lc < 0x80 {
          return Length(len, lenLen, false);
        }
        if lenLen > 4 {
          return TooLong;
        }
      }
      return Length(len, lenLen, true);
    }

    /** `parse_mqtt`. */
    method ParseMqtt() returns (r: Outcome)
      requires Valid()
      ensures r == Parse(recv.Contents())
    {
      hide ScanLength, MessageOf;
      if recv.len < 2 {
        return Incomplete;
      }
      var length := ScanField();
      match length
      case TooLong => return Malformed;
      case Length(value, bytes, open) =>
        if open || value > recv.len - 1 - bytes {
          return Incomplete;
        }
        var p := 1 + bytes;
        var m := ParseBody(recv.buf[0], recv.buf[p..p + value]);
        assert recv.buf[p..p + value] == recv.Contents()[p..p + value];
        match m
        case None => return Malformed;
        case Some(message) =>
          var len := p + value;
          return if len > 0x7fff_ffff then Negative else Packet(message, len);
    }

    /** A receive event of `mqtt_handler`: all complete packets in the buffer are delivered. */
    method OnRecv(segment: seq<byte>)
      requires Valid()
      modifies this`events, this`closed, recv, recv.buf
      ensures Valid() && State() == Receive(old(State()), segment, limit)
    {
      hide Parse, M.Mbuf.Contents;
      recv.Append(segment);
      if closed {
        return;
      }
      ghost var c := State();
      var more := true;
      while more
        invariant Valid() && (recv.buf == old(recv.buf) || fresh(recv.buf))
        invariant if more then Drain(State(), limit) == Drain(c, limit) else State() == Drain(c, limit)
        decreases more, recv.len
      {
        var r := ParseMqtt();
        match r
        case Packet(message, len) =>
          events := events + [message];
          recv.Remove(len);
        case Incomplete =>
          if limit > 0 && recv.len >= limit {
            closed := true;
          }
          more := false;
        case _ =>
          closed := true;
          more := false;
      }
    }
  }

  /** A length field of which `bytes` bytes, worth `value`, have been read already. */
  ghost function Shifted(value: nat, bytes: nat, rest: Length): Length {
    match rest
    case TooLong => TooLong
    case Length(v, b, open) => Length(value + v, bytes + b, open)
  }
}
