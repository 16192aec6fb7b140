/** MQTT packets (MQTT 3.1.1, sections 2.2 and 3.3): `parse_mqtt` and `mg_mqtt_publish` on values. */
module MqttModel {
  import opened Bytes

  type Nibble = n: int | 0 <= n < 16
  type U16 = n: int | 0 <= n < 0x1_0000

  const CONNECT: Nibble := 1
  const CONNACK: Nibble := 2
  const PUBLISH: Nibble := 3
  const PUBACK: Nibble := 4
  const PUBREC: Nibble := 5
  const PUBREL: Nibble := 6
  const PUBCOMP: Nibble := 7
  const SUBSCRIBE: Nibble := 8
  const SUBACK: Nibble := 9
  const UNSUBACK: Nibble := 11

  // Bits of the flags of a CONNECT packet.
  const HAS_WILL: nat := 2
  const HAS_PASSWORD: nat := 6
  const HAS_USER: nat := 7

  /** A delivered message. `id` is the packet identifier the packet carries; for an acknowledgement that
      ends before it, the source reads whatever lies behind the packet. */
  datatype Message =
    | Publish(qos: int, topic: seq<byte>, id: Option<U16>, payload: seq<byte>)
    | Connect(qos: int, protocol: seq<byte>, version: byte, flags: byte, keepAlive: U16, clientId: seq<byte>,
              willTopic: Option<seq<byte>>, willMessage: Option<seq<byte>>,
              user: Option<seq<byte>>, password: Option<seq<byte>>)
    | Connack(qos: int, code: byte)
    | Ack(cmd: Nibble, qos: int, id: Option<U16>)
    | Subscribe(qos: int, packetId: U16, payload: seq<byte>)
    | Other(cmd: Nibble, qos: int)

  /** What `parse_mqtt` makes of the buffer; `Negative` is a packet whose size is no positive `int`. */
  datatype Outcome = Incomplete | Malformed | Negative | Packet(message: Message, len: nat)

  function Qos(flags: int): int { flags / 2 % 4 }

  // ------------------------------------------------------------------ the remaining length

  /** 128 to the power `k`. */
  function Weight(k: nat): nat
    requires k <= 4
  {
    if k == 0 then 1 else if k == 1 then 128 else if k == 2 then 16384 else if k == 3 then 2097152 else 268435456
  }

  /** `(lc & 0x7f) << 7 * k` as the source computes it: in a 32-bit `int`, then widened with its sign. */
  function Digit(b: byte, k: nat): nat
    requires k <= 4
  {
    if k < 4 then b % 128 * Weight(k)
    else if b % 16 < 8 then b % 16 * 268435456
    else 0x1_0000_0000_0000_0000 - (16 - b % 16) * 268435456
  }

  /** The length field from its byte `k` on; `open` when the bytes end before it does. */
  datatype Length = Length(value: nat, bytes: nat, open: bool) | TooLong

  function ScanLength(s: seq<byte>, k: nat): (r: Length)
    requires k <= 4
    ensures r.Length? ==> r.bytes <= |s| && (r.open ==> r.bytes == |s|) && (!r.open ==> r.bytes > 0)
    decreases |s|
  {
    if s == [] then Length(0, 0, true)
    else if s[0] < 128 then Length(Digit(s[0], k), 1, false)
    else if k == 4 then TooLong
    else
      match ScanLength(s[1..], k + 1)
      case TooLong => TooLong
      case Length(value, bytes, open) => Length(Digit(s[0], k) + value, 1 + bytes, open)
  }

  /** The length field `mg_send_mqtt_header` writes. */
  function LengthBytes(n: nat): (s: seq<byte>)
    ensures s != []
  {
    if n < 128 then [n] else [n % 128 + 128] + LengthBytes(n / 128)
  }

  // ------------------------------------------------------------------ parsing

  function U16At(s: seq<byte>, p: nat): U16
    requires p + 2 <= |s|
  {
    (s[p] as int) * 256 + s[p + 1]
  }

  /** `scanto`: behind the string that starts at `p`, or nothing when not even its length fits. */
  function ScanTo(s: seq<byte>, p: nat): (q: Option<nat>)
    ensures q.Some? ==> p + 2 <= |s| && p + 2 <= q.value
  {
    if p + 2 <= |s| then Some(p + 2 + U16At(s, p)) else None
  }

  /** The string at `p` and where it ends, if it is inside the packet; none is read when it is not `present`. */
  function StringAt(s: seq<byte>, present: bool, p: Option<nat>): (r: (Option<seq<byte>>, Option<nat>))
    requires p.Some? ==> p.value <= |s|
    ensures r.1.Some? ==> p.Some? && p.value <= r.1.value <= |s|
    ensures r.1.Some? ==> (r.0.Some? <==> present)
  {
    if p.None? || !present then (None, p)
    else
      match ScanTo(s, p.value)
      case None => (None, None)
      case Some(q) => if q > |s| then (None, None) else (Some(s[p.value + 2..q]), Some(q))
  }

  predicate HasBit(flags: byte, bit: nat) {
    Bit(flags, bit) == 1
  }

  /** A CONNECT packet: the protocol, four bytes, and strings that end exactly with the packet. */
  function ConnectOf(qos: int, s: seq<byte>): Option<Message> {
    match StringAt(s, true, Some(0))
    case (_, None) => None
    case (protocol, Some(p)) =>
      if p + 4 >= |s| then None
      else
        var flags := s[p + 1];
        var id := StringAt(s, true, Some(p + 4));
        var topic := StringAt(s, HasBit(flags, HAS_WILL), id.1);
        var will := StringAt(s, HasBit(flags, HAS_WILL), topic.1);
        var user := StringAt(s, HasBit(flags, HAS_USER), will.1);
        var password := StringAt(s, HasBit(flags, HAS_PASSWORD), user.1);
        if password.1 != Some(|s|) then None
        else
          Some(Connect(qos, protocol.value, s[p], flags, U16At(s, p + 2), id.0.value, topic.0, will.0, user.0,
                       password.0))
  }

  function PublishOf(qos: int, s: seq<byte>): Option<Message> {
    match ScanTo(s, 0)
    case None => None
    case Some(p) =>
      if p > |s| || (qos > 0 && p + 2 > |s|) then None
      else if qos > 0 then Some(Publish(qos, s[2..p], Some(U16At(s, p)), s[p + 2..]))
      else Some(Publish(qos, s[2..p], None, s[p..]))
  }

  /** The message in the bytes behind the fixed header, or nothing when they are malformed. */
  function MessageOf(header: byte, body: seq<byte>): Option<Message> {
    var cmd, qos := header / 16, Qos(header);
    if cmd == PUBLISH then PublishOf(qos, body)
    else if cmd == CONNECT then ConnectOf(qos, body)
    else if cmd == CONNACK then if |body| < 2 then None else Some(Connack(qos, body[1]))
    else if cmd == SUBSCRIBE then if |body| < 2 then None else Some(Subscribe(qos, U16At(body, 0), body[2..]))
    else if cmd in {PUBACK, PUBREC, PUBREL, PUBCOMP, SUBACK} then
      Some(Ack(cmd, qos, if |body| < 2 then None else Some(U16At(body, 0))))
    else Some(Other(cmd, qos))
  }

  /** What `parse_mqtt` answers for a complete packet with this fixed header of `start` bytes. */
  function Complete(header: byte, body: seq<byte>, start: nat): Outcome {
    match MessageOf(header, body)
    case None => Malformed
    case Some(m) => if start + |body| > 0x7fff_ffff then Negative else Packet(m, start + |body|)
  }

  /** `parse_mqtt`. */
  function Parse(io: seq<byte>): (r: Outcome)
    ensures r.Packet? ==> 2 <= r.len <= |io|
  {
    if |io| < 2 then Incomplete
    else
      match ScanLength(io[1..], 0)
      case TooLong => Malformed
      case Length(value, bytes, open) =>
        if open || value > |io| - 1 - bytes then Incomplete
        else Complete(io[0], io[1 + bytes..1 + bytes + value], 1 + bytes)
  }

  // ------------------------------------------------------------------ composing

  /** A call of `mg_mqtt_publish`. */
  datatype Call = Call(topic: seq<byte>, id: U16, flags: Nibble, payload: seq<byte>)

  function U16Bytes(n: U16): (s: seq<byte>)
    ensures |s| == 2
  {
    [n / 256, n % 256]
  }

  /** The topic as it is sent: its length is kept in 16 bits. */
  function SentTopic(c: Call): (t: seq<byte>)
    ensures |t| < 0x1_0000
  {
    c.topic[..|c.topic| % 65536]
  }

  function BodyOf(c: Call): seq<byte> {
    U16Bytes(|SentTopic(c)|) + SentTopic(c) + (if Qos(c.flags) > 0 then U16Bytes(c.id) else []) + c.payload
  }

  function FixedHeader(cmd: Nibble, flags: Nibble, len: nat): seq<byte> {
    [cmd * 16 + flags] + LengthBytes(len)
  }

  function Encode(c: Call): (s: seq<byte>)
    ensures s != []
  {
    FixedHeader(PUBLISH, c.flags, |BodyOf(c)|) + BodyOf(c)
  }

  /** The message the caller means: an identifier belongs to it only from QoS 1 on. */
  function Meant(c: Call): Message {
    Publish(Qos(c.flags), c.topic, if Qos(c.flags) > 0 then Some(c.id) else None, c.payload)
  }

  /** Packets the round trip holds for. */
  predicate Fits(c: Call) {
    |c.topic| < 0x1_0000 && |Encode(c)| <= 0x7fff_ffff
  }

  // ------------------------------------------------------------------ round trip of one packet

  /** Largest length whose digits from byte `k` on are read back. */
  function Limit(k: nat): nat
    requires k <= 4
  {
    if k == 0 then 0x8000_0000
    else if k == 1 then 0x100_0000
    else if k == 2 then 0x2_0000
    else if k == 3 then 0x400 else 8
  }

  lemma DigitSplits(n: nat, k: nat)
    requires k < 4 && 128 <= n
    ensures Digit(n % 128 + 128, k) + n / 128 * Weight(k + 1) == n * Weight(k)
    ensures n < Limit(k) <==> n / 128 < Limit(k + 1)
  {
    assert n == n % 128 + 128 * (n / 128);
  }

  lemma {:induction false} LengthRoundTrip(n: nat, rest: seq<byte>, k: nat)
    requires k <= 4 && n < Limit(k)
    ensures ScanLength(LengthBytes(n) + rest, k) == Length(n * Weight(k), |LengthBytes(n)|, false)
    decreases n
  {
    hide Digit, Weight, Limit;
    SmallLimit(k);
    LengthUnfold(n, rest);
    if n >= 128 {
      DigitSplits(n, k);
      LengthRoundTrip(n / 128, rest, k + 1);
    } else {
      LastDigit(n, k);
    }
  }

  lemma SmallLimit(k: nat)
    requires k <= 4
    ensures k == 4 ==> Limit(k) < 128
  {
  }

  lemma LastDigit(n: nat, k: nat)
    requires k <= 4 && n < 128 && n < Limit(k)
    ensures Digit(n, k) == n * Weight(k)
  {
  }

  lemma LengthUnfold(n: nat, rest: seq<byte>)
    ensures var s := LengthBytes(n) + rest;
            if n < 128 then s[0] == n && LengthBytes(n) == [n]
            else s[0] == n % 128 + 128 && s[1..] == LengthBytes(n / 128) + rest
                 && |LengthBytes(n)| == 1 + |LengthBytes(n / 128)|
  {
    if n >= 128 {
      assert (LengthBytes(n) + rest)[1..] == LengthBytes(n / 128) + rest;
    }
  }

  /** A length field that is cut short is seen to be. */
  lemma {:induction false} LengthCut(n: nat, cut: nat, k: nat)
    requires k <= 4 && n < Limit(k) && cut < |LengthBytes(n)|
    ensures var r := ScanLength(LengthBytes(n)[..cut], k); r.Length? && r.open
    decreases n
  {
    if n >= 128 && cut > 0 {
      DigitSplits(n, k);
      LengthCut(n / 128, cut - 1, k + 1);
      assert LengthBytes(n)[..cut][1..] == LengthBytes(n / 128)[..cut - 1];
    }
  }

  /** A longer one is refused, or read as a length that differs or that no buffer holds. */
  lemma {:induction false} LengthLost(n: nat, rest: seq<byte>, k: nat)
    requires k <= 4 && n >= Limit(k)
    ensures var r := ScanLength(LengthBytes(n) + rest, k);
            || r.TooLong? || r.open || r.value >= 0x8000_0000_0000_0000
            || (r.bytes == |LengthBytes(n)| && r.value != n * Weight(k))
    decreases n
  {
    if n >= 128 && k < 4 {
      DigitSplits(n, k);
      LengthLost(n / 128, rest, k + 1);
      assert (LengthBytes(n) + rest)[1..] == LengthBytes(n / 128) + rest;
    } else if k == 4 && n < 128 {
      assert (LengthBytes(n) + rest)[0] == n;
    }
  }

  lemma FixedHeaderRead(cmd: Nibble, flags: Nibble, body: seq<byte>, rest: seq<byte>)
    requires |body| < Limit(0)
    ensures Parse(FixedHeader(cmd, flags, |body|) + body + rest)
        == Complete(cmd * 16 + flags, body, 1 + |LengthBytes(|body|)|)
  {
    hide LengthBytes, ScanLength, Complete;
    var n := |body|;
    var io := FixedHeader(cmd, flags, n) + body + rest;
    LengthRoundTrip(n, body + rest, 0);
    assert io[1..] == LengthBytes(n) + (body + rest);
    assert io[1 + |LengthBytes(n)|..1 + |LengthBytes(n)| + n] == body;
  }

  lemma U16RoundTrip(n: U16, front: seq<byte>, rest: seq<byte>)
    ensures U16At(front + U16Bytes(n) + rest, |front|) == n
  {
  }

  lemma PublishRead(c: Call)
    ensures PublishOf(Qos(c.flags), BodyOf(c)) == Some(Meant(c.(topic := SentTopic(c))))
  {
    var topic, body := SentTopic(c), BodyOf(c);
    var id := if Qos(c.flags) > 0 then U16Bytes(c.id) else [];
    U16RoundTrip(|topic|, [], topic + id + c.payload);
    assert body == [] + U16Bytes(|topic|) + (topic + id + c.payload);
    assert body[2..2 + |topic|] == topic;
    if Qos(c.flags) > 0 {
      U16RoundTrip(c.id, U16Bytes(|topic|) + topic, c.payload);
      assert body == (U16Bytes(|topic|) + topic) + U16Bytes(c.id) + c.payload;
      assert body[2 + |topic| + 2..] == c.payload;
    } else {
      assert body[2 + |topic|..] == c.payload;
    }
  }

  lemma HeaderByte(cmd: Nibble, flags: Nibble)
    ensures (cmd * 16 + flags) / 16 == cmd && Qos(cmd * 16 + flags) == Qos(flags)
  {
    var b := cmd * 16 + flags;
    assert b / 2 == cmd * 8 + flags / 2;
    assert (4 * (2 * cmd) + flags / 2) % 4 == flags / 2 % 4;
  }

  /** `parse_mqtt` undoes `mg_mqtt_publish` exactly for topics below 65536 bytes in packets that fit an `int`. */
  lemma RoundTripIff(c: Call, rest: seq<byte>)
    requires |Encode(c) + rest| < 0x8000_0000_0000_0000
    ensures Parse(Encode(c) + rest) == Packet(Meant(c), |Encode(c)|) <==> Fits(c)
  {
    hide ScanLength, LengthBytes, PublishOf;
    var n, io := |BodyOf(c)|, Encode(c) + rest;
    HeaderByte(PUBLISH, c.flags);
    PublishRead(c);
    if n < Limit(0) {
      FixedHeaderRead(PUBLISH, c.flags, BodyOf(c), rest);
      assert |c.topic| < 0x1_0000 ==> SentTopic(c) == c.topic;
    } else {
      LengthLost(n, BodyOf(c) + rest, 0);
      assert io[1..] == LengthBytes(n) + (BodyOf(c) + rest);
    }
  }

  /** A topic of 65536 bytes: the packet sent carries an empty one. */
  lemma LongTopicLost(c: Call, rest: seq<byte>)
    requires |c.topic| == 0x1_0000 && |Encode(c)| <= 0x7fff_ffff
    ensures Parse(Encode(c) + rest) == Packet(Meant(c.(topic := [])), |Encode(c)|)
  {
    hide ScanLength, LengthBytes, PublishOf;
    HeaderByte(PUBLISH, c.flags);
    PublishRead(c);
    assert SentTopic(c) == [];
    FixedHeaderRead(PUBLISH, c.flags, BodyOf(c), rest);
  }

  /** Every strict prefix of a packet is reported incomplete. */
  lemma PrefixIncomplete(c: Call, cut: nat)
    requires Fits(c) && cut < |Encode(c)|
    ensures Parse(Encode(c)[..cut]) == Incomplete
  {
    hide LengthBytes, ScanLength, BodyOf;
    var n := |BodyOf(c)|;
    var field, io := LengthBytes(n), Encode(c)[..cut];
    if 2 <= cut <= |field| {
      LengthCut(n, cut - 1, 0);
      assert io[1..] == field[..cut - 1];
    } else if cut > |field| {
      var got := BodyOf(c)[..cut - 1 - |field|];
      LengthRoundTrip(n, got, 0);
      assert io[1..] == field + got;
    }
  }

  // ------------------------------------------------------------------ more bytes do not change a verdict

  lemma {:induction false} ScanExtends(s: seq<byte>, more: seq<byte>, k: nat)
    requires k <= 4 && (ScanLength(s, k).TooLong? || !ScanLength(s, k).open)
    ensures ScanLength(s + more, k) == ScanLength(s, k)
    decreases |s|
  {
    if s[0] >= 128 && k < 4 {
      ScanExtends(s[1..], more, k + 1);
      assert (s + more)[1..] == s[1..] + more;
    }
  }

  lemma ParseExtends(s: seq<byte>, more: seq<byte>)
    requires !Parse(s).Incomplete?
    ensures Parse(s + more) == Parse(s)
  {
    hide ScanLength, Complete;
    var r := ScanLength(s[1..], 0);
    ScanExtends(s[1..], more, 0);
    assert (s + more)[1..] == s[1..] + more;
    if r.Length? {
      assert (s + more)[1 + r.bytes..1 + r.bytes + r.value] == s[1 + r.bytes..1 + r.bytes + r.value];
    }
  }

  // ------------------------------------------------------------------ receiving

  /** A connection: `recv_mbuf`, the messages handed to the user, and MG_F_CLOSE_IMMEDIATELY. */
  datatype Conn = Conn(recv: seq<byte>, events: seq<Message>, closed: bool)

  const FRESH := Conn([], [], false)

  /** The loop of `mqtt_handler` on a receive event; `limit` is `recv_mbuf_limit`. */
  function Drain(c: Conn, limit: nat): Conn
    decreases |c.recv|
  {
    match Parse(c.recv)
    case Incomplete => if limit > 0 && |c.recv| >= limit then c.(closed := true) else c
    case Malformed => c.(closed := true)
    case Negative => c.(closed := true)
    case Packet(message, len) => Drain(c.(recv := c.recv[len..], events := c.events + [message]), limit)
  }

  /** A receive event. A connection that is to be closed gets no more of them. */
  function Receive(c: Conn, segment: seq<byte>, limit: nat): Conn {
    var d := c.(recv := c.recv + segment);
    if c.closed then d else Drain(d, limit)
  }

  function ReceiveAll(c: Conn, segments: seq<seq<byte>>, limit: nat): Conn
    decreases segments
  {
    if segments == [] then c else ReceiveAll(Receive(c, segments[0], limit), segments[1..], limit)
  }

  lemma {:induction false} DrainExtends(c: Conn, more: seq<byte>)
    requires !c.closed
    ensures Drain(c.(recv := c.recv + more), 0) == Receive(Drain(c, 0), more, 0)
    decreases |c.recv|
  {
    hide Parse;
    var all := c.recv + more;
    match Parse(c.recv)
    case Incomplete =>
    case Malformed => ParseExtends(c.recv, more);
    case Negative => ParseExtends(c.recv, more);
    case Packet(message, len) =>
      ParseExtends(c.recv, more);
      assert all[len..] == c.recv[len..] + more;
      DrainExtends(c.(recv := c.recv[len..], events := c.events + [message]), more);
  }

  /** Without a buffer limit, how any bytes at all are cut into receive events makes no difference to
      what is delivered, what is left over and whether the connection is closed. */
  lemma {:induction false} CutsDoNotMatter(c: Conn, segments: seq<seq<byte>>)
    requires c.closed || Drain(c, 0) == c
    ensures ReceiveAll(c, segments, 0) == Receive(c, Concat(segments), 0)
    decreases segments
  {
    hide Parse, Drain;
    if segments == [] {
      assert c.recv + [] == c.recv;
    } else {
      var first, others := segments[0], Concat(segments[1..]);
      var d := c.(recv := c.recv + first);
      assert c.recv + (first + others) == d.recv + others;
      if !c.closed {
        DrainSettles(d, 0);
        DrainExtends(d, others);
      }
      CutsDoNotMatter(Receive(c, first, 0), segments[1..]);
    }
  }

  lemma {:induction false} DrainSettles(c: Conn, limit: nat)
    requires !c.closed
    ensures Drain(c, limit).closed || Drain(Drain(c, limit), limit) == Drain(c, limit)
    decreases |c.recv|
  {
    hide Parse;
    if Parse(c.recv).Packet? {
      DrainSettles(c.(recv := c.recv[Parse(c.recv).len..], events := c.events + [Parse(c.recv).message]), limit);
    }
  }

  // ------------------------------------------------------------------ a stream of packets

  function Stream(calls: seq<Call>): seq<byte> {
    if calls == [] then [] else Encode(calls[0]) + Stream(calls[1..])
  }

  function AllMeant(calls: seq<Call>): seq<Message> {
    if calls == [] then [] else [Meant(calls[0])] + AllMeant(calls[1..])
  }

  /** Packets that can be received with this buffer limit. */
  predicate Receivable(calls: seq<Call>, limit: nat) {
    forall i :: 0 <= i < |calls| ==> Fits(calls[i]) && (limit == 0 || |Encode(calls[i])| <= limit)
  }

  lemma FirstPacket(recv: seq<byte>, later: seq<byte>, calls: seq<Call>)
    requires calls != [] && Fits(calls[0]) && recv + later == Stream(calls)
    requires |recv| >= |Encode(calls[0])|
    ensures Parse(recv) == Packet(Meant(calls[0]), |Encode(calls[0])|)
    ensures recv[|Encode(calls[0])|..] + later == Stream(calls[1..])
  {
    hide Encode, Fits, Meant;
    var first := Encode(calls[0]);
    var rest := recv[|first|..];
    assert recv == first + rest by {
      assert (recv + later)[..|first|] == first == recv[..|first|];
    }
    assert (recv + later)[|first|..] == rest + later;
    PacketRead(calls[0], rest);
  }

  lemma PacketRead(c: Call, rest: seq<byte>)
    requires Fits(c)
    ensures Parse(Encode(c) + rest) == Packet(Meant(c), |Encode(c)|)
  {
    hide BodyOf, Meant;
    RoundTripIff(c, []);
    assert Encode(c) + [] == Encode(c);
    ParseExtends(Encode(c), rest);
  }

  /** Draining the first bytes of a stream delivers its first `k` packets and leaves less than one. */
  lemma {:induction false} DrainStream(c: Conn, later: seq<byte>, calls: seq<Call>, limit: nat) returns (k: nat)
    requires !c.closed && c.recv + later == Stream(calls) && Receivable(calls, limit)
    ensures k <= |calls| && !Drain(c, limit).closed
    ensures Drain(c, limit).events == c.events + AllMeant(calls[..k])
    ensures Drain(c, limit).recv + later == Stream(calls[k..])
    ensures k < |calls| ==> |Drain(c, limit).recv| < |Encode(calls[k])|
    decreases |calls|
  {
    hide Parse, Encode, Meant, Fits, Drain, Receivable;
    FirstReceivable(calls, limit);
    if calls != [] && |c.recv| >= |Encode(calls[0])| {
      FirstPacket(c.recv, later, calls);
      var n := |Encode(calls[0])|;
      var rest := calls[1..];
      DrainStep(c, limit);
      assert calls[1..] == rest;
      StillReceivable(calls, 1, limit);
      k := DrainStream(c.(recv := c.recv[n..], events := c.events + [Meant(calls[0])]), later, rest, limit);
      OneMore(c.events, calls, k);
      k := k + 1;
    } else {
      k := 0;
      StopsShort(c.recv, later, calls);
      DrainStep(c, limit);
      assert calls[0..] == calls && c.events + [] == c.events;
    }
  }

  lemma DrainStep(c: Conn, limit: nat)
    ensures var r := Parse(c.recv);
            && (r.Packet? ==>
                  Drain(c, limit) == Drain(c.(recv := c.recv[r.len..], events := c.events + [r.message]), limit))
            && (r.Incomplete? && (limit == 0 || |c.recv| < limit) ==> Drain(c, limit) == c)
  {
    hide Parse;
  }

  lemma OneMore(events: seq<Message>, calls: seq<Call>, k: nat)
    requires calls != [] && k < |calls|
    ensures events + [Meant(calls[0])] + AllMeant(calls[1..][..k]) == events + AllMeant(calls[..k + 1])
    ensures calls[k + 1..] == calls[1..][k..]
    ensures k + 1 < |calls| ==> calls[k + 1] == calls[1..][k]
  {
    hide Meant;
    assert calls[..k + 1][1..] == calls[1..][..k];
    assert AllMeant(calls[..k + 1]) == [Meant(calls[0])] + AllMeant(calls[1..][..k]);
  }

  lemma StopsShort(recv: seq<byte>, later: seq<byte>, calls: seq<Call>)
    requires recv + later == Stream(calls)
    requires calls != [] ==> Fits(calls[0]) && |recv| < |Encode(calls[0])|
    ensures Parse(recv) == Incomplete
  {
    hide Encode, Fits;
    if calls != [] {
      assert (recv + later)[..|recv|] == recv == Encode(calls[0])[..|recv|];
      PrefixIncomplete(calls[0], |recv|);
    }
  }

  lemma {:induction false} StreamFrom(c: Conn, calls: seq<Call>, segments: seq<seq<byte>>, limit: nat)
    requires !c.closed && c.recv + Concat(segments) == Stream(calls) && Receivable(calls, limit)
    requires calls != [] ==> |c.recv| < |Encode(calls[0])|
    ensures ReceiveAll(c, segments, limit) == Conn([], c.events + AllMeant(calls), false)
    decreases segments
  {
    hide Parse, Encode, Meant, Fits, Drain;
    if segments == [] {
      assert calls == [] && c.events + [] == c.events;
    } else {
      var first, later := segments[0], Concat(segments[1..]);
      var d := c.(recv := c.recv + first);
      assert d.recv + later == c.recv + (first + later);
      var k := DrainStream(d, later, calls, limit);
      StillReceivable(calls, k, limit);
      StreamFrom(Drain(d, limit), calls[k..], segments[1..], limit);
      MeantSplit(calls, k);
      Joined(c.events, AllMeant(calls[..k]), AllMeant(calls[k..]));
    }
  }

  lemma FirstReceivable(calls: seq<Call>, limit: nat)
    requires Receivable(calls, limit)
    ensures calls != [] ==> Fits(calls[0]) && (limit == 0 || |Encode(calls[0])| <= limit)
  {
  }

  lemma StillReceivable(calls: seq<Call>, k: nat, limit: nat)
    requires k <= |calls| && Receivable(calls, limit)
    ensures Receivable(calls[k..], limit)
  {
    hide Encode, Fits;
    forall i | 0 <= i < |calls[k..]|
      ensures Fits(calls[k..][i]) && (limit == 0 || |Encode(calls[k..][i])| <= limit)
    {
      assert calls[k..][i] == calls[k + i];
    }
  }

  lemma Joined(a: seq<Message>, b: seq<Message>, c: seq<Message>)
    ensures a + b + c == a + (b + c)
  {
  }

  lemma {:induction false} MeantSplit(calls: seq<Call>, k: nat)
    requires k <= |calls|
    ensures AllMeant(calls) == AllMeant(calls[..k]) + AllMeant(calls[k..])
  {
    hide Meant;
    if k > 0 {
      MeantSplit(calls[1..], k - 1);
      assert calls[..k][1..] == calls[1..][..k - 1] && calls[1..][k - 1..] == calls[k..];
    } else {
      assert calls[0..] == calls;
    }
  }

  /** Any packets `mg_mqtt_publish` can write, cut anywhere, are delivered as exactly the messages
      meant, with nothing left over and the connection still open. */
  lemma StreamDelivered(calls: seq<Call>, segments: seq<seq<byte>>, limit: nat)
    requires Concat(segments) == Stream(calls) && Receivable(calls, limit)
    ensures ReceiveAll(FRESH, segments, limit) == Conn([], AllMeant(calls), false)
  {
    hide Parse, Encode, Meant, Fits, Drain;
    assert [] + Concat(segments) == Stream(calls);
    StreamFrom(FRESH, calls, segments, limit);
    assert [] + AllMeant(calls) == AllMeant(calls);
  }

  /** The buffer limit: a packet of which so many bytes have come closes the connection exactly when they
      reach the limit before it is complete. */
  lemma LimitClosesIff(c: Call, cut: nat, limit: nat)
    requires Fits(c) && cut < |Encode(c)|
    ensures Receive(FRESH, Encode(c)[..cut], limit).closed <==> 0 < limit <= cut
  {
    hide Encode, Fits, Parse;
    PrefixIncomplete(c, cut);
    assert [] + Encode(c)[..cut] == Encode(c)[..cut];
  }
}
