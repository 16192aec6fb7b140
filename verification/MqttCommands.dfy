/** The other MQTT packets `src/mongoose.c` writes (MQTT 3.1.1, chapter 3), and that `parse_mqtt` reads them back. */
module MqttCommands {
  import opened Bytes
  import opened MqttModel

  // ------------------------------------------------------------------ strings

  /** A string with its length, which is kept in 16 bits. */
  function Str(s: seq<byte>): (r: seq<byte>)
    ensures |r| == 2 + |s| % 65536
  {
    U16Bytes(|s| % 65536) + s[..|s| % 65536]
  }

  predicate Short(s: seq<byte>) {
    |s| < 65536
  }

  /** The string as it is sent. */
  function Cut(s: seq<byte>): (r: seq<byte>)
    ensures |r| == |s| % 65536 && (Short(s) <==> r == s)
  {
    s[..|s| % 65536]
  }

  lemma StringRead(front: seq<byte>, s: seq<byte>, rest: seq<byte>)
    ensures StringAt(front + Str(s) + rest, true, Some(|front|)) == (Some(Cut(s)), Some(|front + Str(s)|))
  {
    var all := front + Str(s) + rest;
    U16RoundTrip(|s| % 65536, front, Cut(s) + rest);
    assert all == front + U16Bytes(|s| % 65536) + (Cut(s) + rest);
    assert all[|front| + 2..|front| + 2 + |s| % 65536] == Cut(s);
  }

  /** A string that is sent or left out. */
  function MaybeStr(s: Option<seq<byte>>): seq<byte> {
    if s.None? then [] else Str(s.value)
  }

  function MaybeCut(s: Option<seq<byte>>): Option<seq<byte>> {
    if s.None? then None else Some(Cut(s.value))
  }

  /** A string that is sent or left out is read where the packet holds it, and the rest is behind it. */
  lemma MaybeRead(s: seq<byte>, p: nat, x: Option<seq<byte>>, rest: seq<byte>)
    requires p <= |s| && s[p..] == MaybeStr(x) + rest
    ensures StringAt(s, x.Some?, Some(p)) == (MaybeCut(x), Some(p + |MaybeStr(x)|))
    ensures p + |MaybeStr(x)| <= |s| && s[p + |MaybeStr(x)|..] == rest
  {
    hide Str, Cut, StringAt;
    assert s == s[..p] + (MaybeStr(x) + rest) == s[..p] + MaybeStr(x) + rest;
    if x.Some? {
      StringRead(s[..p], x.value, rest);
    } else {
      NothingRead(s, p);
    }
  }

  lemma NothingRead(s: seq<byte>, p: nat)
    requires p <= |s|
    ensures StringAt(s, false, Some(p)) == (None, Some(p))
  {
  }

  // ------------------------------------------------------------------ CONNECT

  /** A call of `mg_send_mqtt_handshake_opt`. */
  datatype Handshake = Handshake(clientId: seq<byte>, flags: byte, keepAlive: U16,
                                 will: Option<(seq<byte>, seq<byte>)>, user: Option<seq<byte>>,
                                 password: Option<seq<byte>>)

  /** `flags |= 1 << bit`. */
  function WithBit(flags: byte, bit: nat, on: bool): (r: byte)
    requires bit < 8
  {
    if on && Bit(flags, bit) == 0 then
      Pow8();
      BitFits(flags, bit, 8);
      flags + Pow2(bit)
    else flags
  }

  lemma WithBitSets(flags: byte, bit: nat, on: bool, other: nat)
    requires bit < 8
    ensures HasBit(WithBit(flags, bit, on), other) == (HasBit(flags, other) || (on && other == bit))
  {
    BitValue(flags, bit);
    if on && Bit(flags, bit) == 0 {
      BitSet(flags, bit, other);
    }
  }

  lemma {:induction false} BitValue(a: nat, i: nat)
    ensures Bit(a, i) in {0, 1}
    decreases i
  {
    if i > 0 {
      BitValue(a / 2, i - 1);
    }
  }

  function SentFlags(h: Handshake): byte {
    WithBit(WithBit(WithBit(h.flags, HAS_USER, h.user.Some?), HAS_PASSWORD, h.password.Some?), HAS_WILL, h.will.Some?)
  }

  /** A caller who sets a flag himself also gives the user name or password; for the will this is not needed. */
  predicate CallOk(h: Handshake) {
    (HasBit(h.flags, HAS_USER) ==> h.user.Some?) && (HasBit(h.flags, HAS_PASSWORD) ==> h.password.Some?)
  }

  function SentKeepAlive(h: Handshake): U16 {
    if h.keepAlive == 0 then 60 else h.keepAlive
  }

  function WillTopic(h: Handshake): Option<seq<byte>> {
    if h.will.Some? then Some(h.will.value.0) else if HasBit(h.flags, HAS_WILL) then Some([]) else None
  }

  function WillMessage(h: Handshake): Option<seq<byte>> {
    if h.will.Some? then Some(h.will.value.1) else if HasBit(h.flags, HAS_WILL) then Some([]) else None
  }

  const MQTT_NAME: seq<byte> := [77, 81, 84, 84]

  /** The protocol name with its length, and the level. */
  const PROTOCOL: seq<byte> := [0, 4, 77, 81, 84, 84, 4]

  function ConnectBody(h: Handshake): seq<byte> {
    PROTOCOL + ([SentFlags(h)] + (U16Bytes(SentKeepAlive(h)) + (Str(h.clientId) + (MaybeStr(WillTopic(h))
    + (MaybeStr(WillMessage(h)) + (MaybeStr(h.user) + MaybeStr(h.password)))))))
  }

  function EncodeConnect(h: Handshake): seq<byte> {
    FixedHeader(CONNECT, 0, |ConnectBody(h)|) + ConnectBody(h)
  }

  /** What arrives, and what was meant: all strings whole. */
  function ConnectSent(h: Handshake): Message {
    Connect(0, MQTT_NAME, 4, SentFlags(h), SentKeepAlive(h), Cut(h.clientId), MaybeCut(WillTopic(h)),
            MaybeCut(WillMessage(h)), MaybeCut(h.user), MaybeCut(h.password))
  }

  function ConnectMeant(h: Handshake): Message {
    Connect(0, MQTT_NAME, 4, SentFlags(h), SentKeepAlive(h), h.clientId, WillTopic(h), WillMessage(h), h.user,
            h.password)
  }

  predicate AllShort(h: Handshake) {
    && Short(h.clientId) && (h.will.Some? ==> Short(h.will.value.0) && Short(h.will.value.1))
    && (h.user.Some? ==> Short(h.user.value)) && (h.password.Some? ==> Short(h.password.value))
  }

  /** The flags that say what is in the packet are right, and all others are the caller's. */
  lemma SentBits(h: Handshake, bit: nat)
    requires CallOk(h)
    ensures HasBit(SentFlags(h), bit) == if bit == HAS_WILL then WillTopic(h).Some?
                                         else if bit == HAS_USER then h.user.Some?
                                         else if bit == HAS_PASSWORD then h.password.Some?
                                         else HasBit(h.flags, bit)
  {
    hide HasBit, WithBit;
    var a := WithBit(h.flags, HAS_USER, h.user.Some?);
    var b := WithBit(a, HAS_PASSWORD, h.password.Some?);
    WithBitSets(h.flags, HAS_USER, h.user.Some?, bit);
    WithBitSets(a, HAS_PASSWORD, h.password.Some?, bit);
    WithBitSets(b, HAS_WILL, h.will.Some?, bit);
  }

  lemma ConnectRead(h: Handshake)
    requires CallOk(h)
    ensures ConnectOf(0, ConnectBody(h)) == Some(ConnectSent(h))
  {
    hide Str, Cut, StringAt, MaybeStr, MaybeCut, SentFlags, SentKeepAlive, HasBit, U16Bytes, ConnectBody;
    SentBits(h, HAS_WILL);
    SentBits(h, HAS_USER);
    SentBits(h, HAS_PASSWORD);
    var s := ConnectBody(h);
    var strings := ConnectStrings(h);
    HeadRead(h);
    var p := 10 + |Str(h.clientId)|;
    var q := p + |MaybeStr(WillTopic(h))|;
    var r := q + |MaybeStr(WillMessage(h))|;
    MaybeIs(h.clientId);
    MaybeRead(s, 10, Some(h.clientId), strings);
    MaybeRead(s, p, WillTopic(h), MaybeStr(WillMessage(h)) + (MaybeStr(h.user) + MaybeStr(h.password)));
    MaybeRead(s, q, WillMessage(h), MaybeStr(h.user) + MaybeStr(h.password));
    MaybeRead(s, r, h.user, MaybeStr(h.password));
    assert MaybeStr(h.password) + [] == MaybeStr(h.password);
    MaybeRead(s, r + |MaybeStr(h.user)|, h.password, []);
  }

  function ConnectStrings(h: Handshake): seq<byte> {
    MaybeStr(WillTopic(h)) + (MaybeStr(WillMessage(h)) + (MaybeStr(h.user) + MaybeStr(h.password)))
  }

  lemma MaybeIs(s: seq<byte>)
    ensures MaybeStr(Some(s)) == Str(s) && MaybeCut(Some(s)) == Some(Cut(s)) && |Str(s)| >= 2
  {
  }

  /** The first ten bytes: protocol name and level, flags and keep-alive time. */
  lemma HeadRead(h: Handshake)
    ensures var s := ConnectBody(h);
            && |s| >= 12 && s[6] == 4 && s[7] == SentFlags(h) && U16At(s, 8) == SentKeepAlive(h)
            && StringAt(s, true, Some(0)) == (Some(MQTT_NAME), Some(6))
            && s[10..] == Str(h.clientId) + ConnectStrings(h)
  {
    hide SentFlags, SentKeepAlive, MaybeStr, Str;
    var rest := Str(h.clientId) + ConnectStrings(h);
    var alive := U16Bytes(SentKeepAlive(h)) + rest;
    assert ConnectBody(h) == PROTOCOL + ([SentFlags(h)] + alive);
    ProtocolRead([SentFlags(h)] + alive);
    U16RoundTrip(SentKeepAlive(h), PROTOCOL + [SentFlags(h)], rest);
    assert ConnectBody(h) == PROTOCOL + [SentFlags(h)] + U16Bytes(SentKeepAlive(h)) + rest;
    MaybeIs(h.clientId);
  }

  lemma ProtocolRead(rest: seq<byte>)
    ensures StringAt(PROTOCOL + rest, true, Some(0)) == (Some(MQTT_NAME), Some(6))
    ensures (PROTOCOL + rest)[6] == 4
  {
    var s := PROTOCOL + rest;
    assert s[2..6] == MQTT_NAME;
  }

  lemma ConnectShort(h: Handshake)
    ensures |ConnectBody(h)| < Limit(0) && |EncodeConnect(h)| <= 0x7fff_ffff
  {
    hide Str, SentFlags;
    assert |MaybeStr(WillTopic(h))| < 65538 && |MaybeStr(WillMessage(h))| < 65538;
    FieldShort(|ConnectBody(h)|);
  }

  lemma {:induction false} FieldShort(n: nat)
    ensures |LengthBytes(n)| <= n + 1
    decreases n
  {
    if n >= 128 {
      FieldShort(n / 128);
    }
  }

  /** `parse_mqtt` undoes `mg_send_mqtt_handshake_opt` exactly when no string is 65536 bytes or longer. */
  lemma ConnectRoundTripIff(h: Handshake, rest: seq<byte>)
    requires CallOk(h)
    ensures Parse(EncodeConnect(h) + rest) == Packet(ConnectSent(h), |EncodeConnect(h)|)
    ensures Parse(EncodeConnect(h) + rest) == Packet(ConnectMeant(h), |EncodeConnect(h)|) <==> AllShort(h)
  {
    hide LengthBytes, ScanLength, ConnectOf, ConnectBody, SentFlags, SentKeepAlive, Cut;
    ConnectShort(h);
    ConnectRead(h);
    HeaderByte(CONNECT, 0);
    FixedHeaderRead(CONNECT, 0, ConnectBody(h), rest);
    AllShortIff(h);
  }

  lemma AllShortIff(h: Handshake)
    ensures ConnectSent(h) == ConnectMeant(h) <==> AllShort(h)
  {
    hide SentFlags, SentKeepAlive;
    assert Cut([]) == [];
  }

  // ------------------------------------------------------------------ SUBSCRIBE

  datatype Filter = Filter(topic: seq<byte>, qos: byte)

  function FilterBytes(filters: seq<Filter>): seq<byte> {
    if filters == [] then [] else Str(filters[0].topic) + [filters[0].qos] + FilterBytes(filters[1..])
  }

  /** The length the header promises: of the whole topics. */
  function FilterLength(filters: seq<Filter>): nat {
    if filters == [] then 0 else 2 + |filters[0].topic| + 1 + FilterLength(filters[1..])
  }

  /** `mg_mqtt_subscribe`. */
  function EncodeSubscribe(filters: seq<Filter>, id: U16): seq<byte> {
    FixedHeader(SUBSCRIBE, 2, 2 + FilterLength(filters)) + U16Bytes(id) + FilterBytes(filters)
  }

  /** `mg_mqtt_next_subscribe_topic`: the filter at `pos` and where the next one is. */
  function NextTopic(payload: seq<byte>, pos: nat): (r: Option<(Filter, nat)>)
    ensures r.Some? ==> pos < r.value.1 <= |payload|
  {
    if pos + 2 > |payload| || pos + 2 + U16At(payload, pos) + 1 > |payload| then None
    else
      var end := pos + 2 + U16At(payload, pos);
      Some((Filter(payload[pos + 2..end], payload[end]), end + 1))
  }

  /** All filters from `pos` on. */
  function Topics(payload: seq<byte>, pos: nat): seq<Filter>
    decreases |payload| - pos
  {
    match NextTopic(payload, pos)
    case None => []
    case Some(r) => [r.0] + Topics(payload, r.1)
  }

  predicate ShortTopics(filters: seq<Filter>) {
    forall f :: f in filters ==> Short(f.topic)
  }

  lemma {:induction false} LengthsAgreeIff(filters: seq<Filter>)
    ensures |FilterBytes(filters)| <= FilterLength(filters)
    ensures |FilterBytes(filters)| == FilterLength(filters) <==> ShortTopics(filters)
  {
    hide Str;
    if filters != [] {
      LengthsAgreeIff(filters[1..]);
      assert filters == [filters[0]] + filters[1..];
    }
  }

  lemma {:induction false} TopicsRead(front: seq<byte>, filters: seq<Filter>)
    requires ShortTopics(filters)
    ensures Topics(front + FilterBytes(filters), |front|) == filters
    decreases |filters|
  {
    hide Str, NextTopic;
    if filters != [] {
      var f, others := filters[0], filters[1..];
      var next := front + (Str(f.topic) + [f.qos]);
      assert f in filters && ShortTopics(others);
      OneTopic(front, f, FilterBytes(others));
      TopicsRead(next, others);
      Regroup(front, Str(f.topic) + [f.qos], FilterBytes(others));
      TopicsStep(next + FilterBytes(others), |front|);
      assert [f] + others == filters;
    }
  }

  lemma TopicsStep(payload: seq<byte>, pos: nat)
    ensures var r := NextTopic(payload, pos);
            Topics(payload, pos) == if r.None? then [] else [r.value.0] + Topics(payload, r.value.1)
  {
    hide NextTopic;
  }

  lemma OneTopic(front: seq<byte>, f: Filter, rest: seq<byte>)
    requires Short(f.topic)
    ensures NextTopic(front + (Str(f.topic) + [f.qos]) + rest, |front|)
         == Some((f, |front + (Str(f.topic) + [f.qos])|))
  {
    var n := |f.topic|;
    var all := front + (Str(f.topic) + [f.qos]) + rest;
    U16RoundTrip(n, front, f.topic + [f.qos] + rest);
    assert f.topic[..n] == f.topic;
    assert all == front + U16Bytes(n) + (f.topic + [f.qos] + rest);
    assert all[|front| + 2..|front| + 2 + n] == f.topic;
  }

  /** A subscription is read back, filter by filter, exactly when no topic is 65536 bytes or longer;
      otherwise the header promises more bytes than are sent, and the packet never completes. */
  lemma SubscribeRoundTripIff(filters: seq<Filter>, id: U16)
    requires FilterLength(filters) <= 0x7fff_0000
    ensures var io := EncodeSubscribe(filters, id);
            if ShortTopics(filters) then
              && Parse(io) == Packet(Subscribe(1, id, FilterBytes(filters)), |io|)
              && Topics(FilterBytes(filters), 0) == filters
            else Parse(io) == Incomplete
  {
    hide LengthBytes, ScanLength, FilterBytes, FilterLength, ShortTopics, Topics, U16Bytes;
    var n, body := 2 + FilterLength(filters), U16Bytes(id) + FilterBytes(filters);
    LengthsAgreeIff(filters);
    assert EncodeSubscribe(filters, id) == FixedHeader(SUBSCRIBE, 2, n) + body;
    if ShortTopics(filters) {
      SubscribeRead(FilterBytes(filters), id);
      TopicsRead([], filters);
      assert [] + FilterBytes(filters) == FilterBytes(filters);
    } else {
      TooLittle(SUBSCRIBE, 2, n, body);
    }
  }

  lemma SubscribeRead(payload: seq<byte>, id: U16)
    requires |payload| <= 0x7fff_0000
    ensures var io := FixedHeader(SUBSCRIBE, 2, 2 + |payload|) + (U16Bytes(id) + payload);
            Parse(io) == Packet(Subscribe(1, id, payload), |io|)
  {
    hide LengthBytes, ScanLength, U16Bytes;
    var body := U16Bytes(id) + payload;
    HeaderByte(SUBSCRIBE, 2);
    FixedHeaderRead(SUBSCRIBE, 2, body, []);
    assert FixedHeader(SUBSCRIBE, 2, |body|) + body + [] == FixedHeader(SUBSCRIBE, 2, |body|) + body;
    U16RoundTrip(id, [], payload);
    assert [] + U16Bytes(id) + payload == body && body[2..] == payload;
    FieldFits(|body|);
  }

  /** Fewer bytes than the header promises. */
  lemma TooLittle(cmd: Nibble, flags: Nibble, n: nat, body: seq<byte>)
    requires |body| < n < Limit(0)
    ensures Parse(FixedHeader(cmd, flags, n) + body) == Incomplete
  {
    hide LengthBytes, ScanLength;
    LengthRoundTrip(n, body, 0);
    assert (FixedHeader(cmd, flags, n) + body)[1..] == LengthBytes(n) + body;
  }

  function Pow128(k: nat): nat {
    if k == 0 then 1 else 128 * Pow128(k - 1)
  }

  lemma {:induction false} FieldAtMost(n: nat, k: nat)
    requires 0 < k && n < Pow128(k)
    ensures |LengthBytes(n)| <= k
    decreases k
  {
    if n >= 128 {
      FieldAtMost(n / 128, k - 1);
    }
  }

  lemma FieldFits(n: nat)
    requires n < Limit(0)
    ensures |LengthBytes(n)| <= 5
  {
    assert Pow128(3) == 2097152;
    FieldAtMost(n, 5);
  }

  // ------------------------------------------------------------------ packets of two bytes

  /** `mg_mqtt_connack`. */
  function EncodeConnack(code: byte): seq<byte> {
    FixedHeader(CONNACK, 0, 2) + [0, code]
  }

  lemma ConnackRead(code: byte, rest: seq<byte>)
    ensures Parse(EncodeConnack(code) + rest) == Packet(Connack(0, code), 4)
  {
    hide ScanLength;
    HeaderByte(CONNACK, 0);
    FixedHeaderRead(CONNACK, 0, [0, code], rest);
    assert LengthBytes(2) == [2];
  }

  /** `mg_send_mqtt_short_command`, as `mg_mqtt_puback` and its like call it. */
  function EncodeShort(cmd: Nibble, id: U16): seq<byte> {
    FixedHeader(cmd, if cmd == PUBREL then 2 else 0, 2) + U16Bytes(id)
  }

  /** The acknowledgements of a publication come back with their identifier; that of UNSUBACK is not read. */
  lemma ShortRead(cmd: Nibble, id: U16, rest: seq<byte>)
    requires cmd in {PUBACK, PUBREC, PUBREL, PUBCOMP, UNSUBACK}
    ensures Parse(EncodeShort(cmd, id) + rest)
         == Packet(if cmd == UNSUBACK then Other(cmd, 0) else Ack(cmd, if cmd == PUBREL then 1 else 0, Some(id)), 4)
  {
    hide ScanLength;
    var flags := if cmd == PUBREL then 2 else 0;
    HeaderByte(cmd, flags);
    FixedHeaderRead(cmd, flags, U16Bytes(id), rest);
    assert LengthBytes(2) == [2];
    U16RoundTrip(id, [], []);
    assert [] + U16Bytes(id) + [] == U16Bytes(id);
  }

  /** `mg_mqtt_suback`. */
  function EncodeSuback(codes: seq<byte>, id: U16): seq<byte> {
    FixedHeader(SUBACK, 2, 2 + |codes|) + (U16Bytes(id) + codes)
  }

  lemma SubackRead(codes: seq<byte>, id: U16, rest: seq<byte>)
    requires |codes| <= 0x7fff_0000
    ensures Parse(EncodeSuback(codes, id) + rest) == Packet(Ack(SUBACK, 1, Some(id)), |EncodeSuback(codes, id)|)
  {
    hide ScanLength, LengthBytes;
    HeaderByte(SUBACK, 2);
    FixedHeaderRead(SUBACK, 2, U16Bytes(id) + codes, rest);
    U16RoundTrip(id, [], codes);
    assert [] + U16Bytes(id) + codes == U16Bytes(id) + codes;
    FieldFits(2 + |codes|);
  }

  /** An acknowledgement too short for its identifier is accepted without one; the source takes the bytes
      behind the packet for it. */
  lemma ShortAckAccepted(rest: seq<byte>)
    ensures Parse([PUBACK * 16, 0] + rest) == Packet(Ack(PUBACK, 0, None), 2)
  {
    var io := [PUBACK * 16, 0] + rest;
    assert io[1..][0] == 0 && io[2..2] == [];
  }

  // ------------------------------------------------------------------ examples of MQTT 3.1.1

  /** Section 2.2.3: 321 is written as 193 and 2. Figure 3.11: a publication to `a/b` with identifier 10. */
  lemma StandardExamples(payload: seq<byte>)
    ensures LengthBytes(321) == [193, 2]
    ensures BodyOf(Call([97, 47, 98], 10, 2, payload)) == [0, 3, 97, 47, 98, 0, 10] + payload
    ensures EncodeConnack(0) == [0x20, 2, 0, 0]
    ensures EncodeShort(PUBACK, 0x1234) == [0x40, 2, 0x12, 0x34]
    ensures EncodeShort(PUBREC, 0x1234) == [0x50, 2, 0x12, 0x34]
    ensures EncodeShort(PUBREL, 0x1234) == [0x62, 2, 0x12, 0x34]
    ensures EncodeShort(PUBCOMP, 0x1234) == [0x70, 2, 0x12, 0x34]
    ensures EncodeShort(UNSUBACK, 0x1234) == [0xb0, 2, 0x12, 0x34]
    ensures EncodeSuback([0, 2], 10) == [0x92, 4, 0, 10, 0, 2]
    ensures EncodeSubscribe([Filter([97, 47, 98], 1)], 10) == [0x82, 8, 0, 10, 0, 3, 97, 47, 98, 1]
  {
    var topic: seq<byte> := [97, 47, 98];
    assert LengthBytes(2) == [2] && topic[..3] == topic;
    assert U16Bytes(3) + topic + U16Bytes(10) + payload == [0, 3, 97, 47, 98, 0, 10] + payload;
    assert LengthBytes(4) == [4] && LengthBytes(8) == [8];
    assert [Filter(topic, 1)][1..] == [];
  }

  /** Figure 3.6 and section 3.1.3: flags for everything but will retain, keep-alive time 10, then client
      identifier, will topic, will message, user name and password. */
  lemma ConnectExample()
    ensures var h := Handshake([99], 0x0a, 10, Some(([116], [109])), Some([117]), Some([112]));
            ConnectBody(h) == [0, 4, 77, 81, 84, 84, 4, 0xce, 0, 10,
                               0, 1, 99, 0, 1, 116, 0, 1, 109, 0, 1, 117, 0, 1, 112]
  {
    hide WithBit, Str, U16Bytes;
    FlagExample();
    TenIs();
    OneByte(99);
    OneByte(116);
    OneByte(109);
    OneByte(117);
    OneByte(112);
  }

  lemma TenIs()
    ensures U16Bytes(10) == [0, 10]
  {
  }

  lemma OneByte(c: byte)
    ensures Str([c]) == [0, 1, c]
  {
  }

  lemma FlagExample()
    ensures WithBit(WithBit(WithBit(0x0a, HAS_USER, true), HAS_PASSWORD, true), HAS_WILL, true) == 0xce
  {
    assert Bit(0x0a, 7) == 0 && Pow2(7) == 128;
    assert Bit(0x8a, 6) == 0 && Pow2(6) == 64;
    assert Bit(0xca, 2) == 0 && Pow2(2) == 4;
  }
}
