/** CoAP messages (RFC 7252, section 3) as `src/mongoose.c` composes and parses them. */
module CoapModel {
  import opened Bytes

  type u8 = x: int | 0 <= x < 0x100
  type u16 = x: int | 0 <= x < 0x1_0000
  type u32 = x: int | 0 <= x < 0x1_0000_0000

  datatype CoapOption = CoapOption(number: u32, value: seq<byte>)

  datatype Message = Message(
    msgType: u8,
    codeClass: u8,
    codeDetail: u8,
    msgId: u16,
    token: seq<byte>,
    options: seq<CoapOption>,
    payload: seq<byte>)

  const PAYLOAD_MARKER: byte := 0xFF
  const MAX_EXTENDED: int := 0xFFFF + 269

  // ------------------------------------------------------------------ composing

  datatype Field = TypeField | TokenField | ClassField | DetailField | IdField | OptionsField | PayloadField

  datatype Sized = Rejected(field: Field) | Size(bytes: nat)

  function ExtSize(v: nat): nat {
    if 13 <= v <= 0xFF + 13 then 1 else if 0xFF + 13 < v <= MAX_EXTENDED then 2 else 0
  }

  /** The first option in `opts` (after one numbered `prev`) that cannot be encoded spoils the message. */
  predicate OptionsOk(prev: nat, opts: seq<CoapOption>)
    requires opts != [] ==> prev <= opts[0].number
    decreases opts
  {
    opts == [] ||
    (&& (|opts| > 1 ==> opts[0].number <= opts[1].number)
     && |opts[0].value| <= MAX_EXTENDED
     && opts[0].number - prev <= MAX_EXTENDED
     && OptionsOk(opts[0].number, opts[1..]))
  }

  function OptionsSize(prev: nat, opts: seq<CoapOption>): nat
    requires (opts != [] ==> prev <= opts[0].number) && OptionsOk(prev, opts)
    decreases opts
  {
    if opts == [] then 0
    else
      1 + ExtSize(opts[0].number - prev) + ExtSize(|opts[0].value|) + |opts[0].value|
      + OptionsSize(opts[0].number, opts[1..])
  }

  /** `coap_calculate_packet_size`. */
  function PacketSize(m: Message): Sized {
    if m.msgType > 3 then Rejected(TypeField)
    else if |m.token| > 8 then Rejected(TokenField)
    else if m.codeClass > 7 then Rejected(ClassField)
    else if m.codeDetail > 31 then Rejected(DetailField)
    else if !OptionsOk(0, m.options) then Rejected(OptionsField)
    else Size(4 + |m.token| + (if m.payload == [] then 0 else |m.payload| + 1) + OptionsSize(0, m.options))
  }

  /** The 4-bit part of a delta or length. */
  function Base(v: nat): (b: nat)
    ensures b < 15
  {
    if v < 13 then v else if v <= 0xFF + 13 then 13 else if v <= MAX_EXTENDED then 14 else 0
  }

  /** The extension bytes behind it. */
  function Ext(v: nat): (e: seq<byte>)
    ensures |e| == ExtSize(v)
  {
    if 13 <= v <= 0xFF + 13 then [v - 13]
    else if 0xFF + 13 < v <= MAX_EXTENDED then [(v - 269) / 256, (v - 269) % 256]
    else []
  }

  function EncodeOption(delta: nat, value: seq<byte>): seq<byte> {
    [Base(delta) * 16 + Base(|value|)] + Ext(delta) + Ext(|value|) + value
  }

  function EncodeOptions(prev: nat, opts: seq<CoapOption>): (e: seq<byte>)
    requires (opts != [] ==> prev <= opts[0].number) && OptionsOk(prev, opts)
    ensures |e| == OptionsSize(prev, opts)
    decreases opts
  {
    if opts == [] then []
    else EncodeOption(opts[0].number - prev, opts[0].value) + EncodeOptions(opts[0].number, opts[1..])
  }

  function EncodePayload(p: seq<byte>): seq<byte> {
    if p == [] then [] else [PAYLOAD_MARKER] + p
  }

  function EncodeHeader(m: Message): seq<byte>
    requires m.msgType <= 3 && |m.token| <= 8 && m.codeClass <= 7 && m.codeDetail <= 31
  {
    [64 + m.msgType * 16 + |m.token|, m.codeClass * 32 + m.codeDetail, m.msgId / 256, m.msgId % 256]
  }

  /** The packet `mg_coap_compose` writes; its length is the precomputed one. */
  function Encode(m: Message): (e: seq<byte>)
    requires PacketSize(m).Size?
    ensures |e| == PacketSize(m).bytes
  {
    EncodeHeader(m) + m.token + EncodeOptions(0, m.options) + EncodePayload(m.payload)
  }

  // ------------------------------------------------------------------ parsing

  datatype Failure = NotEnoughData | Ignore | FormatError

  datatype Parsed = Failed(failure: Failure) | Ok(message: Message, fields: set<Field>)

  /** `coap_get_ext_opt`: the value a nibble stands for, as a 16-bit number, and the bytes it takes. */
  function GetExt(nibble: nat, d: seq<byte>): Option<(u16, nat)>
    requires nibble < 15
  {
    if nibble == 13 then
      if |d| > 0 then Some(((d[0] as int) + 13, 1)) else None
    else if nibble == 14 then
      if |d| > 1 then Some((((d[0] as int) * 256 + (d[1] as int) + 269) % 0x1_0000, 2)) else None
    else Some((nibble, 0))
  }

  /** `mg_coap_add_option`: appended when in order, otherwise put before the first larger number. */
  function AddOption(opts: seq<CoapOption>, o: CoapOption): seq<CoapOption> {
    if opts == [] || opts[|opts| - 1].number <= o.number then opts + [o] else InsertSorted(opts, o)
  }

  function InsertSorted(opts: seq<CoapOption>, o: CoapOption): seq<CoapOption> {
    if opts == [] then [o]
    else if opts[0].number > o.number then [o] + opts
    else [opts[0]] + InsertSorted(opts[1..], o)
  }

  lemma {:induction false} InsertAt(opts: seq<CoapOption>, o: CoapOption, i: nat)
    requires i <= |opts| && forall k :: 0 <= k < i ==> opts[k].number <= o.number
    requires i < |opts| ==> opts[i].number > o.number
    ensures InsertSorted(opts, o) == opts[..i] + [o] + opts[i..]
  {
    if i > 0 {
      InsertAt(opts[1..], o, i - 1);
      assert opts[..i] + [o] + opts[i..] == [opts[0]] + (opts[1..][..i - 1] + [o] + opts[1..][i - 1..]);
    } else if opts != [] {
      assert opts[..0] + [o] + opts[0..] == [o] + opts;
    }
  }

  predicate Sorted(opts: seq<CoapOption>) {
    forall i, j :: 0 <= i < j < |opts| ==> opts[i].number <= opts[j].number
  }

  /** In a sorted list the new option stands behind every option with the same or a smaller number and in
      front of every larger one; the list stays sorted and nothing else moves. */
  lemma AddKeepsOrder(opts: seq<CoapOption>, o: CoapOption)
    requires Sorted(opts)
    ensures Sorted(AddOption(opts, o))
    ensures exists k :: 0 <= k <= |opts| && AddOption(opts, o) == opts[..k] + [o] + opts[k..] && Between(opts, k, o)
  {
    var k := PlaceOf(opts, o);
    var r := opts[..k] + [o] + opts[k..];
    assert Between(opts, k, o);
    forall i, j | 0 <= i < j < |r|
      ensures r[i].number <= r[j].number
    {
      assert r[i] == (if i < k then opts[i] else if i == k then o else opts[i - 1]);
      assert r[j] == (if j < k then opts[j] else if j == k then o else opts[j - 1]);
    }
  }

  /** Everything before place `k` has at most the number of `o`, everything from it on a larger one. */
  predicate Between(opts: seq<CoapOption>, k: nat, o: CoapOption)
    requires k <= |opts|
  {
    && (forall i :: 0 <= i < k ==> opts[i].number <= o.number)
    && (forall i :: k <= i < |opts| ==> o.number < opts[i].number)
  }

  lemma PlaceOf(opts: seq<CoapOption>, o: CoapOption) returns (k: nat)
    requires Sorted(opts)
    ensures k <= |opts| && AddOption(opts, o) == opts[..k] + [o] + opts[k..] && Between(opts, k, o)
  {
    if opts == [] || opts[|opts| - 1].number <= o.number {
      k := |opts|;
      assert opts[..k] + [o] + opts[k..] == opts + [o];
    } else {
      k := 0;
      while k < |opts| && opts[k].number <= o.number
        invariant k <= |opts| && forall i :: 0 <= i < k ==> opts[i].number <= o.number
      {
        k := k + 1;
      }
      InsertAt(opts, o, k);
    }
  }

  /** One option at the front of `d`: its number delta, its value and the bytes it takes. */
  datatype OptionRead = OptionFailed(failure: Failure) | OptionRead(delta: u16, value: seq<byte>, used: nat)

  function ReadOption(d: seq<byte>): (r: OptionRead)
    requires d != []
    ensures r.OptionRead? ==> 0 < r.used <= |d| && |r.value| < 0x1_0000
  {
    var deltaNibble, lenNibble := d[0] / 16, d[0] % 16;
    if deltaNibble == 15 || lenNibble == 15 then OptionFailed(FormatError)
    else
      match GetExt(deltaNibble, d[1..])
      case None => OptionFailed(NotEnoughData)
      case Some((delta, n)) =>
        match GetExt(lenNibble, d[1 + n..])
        case None => OptionFailed(NotEnoughData)
        case Some((len, k)) =>
          if 1 + n + k + len > |d| then OptionFailed(NotEnoughData)
          else OptionRead(delta, d[1 + n + k..1 + n + k + len], 1 + n + k + len)
  }

  datatype OptionsRead = OptionsFailed(failure: Failure) | OptionsRead(options: seq<CoapOption>, rest: seq<byte>)

  /** The loop of `coap_get_options`; numbers accumulate in 16 bits. */
  function ReadOptions(d: seq<byte>, prev: u16, opts: seq<CoapOption>): OptionsRead
    decreases |d|
  {
    if d == [] || d[0] == PAYLOAD_MARKER then OptionsRead(opts, d)
    else
      match ReadOption(d)
      case OptionFailed(f) => OptionsFailed(f)
      case OptionRead(delta, value, used) =>
        var number := (delta + prev) % 0x1_0000;
        ReadOptions(d[used..], number, AddOption(opts, CoapOption(number, value)))
  }

  /** `mg_coap_parse` on a packet. */
  function Parse(d: seq<byte>): Parsed {
    if |d| < 4 then Failed(NotEnoughData)
    else if d[0] / 64 != 1 then Failed(Ignore)
    else
      var tokenLen := d[0] % 16;
      if tokenLen > 8 then Failed(FormatError)
      else if 4 + tokenLen > |d| then Failed(NotEnoughData)
      else
        var head := Message((d[0] / 16) % 4, d[1] / 32, d[1] % 32, (d[2] as int) * 256 + (d[3] as int),
                            d[4..4 + tokenLen], [], []);
        var fields := {TypeField, ClassField, DetailField, IdField} + if tokenLen == 0 then {} else {TokenField};
        var body := d[4 + tokenLen..];
        if body == [] then Ok(head, fields)
        else
          match ReadOptions(body, 0, [])
          case OptionsFailed(f) => Failed(f)
          case OptionsRead(options, rest) =>
            var m := head.(options := options);
            if |rest| <= 1 then Ok(m, fields + {OptionsField})
            else Ok(m.(payload := rest[1..]), fields + {OptionsField, PayloadField})
  }

  // ------------------------------------------------------------------ the round trip

  /** Numbers and lengths that survive the parser's 16-bit arithmetic. */
  predicate Narrow(opts: seq<CoapOption>) {
    forall o :: o in opts ==> o.number < 0x1_0000 && |o.value| < 0x1_0000
  }

  lemma ExtInverse(v: nat, rest: seq<byte>)
    requires v <= MAX_EXTENDED
    ensures GetExt(Base(v), Ext(v) + rest) == Some((v % 0x1_0000, ExtSize(v)))
    ensures (Ext(v) + rest)[ExtSize(v)..] == rest
  {
  }

  lemma Nibbles(a: nat, b: nat)
    requires a < 15 && b < 15
    ensures (a * 16 + b) / 16 == a && (a * 16 + b) % 16 == b && a * 16 + b != PAYLOAD_MARKER
  {
  }

  /** The parts of an option in front of any bytes, each with all that follows it. */
  lemma OptionParts(delta: nat, value: seq<byte>, rest: seq<byte>)
    ensures var d, n, k := EncodeOption(delta, value) + rest, ExtSize(delta), ExtSize(|value|);
            && |EncodeOption(delta, value)| == 1 + n + k + |value|
            && d[0] == Base(delta) * 16 + Base(|value|)
            && d[1..] == Ext(delta) + (Ext(|value|) + (value + rest))
            && d[1 + n..] == Ext(|value|) + (value + rest)
            && d[1 + n + k..] == value + rest && d[1 + n + k + |value|..] == rest
  {
    hide Ext, Base, ExtSize;
    var a, b := Ext(delta), Ext(|value|);
    var d := EncodeOption(delta, value) + rest;
    assert d[1..] == a + (b + (value + rest));
    assert d[1 + |a|..] == b + (value + rest);
    assert d[1 + |a| + |b|..] == value + rest;
  }

  lemma ReadEncodedOption(delta: nat, value: seq<byte>, rest: seq<byte>)
    requires delta <= MAX_EXTENDED && |value| < 0x1_0000
    ensures var d := EncodeOption(delta, value) + rest;
            && d[0] != PAYLOAD_MARKER
            && ReadOption(d) == OptionRead(delta % 0x1_0000, value, |EncodeOption(delta, value)|)
            && d[|EncodeOption(delta, value)|..] == rest
  {
    hide GetExt, Ext, Base, ExtSize, EncodeOption;
    var d, at := EncodeOption(delta, value) + rest, 1 + ExtSize(delta) + ExtSize(|value|);
    OptionParts(delta, value, rest);
    Nibbles(Base(delta), Base(|value|));
    ExtInverse(delta, Ext(|value|) + (value + rest));
    ExtInverse(|value|, value + rest);
    assert d[at..at + |value|] == d[at..][..|value|] == value;
  }

  lemma {:induction false} ReadEncodedOptions(prev: u16, opts: seq<CoapOption>, before: seq<CoapOption>,
                                              rest: seq<byte>)
    requires (opts != [] ==> prev <= opts[0].number) && OptionsOk(prev, opts) && Narrow(opts)
    requires before != [] ==> before[|before| - 1].number == prev
    requires rest == [] || rest[0] == PAYLOAD_MARKER
    ensures ReadOptions(EncodeOptions(prev, opts) + rest, prev, before) == OptionsRead(before + opts, rest)
    decreases opts
  {
    hide ReadOption, ReadOptions, EncodeOption, EncodeOptions, OptionsOk, Narrow;
    if opts == [] {
      assert before + opts == before;
      NoOptions(prev, before, rest);
    } else {
      OptionsOkStep(prev, opts);
      var o := opts[0];
      var tail := EncodeOptions(o.number, opts[1..]) + rest;
      EncodeStep(prev, opts, rest);
      ReadEncodedOption(o.number - prev, o.value, tail);
      ReadStep(EncodeOptions(prev, opts) + rest, prev, before);
      ReadEncodedOptions(o.number, opts[1..], before + [o], rest);
      assert before + [o] + opts[1..] == before + opts;
    }
  }

  lemma NoOptions(prev: u16, before: seq<CoapOption>, rest: seq<byte>)
    requires rest == [] || rest[0] == PAYLOAD_MARKER
    ensures ReadOptions(EncodeOptions(prev, []) + rest, prev, before) == OptionsRead(before, rest)
  {
    assert [] + rest == rest;
  }

  lemma EncodeStep(prev: nat, opts: seq<CoapOption>, rest: seq<byte>)
    requires opts != [] && prev <= opts[0].number && OptionsOk(prev, opts)
    ensures EncodeOptions(prev, opts) + rest
         == EncodeOption(opts[0].number - prev, opts[0].value) + (EncodeOptions(opts[0].number, opts[1..]) + rest)
  {
    hide EncodeOption;
  }

  lemma ReadStep(d: seq<byte>, prev: u16, opts: seq<CoapOption>)
    requires d != [] && d[0] != PAYLOAD_MARKER && ReadOption(d).OptionRead?
    ensures var r := ReadOption(d);
            var number := (r.delta + prev) % 0x1_0000;
            ReadOptions(d, prev, opts) == ReadOptions(d[r.used..], number, AddOption(opts, CoapOption(number, r.value)))
  {
    hide ReadOption, AddOption;
  }

  lemma OptionsOkStep(prev: u16, opts: seq<CoapOption>)
    requires opts != [] && prev <= opts[0].number && OptionsOk(prev, opts) && Narrow(opts)
    ensures opts[0].number - prev <= MAX_EXTENDED && opts[0].number < 0x1_0000 && |opts[0].value| < 0x1_0000
    ensures (opts[1..] != [] ==> opts[0].number <= opts[1..][0].number) && OptionsOk(opts[0].number, opts[1..])
    ensures Narrow(opts[1..])
  {
    assert opts[0] in opts && forall o :: o in opts[1..] ==> o in opts;
  }

  /** The fields `mg_coap_parse` reports for a message. */
  function Fields(m: Message): set<Field> {
    {TypeField, ClassField, DetailField, IdField}
    + (if m.token == [] then {} else {TokenField})
    + (if m.options == [] && m.payload == [] then {} else {OptionsField})
    + (if m.payload == [] then {} else {PayloadField})
  }

  lemma HeadOfEncoded(m: Message, body: seq<byte>)
    requires m.msgType <= 3 && |m.token| <= 8 && m.codeClass <= 7 && m.codeDetail <= 31
    ensures var d := EncodeHeader(m) + m.token + body;
            && |d| >= 4 + |m.token|
            && d[0] / 64 == 1 && d[0] % 16 == |m.token| && (d[0] / 16) % 4 == m.msgType
            && d[1] / 32 == m.codeClass && d[1] % 32 == m.codeDetail && (d[2] as int) * 256 + (d[3] as int) == m.msgId
            && d[4..4 + |m.token|] == m.token && d[4 + |m.token|..] == body
  {
    var h := EncodeHeader(m);
    var d := h + m.token + body;
    assert d[0] == h[0] && d[1] == h[1] && d[2] == h[2] && d[3] == h[3];
  }

  lemma ParseComposed(m: Message)
    requires PacketSize(m).Size? && Narrow(m.options)
    ensures Parse(Encode(m)) == Ok(m, Fields(m))
  {
    hide Parse, EncodeOptions, ReadOptions, OptionsOk, Narrow, EncodeHeader;
    var body := EncodeOptions(0, m.options) + EncodePayload(m.payload);
    ParseHead(m, body);
    assert Encode(m) == EncodeHeader(m) + m.token + body;
    ReadEncodedOptions(0, m.options, [], EncodePayload(m.payload));
    assert [] + m.options == m.options;
    EmptyOptions(m.options);
  }

  /** Parsing a packet with the header and token of `m` in front of `body`. */
  lemma ParseHead(m: Message, body: seq<byte>)
    requires m.msgType <= 3 && |m.token| <= 8 && m.codeClass <= 7 && m.codeDetail <= 31
    ensures Parse(EncodeHeader(m) + m.token + body)
         == var head := m.(options := [], payload := []);
            var fields := {TypeField, ClassField, DetailField, IdField} + if m.token == [] then {} else {TokenField};
            if body == [] then Ok(head, fields)
            else
              match ReadOptions(body, 0, [])
              case OptionsFailed(f) => Failed(f)
              case OptionsRead(options, rest) =>
                if |rest| <= 1 then Ok(head.(options := options), fields + {OptionsField})
                else Ok(head.(options := options, payload := rest[1..]), fields + {OptionsField, PayloadField})
  {
    hide ReadOptions, EncodeHeader;
    HeadOfEncoded(m, body);
  }

  lemma EmptyOptions(opts: seq<CoapOption>)
    requires (opts != [] ==> 0 <= opts[0].number) && OptionsOk(0, opts)
    ensures EncodeOptions(0, opts) == [] <==> opts == []
  {
  }

  lemma {:induction false} InsertNarrow(opts: seq<CoapOption>, o: CoapOption)
    requires Narrow(opts) && o.number < 0x1_0000 && |o.value| < 0x1_0000
    ensures Narrow(InsertSorted(opts, o))
  {
    if opts != [] && opts[0].number <= o.number {
      assert opts[0] in opts && forall p :: p in opts[1..] ==> p in opts;
      InsertNarrow(opts[1..], o);
    }
  }

  lemma AddNarrow(opts: seq<CoapOption>, o: CoapOption)
    requires Narrow(opts) && o.number < 0x1_0000 && |o.value| < 0x1_0000
    ensures Narrow(AddOption(opts, o))
  {
    InsertNarrow(opts, o);
  }

  /** Whatever the bytes, the parser never reports an option number or length of more than 16 bits. */
  lemma {:induction false} ReadOptionsNarrow(d: seq<byte>, prev: u16, opts: seq<CoapOption>)
    requires Narrow(opts)
    ensures ReadOptions(d, prev, opts).OptionsRead? ==> Narrow(ReadOptions(d, prev, opts).options)
    decreases |d|
  {
    hide ReadOption, AddOption;
    if d != [] && d[0] != PAYLOAD_MARKER {
      match ReadOption(d)
      case OptionFailed(_) =>
      case OptionRead(delta, value, used) =>
        var number := (delta + prev) % 0x1_0000;
        AddNarrow(opts, CoapOption(number, value));
        ReadOptionsNarrow(d[used..], number, AddOption(opts, CoapOption(number, value)));
    }
  }

  /**
   * Every message that composes comes back from the parser exactly when all its option numbers and
   * value lengths fit 16 bits. The composer accepts up to 65804, of which the parser loses the top.
   */
  lemma RoundTripIff(m: Message)
    requires PacketSize(m).Size?
    ensures Parse(Encode(m)) == Ok(m, Fields(m)) <==> Narrow(m.options)
  {
    hide ReadOptions, Encode, Narrow;
    if Narrow(m.options) {
      ParseComposed(m);
    }
    if Parse(Encode(m)).Ok? {
      ParsedNarrow(Encode(m));
    }
  }

  lemma ParsedNarrow(d: seq<byte>)
    ensures Parse(d).Ok? ==> Narrow(Parse(d).message.options)
  {
    hide ReadOptions;
    if |d| >= 4 && 4 + d[0] % 16 <= |d| {
      ReadOptionsNarrow(d[4 + d[0] % 16..], 0, []);
    }
  }

  /** The parser keeps the options sorted, in whatever order their numbers wrap. */
  lemma {:induction false} ReadOptionsSorted(d: seq<byte>, prev: u16, opts: seq<CoapOption>)
    requires Sorted(opts)
    ensures ReadOptions(d, prev, opts).OptionsRead? ==> Sorted(ReadOptions(d, prev, opts).options)
    decreases |d|
  {
    hide ReadOption, AddOption, Sorted;
    if d != [] && d[0] != PAYLOAD_MARKER {
      match ReadOption(d)
      case OptionFailed(_) =>
      case OptionRead(delta, value, used) =>
        var number := (delta + prev) % 0x1_0000;
        AddKeepsOrder(opts, CoapOption(number, value));
        ReadOptionsSorted(d[used..], number, AddOption(opts, CoapOption(number, value)));
    }
  }

  lemma {:induction false} SortedOk(prev: nat, opts: seq<CoapOption>)
    requires Sorted(opts) && Narrow(opts) && (opts != [] ==> prev <= opts[0].number)
    ensures OptionsOk(prev, opts)
    decreases opts
  {
    if opts != [] {
      assert opts[0] in opts && forall o :: o in opts[1..] ==> o in opts;
      assert forall i :: 0 <= i < |opts| - 1 ==> opts[1..][i] == opts[i + 1];
      SortedOk(opts[0].number, opts[1..]);
    }
  }

  lemma ParsedFields(d: seq<byte>)
    requires Parse(d).Ok?
    ensures var m := Parse(d).message;
            && m.msgType <= 3 && |m.token| <= 8 && m.codeClass <= 7 && m.codeDetail <= 31
            && Sorted(m.options) && Narrow(m.options)
  {
    hide ReadOptions;
    ReadOptionsSorted(d[4 + d[0] % 16..], 0, []);
    ReadOptionsNarrow(d[4 + d[0] % 16..], 0, []);
  }

  /** Whatever packet the parser accepts, the message it reads composes, and comes back from the parser. */
  lemma ParsedComposes(d: seq<byte>)
    requires Parse(d).Ok?
    ensures var m := Parse(d).message; PacketSize(m).Size? && Parse(Encode(m)) == Ok(m, Fields(m))
  {
    hide Parse, Narrow, Sorted, OptionsOk;
    ParsedFields(d);
    SortedOk(0, Parse(d).message.options);
    ParseComposed(Parse(d).message);
  }

  /** The example of RFC 7252, appendix A: a confirmable GET of `/temperature`, and its answer `22.3 C`. */
  lemma StandardExample()
    ensures var path: seq<byte> := [0x74, 0x65, 0x6d, 0x70, 0x65, 0x72, 0x61, 0x74, 0x75, 0x72, 0x65];
            var text: seq<byte> := [0x32, 0x32, 0x2e, 0x33, 0x20, 0x43];
            var get := Message(0, 0, 1, 0x7d34, [], [CoapOption(11, path)], []);
            var content := Message(2, 2, 5, 0x7d34, [], [], text);
            && PacketSize(get) == Size(16) && Encode(get) == [0x40, 0x01, 0x7d, 0x34, 0xbb] + path
            && PacketSize(content) == Size(11) && Encode(content) == [0x60, 0x45, 0x7d, 0x34, 0xff] + text
  {
    var path: seq<byte> := [0x74, 0x65, 0x6d, 0x70, 0x65, 0x72, 0x61, 0x74, 0x75, 0x72, 0x65];
    assert [CoapOption(11, path)][1..] == [];
    assert EncodeOptions(0, [CoapOption(11, path)]) == [0xbb] + path;
  }

  /** Options 60 and 300 apart, with extended deltas of one and of two bytes. */
  lemma ExtendedExamples(value: seq<byte>)
    requires |value| == 20
    ensures EncodeOption(60, value) == [0xdd, 47, 7] + value
    ensures EncodeOption(300, value) == [0xed, 0, 31, 7] + value
  {
  }

  /** A payload marker with nothing behind it is accepted as no payload, where RFC 7252, section 3, calls for a
      format error. */
  lemma MarkerAloneAccepted()
    ensures Parse([0x40, 1, 0, 7, 0xff])
         == Ok(Message(0, 0, 1, 7, [], [], []), {TypeField, ClassField, DetailField, IdField, OptionsField})
  {
    var d: seq<byte> := [0x40, 1, 0, 7, 0xff];
    assert d[4..] == [0xff] && d[4..4] == [];
  }

  /** A message the composer accepts and the parser reads differently: option 65536. */
  lemma WideOptionLost()
    ensures var m := Message(0, 0, 1, 7, [], [CoapOption(65536, [])], []);
            && PacketSize(m) == Size(7)
            && Parse(Encode(m)) == Ok(m.(options := [CoapOption(0, [])]), Fields(m))
  {
    hide ReadOptions, ReadOption;
    var m := Message(0, 0, 1, 7, [], [CoapOption(65536, [])], []);
    assert m.options[1..] == [];
    var d := [224, 254, 243];
    assert EncodeOption(65536, []) == d;
    assert Encode(m) == EncodeHeader(m) + m.token + d;
    ParseHead(m, d);
    WideOptionRead();
  }

  lemma WideOptionRead()
    ensures ReadOptions([224, 254, 243], 0, []) == OptionsRead([CoapOption(0, [])], [])
  {
    hide ReadOption;
    var d: seq<byte> := [224, 254, 243];
    WideOptionNibbles();
    ReadStep(d, 0, []);
    assert d[3..] == [];
  }

  lemma WideOptionNibbles()
    ensures ReadOption([224, 254, 243]) == OptionRead(0, [], 3)
  {
    var d: seq<byte> := [224, 254, 243];
    assert d[1..] == [254, 243];
  }
}
