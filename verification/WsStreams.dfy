/**
 * Well-formed message streams (RFC 6455, section 5.4): messages in any number of fragments, control
 * frames between them, are delivered exactly as sent, however the bytes are cut on the way.
 */
module WsStreams {
  import opened Bytes
  import opened WsFrames
  import opened WsModel

  datatype ControlOp = CloseOp | PingOp | PongOp
  datatype DataOp = TextOp | BinaryOp

  /** A control frame. */
  datatype Control = Control(op: ControlOp, key: Option<MaskKey>, payload: Sized)

  /** One fragment of a message, and the control frames sent just before it. */
  datatype Part = Part(before: seq<Control>, key: Option<MaskKey>, payload: Sized)

  /** A message, cut into a first part and any number of others, or control frames on their own. */
  datatype Item =
    | Data(op: DataOp, head: Part, tail: seq<Part>)
    | Controls(controls: seq<Control>)

  function ControlCode(op: ControlOp): int {
    match op case CloseOp => OP_CLOSE case PingOp => OP_PING case PongOp => OP_PONG
  }

  function DataCode(op: DataOp): int {
    match op case TextOp => OP_TEXT case BinaryOp => OP_BINARY
  }

  // ------------------------------------------------------------------ on the wire

  function ControlFrame(k: Control): Frame {
    Frame(true, ControlCode(k.op), k.key, k.payload)
  }

  function EncodeControls(ks: seq<Control>): seq<byte> {
    if ks == [] then [] else Encode(ControlFrame(ks[0])) + EncodeControls(ks[1..])
  }

  /** A part as a frame: `code` is the opcode of the message in the first part and 0 in the others,
      and the last part carries the FIN bit. */
  function EncodePart(p: Part, code: Nibble, last: bool): seq<byte> {
    EncodeControls(p.before) + Encode(Frame(last, code, p.key, p.payload))
  }

  function EncodeTail(parts: seq<Part>): seq<byte> {
    if parts == [] then [] else EncodePart(parts[0], OP_CONTINUE, |parts| == 1) + EncodeTail(parts[1..])
  }

  function EncodeItem(m: Item): seq<byte> {
    match m
    case Data(op, head, tail) => EncodePart(head, DataCode(op), tail == []) + EncodeTail(tail)
    case Controls(ks) => EncodeControls(ks)
  }

  function EncodeItems(items: seq<Item>): seq<byte> {
    if items == [] then [] else EncodeItem(items[0]) + EncodeItems(items[1..])
  }

  // ------------------------------------------------------------------ what the user is meant to see

  /** What a run of items amounts to: messages and control frames for the user, answers for the peer. */
  datatype Outcome = Outcome(events: seq<Event>, replies: seq<Reply>)

  function Plus(a: Outcome, b: Outcome): Outcome {
    Outcome(a.events + b.events, a.replies + b.replies)
  }

  function ControlOutcome(k: Control): Outcome {
    Outcome([Message(FIN + ControlCode(k.op), k.payload)],
            match k.op case PingOp => [Pong(k.payload)] case CloseOp => [Close(k.payload)] case PongOp => [])
  }

  function ControlsOutcome(ks: seq<Control>): Outcome {
    if ks == [] then Outcome([], []) else Plus(ControlOutcome(ks[0]), ControlsOutcome(ks[1..]))
  }

  /** The control frames sent inside the rest of a message. */
  function Inside(parts: seq<Part>): Outcome {
    if parts == [] then Outcome([], []) else Plus(ControlsOutcome(parts[0].before), Inside(parts[1..]))
  }

  function Body(parts: seq<Part>): seq<byte> {
    if parts == [] then [] else parts[0].payload + Body(parts[1..])
  }

  /** The control frames of an item, then, for a message, the whole of it with the FIN bit set. */
  function ItemOutcome(m: Item): Outcome {
    match m
    case Controls(ks) => ControlsOutcome(ks)
    case Data(op, head, tail) =>
      Plus(Plus(ControlsOutcome(head.before), Inside(tail)),
           Outcome([Message(FIN + DataCode(op), head.payload + Body(tail))], []))
  }

  function ItemsOutcome(items: seq<Item>): Outcome {
    if items == [] then Outcome([], []) else Plus(ItemOutcome(items[0]), ItemsOutcome(items[1..]))
  }

  lemma PlusAssociative(a: Outcome, b: Outcome, c: Outcome)
    ensures Plus(Plus(a, b), c) == Plus(a, Plus(b, c))
  {
  }

  // ------------------------------------------------------------------ delivery

  /** The connection after `o` has been delivered and `rest` is left. */
  function Advanced(c: Conn, o: Outcome, partial: seq<byte>, rest: seq<byte>): Conn {
    Conn(partial, rest, c.events + o.events, c.replies + o.replies, c.errors)
  }

  lemma AdvancedTwice(c: Conn, a: Outcome, p: seq<byte>, r: seq<byte>, b: Outcome, q: seq<byte>, s: seq<byte>)
    ensures Advanced(Advanced(c, a, p, r), b, q, s) == Advanced(c, Plus(a, b), q, s)
  {
  }

  /** A frame at the front of the pending bytes is accepted when its first byte is legal there. */
  lemma DrainFrame(c: Conn, f: Frame, rest: seq<byte>)
    requires c.pending == Encode(f) + rest
    requires !Illegal(c.(pending := [FirstByte(f)]), false)
    ensures Drain(c, false) == Drain(Accept(c, FirstByte(f), f.payload, rest, false), false)
  {
    hide ReadHeader, Accept, Encode;
    HeaderOfEncoded(f, rest);
  }

  lemma FirstByteParts(f: Frame)
    ensures OpOf(FirstByte(f)) == f.op && IsFinal(FirstByte(f)) == f.fin
  {
  }

  lemma DrainControl(c: Conn, k: Control, rest: seq<byte>)
    requires c.pending == Encode(ControlFrame(k)) + rest
    ensures Drain(c, false) == Drain(Advanced(c, ControlOutcome(k), c.partial, rest), false)
  {
    hide Encode, Drain;
    FirstByteParts(ControlFrame(k));
    DrainFrame(c, ControlFrame(k), rest);
  }

  lemma {:induction false} DrainControls(c: Conn, ks: seq<Control>, rest: seq<byte>)
    requires c.pending == EncodeControls(ks) + rest
    ensures Drain(c, false) == Drain(Advanced(c, ControlsOutcome(ks), c.partial, rest), false)
    decreases ks
  {
    hide Encode, Drain, ControlOutcome;
    if ks == [] {
      assert c == Advanced(c, Outcome([], []), c.partial, rest);
    } else {
      var rest' := EncodeControls(ks[1..]) + rest;
      assert c.pending == Encode(ControlFrame(ks[0])) + rest';
      DrainControl(c, ks[0], rest');
      var d := Advanced(c, ControlOutcome(ks[0]), c.partial, rest');
      DrainControls(d, ks[1..], rest);
      AdvancedTwice(c, ControlOutcome(ks[0]), c.partial, rest', ControlsOutcome(ks[1..]), c.partial, rest);
    }
  }

  /** One part in the middle or at the end of a message joins what is already reassembled. */
  lemma DrainPart(c: Conn, p: Part, last: bool, op: DataOp, rest: seq<byte>)
    requires c.partial != [] && c.partial[0] == DataCode(op)
    requires c.pending == EncodePart(p, OP_CONTINUE, last) + rest
    ensures Drain(c, false)
         == Drain(if last then
                    Advanced(c, Plus(ControlsOutcome(p.before),
                      Outcome([Message(FIN + DataCode(op), c.partial[1..] + p.payload)], [])), [], rest)
                  else Advanced(c, ControlsOutcome(p.before), c.partial + p.payload, rest), false)
  {
    hide Encode, Drain;
    var f := Frame(last, OP_CONTINUE, p.key, p.payload);
    assert c.pending == EncodeControls(p.before) + (Encode(f) + rest);
    DrainControls(c, p.before, Encode(f) + rest);
    var d := Advanced(c, ControlsOutcome(p.before), c.partial, Encode(f) + rest);
    FirstByteParts(f);
    DrainFrame(d, f, rest);
    if last {
      var whole := Outcome([Message(FIN + DataCode(op), c.partial[1..] + p.payload)], []);
      assert (c.partial + p.payload)[1..] == c.partial[1..] + p.payload;
      assert Accept(d, FirstByte(f), p.payload, rest, false) == Advanced(d, whole, [], rest);
      AdvancedTwice(c, ControlsOutcome(p.before), c.partial, d.pending, whole, [], rest);
    } else {
      assert Accept(d, FirstByte(f), p.payload, rest, false)
          == Advanced(c, ControlsOutcome(p.before), c.partial + p.payload, rest);
    }
  }

  /** The first part of a message is delivered at once or starts the reassembly behind its opcode. */
  lemma DrainHead(c: Conn, p: Part, last: bool, op: DataOp, rest: seq<byte>)
    requires c.partial == [] && c.pending == EncodePart(p, DataCode(op), last) + rest
    ensures Drain(c, false)
         == Drain(if last then
                    Advanced(c, Plus(ControlsOutcome(p.before),
                      Outcome([Message(FIN + DataCode(op), p.payload)], [])), [], rest)
                  else Advanced(c, ControlsOutcome(p.before), [DataCode(op)] + p.payload, rest), false)
  {
    hide Encode, Drain;
    var f := Frame(last, DataCode(op), p.key, p.payload);
    assert c.pending == EncodeControls(p.before) + (Encode(f) + rest);
    DrainControls(c, p.before, Encode(f) + rest);
    var d := Advanced(c, ControlsOutcome(p.before), [], Encode(f) + rest);
    FirstByteParts(f);
    DrainFrame(d, f, rest);
    if last {
      var whole := Outcome([Message(FIN + DataCode(op), p.payload)], []);
      assert Accept(d, FirstByte(f), p.payload, rest, false) == Advanced(d, whole, [], rest);
      AdvancedTwice(c, ControlsOutcome(p.before), [], d.pending, whole, [], rest);
    } else {
      var all := [] + [FirstByte(f)] + p.payload + rest;
      assert all[..1 + |p.payload|] == [FirstByte(f)] + p.payload && all[1 + |p.payload|..] == rest;
      assert Accept(d, FirstByte(f), p.payload, rest, false)
          == Advanced(c, ControlsOutcome(p.before), [DataCode(op)] + p.payload, rest);
    }
  }

  lemma {:induction false} DrainTail(c: Conn, parts: seq<Part>, op: DataOp, rest: seq<byte>)
    requires parts != [] && c.partial != [] && c.partial[0] == DataCode(op)
    requires c.pending == EncodeTail(parts) + rest
    ensures Drain(c, false)
         == Drain(Advanced(c, Plus(Inside(parts),
           Outcome([Message(FIN + DataCode(op), c.partial[1..] + Body(parts))], [])),
                           [], rest), false)
    decreases parts
  {
    hide Drain, EncodePart, ControlsOutcome;
    var p, others := parts[0], parts[1..];
    var rest' := EncodeTail(others) + rest;
    assert c.pending == EncodePart(p, OP_CONTINUE, |parts| == 1) + rest';
    DrainPart(c, p, |parts| == 1, op, rest');
    if |parts| == 1 {
      assert others == [] && rest' == rest;
      assert Body(parts) == p.payload;
      assert Inside(parts) == ControlsOutcome(p.before);
    } else {
      var d := Advanced(c, ControlsOutcome(p.before), c.partial + p.payload, rest');
      DrainTail(d, others, op, rest);
      var whole := Outcome([Message(FIN + DataCode(op), c.partial[1..] + Body(parts))], []);
      assert d.partial[1..] + Body(others) == c.partial[1..] + Body(parts);
      AdvancedTwice(c, ControlsOutcome(p.before), d.partial, rest', Plus(Inside(others), whole), [], rest);
      PlusAssociative(ControlsOutcome(p.before), Inside(others), whole);
    }
  }

  lemma DrainItem(c: Conn, m: Item, rest: seq<byte>)
    requires c.partial == [] && c.pending == EncodeItem(m) + rest
    ensures Drain(c, false) == Drain(Advanced(c, ItemOutcome(m), [], rest), false)
  {
    hide Drain, EncodePart, ControlsOutcome;
    match m
    case Controls(ks) => DrainControls(c, ks, rest);
    case Data(op, head, tail) =>
      var rest' := EncodeTail(tail) + rest;
      assert c.pending == EncodePart(head, DataCode(op), tail == []) + rest';
      DrainHead(c, head, tail == [], op, rest');
      if tail == [] {
        assert rest' == rest && head.payload + Body(tail) == head.payload;
        assert Plus(ControlsOutcome(head.before), Inside(tail)) == ControlsOutcome(head.before);
      } else {
        var d := Advanced(c, ControlsOutcome(head.before), [DataCode(op)] + head.payload, rest');
        DrainTail(d, tail, op, rest);
        var whole := Outcome([Message(FIN + DataCode(op), head.payload + Body(tail))], []);
        AdvancedTwice(c, ControlsOutcome(head.before), d.partial, rest', Plus(Inside(tail), whole), [], rest);
        PlusAssociative(ControlsOutcome(head.before), Inside(tail), whole);
      }
  }

  lemma {:induction false} DrainItems(c: Conn, items: seq<Item>)
    requires c.partial == [] && c.pending == EncodeItems(items)
    ensures Drain(c, false) == Advanced(c, ItemsOutcome(items), [], [])
    decreases items
  {
    if items == [] {
      assert c == Advanced(c, Outcome([], []), [], []);
    } else {
      DrainFirst(c, items);
      var d := Advanced(c, ItemOutcome(items[0]), [], EncodeItems(items[1..]));
      DrainItems(d, items[1..]);
      AdvancedTwice(c, ItemOutcome(items[0]), [], d.pending, ItemsOutcome(items[1..]), [], []);
    }
  }

  lemma DrainFirst(c: Conn, items: seq<Item>)
    requires items != [] && c.partial == [] && c.pending == EncodeItems(items)
    ensures Drain(c, false) == Drain(Advanced(c, ItemOutcome(items[0]), [], EncodeItems(items[1..])), false)
  {
    hide Drain, EncodeItem, ItemOutcome;
    DrainItem(c, items[0], EncodeItems(items[1..]));
  }

  /**
   * Any well-formed sequence of messages, each in any fragments with control frames between them,
   * each frame masked or not, cut into any receive segments: the user gets exactly the original
   * messages, every ping and close is answered in order, nothing is left in the buffer and no error
   * close is sent.
   */
  lemma StreamDelivered(items: seq<Item>, segments: seq<seq<byte>>)
    requires segments != [] && Concat(segments) == EncodeItems(items)
    ensures ReceiveAll(FRESH, segments, false)
         == Conn([], [], ItemsOutcome(items).events, ItemsOutcome(items).replies, 0)
  {
    hide Drain, EncodeItems, ItemsOutcome;
    assert [] + Concat(segments) == Concat(segments);
    DrainItems(Append(FRESH, Concat(segments)), items);
    CleanRuns(FRESH, segments, false);
  }

  // ------------------------------------------------------------------ MG_F_WEBSOCKET_NO_DEFRAG

  function EncodeFrames(frames: seq<Frame>): seq<byte> {
    if frames == [] then [] else Encode(frames[0]) + EncodeFrames(frames[1..])
  }

  function FramesOutcome(frames: seq<Frame>): Outcome {
    if frames == [] then Outcome([], [])
    else
      Plus(Outcome([Message(FirstByte(frames[0]), frames[0].payload)],
        RepliesTo(FirstByte(frames[0]), frames[0].payload)),
           FramesOutcome(frames[1..]))
  }

  lemma DrainRawFrame(c: Conn, f: Frame, rest: seq<byte>)
    requires c.partial == [] && c.pending == Encode(f) + rest
    ensures Drain(c, true)
         == Drain(Advanced(c, Outcome([Message(FirstByte(f), f.payload)], RepliesTo(FirstByte(f), f.payload)),
                           [], rest), true)
  {
    hide ReadHeader, Encode, RepliesTo;
    HeaderOfEncoded(f, rest);
  }

  lemma {:induction false} DrainRawFrames(c: Conn, frames: seq<Frame>)
    requires c.partial == [] && c.pending == EncodeFrames(frames)
    ensures Drain(c, true) == Advanced(c, FramesOutcome(frames), [], [])
    decreases frames
  {
    hide Encode, RepliesTo;
    if frames == [] {
      assert c == Advanced(c, Outcome([], []), [], []);
    } else {
      var f, rest := frames[0], EncodeFrames(frames[1..]);
      var o := Outcome([Message(FirstByte(f), f.payload)], RepliesTo(FirstByte(f), f.payload));
      DrainRawFrame(c, f, rest);
      DrainRawFrames(Advanced(c, o, [], rest), frames[1..]);
      AdvancedTwice(c, o, [], rest, FramesOutcome(frames[1..]), [], []);
    }
  }

  /** Without defragmentation the user sees every frame as sent, in any order and any cuts. */
  lemma FramesDelivered(frames: seq<Frame>, segments: seq<seq<byte>>)
    requires segments != [] && Concat(segments) == EncodeFrames(frames)
    ensures ReceiveAll(FRESH, segments, true)
         == Conn([], [], FramesOutcome(frames).events, FramesOutcome(frames).replies, 0)
  {
    hide Drain, EncodeFrames, FramesOutcome;
    assert [] + Concat(segments) == Concat(segments);
    DrainRawFrames(Append(FRESH, Concat(segments)), frames);
    CleanRuns(FRESH, segments, true);
  }
}
