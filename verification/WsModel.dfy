/** One step of `mg_deliver_websocket_data` on values, and the delivery loop around it. */
module WsModel {
  import opened Bytes
  import opened WsFrames

  /** A message handed to the user, or, for a lone empty continuation, one whose size underflowed. */
  datatype Event = Message(flags: byte, data: seq<byte>) | SizeUnderflow

  datatype Reply = Pong(data: seq<byte>) | Close(data: seq<byte>)

  /**
   * `partial` is the reassembled front of `recv_mbuf` (its first `reass_len` bytes), `pending` the
   * rest. `errors` counts the close frames sent for protocol errors.
   */
  datatype Conn = Conn(partial: seq<byte>, pending: seq<byte>, events: seq<Event>, replies: seq<Reply>, errors: nat)

  function OpOf(flags: byte): int { flags % 16 }

  predicate IsFinal(flags: byte) { flags >= FIN }

  predicate IsFragment(flags: byte) {
    !IsFinal(flags) || OpOf(flags) == OP_CONTINUE
  }

  predicate IsFirstFragment(flags: byte) {
    !IsFinal(flags) && OpOf(flags) != OP_CONTINUE
  }

  predicate IsControl(flags: byte) {
    OpOf(flags) in {OP_CLOSE, OP_PING, OP_PONG}
  }

  function WithFin(flags: byte): byte {
    if IsFinal(flags) then flags else flags + FIN
  }

  /** The checks on the first byte that close the connection. */
  predicate Illegal(c: Conn, noDefrag: bool)
    requires c.pending != []
  {
    var flags := c.pending[0];
    var reass := IsFragment(flags) && !noDefrag;
    (reass && IsControl(flags)) || (!reass && !IsControl(flags) && c.partial != [])
  }

  function RepliesTo(flags: byte, data: seq<byte>): seq<Reply> {
    if OpOf(flags) == OP_PING then [Pong(data)]
    else if OpOf(flags) == OP_CLOSE then [Close(data)]
    else []
  }

  /** The message a final fragment completes: the stored first byte gives the flags. */
  function Reassembled(partial: seq<byte>): Event {
    if partial == [] then SizeUnderflow else Message(WithFin(partial[0]), partial[1..])
  }

  /** Joining a fragment to the reassembled front. A first fragment leaves its first byte in front of
      the payload and restarts the count, whatever was there before. */
  function Joined(c: Conn, flags: byte, payload: seq<byte>, rest: seq<byte>): Conn {
    if IsFirstFragment(flags) then
      var all := c.partial + [flags] + payload + rest;
      Conn(all[..1 + |payload|], all[1 + |payload|..], c.events, c.replies, c.errors)
    else
      Conn(c.partial + payload, rest, c.events, c.replies, c.errors)
  }

  function Accept(c: Conn, flags: byte, payload: seq<byte>, rest: seq<byte>, noDefrag: bool): Conn {
    if IsFragment(flags) && !noDefrag then
      var j := Joined(c, flags, payload, rest);
      if IsFinal(flags) then j.(partial := [], events := j.events + [Reassembled(j.partial)]) else j
    else
      c.(pending := rest, events := c.events + [Message(flags, payload)],
        replies := c.replies + RepliesTo(flags, payload))
  }

  /** `mg_deliver_websocket_data`: the connection after it, and whether a frame was consumed. */
  function Deliver(c: Conn, noDefrag: bool): (r: (Conn, bool)) {
    if c.pending == [] then (c, false)
    else if Illegal(c, noDefrag) then (c.(errors := c.errors + 1), false)
    else
      var h := ReadHeader(c.pending);
      match h
      case Incomplete => (c, false)
      case Overflow => (c.(errors := c.errors + 1), false)
      case Header(len, size, masked) =>
        (Accept(c, c.pending[0], Payload(c.pending, h), c.pending[len + size..], noDefrag), true)
  }

  /** Each consumed frame shortens `recv_mbuf`, which is why the delivery loop ends on every input. */
  lemma DeliverShrinks(c: Conn, noDefrag: bool)
    ensures Deliver(c, noDefrag).1 ==>
              var d := Deliver(c, noDefrag).0; |d.partial| + |d.pending| < |c.partial| + |c.pending|
  {
  }

  /** The bytes behind the reassembled front are no measure for that loop: a consumed frame shortens them
      unless it starts a new message behind a front at least as long as the frame. */
  lemma PendingShrinksIff(c: Conn, noDefrag: bool)
    requires Deliver(c, noDefrag).1
    ensures var h := ReadHeader(c.pending);
            |Deliver(c, noDefrag).0.pending| < |c.pending|
            <==> noDefrag || !IsFirstFragment(c.pending[0]) || |c.partial| < h.len + h.size
  {
  }

  /** Such a frame: a 2-byte first fragment behind a front of 100 bytes leaves 100 pending bytes. */
  lemma PendingCanGrow(partial: seq<byte>)
    requires |partial| == 100
    ensures var r := Deliver(Conn(partial, [1, 0], [], [], 0), false); r.1 && |r.0.pending| == 100
  {
    assert ReadHeader([1, 0]) == Header(2, 0, false);
  }

  /** Which frames are refused: a control frame that is not final, and an unfragmented data frame inside a
      fragmented message (RFC 6455, sections 5.4 and 5.5). A first fragment inside another message is not. */
  lemma RefusedIff(c: Conn, f: Frame, rest: seq<byte>)
    requires c.pending == Encode(f) + rest
    ensures Deliver(c, false).1 || Deliver(c, false).0 == c.(errors := c.errors + 1)
    ensures !Deliver(c, false).1
            <==> if f.op in {OP_CLOSE, OP_PING, OP_PONG} then !f.fin
                 else f.fin && f.op != OP_CONTINUE && c.partial != []
  {
    hide Encode, ReadHeader, Payload, Accept;
    HeaderOfEncoded(f, rest);
  }

  /** The size of a delivered message underflows exactly for an empty final continuation when nothing has
      been reassembled. */
  lemma UnderflowIff(c: Conn, noDefrag: bool)
    requires Deliver(c, noDefrag).1
    ensures Deliver(c, noDefrag).0.events == c.events + [SizeUnderflow]
            <==> && !noDefrag && IsFinal(c.pending[0]) && OpOf(c.pending[0]) == OP_CONTINUE
                 && c.partial == [] && ReadHeader(c.pending).size == 0
  {
    hide ReadHeader, RepliesTo;
    var h := ReadHeader(c.pending);
    var payload := Payload(c.pending, h);
    var flags := c.pending[0];
    if IsFragment(flags) && !noDefrag && IsFinal(flags) {
      LastIs(c.events, Reassembled(c.partial + payload), SizeUnderflow);
    } else if !(IsFragment(flags) && !noDefrag) {
      LastIs(c.events, Message(flags, payload), SizeUnderflow);
    } else {
      assert |c.events| != |c.events + [SizeUnderflow]|;
    }
  }

  lemma LastIs(events: seq<Event>, x: Event, y: Event)
    ensures events + [x] == events + [y] <==> x == y
  {
    assert (events + [x])[|events|] == x && (events + [y])[|events|] == y;
  }

  /** Such a frame: the two bytes of an unmasked empty final continuation on a fresh connection. */
  lemma UnderflowOnFresh()
    ensures Deliver(Conn([], [0x80, 0], [], [], 0), false) == (Conn([], [], [SizeUnderflow], [], 0), true)
  {
    var c := Conn([], [0x80, 0], [], [], 0);
    var h := ReadHeader(c.pending);
    assert h == Header(2, 0, false) && Payload(c.pending, h) == [] && c.pending[2..] == [];
    UnderflowIff(c, false);
    assert Deliver(c, false).1;
    assert [] + [SizeUnderflow] == [SizeUnderflow];
  }

  /** The loop of `mg_ws_handler`. */
  function Drain(c: Conn, noDefrag: bool): Conn
    decreases |c.partial| + |c.pending|
  {
    DeliverShrinks(c, noDefrag);
    var (d, ok) := Deliver(c, noDefrag);
    if ok then Drain(d, noDefrag) else d
  }

  function Append(c: Conn, segment: seq<byte>): Conn {
    c.(pending := c.pending + segment)
  }

  /** One receive event. */
  function Receive(c: Conn, segment: seq<byte>, noDefrag: bool): Conn {
    Drain(Append(c, segment), noDefrag)
  }

  const FRESH := Conn([], [], [], [], 0)

  function ReceiveAll(c: Conn, segments: seq<seq<byte>>, noDefrag: bool): Conn
    decreases segments
  {
    if segments == [] then c else ReceiveAll(Receive(c, segments[0], noDefrag), segments[1..], noDefrag)
  }

  // ------------------------------------------------------------------ cuts do not matter

  /** Everything but the number of error closes sent. */
  function Core(c: Conn): Conn {
    c.(errors := 0)
  }

  lemma DeliverCore(c: Conn, c': Conn, noDefrag: bool)
    requires Core(c) == Core(c')
    ensures Core(Deliver(c, noDefrag).0) == Core(Deliver(c', noDefrag).0)
    ensures Deliver(c, noDefrag).1 == Deliver(c', noDefrag).1
  {
  }

  lemma {:induction false} DrainCore(c: Conn, c': Conn, noDefrag: bool)
    requires Core(c) == Core(c')
    ensures Core(Drain(c, noDefrag)) == Core(Drain(c', noDefrag))
    decreases |c.partial| + |c.pending|
  {
    hide Deliver;
    DeliverShrinks(c, noDefrag);
    DeliverShrinks(c', noDefrag);
    DeliverCore(c, c', noDefrag);
    if Deliver(c, noDefrag).1 {
      DrainCore(Deliver(c, noDefrag).0, Deliver(c', noDefrag).0, noDefrag);
    }
  }

  lemma AcceptExtends(c: Conn, flags: byte, payload: seq<byte>, rest: seq<byte>, more: seq<byte>, noDefrag: bool)
    ensures Accept(Append(c, more), flags, payload, rest + more, noDefrag)
        == Append(Accept(c, flags, payload, rest, noDefrag), more)
  {
    if IsFirstFragment(flags) {
      var all := c.partial + [flags] + payload + rest;
      assert c.partial + [flags] + payload + (rest + more) == all + more;
      assert (all + more)[..1 + |payload|] == all[..1 + |payload|];
      assert (all + more)[1 + |payload|..] == all[1 + |payload|..] + more;
    }
  }

  /** A frame that can be consumed is consumed alike when more bytes have already arrived behind it;
      when none is consumed, nothing but the error count changes. */
  lemma DeliverExtends(c: Conn, more: seq<byte>, noDefrag: bool)
    ensures Deliver(c, noDefrag).1 ==>
              Deliver(Append(c, more), noDefrag) == (Append(Deliver(c, noDefrag).0, more), true)
    ensures !Deliver(c, noDefrag).1 ==> Core(Deliver(c, noDefrag).0) == Core(c)
  {
    hide Accept;
    var (d, ok) := Deliver(c, noDefrag);
    if ok {
      var h := ReadHeader(c.pending);
      HeaderExtends(c.pending, more);
      var rest := c.pending[h.len + h.size..];
      assert (c.pending + more)[h.len + h.size..] == rest + more;
      AcceptExtends(c, c.pending[0], Payload(c.pending, h), rest, more, noDefrag);
    }
  }

  lemma {:induction false} DrainThenReceive(c: Conn, more: seq<byte>, noDefrag: bool)
    ensures Core(Receive(Drain(c, noDefrag), more, noDefrag)) == Core(Drain(Append(c, more), noDefrag))
    decreases |c.partial| + |c.pending|
  {
    hide Deliver;
    DeliverShrinks(c, noDefrag);
    DeliverExtends(c, more, noDefrag);
    var (d, ok) := Deliver(c, noDefrag);
    if ok {
      DrainThenReceive(d, more, noDefrag);
    } else {
      DrainCore(Append(d, more), Append(c, more), noDefrag);
    }
  }

  /** Whatever the bytes are, well-formed or not: receiving them in any segments delivers the same
      messages and answers, and leaves the same bytes behind, as receiving them at once. */
  lemma {:induction false} CutsDoNotMatter(c: Conn, segments: seq<seq<byte>>, noDefrag: bool)
    requires segments != []
    ensures Core(ReceiveAll(c, segments, noDefrag)) == Core(Receive(c, Concat(segments), noDefrag))
    decreases segments
  {
    hide Drain, Core;
    var first, others := segments[0], segments[1..];
    if others == [] {
      assert segments == [first];
      ConcatOne(first);
    } else {
      var d := Receive(c, first, noDefrag);
      CutsDoNotMatter(d, others, noDefrag);
      DrainThenReceive(Append(c, first), Concat(others), noDefrag);
      AppendTwice(c, first, Concat(others));
    }
  }

  lemma AppendTwice(c: Conn, x: seq<byte>, y: seq<byte>)
    ensures Append(Append(c, x), y) == Append(c, x + y)
  {
    Regroup(c.pending, x, y);
  }

  // ------------------------------------------------------------------ error closes

  /** A protocol error seen on some bytes is still seen when more have arrived behind them. */
  lemma {:induction false} ErrorsPersist(c: Conn, more: seq<byte>, noDefrag: bool)
    ensures c.errors <= Drain(c, noDefrag).errors
    ensures c.errors < Drain(c, noDefrag).errors ==> c.errors < Drain(Append(c, more), noDefrag).errors
    decreases |c.partial| + |c.pending|
  {
    hide Accept;
    DeliverShrinks(c, noDefrag);
    DeliverExtends(c, more, noDefrag);
    DeliverErrors(c, more, noDefrag);
    if Deliver(c, noDefrag).1 {
      ErrorsPersist(Deliver(c, noDefrag).0, more, noDefrag);
    }
  }

  lemma DeliverErrors(c: Conn, more: seq<byte>, noDefrag: bool)
    ensures Deliver(c, noDefrag).1 ==> Deliver(c, noDefrag).0.errors == c.errors
    ensures !Deliver(c, noDefrag).1 ==> Deliver(c, noDefrag).0 in {c, c.(errors := c.errors + 1)}
    ensures !Deliver(c, noDefrag).1 && Deliver(c, noDefrag).0 != c ==>
              Deliver(Append(c, more), noDefrag) == (Append(c, more).(errors := c.errors + 1), false)
  {
    if c.pending != [] {
      HeaderExtends(c.pending, more);
      assert (c.pending + more)[0] == c.pending[0];
    }
  }

  lemma {:induction false} DrainThenReceiveExactly(c: Conn, more: seq<byte>, noDefrag: bool)
    requires Drain(c, noDefrag).errors == c.errors
    ensures Receive(Drain(c, noDefrag), more, noDefrag) == Drain(Append(c, more), noDefrag)
    decreases |c.partial| + |c.pending|
  {
    hide Accept;
    DeliverShrinks(c, noDefrag);
    DeliverExtends(c, more, noDefrag);
    DeliverErrors(c, more, noDefrag);
    if Deliver(c, noDefrag).1 {
      DrainThenReceiveExactly(Deliver(c, noDefrag).0, more, noDefrag);
    }
  }

  /** If the bytes taken at once cause no error close, no way of cutting them does. */
  lemma {:induction false} CleanRuns(c: Conn, segments: seq<seq<byte>>, noDefrag: bool)
    requires segments != []
    requires Receive(c, Concat(segments), noDefrag).errors == c.errors
    ensures ReceiveAll(c, segments, noDefrag) == Receive(c, Concat(segments), noDefrag)
    decreases segments
  {
    hide Drain;
    var first, others := segments[0], segments[1..];
    if others == [] {
      assert segments == [first];
      ConcatOne(first);
    } else {
      AppendTwice(c, first, Concat(others));
      ErrorsPersist(Append(c, first), Concat(others), noDefrag);
      DrainThenReceiveExactly(Append(c, first), Concat(others), noDefrag);
      CleanRuns(Receive(c, first, noDefrag), others, noDefrag);
    }
  }
}
