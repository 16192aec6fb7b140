/**
 * Whole sessions: a GET delivers exactly the header and what the file has of the requested range, in
 * order, through a send buffer that stays within 1.5 times its limit, and closes if the file has all of
 * it; and which requests can reach a failing assert or a read outside the file.
 */
module SessionRuns {
  import opened Bytes
  import opened SessionModel

  /** What stays fixed during a session. The request is for the bytes from `reqPos` to `end`, wherever they
      lie; a request without a length ends where the file does. */
  datatype Setup = Setup(file: seq<byte>, header: seq<byte>, limit: nat, reqPos: int, end: int)

  ghost predicate SetupOk(u: Setup) {
    0 < |u.header| <= u.limit / 2
  }

  /** The request starts inside the file or at its end, and asks for something. */
  predicate Inside(u: Setup) {
    0 <= u.reqPos <= |u.file| && u.reqPos < u.end
  }

  /** Where the bytes the file has for the request end. */
  function Last(u: Setup): int {
    Min(u.end, |u.file|)
  }

  /** The byte stream the client can get: the header and what the file has of the range. */
  function Stream(u: Setup): seq<byte> {
    u.header + (if Inside(u) then u.file[u.reqPos..Last(u)] else [])
  }

  /** The session has not started sending: the file size may still be unknown. */
  ghost predicate Quiet(s: Session, u: Setup, wire: seq<byte>) {
    && s.pos == u.reqPos && s.sending == 0 && s.header == 0
    && s.staged == [] && s.outbox == [] && wire == [] && !s.headerSent && !s.closed
    && (s.len == u.end - u.reqPos || (s.len == 0 && s.reqLen == 0))
  }

  /** Bytes are staged only by a transfer that found header bytes in the outbox: no more than 1.5 limits
      have been handed out, and the request and the header together exceed the limit. */
  ghost predicate Early(s: Session, u: Setup) {
    s.pos - u.reqPos + s.sending < u.limit + u.limit / 2 && u.limit < u.end - u.reqPos + |u.header|
  }

  /** The accounting of a session under way, `taken` bytes of which have left. */
  ghost predicate Accounts(s: Session, u: Setup, taken: nat) {
    && s.headerSent
    && u.reqPos <= s.pos && 0 <= s.len && s.pos + s.len == u.end
    && s.sending + s.header == |s.outbox|
    && s.pos + s.sending + |s.staged| <= Last(u)
    && (s.header > 0 ==> s.pos == u.reqPos)
    && |s.staged| <= u.limit && s.header <= |u.header| && |s.outbox| <= u.limit + u.limit / 2
    && taken == |u.header| - s.header + (s.pos - u.reqPos)
    && (s.closed <==> s.len == 0)
    && (s.staged != [] ==> Early(s, u))
  }

  /** Its bytes: what has left or is in the outbox, and what is staged after that. */
  ghost predicate Carries(s: Session, u: Setup, wire: seq<byte>) {
    && 0 <= u.reqPos <= s.pos + s.sending && s.pos + s.sending + |s.staged| <= |u.file|
    && wire + s.outbox == u.header + u.file[u.reqPos..s.pos + s.sending]
    && s.staged == u.file[s.pos + s.sending..s.pos + s.sending + |s.staged|]
  }

  ghost predicate Flowing(s: Session, u: Setup, wire: seq<byte>) {
    Inside(u) && Accounts(s, u, |wire|) && Carries(s, u, wire)
  }

  ghost predicate Inv(s: Session, u: Setup, wire: seq<byte>) {
    && SetupOk(u) && s.reqPos == u.reqPos && !s.closing && EndOk(u, s.reqLen)
    && (Quiet(s, u, wire) || Flowing(s, u, wire))
  }

  predicate EndOk(u: Setup, reqLen: int) {
    0 <= reqLen && u.end == if reqLen == 0 then |u.file| else u.reqPos + reqLen
  }

  /** `got` is a possibly short answer to the read a transfer makes. */
  ghost predicate Answers(s: Session, u: Setup, filesize: int, got: seq<byte>) {
    !Idle(s, u.limit, filesize) ==>
      var t := WithHeader(s, u.header);
      && 0 <= ReadFrom(t) && |got| <= Wanted(t, u.limit, filesize) && ReadFrom(t) + |got| <= |u.file|
      && got == u.file[ReadFrom(t)..ReadFrom(t) + |got|]
  }

  /** The range asserts around the read and the send of `try_transfer_data`. */
  predicate RangeAsserts(s: Session, limit: nat, filesize: int) {
    s.reqLen == 0 || ReadFrom(s) + Wanted(s, limit, filesize) <= s.reqPos + s.reqLen
  }

  /** What can go wrong in a transfer: a range assert fails, or the read starts in front of the file or has
      a negative length. */
  datatype Fault = RangeAssert | BadRead

  predicate Faulty(s: Session, limit: nat, filesize: int, f: Fault) {
    match f
    case RangeAssert => !RangeAsserts(s, limit, filesize)
    case BadRead => ReadFrom(s) < 0 || Wanted(s, limit, filesize) < 0
  }

  /** The transfer made in this state, if one is made, has the fault. */
  predicate Fails(s: Session, u: Setup, filesize: int, f: Fault) {
    !Idle(s, u.limit, filesize) && Faulty(WithHeader(s, u.header), u.limit, filesize, f)
  }

  predicate Passes(s: Session, u: Setup, filesize: int) {
    !Fails(s, u, filesize, RangeAssert) && !Fails(s, u, filesize, BadRead)
  }

  lemma HeaderKeeps(s: Session, u: Setup, wire: seq<byte>)
    requires Inv(s, u, wire) && Inside(u) && s.len != 0 && !s.closed
    ensures Flowing(WithHeader(s, u.header), u, wire)
    ensures WithHeader(s, u.header).header <= u.limit / 2
  {
    if Quiet(s, u, wire) {
      assert u.file[u.reqPos..u.reqPos] == [];
      assert wire + (s.outbox + u.header) == u.header + [];
    }
  }

  /** A session whose request does not start in the file has sent nothing, and its read would be bad. */
  lemma OutsideFails(s: Session, u: Setup, wire: seq<byte>, filesize: int)
    requires Inv(s, u, wire) && !Inside(u) && filesize in {0, |u.file|}
    ensures Quiet(s, u, wire) && !Fails(s, u, filesize, RangeAssert)
    ensures Fails(s, u, filesize, BadRead) <==> s.len != 0 && filesize != 0
    ensures s.len != 0 && filesize != 0 ==> u.file != [] && !(0 <= u.reqPos <= |u.file|)
  {
  }

  /** The read of a session under way starts behind the bytes handed out and ends inside the file, and
      inside the request if it passes the range assert. */
  lemma ReadsInside(s: Session, u: Setup, taken: nat)
    requires SetupOk(u) && Inside(u) && u.file != [] && Accounts(s, u, taken)
    requires s.reqPos == u.reqPos && EndOk(u, s.reqLen)
    ensures ReadFrom(s) == s.pos + s.sending + |s.staged|
    ensures 0 <= ReadFrom(s) && 0 <= Wanted(s, u.limit, |u.file|)
    ensures RangeAsserts(s, u.limit, |u.file|) ==> ReadFrom(s) + Wanted(s, u.limit, |u.file|) <= Last(u)
  {
  }

  /** The sizes a push works with: what goes out is non-negative and fits the bound. */
  lemma PushSizes(s: Session, u: Setup, taken: nat, got: seq<byte>)
    requires SetupOk(u) && Accounts(s, u, taken) && !s.closed && s.sending <= u.limit / 2
    requires Inside(u) && |got| <= Wanted(s, u.limit, |u.file|) && s.pos + s.sending + |s.staged| + |got| <= Last(u)
    ensures 0 <= Outgoing(s, u.limit, |s.staged + got|) <= |s.staged| + |got|
    ensures Accounts(Push(s, u.limit, got), u, taken)
  {
  }

  lemma SliceJoin(f: seq<byte>, a: int, b: int, c: int)
    requires 0 <= a <= b <= c <= |f|
    ensures f[a..b] + f[b..c] == f[a..c]
  {
  }

  lemma PushKeeps(s: Session, u: Setup, wire: seq<byte>, got: seq<byte>)
    requires SetupOk(u) && Flowing(s, u, wire) && !s.closed && s.sending <= u.limit / 2
    requires |got| <= Wanted(s, u.limit, |u.file|)
    requires ReadFrom(s) == s.pos + s.sending + |s.staged| && ReadFrom(s) + |got| <= Last(u)
    requires 0 <= ReadFrom(s) && got == u.file[ReadFrom(s)..ReadFrom(s) + |got|]
    ensures Flowing(Push(s, u.limit, got), u, wire)
  {
    hide Wanted, Outgoing, Push, Accounts, Carries;
    PushSizes(s, u, |wire|, got);
    PushCarries(s, u, wire, got);
  }

  lemma PushCarries(s: Session, u: Setup, wire: seq<byte>, got: seq<byte>)
    requires Carries(s, u, wire) && s.pos + s.sending + |s.staged| + |got| <= |u.file|
    requires got == u.file[s.pos + s.sending + |s.staged|..s.pos + s.sending + |s.staged| + |got|]
    requires 0 <= Outgoing(s, u.limit, |s.staged + got|) <= |s.staged| + |got|
    ensures Carries(Push(s, u.limit, got), u, wire)
  {
    hide Outgoing, Push;
    var n := Outgoing(s, u.limit, |s.staged + got|);
    var all, t := s.staged + got, Push(s, u.limit, got);
    PushShape(s, u.limit, got);
    PushBytes(u, wire + s.outbox, s.staged, got, s.pos + s.sending, n);
    Regroup(wire, s.outbox, all[..n]);
    assert |t.staged| == |s.staged| + |got| - n;
  }

  /** A push moves the first `n` of the bytes in hand, if only none. */
  lemma PushShape(s: Session, limit: nat, got: seq<byte>)
    requires 0 <= Outgoing(s, limit, |s.staged + got|) <= |s.staged| + |got|
    ensures var n, all, t := Outgoing(s, limit, |s.staged + got|), s.staged + got, Push(s, limit, got);
            t.outbox == s.outbox + all[..n] && t.staged == all[n..] && t.sending == s.sending + n && t.pos == s.pos
  {
    hide Outgoing;
    var all := s.staged + got;
    if all == [] {
      assert s.outbox + all[..0] == s.outbox;
    }
  }

  /** `n` of the staged bytes move to the end of what has been sent. */
  lemma PushBytes(u: Setup, sent: seq<byte>, staged: seq<byte>, got: seq<byte>, from: nat, n: nat)
    requires 0 <= u.reqPos <= from && from + |staged| + |got| <= |u.file| && n <= |staged| + |got|
    requires sent == u.header + u.file[u.reqPos..from]
    requires staged == u.file[from..from + |staged|]
    requires got == u.file[from + |staged|..from + |staged| + |got|]
    ensures sent + (staged + got)[..n] == u.header + u.file[u.reqPos..from + n]
    ensures (staged + got)[n..] == u.file[from + n..from + |staged| + |got|]
  {
    var all := staged + got;
    SliceJoin(u.file, from, from + |staged|, from + |all|);
    assert all[..n] == u.file[from..from + n];
    SliceJoin(u.file, u.reqPos, from, from + n);
    assert u.header + u.file[u.reqPos..from] + all[..n] == u.header + (u.file[u.reqPos..from] + all[..n]);
  }

  /** A transfer without a fault keeps the invariant, for every answer of the media task. */
  lemma TransferKeeps(s: Session, u: Setup, wire: seq<byte>, filesize: int, got: seq<byte>)
    requires Inv(s, u, wire) && filesize in {0, |u.file|} && Answers(s, u, filesize, got)
    requires !s.closed && Passes(s, u, filesize)
    ensures Inv(Transfer(s, u.limit, filesize, u.header, got), u, wire)
  {
    hide Push, Wanted, Accounts, Carries;
    if !Idle(s, u.limit, filesize) {
      if !Inside(u) {
        OutsideFails(s, u, wire, filesize);
      }
      HeaderKeeps(s, u, wire);
      var t := WithHeader(s, u.header);
      ReadsInside(t, u, |wire|);
      PushKeeps(t, u, wire, got);
      PushFrame(t, u.limit, got);
    }
  }

  lemma PushFrame(s: Session, limit: nat, got: seq<byte>)
    ensures var t := Push(s, limit, got);
            t.reqPos == s.reqPos && t.reqLen == s.reqLen && t.closing == s.closing && t.headerSent == s.headerSent
  {
  }

  lemma AcknowledgeKeeps(s: Session, u: Setup, wire: seq<byte>, n: nat)
    requires Inv(s, u, wire) && !s.closed && n <= |s.outbox|
    ensures Inv(Acknowledge(s, n), u, wire + s.outbox[..n])
  {
    hide Quiet, Accounts, Carries, Acknowledge;
    AcknowledgeFrame(s, n);
    if Quiet(s, u, wire) {
      QuietStays(s, u, wire, n);
    } else {
      TakenSizes(s, u, |wire|, n);
      TakenBytes(s, u, wire, n);
    }
  }

  lemma AcknowledgeFrame(s: Session, n: nat)
    requires n <= |s.outbox|
    ensures var t := Acknowledge(s, n); t.reqPos == s.reqPos && t.reqLen == s.reqLen && t.closing == s.closing
  {
  }

  lemma QuietStays(s: Session, u: Setup, wire: seq<byte>, n: nat)
    requires Quiet(s, u, wire) && n <= |s.outbox| && SetupOk(u)
    ensures Quiet(Acknowledge(s, n), u, wire + s.outbox[..n])
  {
    assert s.outbox[0..] == s.outbox && wire + s.outbox[..0] == wire;
  }

  lemma TakenSizes(s: Session, u: Setup, taken: nat, n: nat)
    requires Inside(u) && Accounts(s, u, taken) && !s.closed && n <= |s.outbox|
    ensures Accounts(Acknowledge(s, n), u, taken + n)
  {
  }

  lemma TakenBytes(s: Session, u: Setup, wire: seq<byte>, n: nat)
    requires Inside(u) && Accounts(s, u, |wire|) && Carries(s, u, wire) && !s.closed && n <= |s.outbox|
    ensures Carries(Acknowledge(s, n), u, wire + s.outbox[..n])
  {
    var t := Acknowledge(s, n);
    assert t.pos + t.sending == s.pos + s.sending && t.staged == s.staged && t.outbox == s.outbox[n..];
    assert s.outbox[..n] + s.outbox[n..] == s.outbox;
    Regroup(wire, s.outbox[..n], s.outbox[n..]);
  }

  // ------------------------------------------------------------------ ranges

  /** Requests that reach the end of the file, fit the limit together with the header, or are so long
      that the header has left before the range runs out. */
  predicate SafeRange(u: Setup) {
    || |u.file| <= u.end
    || u.end - u.reqPos + |u.header| <= u.limit
    || 2 * u.limit + u.limit / 2 - 1 <= u.end - u.reqPos
  }

  /** Inside the file there are no bad reads, and in a safe range the range asserts hold in every state. */
  lemma SafePasses(s: Session, u: Setup, wire: seq<byte>, filesize: int)
    requires Inv(s, u, wire) && !s.closed && Inside(u) && filesize in {0, |u.file|}
    ensures !Fails(s, u, filesize, BadRead)
    ensures SafeRange(u) || s.staged == [] ==> Passes(s, u, filesize)
  {
    hide Accounts, Carries, Wanted, SafeRange;
    if !Idle(s, u.limit, filesize) {
      HeaderKeeps(s, u, wire);
      ReadsInside(WithHeader(s, u.header), u, |wire|);
      if SafeRange(u) || s.staged == [] {
        StagedRest(WithHeader(s, u.header), u, |wire|);
      }
    }
  }

  lemma StagedRest(s: Session, u: Setup, taken: nat)
    requires SetupOk(u) && Inside(u) && Accounts(s, u, taken) && (SafeRange(u) || s.staged == [])
    ensures ReadFrom(s) + Wanted(s, u.limit, |u.file|) <= u.end
  {
  }

  /** For a request ending at `pos + len`, the range assert holds exactly when nothing is staged, or
      the unsent rest is at least one limit, or the request ends where the file does. */
  lemma RangeAssertsIff(s: Session, limit: nat, filesize: int)
    requires 0 <= s.reqPos && s.reqLen > 0 && s.pos + s.len == s.reqPos + s.reqLen <= filesize
    requires s.sending + s.header == |s.outbox| && s.sending + |s.staged| <= s.len && |s.staged| <= limit
    ensures RangeAsserts(s, limit, filesize)
            <==> s.staged == [] || limit <= s.len - s.sending || s.pos + s.len == filesize
  {
  }

  // ------------------------------------------------------------------ runs

  /** What can happen to an open session: the media task learns the file size, it has new data, or
      the socket takes `n` bytes. The latter two try a transfer; `got` answers its read. */
  datatype Event =
    | SizeKnown
    | Recv(got: seq<byte>)
    | SocketTook(n: nat, got: seq<byte>)

  datatype World = World(s: Session, wire: seq<byte>, filesize: int)

  /** The state in which an event makes its transfer. */
  function Trying(w: World, e: Event): Session
    requires e.SocketTook? ==> e.n <= |w.s.outbox|
  {
    if e.SocketTook? then Acknowledge(w.s, e.n) else w.s
  }

  /** An event the surroundings can bring about. */
  predicate Possible(w: World, e: Event) {
    !w.s.closed && (e.SocketTook? ==> e.n <= |w.s.outbox|)
  }

  /** ... and whose transfer, if it makes one, goes well. */
  ghost predicate Enabled(w: World, u: Setup, e: Event) {
    && Possible(w, e)
    && (!e.SizeKnown? ==> Passes(Trying(w, e), u, w.filesize) && Answers(Trying(w, e), u, w.filesize, e.got))
  }

  ghost function Step(w: World, u: Setup, e: Event): World
    requires Enabled(w, u, e)
  {
    match e
    case SizeKnown => World(ContentSizeKnown(w.s, |u.file|), w.wire, |u.file|)
    case Recv(got) => w.(s := Transfer(w.s, u.limit, w.filesize, u.header, got))
    case SocketTook(n, got) =>
      World(Sent(w.s, n, u.limit, w.filesize, u.header, got), w.wire + w.s.outbox[..n], w.filesize)
  }

  /** The invariant between events. Bytes are never staged behind an empty outbox, and a session that has
      not started knows its length if the file size is known. */
  ghost predicate Running(w: World, u: Setup) {
    && Inv(w.s, u, w.wire) && w.filesize in {0, |u.file|} && (w.filesize == 0 ==> !w.s.headerSent)
    && (w.filesize != 0 && !w.s.headerSent ==> w.s.len == u.end - u.reqPos)
    && (w.s.staged != [] ==> w.s.outbox != [])
  }

  /** A transfer leaves bytes staged only behind bytes in the outbox. */
  lemma NothingStuck(s: Session, u: Setup, wire: seq<byte>, filesize: int, got: seq<byte>)
    requires Inv(s, u, wire) && (filesize == 0 ==> !s.headerSent)
    ensures var t := Transfer(s, u.limit, filesize, u.header, got); t.staged != [] ==> t.outbox != []
  {
  }

  lemma StepKeeps(w: World, u: Setup, e: Event)
    requires Running(w, u) && Enabled(w, u, e)
    ensures Running(Step(w, u, e), u)
  {
    hide Transfer, Inv, Acknowledge, Answers, Passes;
    match e
    case SizeKnown => SizeKeeps(w.s, u, w.wire);
    case Recv(got) =>
      TransferKeeps(w.s, u, w.wire, w.filesize, got);
      TransferHeader(w.s, u, w.filesize, got);
      NothingStuck(w.s, u, w.wire, w.filesize, got);
    case SocketTook(n, got) => TookKeeps(w, u, n, got);
  }

  lemma TookKeeps(w: World, u: Setup, n: nat, got: seq<byte>)
    requires Running(w, u) && Enabled(w, u, SocketTook(n, got))
    ensures Running(Step(w, u, SocketTook(n, got)), u)
  {
    hide Transfer, Inv, Acknowledge, Answers, Passes;
    var t, wire := Acknowledge(w.s, n), w.wire + w.s.outbox[..n];
    AcknowledgeKeeps(w.s, u, w.wire, n);
    AcknowledgeHeader(w.s, n);
    NotClosing(w.s, u, w.wire);
    if t.closed || w.s.len == 0 {
      NothingLeft(w.s, n, u, wire);
    } else {
      TransferKeeps(t, u, wire, w.filesize, got);
      TransferHeader(t, u, w.filesize, got);
      NothingStuck(t, u, wire, w.filesize, got);
    }
  }

  lemma NotClosing(s: Session, u: Setup, wire: seq<byte>)
    requires Inv(s, u, wire)
    ensures !s.closing && (!s.headerSent ==> s.outbox == [])
  {
  }

  lemma NothingLeft(s: Session, n: nat, u: Setup, wire: seq<byte>)
    requires n <= |s.outbox| && Inv(Acknowledge(s, n), u, wire)
    requires Acknowledge(s, n).closed || s.len == 0
    ensures Acknowledge(s, n).staged == []
  {
  }

  lemma SizeKeeps(s: Session, u: Setup, wire: seq<byte>)
    requires Inv(s, u, wire) && !s.closed
    ensures var t := ContentSizeKnown(s, |u.file|);
            && Inv(t, u, wire) && t.staged == s.staged && t.outbox == s.outbox && t.headerSent == s.headerSent
            && (u.file != [] && !s.headerSent ==> t.len == u.end - u.reqPos)
  {
  }

  lemma TransferHeader(s: Session, u: Setup, filesize: int, got: seq<byte>)
    ensures var t := Transfer(s, u.limit, filesize, u.header, got); filesize == 0 || !t.headerSent ==> t == s
  {
  }

  lemma ClosedIsDone(s: Session, n: nat)
    requires n <= |s.outbox| && !s.closed
    ensures Acknowledge(s, n).closed ==> Acknowledge(s, n).len == 0
  {
  }

  lemma AcknowledgeHeader(s: Session, n: nat)
    requires n <= |s.outbox|
    ensures var t := Acknowledge(s, n); t.headerSent == s.headerSent && t.closing == s.closing
    ensures s.outbox == [] ==> Acknowledge(s, n).len == s.len
  {
  }

  ghost predicate EnabledRun(w: World, u: Setup, events: seq<Event>)
    decreases events
  {
    events == [] || (Enabled(w, u, events[0]) && EnabledRun(Step(w, u, events[0]), u, events[1..]))
  }

  ghost function Run(w: World, u: Setup, events: seq<Event>): World
    requires EnabledRun(w, u, events)
    decreases events
  {
    if events == [] then w else Run(Step(w, u, events[0]), u, events[1..])
  }

  lemma {:induction false} RunKeeps(w: World, u: Setup, events: seq<Event>)
    requires Running(w, u) && EnabledRun(w, u, events)
    ensures Running(Run(w, u, events), u)
    decreases events
  {
    hide Running, Enabled, Step;
    if events != [] {
      StepKeeps(w, u, events[0]);
      RunKeeps(Step(w, u, events[0]), u, events[1..]);
    }
  }

  /** A session as it is opened, for the request `u` describes. */
  function Opened(u: Setup, reqLen: int, filesize: int): World {
    World(Open(u.reqPos, reqLen, filesize), [], filesize)
  }

  ghost predicate Request(u: Setup, reqLen: int, filesize: int) {
    SetupOk(u) && filesize in {0, |u.file|} && EndOk(u, reqLen)
  }

  lemma OpenedRuns(u: Setup, reqLen: int, filesize: int)
    requires Request(u, reqLen, filesize)
    ensures Running(Opened(u, reqLen, filesize), u)
  {
  }

  /**
   * A GET of any range, however transfers, short reads and partial sends interleave, up to a fault: what
   * the socket has taken is a prefix of the stream, nothing is skipped or repeated, the accounting matches
   * the send buffer, and the session closes exactly when all of the stream is sent and the file has all
   * of the range. A request that starts behind the file, or asks for nothing, sends nothing.
   */
  lemma SessionDelivers(u: Setup, reqLen: int, filesize: int, events: seq<Event>)
    requires Request(u, reqLen, filesize)
    requires EnabledRun(Opened(u, reqLen, filesize), u, events)
    ensures var w := Run(Opened(u, reqLen, filesize), u, events);
            && w.wire <= Stream(u)
            && w.s.sending + w.s.header == |w.s.outbox| <= u.limit + u.limit / 2
            && (w.s.headerSent ==> Inside(u) && w.s.pos + w.s.len == u.end)
            && (!w.s.headerSent ==> w.wire == [] && w.s.outbox == [])
            && (w.s.closed <==> w.wire == Stream(u) && u.end <= |u.file|)
  {
    hide Step, Enabled;
    OpenedRuns(u, reqLen, filesize);
    RunKeeps(Opened(u, reqLen, filesize), u, events);
    var w := Run(Opened(u, reqLen, filesize), u, events);
    WireIsPrefix(w.s, u, w.wire);
  }

  lemma WireIsPrefix(s: Session, u: Setup, wire: seq<byte>)
    requires Inv(s, u, wire)
    ensures wire <= Stream(u)
    ensures s.sending + s.header == |s.outbox| <= u.limit + u.limit / 2
    ensures s.headerSent ==> Inside(u) && s.pos + s.len == u.end
    ensures !s.headerSent ==> wire == [] && s.outbox == []
    ensures s.closed <==> wire == Stream(u) && u.end <= |u.file|
  {
    if Flowing(s, u, wire) {
      SliceJoin(u.file, u.reqPos, s.pos + s.sending, Last(u));
      var all, rest := wire + s.outbox, u.file[s.pos + s.sending..Last(u)];
      assert Stream(u) == all + rest;
      assert Stream(u)[..|wire|] == wire;
      if s.closed {
        assert s.outbox == [] && rest == [];
        assert wire + [] == wire && all + [] == all;
      } else {
        assert |Stream(u)| == |u.header| + (Last(u) - u.reqPos);
      }
    }
  }

  /** Between events an empty outbox means that nothing is staged: a session under way never waits with
      bytes in hand, and the next data the media task has goes out at once. */
  lemma NeverStalls(w: World, u: Setup, got: seq<byte>)
    requires Running(w, u) && w.s.headerSent && w.s.outbox == [] && Enabled(w, u, Recv(got))
    ensures w.s.staged == [] && !Idle(w.s, u.limit, w.filesize)
    ensures Step(w, u, Recv(got)).s.outbox == got && Step(w, u, Recv(got)).s.staged == []
  {
    assert [] + got == got && got[..|got|] == got;
  }

  // ------------------------------------------------------------------ which requests end

  /** What a transfer in this state is answered when the cache holds all it asks for. */
  function FullAnswer(s: Session, u: Setup): seq<byte> {
    var t := WithHeader(s, u.header);
    var from, n := ReadFrom(t), Wanted(t, u.limit, |u.file|);
    if 0 <= from && 0 <= n && from + n <= |u.file| then u.file[from..from + n] else []
  }

  /** The socket takes the whole outbox, and the cache has everything. */
  function DrainEvent(w: World, u: Setup): Event {
    SocketTook(|w.s.outbox|, FullAnswer(Acknowledge(w.s, |w.s.outbox|), u))
  }

  /** With the whole outbox gone, only the staged bytes are left of what was in hand. */
  lemma Drained(s: Session, u: Setup, wire: seq<byte>)
    requires Inv(s, u, wire) && s.headerSent && !s.closed
    ensures var t := Acknowledge(s, |s.outbox|);
            && t.outbox == [] && t.header == 0 && t.sending == 0 && t.len == s.len - s.sending
            && t.staged == s.staged && t.headerSent && (t.closed <==> t.len == 0)
  {
  }

  /** With an empty outbox the next read asks for at least one byte, unless some are staged. */
  lemma AsksForMore(t: Session, u: Setup, wire: seq<byte>)
    requires Inv(t, u, wire) && Inside(u) && t.outbox == [] && !t.closed && t.len != 0 && u.end <= |u.file|
    requires SafeRange(u) || t.staged == []
    ensures !Idle(t, u.limit, |u.file|)
    ensures var h := WithHeader(t, u.header);
            && 0 <= ReadFrom(h) && 0 <= Wanted(h, u.limit, |u.file|)
            && ReadFrom(h) + Wanted(h, u.limit, |u.file|) <= |u.file|
            && (t.staged == [] ==> 0 < Wanted(h, u.limit, |u.file|))
  {
    hide SafeRange;
    HeaderKeeps(t, u, wire);
    ReadsInside(WithHeader(t, u.header), u, |wire|);
  }

  /** ... and whatever it gets goes out, with what is staged. */
  lemma AnswerPush(t: Session, u: Setup, wire: seq<byte>, got: seq<byte>)
    requires Inv(t, u, wire) && t.headerSent && t.outbox == [] && !t.closed && u.end <= |u.file|
    requires Answers(t, u, |u.file|, got) && Passes(t, u, |u.file|) && (t.staged == [] ==> got != [])
    ensures var v := Transfer(t, u.limit, |u.file|, u.header, got);
            v.staged == [] && v.sending > 0 && v.len == t.len && v.headerSent && !v.closed && v.outbox != []
  {
    hide Carries;
    ReadsInside(t, u, |wire|);
  }

  lemma FullIsAnswer(t: Session, u: Setup)
    requires var h := WithHeader(t, u.header);
             && 0 <= ReadFrom(h) && 0 <= Wanted(h, u.limit, |u.file|)
             && ReadFrom(h) + Wanted(h, u.limit, |u.file|) <= |u.file|
    ensures Answers(t, u, |u.file|, FullAnswer(t, u))
    ensures |FullAnswer(t, u)| == Wanted(WithHeader(t, u.header), u.limit, |u.file|)
  {
    hide Wanted;
  }

  /** The socket takes everything and the cache has all that is asked for: the rest shrinks by what was in
      the outbox, and the outbox is filled again unless nothing is left. */
  lemma DrainStep(w: World, u: Setup)
    requires Running(w, u) && w.filesize == |u.file| && w.s.headerSent && !w.s.closed && u.end <= |u.file|
    requires SafeRange(u) || w.s.staged == []
    ensures Enabled(w, u, DrainEvent(w, u))
    ensures var v := Step(w, u, DrainEvent(w, u));
            && v.filesize == |u.file| && v.s.headerSent && v.s.staged == []
            && v.s.len == w.s.len - w.s.sending && (v.s.closed || v.s.sending > 0)
  {
    hide Inv, Answers, Passes, Acknowledge, SafeRange, Transfer, FullAnswer;
    var n, wire := |w.s.outbox|, w.wire + w.s.outbox[..|w.s.outbox|];
    var t := Acknowledge(w.s, n);
    AcknowledgeKeeps(w.s, u, w.wire, n);
    NotClosing(w.s, u, w.wire);
    Drained(w.s, u, w.wire);
    Underway(w, u);
    if t.closed {
      ClosedIsDone(w.s, n);
      IdlePasses(t, u, w.filesize, FullAnswer(t, u));
      NothingLeft(w.s, n, u, wire);
    } else {
      SafePasses(t, u, wire, w.filesize);
      AsksForMore(t, u, wire);
      FullIsAnswer(t, u);
      AnswerPush(t, u, wire, FullAnswer(t, u));
    }
  }

  /** Where nothing is transferred, nothing is answered and nothing can fail. */
  lemma IdlePasses(s: Session, u: Setup, filesize: int, got: seq<byte>)
    requires Idle(s, u.limit, filesize)
    ensures Passes(s, u, filesize) && Answers(s, u, filesize, got)
  {
  }

  lemma Underway(w: World, u: Setup)
    requires Running(w, u) && w.s.headerSent
    ensures Inside(u) && w.s.len >= 0 && (w.s.closed <==> w.s.len == 0)
  {
  }

  /** From every state under way whose request the file can answer, a run of at most one event for each byte
      that is left, and two more, closes the session. */
  lemma {:induction false} UnderwayFinishes(w: World, u: Setup) returns (events: seq<Event>)
    requires Running(w, u) && w.filesize == |u.file| && w.s.headerSent && !w.s.closed && u.end <= |u.file|
    requires SafeRange(u) || w.s.staged == []
    ensures EnabledRun(w, u, events) && Run(w, u, events).s.closed
    ensures |events| <= w.s.len + if w.s.sending > 0 then 1 else 2
    decreases w.s.len, w.s.sending == 0
  {
    hide Running, Enabled, Step, SafeRange, DrainEvent;
    Underway(w, u);
    DrainStep(w, u);
    var e := DrainEvent(w, u);
    var v := Step(w, u, e);
    events := [e];
    if !v.s.closed {
      StepKeeps(w, u, e);
      Underway(v, u);
      var more := UnderwayFinishes(v, u);
      events := [e] + more;
    }
  }

  /** The socket takes everything, and the transfer gets a byte or more unless some are staged: what was in
      the outbox is on the wire, and the outbox is filled again unless the session closes. */
  lemma Advances(w: World, u: Setup, got: seq<byte>)
    requires Running(w, u) && w.filesize == |u.file| && !w.s.closed && Inside(u) && u.end <= |u.file|
    requires Enabled(w, u, SocketTook(|w.s.outbox|, got))
    requires var t := Acknowledge(w.s, |w.s.outbox|); !t.closed && t.staged == [] ==> got != []
    ensures var v := Step(w, u, SocketTook(|w.s.outbox|, got));
            v.wire == w.wire + w.s.outbox && (v.s.closed || v.s.outbox != [])
  {
    hide Inv, Answers, Passes, Acknowledge, Transfer;
    var n, wire := |w.s.outbox|, w.wire + w.s.outbox[..|w.s.outbox|];
    assert w.s.outbox[..n] == w.s.outbox;
    var t := Acknowledge(w.s, n);
    AcknowledgeKeeps(w.s, u, w.wire, n);
    AcknowledgeHeader(w.s, n);
    NotClosing(w.s, u, w.wire);
    if w.s.headerSent {
      Drained(w.s, u, w.wire);
      Underway(w, u);
      if !t.closed {
        AnswerPush(t, u, wire, got);
      }
    } else {
      HeaderFirst(t, u, wire, got);
    }
  }

  lemma HeaderFirst(t: Session, u: Setup, wire: seq<byte>, got: seq<byte>)
    requires Inv(t, u, wire) && !t.headerSent && t.len != 0 && u.file != []
    ensures Transfer(t, u.limit, |u.file|, u.header, got).outbox != []
  {
  }

  /** When the socket has taken everything, the session closes or its next read asks for more. */
  lemma NextRead(w: World, u: Setup)
    requires Running(w, u) && w.filesize == |u.file| && !w.s.closed && Inside(u) && u.end <= |u.file|
    requires SafeRange(u)
    ensures var t := Acknowledge(w.s, |w.s.outbox|);
            if t.closed then Idle(t, u.limit, |u.file|)
            else
              var h := WithHeader(t, u.header);
              && !Idle(t, u.limit, |u.file|) && 0 <= ReadFrom(h) && 0 <= Wanted(h, u.limit, |u.file|)
              && ReadFrom(h) + Wanted(h, u.limit, |u.file|) <= |u.file|
              && (t.staged == [] ==> 0 < Wanted(h, u.limit, |u.file|))
  {
    hide Inv, Acknowledge, SafeRange, Wanted, ReadFrom;
    var t := Acknowledge(w.s, |w.s.outbox|);
    AcknowledgeKeeps(w.s, u, w.wire, |w.s.outbox|);
    AcknowledgeHeader(w.s, |w.s.outbox|);
    NotClosing(w.s, u, w.wire);
    ClosedIsDone(w.s, |w.s.outbox|);
    TakenAll(w.s);
    if w.s.headerSent {
      Drained(w.s, u, w.wire);
    }
    if !t.closed {
      AsksForMore(t, u, w.wire + w.s.outbox[..|w.s.outbox|]);
    }
  }

  lemma TakenAll(s: Session)
    ensures Acknowledge(s, |s.outbox|).outbox == []
  {
  }

  lemma TwoEvents(w: World, u: Setup, e0: Event, e1: Event)
    requires Enabled(w, u, e0) && Enabled(Step(w, u, e0), u, e1)
    ensures EnabledRun(w, u, [e0, e1]) && Run(w, u, [e0, e1]) == Step(Step(w, u, e0), u, e1)
  {
    hide Enabled, Step;
    var events := [e0, e1];
    assert events[1..] == [e1] && events[1..][1..] == [];
    assert EnabledRun(Step(w, u, e0), u, events[1..]);
    assert Run(Step(w, u, e0), u, events[1..]) == Step(Step(w, u, e0), u, e1);
    assert events[0] == e0 && EnabledRun(w, u, events);
  }

  /** The size arrives, if it has not, and a transfer that finds nothing cached sends the header. */
  lemma HeaderGoesOut(w: World, u: Setup)
    requires Running(w, u) && !w.s.headerSent && !w.s.closed && Inside(u) && u.end <= |u.file|
    ensures var events := [SizeKnown, Recv([])];
            && EnabledRun(w, u, events)
            && var v := Run(w, u, events);
               && Running(v, u) && v.filesize == |u.file| && v.s.headerSent && !v.s.closed
               && v.s.staged == [] && v.s.len == u.end - u.reqPos
  {
    var v := Step(w, u, SizeKnown);
    StepKeeps(w, u, SizeKnown);
    HeaderAlone(v, u);
    TwoEvents(w, u, SizeKnown, Recv([]));
    StepKeeps(v, u, Recv([]));
  }

  lemma HeaderAlone(w: World, u: Setup)
    requires Running(w, u) && !w.s.headerSent && !w.s.closed && Inside(u) && u.end <= |u.file|
    requires w.filesize == |u.file| && w.s.len != 0
    ensures Enabled(w, u, Recv([]))
    ensures var v := Step(w, u, Recv([]));
            v.s.headerSent && !v.s.closed && v.s.staged == [] && v.s.len == u.end - u.reqPos
  {
    SafePasses(w.s, u, w.wire, w.filesize);
    HeaderKeeps(w.s, u, w.wire);
    ReadsInside(WithHeader(w.s, u.header), u, |w.wire|);
  }

  lemma {:induction false} RunJoins(w: World, u: Setup, first: seq<Event>, later: seq<Event>)
    requires EnabledRun(w, u, first) && EnabledRun(Run(w, u, first), u, later)
    ensures EnabledRun(w, u, first + later) && Run(w, u, first + later) == Run(Run(w, u, first), u, later)
    decreases first
  {
    hide Enabled, Step;
    if first == [] {
      assert first + later == later;
    } else {
      RunJoins(Step(w, u, first[0]), u, first[1..], later);
      assert (first + later)[0] == first[0] && (first + later)[1..] == first[1..] + later;
    }
  }

  /** From every reachable state of a request the file can answer, some run of bounded length closes the
      session: of a safe request always, of any other as long as nothing is staged. */
  lemma Finishes(w: World, u: Setup) returns (events: seq<Event>)
    requires Running(w, u) && !w.s.closed && Inside(u) && u.end <= |u.file| && (SafeRange(u) || w.s.staged == [])
    ensures EnabledRun(w, u, events) && Run(w, u, events).s.closed && |events| <= u.end - u.reqPos + 4
  {
    hide Enabled, Step, SafeRange, Inv, Run, EnabledRun;
    if w.s.headerSent {
      SizeIsKnown(w, u);
      events := UnderwayFinishes(w, u);
    } else {
      HeaderGoesOut(w, u);
      var first := [SizeKnown, Recv([])];
      var later := UnderwayFinishes(Run(w, u, first), u);
      RunJoins(w, u, first, later);
      events := first + later;
    }
  }

  lemma SizeIsKnown(w: World, u: Setup)
    requires Running(w, u) && w.s.headerSent
    ensures w.filesize == |u.file| && w.s.len <= u.end - u.reqPos
  {
  }

  /** Some run of a request closes its session if and only if the file has all of the range. */
  lemma ClosesIff(u: Setup, reqLen: int, filesize: int)
    requires Request(u, reqLen, filesize)
    ensures var w := Opened(u, reqLen, filesize);
            (exists events :: EnabledRun(w, u, events) && Run(w, u, events).s.closed)
            <==> 0 <= u.reqPos < u.end <= |u.file|
  {
    hide EnabledRun, Run, SafeRange, Running, Stream;
    var w := Opened(u, reqLen, filesize);
    OpenedRuns(u, reqLen, filesize);
    if Inside(u) && u.end <= |u.file| {
      var events := Finishes(w, u);
    } else {
      forall events | EnabledRun(w, u, events)
        ensures !Run(w, u, events).s.closed
      {
        if Run(w, u, events).s.closed {
          SessionDelivers(u, reqLen, filesize, events);
          ClosedHasSent(w, u, events);
        }
      }
    }
  }

  lemma ClosedHasSent(w: World, u: Setup, events: seq<Event>)
    requires Running(w, u) && EnabledRun(w, u, events) && Run(w, u, events).s.closed
    ensures Inside(u)
  {
    hide Running, EnabledRun, Run;
    RunKeeps(w, u, events);
    ClosedInside(Run(w, u, events), u);
  }

  lemma ClosedInside(w: World, u: Setup)
    requires Running(w, u) && w.s.closed
    ensures Inside(u) && w.filesize == |u.file|
  {
  }

  // ------------------------------------------------------------------ Range headers

  /** A session as `ms_session_open` opens it for a header in which `count` numbers were read. */
  function OpenedFor(count: int, first: int, last: int, filesize: int): World
    requires RequestOf(count, first, last).Some?
  {
    var r := RequestOf(count, first, last).value;
    World(Open(r.0, r.1, filesize), [], filesize)
  }

  /** `out` is all that any run of a session may send: every run sends a prefix of it and closes exactly with
      all of it, and some run does close. */
  ghost predicate Serves(w: World, u: Setup, out: seq<byte>) {
    && (forall events | EnabledRun(w, u, events) ::
          Run(w, u, events).wire <= out && (Run(w, u, events).s.closed <==> Run(w, u, events).wire == out))
    && exists events :: EnabledRun(w, u, events) && Run(w, u, events).s.closed
  }

  lemma RequestServed(u: Setup, reqLen: int, filesize: int)
    requires Request(u, reqLen, filesize) && Inside(u) && u.end <= |u.file|
    ensures Serves(Opened(u, reqLen, filesize), u, u.header + u.file[u.reqPos..u.end])
  {
    hide EnabledRun, Run;
    var w := Opened(u, reqLen, filesize);
    forall events | EnabledRun(w, u, events)
      ensures Run(w, u, events).wire <= Stream(u)
      ensures Run(w, u, events).s.closed <==> Run(w, u, events).wire == Stream(u)
    {
      SessionDelivers(u, reqLen, filesize, events);
    }
    ClosesIff(u, reqLen, filesize);
  }

  /** A header `bytes=first-last` is served the bytes from `first` to `last`, the last one included. */
  lemma FirstToLastServed(first: nat, last: nat, file: seq<byte>, header: seq<byte>, limit: nat, filesize: int)
    requires first <= last < |file| && 0 < |header| <= limit / 2 && filesize in {0, |file|}
    ensures RequestOf(2, first, last).Some?
    ensures Serves(OpenedFor(2, first, last, filesize), Setup(file, header, limit, first, last + 1),
                   header + (file[first..last] + [file[last]]))
  {
    hide Serves;
    RequestServed(Setup(file, header, limit, first, last + 1), last - first + 1, filesize);
    assert file[first..last] + [file[last]] == file[first..last + 1];
  }

  /** A header `bytes=first-` is served all bytes from `first` on. */
  lemma FirstOnServed(first: nat, file: seq<byte>, header: seq<byte>, limit: nat, filesize: int)
    requires first < |file| && 0 < |header| <= limit / 2 && filesize in {0, |file|}
    ensures RequestOf(1, first, 0).Some?
    ensures Serves(OpenedFor(1, first, 0, filesize), Setup(file, header, limit, first, |file|), header + file[first..])
  {
    hide Serves;
    RequestServed(Setup(file, header, limit, first, |file|), 0, filesize);
    assert file[first..|file|] == file[first..];
  }

  /** Without a Range header the whole file is served. */
  lemma WholeFileServed(file: seq<byte>, header: seq<byte>, limit: nat, filesize: int)
    requires file != [] && 0 < |header| <= limit / 2 && filesize in {0, |file|}
    ensures RequestOf(0, 0, 0).Some?
    ensures Serves(OpenedFor(0, 0, 0, filesize), Setup(file, header, limit, 0, |file|), header + file)
  {
    hide Serves;
    RequestServed(Setup(file, header, limit, 0, |file|), 0, filesize);
    assert file[0..|file|] == file;
  }

  /** A header that ends one byte in front of its first one is taken for one without an end. */
  lemma EmptyRangeIsOpen(first: nat)
    requires 0 < first
    ensures RequestOf(2, first, first - 1) == RequestOf(1, first, 0)
  {
  }

  /** A header whose last byte lies more than one in front of its first is refused by an assert. */
  lemma BackwardRefused(first: nat, last: nat)
    ensures RequestOf(2, first, last).None? <==> last + 1 < first
  {
  }

  // ------------------------------------------------------------------ requests the file cannot answer

  /** A range that ends behind the file: once all the file has is sent, no event changes anything. */
  lemma PastEndWaits(w: World, u: Setup, e: Event)
    requires Running(w, u) && w.s.headerSent && w.s.outbox == [] && w.s.pos == |u.file| < u.end
    requires Enabled(w, u, e)
    ensures Step(w, u, e) == w && !w.s.closed
  {
  }

  /** An open-ended request at the exact end of the file gets no answer in any run, not even a header. */
  lemma ExactEndSilent(file: seq<byte>, header: seq<byte>, limit: nat, filesize: int, events: seq<Event>)
    requires 0 < |header| <= limit / 2 && filesize in {0, |file|}
    requires var u := Setup(file, header, limit, |file|, |file|); EnabledRun(Opened(u, 0, filesize), u, events)
    ensures var u := Setup(file, header, limit, |file|, |file|);
            var w := Run(Opened(u, 0, filesize), u, events);
            w.wire == [] && w.s.outbox == [] && !w.s.headerSent && !w.s.closed
  {
    hide Step, Enabled;
    SessionDelivers(Setup(file, header, limit, |file|, |file|), 0, filesize, events);
  }

  // ------------------------------------------------------------------ HEAD

  /** A HEAD: the socket takes the outbox in any portions. */
  function TakeAll(s: Session, u: Setup, portions: seq<nat>): (Session, seq<byte>)
    decreases portions
  {
    if portions == [] || portions[0] > |s.outbox| then (s, [])
    else
      var r := TakeAll(HeadSent(s, portions[0], u.limit, |u.file|, u.header), u, portions[1..]);
      (r.0, s.outbox[..portions[0]] + r.1)
  }

  lemma {:induction false} ClosingDrains(s: Session, u: Setup, portions: seq<nat>)
    requires s.closing
    ensures var r := TakeAll(s, u, portions); r.1 + r.0.outbox == s.outbox && r.0.sending == s.sending && r.0.closing
    decreases portions
  {
    hide Acknowledge, HeadTransfer;
    if portions != [] && portions[0] <= |s.outbox| {
      var n := portions[0];
      var t := s.(outbox := s.outbox[n..]);
      assert HeadSent(s, n, u.limit, |u.file|, u.header) == t;
      ClosingDrains(t, u, portions[1..]);
      Rejoined(s.outbox, n, TakeAll(t, u, portions[1..]).1, TakeAll(t, u, portions[1..]).0.outbox);
    } else {
      assert [] + s.outbox == s.outbox;
    }
  }

  lemma Rejoined(all: seq<byte>, n: nat, taken: seq<byte>, left: seq<byte>)
    requires n <= |all| && taken + left == all[n..]
    ensures all[..n] + taken + left == all
  {
    assert all[..n] + taken + left == all[..n] + (taken + left);
  }

  /** A HEAD sends the header and nothing else, and its connection is to close behind it. */
  lemma HeadSendsHeader(u: Setup, reqLen: int, portions: seq<nat>)
    requires Request(u, reqLen, |u.file|) && u.file != [] && u.reqPos != u.end
    ensures var s := HeadTransfer(Open(u.reqPos, reqLen, |u.file|), u.limit, |u.file|, u.header);
            var r := TakeAll(s, u, portions);
            r.1 + r.0.outbox == u.header && r.0.sending == 0 && r.0.closing
  {
    var s := HeadTransfer(Open(u.reqPos, reqLen, |u.file|), u.limit, |u.file|, u.header);
    assert [] + u.header == u.header;
    ClosingDrains(s, u, portions);
  }

  // ------------------------------------------------------------------ which requests can fail

  /** The transfer that event `e` makes next has fault `f`. */
  ghost predicate FailsNow(w: World, u: Setup, e: Event, f: Fault) {
    Possible(w, e) && !e.SizeKnown? && Fails(Trying(w, e), u, w.filesize, f)
  }

  /** The run reaches a transfer with fault `f` in event `e`. */
  ghost predicate FailsAt(w: World, u: Setup, events: seq<Event>, e: Event, f: Fault) {
    EnabledRun(w, u, events) && FailsNow(Run(w, u, events), u, e, f)
  }

  lemma FailsLater(w: World, u: Setup, e0: Event, events: seq<Event>, e: Event, f: Fault)
    requires Enabled(w, u, e0) && FailsAt(Step(w, u, e0), u, events, e, f)
    ensures FailsAt(w, u, [e0] + events, e, f)
  {
    hide Enabled, FailsNow, Step;
    assert ([e0] + events)[0] == e0 && ([e0] + events)[1..] == events;
  }

  /** A session in the middle of a range, with `sending` body bytes after `header` header bytes in the outbox. */
  function Midway(u: Setup, sending: nat, header: nat, staged: seq<byte>, outbox: seq<byte>): Session {
    Session(u.reqPos, u.end - u.reqPos, sending, header, u.reqPos, u.end - u.reqPos, staged, outbox, true, false, false)
  }

  /** With bytes staged, the outbox gone and less than a limit left, the next transfer fails. */
  lemma EmptiedFails(w: World, u: Setup)
    requires SetupOk(u) && Inside(u) && u.end < |u.file| && w.filesize == |u.file|
    requires w.s == Midway(u, w.s.sending, w.s.header, w.s.staged, w.s.outbox)
    requires w.s.sending + w.s.header == |w.s.outbox| && w.s.staged != [] && |w.s.staged| <= u.limit
    requires w.s.sending + |w.s.staged| <= u.end - u.reqPos < w.s.sending + u.limit
    ensures FailsAt(w, u, [], SocketTook(|w.s.outbox|, []), RangeAssert)
  {
    var e := SocketTook(|w.s.outbox|, []);
    var t := Acknowledge(w.s, |w.s.outbox|);
    assert t.pos == u.reqPos + w.s.sending && t.len == u.end - t.pos;
    assert t.sending == 0 && t.outbox == [] && t.header == 0;
    RangeAssertsIff(t, u.limit, |u.file|);
    assert FailsNow(w, u, e, RangeAssert);
  }

  /** The first transfer of a range, when `got` is read. */
  lemma FirstTransfer(u: Setup, got: seq<byte>)
    requires SetupOk(u) && Inside(u) && 0 < |got| <= u.limit && |got| <= Last(u) - u.reqPos
    requires got == u.file[u.reqPos..u.reqPos + |got|]
    ensures var w, n := Opened(u, u.end - u.reqPos, |u.file|), |got|;
            var out := if n + |u.header| > u.limit then n - |u.header| else n;
            && 0 <= out && Enabled(w, u, Recv(got))
            && Step(w, u, Recv(got))
               == World(Midway(u, out, |u.header|, got[out..], u.header + got[..out]), [], |u.file|)
  {
    hide Push;
    var s := WithHeader(Open(u.reqPos, u.end - u.reqPos, |u.file|), u.header);
    assert [] + u.header == u.header;
    FirstPush(s, u.limit, got);
  }

  lemma FirstPush(s: Session, limit: nat, got: seq<byte>)
    requires s.staged == [] && got != []
    ensures var n := if |got| + s.header > limit then |got| - s.header else |got|;
            0 <= n ==>
              Push(s, limit, got) == s.(outbox := s.outbox + got[..n], sending := s.sending + n, staged := got[n..])
  {
    assert [] + got == got;
  }

  /** One such request: 10 bytes of a file of 5. The header promises 10, and the session waits forever. */
  lemma PastEndSticks(e: Event)
    ensures var file: seq<byte> := [0, 1, 2, 3, 4];
            var u := Setup(file, [72, 72], 20, 0, 10);
            var events := [Recv(file), SocketTook(7, [])];
            && EnabledRun(Opened(u, 10, 5), u, events)
            && var w := Run(Opened(u, 10, 5), u, events);
               && w.wire == [72, 72] + file && w.s.outbox == [] && w.s.len == 5 && !w.s.closed
               && (Enabled(w, u, e) ==> Step(w, u, e) == w)
  {
    hide Step, Enabled, Opened, Push;
    var file: seq<byte> := [0, 1, 2, 3, 4];
    var u := Setup(file, [72, 72], 20, 0, 10);
    var w, events := Opened(u, 10, 5), [Recv(file), SocketTook(7, [])];
    FirstTransfer(u, file);
    var v := World(Midway(u, 5, 2, [], [72, 72] + file), [], 5);
    assert Step(w, u, Recv(file)) == v by {
      assert file[..5] == file && file[5..] == [];
    }
    LastTaken(u, v);
    TwoEvents(w, u, Recv(file), SocketTook(7, []));
    OpenedRuns(u, 10, 5);
    RunKeeps(w, u, events);
    if Enabled(Run(w, u, events), u, e) {
      PastEndWaits(Run(w, u, events), u, e);
    }
  }

  /** Everything the file has leaves the outbox of a request that goes on behind the file. */
  lemma LastTaken(u: Setup, w: World)
    requires SetupOk(u) && Inside(u) && |u.file| < u.end && u.file != [] && w.filesize == |u.file| && w.wire == []
    requires w.s == Midway(u, |u.file| - u.reqPos, |u.header|, [], w.s.outbox)
    requires |w.s.outbox| == |u.header| + |u.file| - u.reqPos && 0 <= |u.header| + |u.file| - u.reqPos
    ensures var e, v := SocketTook(|w.s.outbox|, []), Session(|u.file|, u.end - |u.file|, 0, 0, u.reqPos,
                                                              u.end - u.reqPos, [], [], true, false, false);
            Enabled(w, u, e) && Step(w, u, e) == World(v, w.s.outbox, |u.file|)
  {
    var t := Acknowledge(w.s, |w.s.outbox|);
    assert ReadFrom(t) == |u.file| && Wanted(t, u.limit, |u.file|) == 0;
    assert t.staged + [] == [];
    assert [] + w.s.outbox[..|w.s.outbox|] == w.s.outbox;
  }

  /** A range below two limits less the header: the first transfer leaves a header's worth staged. */
  lemma ShortRangeFails(u: Setup) returns (events: seq<Event>, e: Event)
    requires SetupOk(u) && Inside(u) && u.end < |u.file|
    requires u.limit < u.end - u.reqPos + |u.header| && u.end - u.reqPos + |u.header| < 2 * u.limit
    ensures FailsAt(Opened(u, u.end - u.reqPos, |u.file|), u, events, e, RangeAssert)
  {
    hide Step, Enabled, Opened, FailsAt;
    var g := Min(u.end - u.reqPos, u.limit);
    var got := u.file[u.reqPos..u.reqPos + g];
    FirstTransfer(u, got);
    var w := Opened(u, u.end - u.reqPos, |u.file|);
    var v := Step(w, u, Recv(got));
    EmptiedFails(v, u);
    e := SocketTook(|v.s.outbox|, []);
    events := [Recv(got)] + [];
    FailsLater(w, u, Recv(got), [], e, RangeAssert);
  }

  /** The transfer made when all but one byte of the header have left behind half a limit of data. */
  lemma SecondTransfer(u: Setup, w: World, got: seq<byte>)
    requires SetupOk(u) && Inside(u) && u.end <= |u.file| && w.filesize == |u.file|
    requires var a := u.limit / 2;
             && |w.s.outbox| == |u.header| + a && w.s == Midway(u, a, |u.header|, [], w.s.outbox)
             && a + u.limit <= u.end - u.reqPos
             && got == u.file[u.reqPos + a..u.reqPos + a + u.limit]
    ensures var e, a := SocketTook(|u.header| - 1, got), u.limit / 2;
            && Enabled(w, u, e)
            && Step(w, u, e).s == Midway(u, a + u.limit - 1, 1, got[u.limit - 1..],
                                         w.s.outbox[|u.header| - 1..] + got[..u.limit - 1])
            && Step(w, u, e).filesize == |u.file|
  {
    hide Push;
    var t := Acknowledge(w.s, |u.header| - 1);
    assert t == Midway(u, u.limit / 2, 1, [], w.s.outbox[|u.header| - 1..]);
    assert ReadFrom(t) == u.reqPos + u.limit / 2 && Wanted(t, u.limit, |u.file|) == u.limit;
    FirstPush(t, u.limit, got);
  }

  /** A longer one: the second transfer leaves one byte staged, with almost 1.5 limits handed out. */
  lemma LongRangeFails(u: Setup) returns (events: seq<Event>, e: Event)
    requires SetupOk(u) && Inside(u) && u.end < |u.file|
    requires 2 * u.limit <= u.end - u.reqPos + |u.header| && u.end - u.reqPos < 2 * u.limit + u.limit / 2 - 1
    ensures FailsAt(Opened(u, u.end - u.reqPos, |u.file|), u, events, e, RangeAssert)
  {
    hide Step, Enabled, Opened, FailsAt;
    var a := u.limit / 2;
    var got, more := u.file[u.reqPos..u.reqPos + a], u.file[u.reqPos + a..u.reqPos + a + u.limit];
    FirstTransfer(u, got);
    assert got[..a] == got && got[a..] == [];
    var w := Opened(u, u.end - u.reqPos, |u.file|);
    var v := Step(w, u, Recv(got));
    SecondTransfer(u, v, more);
    var took := SocketTook(|u.header| - 1, more);
    var x := Step(v, u, took);
    EmptiedFails(x, u);
    e := SocketTook(|x.s.outbox|, []);
    FailsLater(v, u, took, [], e, RangeAssert);
    FailsLater(w, u, Recv(got), [took] + [], e, RangeAssert);
    events := [Recv(got)] + ([took] + []);
  }

  /** The invariant holds where an event tries its transfer, too. */
  lemma TryingKeeps(w: World, u: Setup, e: Event) returns (wire: seq<byte>)
    requires Running(w, u) && Possible(w, e) && !e.SizeKnown?
    ensures Inv(Trying(w, e), u, wire)
    ensures Trying(w, e).closed ==> Trying(w, e).len == 0
  {
    hide Inv, Acknowledge;
    wire := w.wire;
    if e.SocketTook? {
      AcknowledgeKeeps(w.s, u, w.wire, e.n);
      ClosedIsDone(w.s, e.n);
      wire := w.wire + w.s.outbox[..e.n];
    }
  }

  /** A transfer is bad only outside the file, and fails its range assert only in an unsafe range. */
  lemma FaultOf(w: World, u: Setup, e: Event, f: Fault)
    requires Running(w, u) && FailsNow(w, u, e, f)
    ensures if f.BadRead? then u.file != [] && !(0 <= u.reqPos <= |u.file|) else Inside(u) && !SafeRange(u)
  {
    hide Inv, Acknowledge, SafeRange, Faulty;
    var t := Trying(w, e);
    var wire := TryingKeeps(w, u, e);
    if Inside(u) {
      SafePasses(t, u, wire, w.filesize);
    } else {
      OutsideFails(t, u, wire, w.filesize);
    }
  }

  lemma FaultOfRun(u: Setup, reqLen: int, filesize: int, events: seq<Event>, e: Event, f: Fault)
    requires Request(u, reqLen, filesize) && FailsAt(Opened(u, reqLen, filesize), u, events, e, f)
    ensures if f.BadRead? then u.file != [] && !(0 <= u.reqPos <= |u.file|) else Inside(u) && !SafeRange(u)
  {
    hide Running, SafeRange, Step, FailsNow, Enabled, Trying;
    OpenedRuns(u, reqLen, filesize);
    RunKeeps(Opened(u, reqLen, filesize), u, events);
    var w := Run(Opened(u, reqLen, filesize), u, events);
    FaultOf(w, u, e, f);
  }

  /** ... so that its next transfer passes, whatever the socket takes. */
  lemma SafeTaking(w: World, u: Setup, n: nat)
    requires Running(w, u) && Inside(u) && SafeRange(u) && !w.s.closed && n <= |w.s.outbox|
    ensures Passes(Acknowledge(w.s, n), u, w.filesize)
  {
    hide Running, SafeRange, Fails, Acknowledge;
    var e := SocketTook(n, []);
    if Fails(Trying(w, e), u, w.filesize, RangeAssert) {
      FaultOf(w, u, e, RangeAssert);
    }
    if Fails(Trying(w, e), u, w.filesize, BadRead) {
      FaultOf(w, u, e, BadRead);
    }
  }

  /** A safe request for something inside the file reaches no fault at all. */
  lemma SafeNeverFails(u: Setup, reqLen: int, filesize: int, events: seq<Event>, e: Event, f: Fault)
    requires Request(u, reqLen, filesize) && Inside(u) && SafeRange(u)
    ensures !FailsAt(Opened(u, reqLen, filesize), u, events, e, f)
  {
    hide SafeRange, FailsAt;
    if FailsAt(Opened(u, reqLen, filesize), u, events, e, f) {
      FaultOfRun(u, reqLen, filesize, events, e, f);
    }
  }

  /** A size that is announced late makes no difference to what can fail. */
  lemma SizeFirst(u: Setup, reqLen: int, events: seq<Event>, e: Event, f: Fault)
    requires EndOk(u, reqLen) && FailsAt(Opened(u, reqLen, |u.file|), u, events, e, f)
    ensures FailsAt(Opened(u, reqLen, 0), u, [SizeKnown] + events, e, f)
  {
    hide FailsAt;
    FailsLater(Opened(u, reqLen, 0), u, SizeKnown, events, e, f);
  }

  /**
   * Which requests can reach a failing range assert: those for a range of R bytes that ends before the
   * file does, with `limit - |header| < R < 2 * limit + limit / 2 - 1`, and no others.
   */
  lemma RangeFailsIff(u: Setup, reqLen: int, filesize: int)
    requires Request(u, reqLen, filesize)
    ensures (exists events, e :: FailsAt(Opened(u, reqLen, filesize), u, events, e, RangeAssert))
       <==> && 0 <= u.reqPos && u.end < |u.file|
            && u.limit - |u.header| < u.end - u.reqPos < 2 * u.limit + u.limit / 2 - 1
  {
    hide FailsAt, Opened;
    if Inside(u) && !SafeRange(u) {
      var events, e;
      if u.end - u.reqPos + |u.header| < 2 * u.limit {
        events, e := ShortRangeFails(u);
      } else {
        events, e := LongRangeFails(u);
      }
      if filesize == 0 {
        SizeFirst(u, reqLen, events, e, RangeAssert);
        events := [SizeKnown] + events;
      }
      assert FailsAt(Opened(u, reqLen, filesize), u, events, e, RangeAssert);
    } else {
      forall events, e
        ensures !FailsAt(Opened(u, reqLen, filesize), u, events, e, RangeAssert)
      {
        if FailsAt(Opened(u, reqLen, filesize), u, events, e, RangeAssert) {
          FaultOfRun(u, reqLen, filesize, events, e, RangeAssert);
        }
      }
    }
  }

  /** A request from in front of the file or from behind its end makes a bad read in its first transfer. */
  lemma OutsideReadFails(u: Setup, reqLen: int)
    requires Request(u, reqLen, |u.file|) && u.file != [] && !(0 <= u.reqPos <= |u.file|)
    ensures FailsAt(Opened(u, reqLen, |u.file|), u, [], Recv([]), BadRead)
  {
  }

  /**
   * Which requests can make a read that starts in front of the file or has a negative length: those that
   * start in front of the file or behind its end, and no others.
   */
  lemma BadReadIff(u: Setup, reqLen: int, filesize: int)
    requires Request(u, reqLen, filesize)
    ensures (exists events, e :: FailsAt(Opened(u, reqLen, filesize), u, events, e, BadRead))
       <==> u.file != [] && !(0 <= u.reqPos <= |u.file|)
  {
    hide FailsAt, Opened;
    if u.file != [] && !(0 <= u.reqPos <= |u.file|) {
      OutsideReadFails(u, reqLen);
      if filesize == 0 {
        SizeFirst(u, reqLen, [], Recv([]), BadRead);
        assert FailsAt(Opened(u, reqLen, filesize), u, [SizeKnown] + [], Recv([]), BadRead);
      } else {
        assert FailsAt(Opened(u, reqLen, filesize), u, [], Recv([]), BadRead);
      }
    } else {
      forall events, e
        ensures !FailsAt(Opened(u, reqLen, filesize), u, events, e, BadRead)
      {
        if FailsAt(Opened(u, reqLen, filesize), u, events, e, BadRead) {
          FaultOfRun(u, reqLen, filesize, events, e, BadRead);
        }
      }
    }
  }

  /** One such request: 10 bytes from offset 100 of a file of 5. The read is for -95 bytes, and because it
      ends at the end of the file, neither the range assert nor that of `storage_read` notices. */
  lemma BehindEndFails()
    ensures var file: seq<byte> := [0, 1, 2, 3, 4];
            var u := Setup(file, [72, 72], 20, 100, 110);
            var t := WithHeader(Open(100, 10, 5), u.header);
            && FailsAt(Opened(u, 10, 5), u, [], Recv([]), BadRead)
            && Wanted(t, 20, 5) == -95 && ReadFrom(t) + Wanted(t, 20, 5) == 5 && RangeAsserts(t, 20, 5)
  {
  }

  /** A Range header for the last `k` bytes (RFC 7233, section 2.1) is taken for the position -k, and makes a
      bad read on every file that is not empty. */
  lemma SuffixFails(k: int, file: seq<byte>, header: seq<byte>, limit: nat, filesize: int)
    requires 0 < k && file != [] && 0 < |header| <= limit / 2 && filesize in {0, |file|}
    ensures RequestOf(1, -k, 0) == Some((-k, 0))
    ensures var u := Setup(file, header, limit, -k, |file|);
            exists events, e :: FailsAt(Opened(u, 0, filesize), u, events, e, BadRead)
  {
    hide FailsAt, Opened;
    BadReadIff(Setup(file, header, limit, -k, |file|), 0, filesize);
  }

  /** One such request: limit 4, a 2-byte header, 5 of 10 bytes wanted. */
  lemma RangeAssertCanFail()
    ensures var file: seq<byte> := [0, 1, 2, 3, 4, 5, 6, 7, 8, 9];
            var u := Setup(file, [72, 72], 4, 0, 5);
            FailsAt(Opened(u, 5, 10), u, [Recv(file[0..4])], SocketTook(4, []), RangeAssert)
  {
    hide Step, Enabled, Opened, FailsAt;
    var file: seq<byte> := [0, 1, 2, 3, 4, 5, 6, 7, 8, 9];
    var u, got := Setup(file, [72, 72], 4, 0, 5), file[0..4];
    FirstTransfer(u, got);
    var w := Opened(u, 5, 10);
    var v := Step(w, u, Recv(got));
    EmptiedFails(v, u);
    FailsLater(w, u, Recv(got), [], SocketTook(4, []), RangeAssert);
    assert [Recv(got)] + [] == [Recv(got)];
  }
}
