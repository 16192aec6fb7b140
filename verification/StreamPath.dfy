/**
 * The streaming path as one system: pipes bring the file in fragments, the cache keeps and evicts
 * pieces, sessions send what they read from it. No interleaving sends a client anything but the file,
 * and from every reachable state the clients with a safe request can be served to the end.
 */
module StreamPath {
  import opened Bytes
  import opened CacheModel
  import opened CacheFacts
  import CacheRuns
  import P = HttpPipe
  import PR = HttpPipeRuns
  import opened SessionModel
  import SR = SessionRuns
  import T = Task

  /** A pipe as it was opened, and the body fragments upstream has sent it since. */
  datatype Upstream = Upstream(start: P.Pipe, bodies: seq<seq<byte>>)

  datatype Client = Client(setup: SR.Setup, world: SR.World)

  /** `inFlight` are the deliveries whose `on_recv` has not run yet. */
  datatype System = System(cache: Flat, pipes: seq<Upstream>, inFlight: seq<P.Delivery>, clients: seq<Client>)

  /** `Answered` is the first event of the response to a pipe opened at `pos` without a length: it brings the
      file size, if that is still unknown, and fixes the end of the pipe. */
  datatype Event =
    | Answered(pos: int)
    | OpenPipe(pos: int, len: int)
    | Fragment(i: nat, body: seq<byte>, ds: seq<P.Delivery>)
    | OnRecv(k: nat, hold: seq<int>)
    | ClosePipe(i: nat)
    | OpenClient(header: seq<byte>, limit: nat, reqPos: int, reqLen: nat)
    | NewData(j: nat, got: seq<byte>)
    | SocketTook(j: nat, n: nat, got: seq<byte>)

  /** The bounds of a run: hold positions per eviction and bytes per delivery. */
  datatype Bounds = Bounds(positions: nat, longest: nat)

  /** The storage half of the media task's `on_recv`: make room, then write. */
  ghost function Receive(cache: Flat, d: P.Delivery, hold: seq<int>): Flat {
    WriteFlat(EvictFlat(cache, |d.data|, hold), d.pos, d.data)
  }

  // ------------------------------------------------------------------ invariants

  /** Whatever the cache holds is the file; before the file size is known it holds nothing. */
  ghost predicate CacheOk(cache: Flat, file: seq<byte>) {
    && FlatValid(cache) && (cache.size == |file| || cache == Flat(0, map[]))
    && forall off :: 0 <= off < |file| && Cached(cache, off) ==> ByteAt(cache, off) == Some(file[off])
  }

  /** Upstream has sent the file from where the pipe started, and no fragment has ended exactly at the end
      of a request that lies inside a piece and inside the file. */
  ghost predicate PipeOk(p: Upstream, file: seq<byte>) {
    var received := |Concat(p.bodies)|;
    && PR.FreshPipe(p.start) && 0 <= p.start.pos && p.start.pos + received <= |file|
    && !PR.Overruns(p.start, p.bodies)
    && (received > 0 && p.start.pos + received == p.start.end ==>
          PieceOffset(p.start.end) == 0 || p.start.end == |file|)
    && (received == 0 ==> p.start.pos < p.start.end)
    && Concat(p.bodies) == file[p.start.pos..p.start.pos + received]
  }

  ghost predicate DeliveryOk(d: P.Delivery, file: seq<byte>, b: Bounds) {
    PR.WriteAsserts(d, |file|) && d.data == file[d.pos..d.pos + |d.data|] && |d.data| <= b.longest
  }

  /** The session is in a state its own runs reach, and knows the file size if the store does. */
  ghost predicate ClientOk(c: Client, size: int, file: seq<byte>) {
    c.setup.file == file && c.world.filesize == size && SR.Running(c.world, c.setup)
  }

  ghost predicate SystemOk(s: System, file: seq<byte>, b: Bounds) {
    && CacheOk(s.cache, file)
    && CompletedSize(s.cache) <= HoldSize(b.positions) + b.longest
    && (s.cache.size != |file| ==> s.pipes == [] && s.inFlight == [])
    && (forall i :: 0 <= i < |s.pipes| ==> PipeOk(s.pipes[i], file))
    && (forall d :: d in s.inFlight ==> DeliveryOk(d, file, b))
    && (forall j :: 0 <= j < |s.clients| ==> ClientOk(s.clients[j], s.cache.size, file))
  }

  // ------------------------------------------------------------------ steps

  /** `got` is what the cache answers the transfer session `t` is about to make: the longest cached prefix. */
  ghost predicate CacheAnswers(cache: Flat, t: Session, u: SR.Setup, got: seq<byte>)
    requires FlatValid(cache)
  {
    !Idle(t, u.limit, cache.size) ==>
      var h := WithHeader(t, u.header);
      LongestPrefix(cache, ReadFrom(h), Wanted(h, u.limit, cache.size), got)
  }

  ghost predicate LongestPrefix(cache: Flat, from: int, wanted: int, got: seq<byte>)
    requires FlatValid(cache)
  {
    |got| <= wanted && Copied(cache, from, got) && (|got| < wanted ==> !Cached(cache, from + |got|))
  }

  ghost predicate Enabled(s: System, file: seq<byte>, b: Bounds, e: Event)
    requires FlatValid(s.cache)
  {
    match e
    case Answered(pos) => 0 <= pos < |file| && PieceOffset(pos) == 0
    case OpenPipe(pos, len) => s.cache.size == |file| && 0 <= pos <= |file| && PieceOffset(pos) == 0 && 0 < len
    case Fragment(i, body, ds) =>
      && i < |s.pipes| && Arrives(s.pipes[i], file, body, ds)
      && (forall d :: d in ds ==> |d.data| <= b.longest)
    case OnRecv(k, hold) => k < |s.inFlight| && |hold| <= b.positions
    case ClosePipe(i) => i < |s.pipes|
    case OpenClient(header, limit, reqPos, reqLen) => SR.SetupOk(SetupOf(file, header, limit, reqPos, reqLen))
    case NewData(j, got) =>
      && j < |s.clients| && !s.clients[j].world.s.closed
      && Moves(s.cache, s.clients[j].world.s, s.clients[j].setup, got)
    case SocketTook(j, n, got) =>
      && j < |s.clients| && !s.clients[j].world.s.closed && n <= |s.clients[j].world.s.outbox|
      && Moves(s.cache, Acknowledge(s.clients[j].world.s, n), s.clients[j].setup, got)
  }

  /** The session of a request; without a length it runs to the end of the file. */
  function SetupOf(file: seq<byte>, header: seq<byte>, limit: nat, reqPos: int, reqLen: nat): SR.Setup {
    SR.Setup(file, header, limit, reqPos, if reqLen == 0 then |file| else reqPos + reqLen)
  }

  /** The cache answers, and the transfer has no fault; a run ends where one has. */
  ghost predicate Moves(cache: Flat, t: Session, u: SR.Setup, got: seq<byte>)
    requires FlatValid(cache)
  {
    CacheAnswers(cache, t, u, got) && SR.Passes(t, u, cache.size)
  }

  /** The next bytes of the file arrive, inside the request or past its end, and leave as `ds`. The one
      fragment excluded is the one `storage_write` refuses. */
  ghost predicate Arrives(p: Upstream, file: seq<byte>, body: seq<byte>, ds: seq<P.Delivery>) {
    var received := |Concat(p.bodies)|;
    var at, q := p.start.pos + received, PR.Feed(p.start, p.bodies);
    && body != [] && 0 <= at && at + |body| <= |file| && body == file[at..at + |body|]
    && P.Carries(ds, q.pos, P.Sent(q, body)) && P.WellCut(ds, p.start.end)
    && !PR.CompletesUnaligned(p.start, received, body, |file|)
  }

  /** The answer of a correct cache is the part of the file the session asks for. */
  lemma AnswerIsFile(cache: Flat, file: seq<byte>, t: Session, u: SR.Setup, got: seq<byte>)
    requires CacheOk(cache, file) && u.file == file && Moves(cache, t, u, got)
    ensures SR.Answers(t, u, cache.size, got)
  {
    if !Idle(t, u.limit, cache.size) {
      var from := ReadFrom(WithHeader(t, u.header));
      forall i | 0 <= i < |got|
        ensures from + i < |file| && got[i] == file[from + i]
      {
        assert ByteAt(cache, from + i) == Some(got[i]);
        assert Cached(cache, from + i);
      }
      assert got == file[from..from + |got|];
    }
  }

  // ------------------------------------------------------------------ the cache under deliveries

  lemma ReceiveKeeps(cache: Flat, file: seq<byte>, b: Bounds, d: P.Delivery, hold: seq<int>)
    requires CacheOk(cache, file) && cache.size == |file|
    requires CompletedSize(cache) <= HoldSize(b.positions) + b.longest
    requires DeliveryOk(d, file, b) && |hold| <= b.positions
    ensures CacheOk(Receive(cache, d, hold), file) && Receive(cache, d, hold).size == |file|
    ensures CompletedSize(Receive(cache, d, hold)) <= HoldSize(b.positions) + b.longest
  {
    hide EvictFlat, WriteFlat, CompletedSize;
    var g := EvictFlat(cache, |d.data|, hold);
    CacheRuns.ApplyKeepsValid(cache, CacheRuns.Evict(|d.data|, hold));
    CacheRuns.EvictMakesRoom(cache, |d.data|, hold);
    CacheRuns.WriteGrowth(g, d.pos, d.data);
    WriteKeepsValid(g, d.pos, d.data);
    CacheRuns.ApplyKeepsValid(g, CacheRuns.Write(d.pos, d.data));
    forall off | 0 <= off < |file|
      ensures Cached(Receive(cache, d, hold), off) ==> ByteAt(Receive(cache, d, hold), off) == Some(file[off])
    {
      CacheRuns.EvictFlatBytes(cache, |d.data|, hold, off);
      WriteBytes(g, d.pos, d.data, off);
    }
  }

  /** What a pipe hands on for a fragment is the file, in places the cache accepts. */
  lemma ArrivalsAreFile(p: Upstream, file: seq<byte>, body: seq<byte>, ds: seq<P.Delivery>)
    requires PipeOk(p, file) && Arrives(p, file, body, ds)
    ensures forall d :: d in ds ==> PR.WriteAsserts(d, |file|) && d.data == file[d.pos..d.pos + |d.data|]
    ensures PipeOk(p.(bodies := p.bodies + [body]), file)
  {
    hide PR.Feed, PR.Emitted, P.Sent, P.AfterChunk, P.Carries, P.WellCut, P.Leaving, Concat, PieceOffset,
         PR.Overruns, PR.WriteAsserts;
    var q := PR.Feed(p.start, p.bodies);
    StillWithin(p, file, body);
    PR.PipeConserves(p.start, p.bodies);
    PR.ChunkConserves(q, body);
    PR.WriteAssertsIff(p.start, p.bodies, body, ds, |file|);
    PendingIsFile(p.start.pos, file, Concat(p.bodies), PR.Emitted(p.start, p.bodies), q.pending, body, P.Sent(q, body));
    DeliveriesAreFile(ds, q.pos, P.Sent(q, body), file);
    ConcatSnoc(p.bodies, body);
  }

  /** The position assert holds for one more fragment. */
  lemma StillWithin(p: Upstream, file: seq<byte>, body: seq<byte>)
    requires PipeOk(p, file) && body != [] && p.start.pos + |Concat(p.bodies)| + |body| <= |file|
    ensures !PR.Overruns(p.start, p.bodies + [body])
  {
    hide Concat, PieceOffset;
    var all := p.bodies + [body];
    assert all[..|all| - 1] == p.bodies && all[|all| - 1] == body;
  }

  lemma DeliveriesAreFile(ds: seq<P.Delivery>, pos: nat, sent: seq<byte>, file: seq<byte>)
    requires P.Carries(ds, pos, sent) && pos + |sent| <= |file| && sent == file[pos..pos + |sent|]
    ensures forall d :: d in ds ==> 0 <= d.pos && d.pos + |d.data| <= |file| && d.data == file[d.pos..d.pos + |d.data|]
  {
    hide P.Carries;
    forall k | 0 <= k < |ds|
      ensures 0 <= ds[k].pos && ds[k].pos + |ds[k].data| <= |file|
      ensures ds[k].data == file[ds[k].pos..ds[k].pos + |ds[k].data|]
    {
      PR.DeliveryInside(ds, pos, sent, k);
      SliceOfSlice(file, pos, sent, ds[k].pos - pos, ds[k].data);
    }
  }

  lemma SliceOfSlice(file: seq<byte>, at: nat, part: seq<byte>, off: nat, data: seq<byte>)
    requires at + |part| <= |file| && part == file[at..at + |part|]
    requires off + |data| <= |part| && data == part[off..off + |data|]
    ensures data == file[at + off..at + off + |data|]
  {
    var there := file[at + off..at + off + |data|];
    forall i | 0 <= i < |data|
      ensures data[i] == there[i]
    {
      assert data[i] == part[off + i] == file[at + off + i];
    }
  }

  lemma PendingIsFile(pos: nat, file: seq<byte>, received: seq<byte>, emitted: seq<byte>, pending: seq<byte>,
                      body: seq<byte>, sent: seq<byte>)
    requires pos + |received| + |body| <= |file| && received == file[pos..pos + |received|]
    requires body == file[pos + |received|..pos + |received| + |body|]
    requires emitted + pending == received && sent <= pending + body
    ensures sent == file[pos + |emitted|..pos + |emitted| + |sent|]
    ensures received + body == file[pos..pos + |received| + |body|]
  {
    assert pending + body == (received + body)[|emitted|..];
    assert received + body == file[pos..pos + |received| + |body|];
    assert sent == (pending + body)[..|sent|];
  }

  // ------------------------------------------------------------------ runs

  ghost function Step(s: System, file: seq<byte>, b: Bounds, e: Event): System
    requires FlatValid(s.cache) && Enabled(s, file, b, e)
  {
    match e
    case Answered(pos) =>
      System(s.cache.(size := |file|), s.pipes + [Upstream(P.Pipe(|file|, pos, []), [])], s.inFlight,
             seq(|s.clients|, j requires 0 <= j < |s.clients| => Told(s.clients[j], file)))
    case OpenPipe(pos, len) => s.(pipes := s.pipes + [Upstream(P.Pipe(pos + len, pos, []), [])])
    case Fragment(i, body, ds) =>
      s.(pipes := s.pipes[i := s.pipes[i].(bodies := s.pipes[i].bodies + [body])], inFlight := s.inFlight + ds)
    case OnRecv(k, hold) =>
      s.(cache := Receive(s.cache, s.inFlight[k], hold), inFlight := s.inFlight[..k] + s.inFlight[k + 1..])
    case ClosePipe(i) => s.(pipes := s.pipes[..i] + s.pipes[i + 1..])
    case OpenClient(header, limit, reqPos, reqLen) =>
      var u := SetupOf(file, header, limit, reqPos, reqLen);
      s.(clients := s.clients + [Client(u, SR.Opened(u, reqLen, s.cache.size))])
    case NewData(j, got) => s.(clients := s.clients[j := AfterData(s.clients[j], got)])
    case SocketTook(j, n, got) => s.(clients := s.clients[j := AfterTaking(s.clients[j], n, got)])
  }

  /** `on_content_size_from` of an open session. */
  ghost function Told(c: Client, file: seq<byte>): Client {
    if c.world.s.closed then c else c.(world := SR.World(ContentSizeKnown(c.world.s, |file|), c.world.wire, |file|))
  }

  ghost function AfterData(c: Client, got: seq<byte>): Client {
    c.(world := c.world.(s := Transfer(c.world.s, c.setup.limit, c.world.filesize, c.setup.header, got)))
  }

  ghost function AfterTaking(c: Client, n: nat, got: seq<byte>): Client
    requires n <= |c.world.s.outbox|
  {
    c.(world := SR.World(Sent(c.world.s, n, c.setup.limit, c.world.filesize, c.setup.header, got),
                         c.world.wire + c.world.s.outbox[..n], c.world.filesize))
  }

  lemma ToldKeeps(c: Client, size: int, file: seq<byte>)
    requires ClientOk(c, size, file) && size in {0, |file|}
    ensures ClientOk(Told(c, file), |file|, file)
  {
    hide SR.Inv;
    if c.world.s.closed {
      SR.ClosedInside(c.world, c.setup);
    } else {
      SR.StepKeeps(c.world, c.setup, SR.SizeKnown);
    }
  }

  lemma NewDataKeeps(c: Client, cache: Flat, file: seq<byte>, got: seq<byte>)
    requires ClientOk(c, cache.size, file) && CacheOk(cache, file) && !c.world.s.closed
    requires Moves(cache, c.world.s, c.setup, got)
    ensures ClientOk(AfterData(c, got), cache.size, file)
    ensures SR.Enabled(c.world, c.setup, SR.Recv(got))
    ensures AfterData(c, got).world == SR.Step(c.world, c.setup, SR.Recv(got))
  {
    hide Transfer, CacheOk, CacheAnswers, SR.Fails, SR.Answers, SR.Running;
    AnswerIsFile(cache, file, c.world.s, c.setup, got);
    SR.StepKeeps(c.world, c.setup, SR.Recv(got));
  }

  lemma SocketTookKeeps(c: Client, cache: Flat, file: seq<byte>, n: nat, got: seq<byte>)
    requires ClientOk(c, cache.size, file) && CacheOk(cache, file) && !c.world.s.closed && n <= |c.world.s.outbox|
    requires Moves(cache, Acknowledge(c.world.s, n), c.setup, got)
    ensures ClientOk(AfterTaking(c, n, got), cache.size, file)
    ensures SR.Enabled(c.world, c.setup, SR.SocketTook(n, got))
    ensures AfterTaking(c, n, got).setup == c.setup
    ensures AfterTaking(c, n, got).world == SR.Step(c.world, c.setup, SR.SocketTook(n, got))
  {
    hide Sent, CacheOk, CacheAnswers, Acknowledge, SR.Fails, SR.Answers, SR.Running;
    AnswerIsFile(cache, file, Acknowledge(c.world.s, n), c.setup, got);
    SR.StepKeeps(c.world, c.setup, SR.SocketTook(n, got));
  }

  // ------------------------------------------------------------------ every step keeps the invariant

  lemma AnsweredKeeps(s: System, file: seq<byte>, b: Bounds, pos: int)
    requires SystemOk(s, file, b) && Enabled(s, file, b, Answered(pos))
    ensures SystemOk(Step(s, file, b, Answered(pos)), file, b)
  {
    hide CompletedSize, ClientOk, DeliveryOk, PieceOffset, Told;
    var p := Upstream(P.Pipe(|file|, pos, []), []);
    ConcatNone();
    assert file[pos..pos] == [];
    assert PipeOk(p, file);
    if s.cache.size != |file| {
      CacheRuns.EmptyRun(|file|);
    }
    forall j | 0 <= j < |s.clients|
      ensures ClientOk(Told(s.clients[j], file), |file|, file)
    {
      ToldKeeps(s.clients[j], s.cache.size, file);
    }
  }

  lemma OpenPipeKeeps(s: System, file: seq<byte>, b: Bounds, pos: int, len: int)
    requires SystemOk(s, file, b) && Enabled(s, file, b, OpenPipe(pos, len))
    ensures SystemOk(Step(s, file, b, OpenPipe(pos, len)), file, b)
  {
    hide CacheOk, CompletedSize, ClientOk, DeliveryOk, PieceOffset;
    var p := Upstream(P.Pipe(pos + len, pos, []), []);
    ConcatNone();
    assert file[pos..pos] == [];
    assert PipeOk(p, file);
  }

  lemma FragmentKeeps(s: System, file: seq<byte>, b: Bounds, i: nat, body: seq<byte>, ds: seq<P.Delivery>)
    requires SystemOk(s, file, b) && Enabled(s, file, b, Fragment(i, body, ds))
    ensures SystemOk(Step(s, file, b, Fragment(i, body, ds)), file, b)
  {
    hide CacheOk, CompletedSize, ClientOk, PipeOk, Arrives, PR.WriteAsserts;
    ArrivalsAreFile(s.pipes[i], file, body, ds);
  }

  lemma OnRecvKeeps(s: System, file: seq<byte>, b: Bounds, k: nat, hold: seq<int>)
    requires SystemOk(s, file, b) && Enabled(s, file, b, OnRecv(k, hold))
    ensures SystemOk(Step(s, file, b, OnRecv(k, hold)), file, b)
  {
    hide CacheOk, CompletedSize, ClientOk, PipeOk, DeliveryOk, Receive;
    ReceiveKeeps(s.cache, file, b, s.inFlight[k], hold);
  }

  lemma ClosePipeKeeps(s: System, file: seq<byte>, b: Bounds, i: nat)
    requires SystemOk(s, file, b) && Enabled(s, file, b, ClosePipe(i))
    ensures SystemOk(Step(s, file, b, ClosePipe(i)), file, b)
  {
    hide CacheOk, CompletedSize, ClientOk, PipeOk, DeliveryOk;
  }

  lemma OpenClientKeeps(s: System, file: seq<byte>, b: Bounds, header: seq<byte>, limit: nat, reqPos: int, reqLen: nat)
    requires SystemOk(s, file, b) && Enabled(s, file, b, OpenClient(header, limit, reqPos, reqLen))
    ensures SystemOk(Step(s, file, b, OpenClient(header, limit, reqPos, reqLen)), file, b)
  {
    hide FlatValid, CompletedSize, PipeOk, DeliveryOk, SR.Running;
    SR.OpenedRuns(SetupOf(file, header, limit, reqPos, reqLen), reqLen, s.cache.size);
  }

  lemma ClientKeeps(s: System, file: seq<byte>, b: Bounds, j: nat, c: Client)
    requires SystemOk(s, file, b) && j < |s.clients| && ClientOk(c, s.cache.size, file)
    ensures SystemOk(s.(clients := s.clients[j := c]), file, b)
  {
    hide CacheOk, CompletedSize, ClientOk, PipeOk, DeliveryOk;
  }

  lemma StepKeeps(s: System, file: seq<byte>, b: Bounds, e: Event)
    requires SystemOk(s, file, b) && Enabled(s, file, b, e)
    ensures SystemOk(Step(s, file, b, e), file, b)
  {
    hide CacheOk, CompletedSize, ClientOk, PipeOk, DeliveryOk, Receive, Moves, Arrives, AfterData, AfterTaking,
         SR.SetupOk;
    match e
    case Answered(pos) => AnsweredKeeps(s, file, b, pos);
    case OpenPipe(pos, len) => OpenPipeKeeps(s, file, b, pos, len);
    case Fragment(i, body, ds) => FragmentKeeps(s, file, b, i, body, ds);
    case OnRecv(k, hold) => OnRecvKeeps(s, file, b, k, hold);
    case ClosePipe(i) => ClosePipeKeeps(s, file, b, i);
    case OpenClient(header, limit, reqPos, reqLen) => OpenClientKeeps(s, file, b, header, limit, reqPos, reqLen);
    case NewData(j, got) =>
      NewDataKeeps(s.clients[j], s.cache, file, got);
      ClientKeeps(s, file, b, j, AfterData(s.clients[j], got));
    case SocketTook(j, n, got) =>
      SocketTookKeeps(s.clients[j], s.cache, file, n, got);
      ClientKeeps(s, file, b, j, AfterTaking(s.clients[j], n, got));
  }

  /** Every pipe the media task opens may be opened here: on a store of known size with the length it has
      chosen, and before that without one, to be answered with the rest of the file. */
  lemma DispatchedEnabled(s: System, file: seq<byte>, b: Bounds, at: nat, cached: T.Range, pipes: seq<int>)
    requires CacheOk(s.cache, file) && at <= |file| && file != [] && (cached.pos == at ==> 0 <= cached.len)
    requires s.cache.size == 0 ==> at < |file|
    requires T.Dispatched(at, s.cache.size, cached, pipes).Some?
    ensures var r := T.Dispatched(at, s.cache.size, cached, pipes).value;
            Enabled(s, file, b, if r.len == 0 then Answered(r.pos) else OpenPipe(r.pos, r.len))
  {
    hide T.Dispatched;
    T.DispatchedRange(at, s.cache.size, cached, pipes);
  }

  ghost predicate EnabledRun(s: System, file: seq<byte>, b: Bounds, events: seq<Event>)
    decreases events
  {
    events == [] ||
    (FlatValid(s.cache) && Enabled(s, file, b, events[0])
      && EnabledRun(Step(s, file, b, events[0]), file, b, events[1..]))
  }

  ghost function Run(s: System, file: seq<byte>, b: Bounds, events: seq<Event>): System
    requires EnabledRun(s, file, b, events)
    decreases events
  {
    if events == [] then s else Run(Step(s, file, b, events[0]), file, b, events[1..])
  }

  lemma {:induction false} RunKeeps(s: System, file: seq<byte>, b: Bounds, events: seq<Event>)
    requires SystemOk(s, file, b) && EnabledRun(s, file, b, events)
    ensures SystemOk(Run(s, file, b, events), file, b)
    decreases events
  {
    hide SystemOk, Step, Enabled;
    if events != [] {
      StepKeeps(s, file, b, events[0]);
      RunKeeps(Step(s, file, b, events[0]), file, b, events[1..]);
    }
  }

  /** An empty store that does not know the file size yet, no pipe and no client. */
  function Start(): System {
    System(Flat(0, map[]), [], [], [])
  }

  lemma StartOk(file: seq<byte>, b: Bounds)
    ensures SystemOk(Start(), file, b)
  {
  }

  /** What a client has received: a prefix of its stream, and all of it exactly when its session is closed,
      which takes a file that has all of the range. */
  ghost predicate ClientDone(c: Client, file: seq<byte>) {
    && c.setup.file == file
    && c.world.wire <= SR.Stream(c.setup)
    && |c.world.s.outbox| <= c.setup.limit + c.setup.limit / 2
    && (c.world.s.closed <==> c.world.wire == SR.Stream(c.setup) && c.setup.end <= |file|)
  }

  /**
   * Every run of the whole path from an empty store, for pipes of any aligned start and any length, fragments
   * past their end included, and clients that ask for anything: the cache shows nothing but the file and
   * stays within its bound, and every client has received a prefix of its header and what the file has of
   * the range it asked for; its session has closed exactly when that is all sent and all of the range. A
   * run goes on as long as nothing fails: `PR.WriteAssertsIff`, `SR.RangeFailsIff` and `SR.BadReadIff` say
   * exactly when something does.
   */
  lemma PathDeliversFile(file: seq<byte>, b: Bounds, events: seq<Event>)
    requires EnabledRun(Start(), file, b, events)
    ensures var s := Run(Start(), file, b, events);
            && CacheOk(s.cache, file)
            && CompletedSize(s.cache) <= HoldSize(b.positions) + b.longest
            && forall j :: 0 <= j < |s.clients| ==> ClientDone(s.clients[j], file)
  {
    hide CompletedSize, SR.Inv, Enabled, Step, CacheOk, PipeOk, DeliveryOk, SR.Stream;
    StartOk(file, b);
    RunKeeps(Start(), file, b, events);
    var s := Run(Start(), file, b, events);
    forall j | 0 <= j < |s.clients|
      ensures ClientDone(s.clients[j], file)
    {
      assert ClientOk(s.clients[j], s.cache.size, file);
      SR.WireIsPrefix(s.clients[j].world.s, s.clients[j].setup, s.clients[j].world.wire);
    }
  }

  /** A client with a safe request inside the file never ends a run: in every reachable state its next
      transfer has no fault. */
  lemma SafeClientsPass(file: seq<byte>, b: Bounds, events: seq<Event>, j: nat, n: nat)
    requires EnabledRun(Start(), file, b, events)
    requires var s := Run(Start(), file, b, events);
             && j < |s.clients| && !s.clients[j].world.s.closed && n <= |s.clients[j].world.s.outbox|
             && SR.Inside(s.clients[j].setup) && SR.SafeRange(s.clients[j].setup)
    ensures var s := Run(Start(), file, b, events);
            var c := s.clients[j];
            && SR.Passes(c.world.s, c.setup, s.cache.size)
            && SR.Passes(Acknowledge(c.world.s, n), c.setup, s.cache.size)
  {
    hide CompletedSize, SR.Inv, SR.SafeRange, SR.Passes, Acknowledge, Enabled, Step, CacheOk, PipeOk, DeliveryOk;
    StartOk(file, b);
    RunKeeps(Start(), file, b, events);
    var c := Run(Start(), file, b, events).clients[j];
    assert ClientOk(c, Run(Start(), file, b, events).cache.size, file);
    SR.SafePasses(c.world.s, c.setup, c.world.wire, c.world.filesize);
    SR.SafeTaking(c.world, c.setup, n);
  }

  // ------------------------------------------------------------------ every safe client can be served

  lemma {:induction false} RunJoins(s: System, file: seq<byte>, b: Bounds, first: seq<Event>, later: seq<Event>)
    requires EnabledRun(s, file, b, first) && EnabledRun(Run(s, file, b, first), file, b, later)
    ensures EnabledRun(s, file, b, first + later)
    ensures Run(s, file, b, first + later) == Run(Run(s, file, b, first), file, b, later)
    decreases first
  {
    hide Enabled, Step;
    if first == [] {
      assert first + later == later;
    } else {
      RunJoins(Step(s, file, b, first[0]), file, b, first[1..], later);
      assert (first + later)[0] == first[0] && (first + later)[1..] == first[1..] + later;
    }
  }

  lemma OneEvent(s: System, file: seq<byte>, b: Bounds, e: Event)
    requires FlatValid(s.cache) && Enabled(s, file, b, e)
    ensures EnabledRun(s, file, b, [e]) && Run(s, file, b, [e]) == Step(s, file, b, e)
  {
    hide Enabled, Step;
    assert [e][1..] == [];
  }

  lemma ThreeEvents(s: System, file: seq<byte>, b: Bounds, e0: Event, e1: Event, e2: Event)
    requires FlatValid(s.cache) && Enabled(s, file, b, e0)
    requires var v := Step(s, file, b, e0); FlatValid(v.cache) && Enabled(v, file, b, e1)
    requires var w := Step(Step(s, file, b, e0), file, b, e1); FlatValid(w.cache) && Enabled(w, file, b, e2)
    ensures EnabledRun(s, file, b, [e0, e1, e2])
    ensures Run(s, file, b, [e0, e1, e2]) == Step(Step(Step(s, file, b, e0), file, b, e1), file, b, e2)
  {
    hide Enabled, Step;
    var v := Step(s, file, b, e0);
    OneEvent(Step(v, file, b, e1), file, b, e2);
    OneEvent(v, file, b, e1);
    OneEvent(s, file, b, e0);
    RunJoins(v, file, b, [e1], [e2]);
    RunJoins(s, file, b, [e0], [e1] + [e2]);
    assert [e0] + ([e1] + [e2]) == [e0, e1, e2];
  }

  /** The part of the file that piece `k` holds, as one delivery. */
  function WholePiece(file: seq<byte>, k: nat): P.Delivery
    requires PieceStart(k) < |file|
  {
    P.Delivery(PieceStart(k), file[PieceStart(k)..Min(PieceStart(k + 1), |file|)])
  }

  /** A pipe opened for one piece passes it on as one delivery, if it comes in one fragment. */
  lemma PieceInOne(file: seq<byte>, k: nat)
    requires PieceStart(k) < |file|
    ensures var d := WholePiece(file, k);
            && 0 < |d.data| <= PIECE_SIZE && PieceOffset(d.pos) == 0
            && Arrives(Upstream(P.Pipe(d.pos + |d.data|, d.pos, []), []), file, d.data, [d])
  {
    var d := WholePiece(file, k);
    var p := P.Pipe(d.pos + |d.data|, d.pos, []);
    ConcatNone();
    assert [] + d.data == d.data && d.data[..|d.data|] == d.data && d.data[|d.data|..] == [];
    assert PR.Feed(p, []) == p;
    assert P.Sent(p, d.data) == d.data;
    assert P.Carries([], d.pos + |d.data|, []);
    assert P.Carries([d], d.pos, d.data);
    assert !PR.CompletesUnaligned(p, 0, d.data, |file|);
  }

  /** What has just been written is cached. */
  lemma ReceiveCaches(cache: Flat, file: seq<byte>, b: Bounds, d: P.Delivery, hold: seq<int>, at: int)
    requires CacheOk(cache, file) && cache.size == |file| && DeliveryOk(d, file, b)
    requires d.pos <= at < d.pos + |d.data|
    ensures Cached(Receive(cache, d, hold), at)
  {
    hide EvictFlat, WriteFlat;
    CacheRuns.EvictFlatBytes(cache, |d.data|, hold, at);
    CacheRuns.ApplyKeepsValid(cache, CacheRuns.Evict(|d.data|, hold));
    WriteBytes(EvictFlat(cache, |d.data|, hold), d.pos, d.data, at);
  }

  /** Three events bring the piece of `at` into the store: a pipe is opened for it, upstream sends it in one
      fragment, and the delivery is written. No client notices. */
  lemma PieceArrives(s: System, file: seq<byte>, b: Bounds, at: nat) returns (events: seq<Event>)
    requires SystemOk(s, file, b) && s.cache.size == |file| && at < |file| && b.longest >= PIECE_SIZE
    ensures |events| == 3 && EnabledRun(s, file, b, events)
    ensures var v := Run(s, file, b, events);
            SystemOk(v, file, b) && v.cache.size == |file| && Cached(v.cache, at) && v.clients == s.clients
  {
    hide SystemOk, Run, EnabledRun, CacheOk, Cached, PieceOffset, Arrives, Receive, DeliveryOk, PipeOk;
    var k := PieceIndex(at);
    var d := WholePiece(file, k);
    PieceInOne(file, k);
    CacheIsValid(s, file, b);
    var e0, e1, e2 := OpenPipe(d.pos, |d.data|), Fragment(|s.pipes|, d.data, [d]), OnRecv(|s.inFlight|, []);
    var u := Step(s, file, b, e0);
    StepKeeps(s, file, b, e0);
    CacheIsValid(u, file, b);
    assert d in [d];
    var v := Step(u, file, b, e1);
    StepKeeps(u, file, b, e1);
    CacheIsValid(v, file, b);
    assert v.inFlight[|s.inFlight|] == d;
    InFlightOk(v, file, b, |s.inFlight|);
    StepKeeps(v, file, b, e2);
    ReceiveCaches(v.cache, file, b, d, [], at);
    ReceiveSize(v.cache, d, []);
    events := [e0, e1, e2];
    ThreeEvents(s, file, b, e0, e1, e2);
  }

  lemma CacheIsValid(s: System, file: seq<byte>, b: Bounds)
    requires SystemOk(s, file, b)
    ensures FlatValid(s.cache) && CacheOk(s.cache, file)
  {
  }

  lemma InFlightOk(s: System, file: seq<byte>, b: Bounds, k: nat)
    requires SystemOk(s, file, b) && k < |s.inFlight|
    ensures DeliveryOk(s.inFlight[k], file, b)
  {
    assert s.inFlight[k] in s.inFlight;
  }

  lemma ReceiveSize(cache: Flat, d: P.Delivery, hold: seq<int>)
    ensures Receive(cache, d, hold).size == cache.size
  {
  }

  /** The longest cached prefix exists, and has a byte if the first one is cached. */
  lemma {:induction false} CachedPrefix(cache: Flat, from: int, wanted: nat) returns (got: seq<byte>)
    requires FlatValid(cache)
    ensures LongestPrefix(cache, from, wanted, got) && (wanted > 0 && Cached(cache, from) ==> got != [])
    decreases wanted
  {
    hide Cached;
    got := [];
    if wanted > 0 && Cached(cache, from) {
      var rest := CachedPrefix(cache, from + 1, wanted - 1);
      got := [ByteAt(cache, from).value] + rest;
      forall i | 0 <= i < |got|
        ensures ByteAt(cache, from + i) == Some(got[i])
      {
        if i > 0 {
          assert ByteAt(cache, from + 1 + (i - 1)) == Some(rest[i - 1]);
        }
      }
    }
  }

  /** An open client with a safe request that the file can answer. */
  ghost predicate Servable(s: System, file: seq<byte>, j: nat) {
    j < |s.clients| && var c := s.clients[j];
    !c.world.s.closed && SR.Inside(c.setup) && SR.SafeRange(c.setup) && c.setup.end <= |file|
  }

  /** Four events serve a client: the piece it needs next arrives, the socket takes its whole outbox, and the
      transfer fills it again unless the session closes. */
  lemma ClientServed(s: System, file: seq<byte>, b: Bounds, j: nat) returns (events: seq<Event>)
    requires SystemOk(s, file, b) && s.cache.size == |file| && Servable(s, file, j) && b.longest >= PIECE_SIZE
    ensures |events| == 4 && EnabledRun(s, file, b, events)
    ensures var v, c := Run(s, file, b, events), s.clients[j];
            && SystemOk(v, file, b) && v.cache.size == |file| && |v.clients| == |s.clients|
            && var d := v.clients[j];
               && d.setup == c.setup && d.world.wire == c.world.wire + c.world.s.outbox
               && (d.world.s.closed || d.world.s.outbox != [])
  {
    hide SystemOk, Run, EnabledRun, Step, CacheOk, Cached, SR.Running, SR.Inside, SR.SafeRange, Acknowledge,
         AfterTaking, SR.Passes, SR.Enabled, SR.Step, LongestPrefix, Wanted, ReadFrom;
    var c := s.clients[j];
    var u, n := c.setup, |c.world.s.outbox|;
    var t := Acknowledge(c.world.s, n);
    var h := WithHeader(t, u.header);
    ServableOk(s, file, b, j);
    SR.NextRead(c.world, u);
    SR.SafeTaking(c.world, u, n);
    events := PieceArrives(s, file, b, if t.closed then 0 else Min(ReadFrom(h), |file| - 1));
    var v := Run(s, file, b, events);
    CacheIsValid(v, file, b);
    var got := [];
    if !t.closed {
      got := CachedPrefix(v.cache, ReadFrom(h), Wanted(h, u.limit, |file|));
    }
    var e := SocketTook(j, n, got);
    SocketTookKeeps(c, v.cache, file, n, got);
    SR.Advances(c.world, u, got);
    StepKeeps(v, file, b, e);
    ClientReplaced(v, file, b, j, n, got);
    OneEvent(v, file, b, e);
    RunJoins(s, file, b, events, [e]);
    events := events + [e];
  }

  lemma ServableOk(s: System, file: seq<byte>, b: Bounds, j: nat)
    requires SystemOk(s, file, b) && Servable(s, file, j)
    ensures ClientOk(s.clients[j], s.cache.size, file) && file != []
  {
    hide CacheOk, CompletedSize, PipeOk, DeliveryOk, ClientOk;
  }

  lemma ClientReplaced(s: System, file: seq<byte>, b: Bounds, j: nat, n: nat, got: seq<byte>)
    requires FlatValid(s.cache) && Enabled(s, file, b, SocketTook(j, n, got))
    ensures var v := Step(s, file, b, SocketTook(j, n, got));
            && v.cache == s.cache && |v.clients| == |s.clients| && v.clients[j] == AfterTaking(s.clients[j], n, got)
  {
    hide Moves, AfterTaking, Acknowledge;
  }

  /** What is left of a client's stream bounds the number of times it has to be served. */
  lemma {:induction false} ClientFinishes(s: System, file: seq<byte>, b: Bounds, j: nat) returns (events: seq<Event>)
    requires SystemOk(s, file, b) && s.cache.size == |file| && Servable(s, file, j) && b.longest >= PIECE_SIZE
    ensures EnabledRun(s, file, b, events) && Run(s, file, b, events).cache.size == |file|
    ensures SystemOk(Run(s, file, b, events), file, b)
    ensures var v, c := Run(s, file, b, events), s.clients[j];
            |v.clients| == |s.clients| && v.clients[j].world.s.closed && v.clients[j].setup == c.setup
    ensures var c := s.clients[j];
            |events| <= 4 * (|SR.Stream(c.setup)| - |c.world.wire| + if c.world.s.outbox == [] then 1 else 0)
    decreases |SR.Stream(s.clients[j].setup)| - |s.clients[j].world.wire|, s.clients[j].world.s.outbox == []
  {
    hide SystemOk, Run, EnabledRun, SR.Inside, SR.SafeRange, SR.Stream;
    var c := s.clients[j];
    WireFits(s, file, b, j);
    events := ClientServed(s, file, b, j);
    var v := Run(s, file, b, events);
    if !v.clients[j].world.s.closed {
      WireFits(v, file, b, j);
      var more := ClientFinishes(v, file, b, j);
      RunJoins(s, file, b, events, more);
      events := events + more;
    }
  }

  /** An open client has not had all of its stream. */
  lemma WireFits(s: System, file: seq<byte>, b: Bounds, j: nat)
    requires SystemOk(s, file, b) && Servable(s, file, j)
    ensures var c := s.clients[j]; |c.world.wire| < |SR.Stream(c.setup)|
  {
    hide CacheOk, CompletedSize, PipeOk, DeliveryOk, SR.Inv, SR.Stream;
    var c := s.clients[j];
    SR.WireIsPrefix(c.world.s, c.setup, c.world.wire);
    assert |c.world.wire| == |SR.Stream(c.setup)| ==> c.world.wire == SR.Stream(c.setup);
  }

  /**
   * From every reachable state, every open client with a safe request that the file can answer can be
   * served to the end: some run closes its session, with its whole stream on the wire. It takes four events
   * for each byte that is left and at most five more, and a bound on deliveries that admits a piece.
   */
  lemma EveryClientCanFinish(file: seq<byte>, b: Bounds, events: seq<Event>, j: nat) returns (more: seq<Event>)
    requires EnabledRun(Start(), file, b, events) && b.longest >= PIECE_SIZE
    requires Servable(Run(Start(), file, b, events), file, j)
    ensures EnabledRun(Start(), file, b, events + more)
    ensures var s, v := Run(Start(), file, b, events), Run(Start(), file, b, events + more);
            && |v.clients| == |s.clients|
            && var c, d := s.clients[j], v.clients[j];
               && d.setup == c.setup && d.world.s.closed && d.world.wire == SR.Stream(c.setup)
               && |more| <= 4 * (|SR.Stream(c.setup)| - |c.world.wire|) + 5
  {
    hide SystemOk, Run, EnabledRun, SR.Inside, SR.SafeRange, SR.Stream, Step, CacheOk;
    StartOk(file, b);
    RunKeeps(Start(), file, b, events);
    var s := Run(Start(), file, b, events);
    more := FinishFrom(s, file, b, j);
    RunJoins(Start(), file, b, events, more);
    PathDeliversFile(file, b, events + more);
  }

  /** The file size arrives first, if it has not. */
  lemma FinishFrom(s: System, file: seq<byte>, b: Bounds, j: nat) returns (more: seq<Event>)
    requires SystemOk(s, file, b) && Servable(s, file, j) && b.longest >= PIECE_SIZE
    ensures EnabledRun(s, file, b, more)
    ensures var v, c := Run(s, file, b, more), s.clients[j];
            && |v.clients| == |s.clients| && v.clients[j].setup == c.setup && v.clients[j].world.s.closed
            && |more| <= 4 * (|SR.Stream(c.setup)| - |c.world.wire|) + 5
  {
    hide SystemOk, Run, EnabledRun, SR.Inside, SR.SafeRange, SR.Stream, Step, CacheOk;
    ServableOk(s, file, b, j);
    CacheIsValid(s, file, b);
    var e := Answered(0);
    StepKeeps(s, file, b, e);
    AllTold(s, file, b, j);
    OneEvent(s, file, b, e);
    more := ClientFinishes(Step(s, file, b, e), file, b, j);
    RunJoins(s, file, b, [e], more);
    more := [e] + more;
  }

  lemma AllTold(s: System, file: seq<byte>, b: Bounds, j: nat)
    requires FlatValid(s.cache) && file != [] && Servable(s, file, j)
    ensures Enabled(s, file, b, Answered(0))
    ensures var v := Step(s, file, b, Answered(0));
            && v.cache.size == |file| && |v.clients| == |s.clients| && Servable(v, file, j)
            && var c, d := s.clients[j], v.clients[j];
               d.setup == c.setup && d.world.wire == c.world.wire && d.world.s.outbox == c.world.s.outbox
  {
    hide SR.Inside, SR.SafeRange;
  }
}
