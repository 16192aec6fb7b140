/** The flow-control state of one client session as a value, and the steps that change it. */
module SessionModel {
  import opened Bytes

  /**
   * `struct ms_session` with the parts of its connection it depends on: `staged` is `session->buf`,
   * `outbox` the connection's `send_mbuf`, `header` the part of the outbox that is still header.
   */
  datatype Session = Session(
    pos: int,
    len: int,
    sending: nat,
    header: nat,
    reqPos: int,
    reqLen: int,
    staged: seq<byte>,
    outbox: seq<byte>,
    headerSent: bool,
    closing: bool,
    closed: bool)

  /**
   * The position and length `ms_session_open` takes from a Range header in which `count` numbers were read,
   * `first` and `last`; none where its assert on the length fails. A negative number is taken as it is.
   */
  function RequestOf(count: int, first: int, last: int): Option<(int, int)> {
    if count <= 0 || first < 0 || last < 0 then Some((first, last))
    else if count == 1 then Some((first, 0))
    else if last - first + 1 < 0 then None
    else Some((first, last - first + 1))
  }

  /** `ms_session_open`: an open-ended request takes its length from the file size when it is known. */
  function Open(reqPos: int, reqLen: int, filesize: int): Session {
    var len := if reqLen == 0 && filesize > 0 then filesize - reqPos else reqLen;
    Session(reqPos, len, 0, 0, reqPos, reqLen, [], [], false, false, false)
  }

  /** `on_content_size_from`. */
  function ContentSizeKnown(s: Session, filesize: int): Session {
    if s.len > 0 || filesize <= 0 then s else s.(len := filesize - s.pos)
  }

  /** Nothing is transferred while the outbox is half full or the sizes are unknown. */
  predicate Idle(s: Session, limit: nat, filesize: int) {
    s.sending > limit / 2 || s.len == 0 || filesize == 0
  }

  function WithHeader(s: Session, header: seq<byte>): Session {
    if s.headerSent then s
    else s.(headerSent := true, outbox := s.outbox + header, header := s.header + |s.outbox + header|)
  }

  function ReadFrom(s: Session): int {
    s.pos + |s.staged| + |s.outbox| - s.header
  }

  /** How much a transfer asks the media task for. The source keeps it in a `size_t`: a negative rest of
      the session compares as a large one, and where the result here is negative it asks for 2^64 more. */
  function Wanted(s: Session, limit: nat, filesize: int): int {
    var room, rest := limit - |s.staged|, s.len - s.sending;
    var w := if 0 <= rest < room then rest else room;
    if filesize > 0 && ReadFrom(s) + w > filesize then filesize - ReadFrom(s) else w
  }

  /** How many of `n` staged bytes go out: a header still in the outbox takes its share of the limit. */
  function Outgoing(s: Session, limit: nat, n: nat): int {
    if n + s.header > limit then n - s.header else n
  }

  /** The data part of `try_transfer_data`, when the media task answered the read with `got`. */
  function Push(s: Session, limit: nat, got: seq<byte>): Session {
    var staged := s.staged + got;
    var n := Outgoing(s, limit, |staged|);
    if staged == [] || n < 0 then s
    else s.(outbox := s.outbox + staged[..n], sending := s.sending + n, staged := staged[n..])
  }

  /** `try_transfer_data` of a GET. */
  function Transfer(s: Session, limit: nat, filesize: int, header: seq<byte>, got: seq<byte>): Session {
    if Idle(s, limit, filesize) then s else Push(WithHeader(s, header), limit, got)
  }

  /** `try_transfer_data` of a HEAD: the header goes out and the connection is to close behind it. */
  function HeadTransfer(s: Session, limit: nat, filesize: int, header: seq<byte>): Session {
    if Idle(s, limit, filesize) then s else WithHeader(s, header).(closing := true)
  }

  /** The first half of `on_send`: `n` bytes have left the outbox, header bytes first. */
  function Acknowledge(s: Session, n: nat): Session
    requires n <= |s.outbox|
  {
    var body := if n < s.header then 0 else n - s.header;
    var t := s.(outbox := s.outbox[n..], header := if n < s.header then s.header - n else 0);
    if s.len == 0 || s.sending < body then t
    else
      var len := if s.len > 0 then s.len - body else s.len;
      t.(pos := s.pos + body, len := len, sending := s.sending - body, closed := len == 0 && s.sending == body)
  }

  /** `on_send`. */
  function Sent(s: Session, n: nat, limit: nat, filesize: int, header: seq<byte>, got: seq<byte>): Session
    requires n <= |s.outbox|
  {
    if s.closing then s.(outbox := s.outbox[n..])
    else
      var t := Acknowledge(s, n);
      if t.closed || s.len == 0 then t else Transfer(t, limit, filesize, header, got)
  }

  /** `on_send` of a HEAD. */
  function HeadSent(s: Session, n: nat, limit: nat, filesize: int, header: seq<byte>): Session
    requires n <= |s.outbox|
  {
    if s.closing then s.(outbox := s.outbox[n..])
    else
      var t := Acknowledge(s, n);
      if t.closed || s.len == 0 then t else HeadTransfer(t, limit, filesize, header)
  }
}
