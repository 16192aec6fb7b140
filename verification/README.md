# libms: verified model of the caching media proxy and its codecs

libms is a caching proxy for media files. Upstream bytes arrive in arbitrary fragments, are re-cut
into 16 KiB pieces, kept in a sparse two-level cache of 2 MiB blocks with eviction, and streamed to
clients through a bounded send window. Beneath it the vendored Mongoose library encodes and decodes
several protocols incrementally. This project models both in Dafny 4.11 and proves what the code is
for: that a client gets exactly what it asked for of the file and can always be served to the end,
that memory stays bounded, and that each codec gives back what its sender put in, however the network
cuts the bytes. Where the code does not keep such a promise, the exact condition is proved.
`dafny verify dfyconfig.toml` checks everything.

## How the modules fit together

* **Cache.** `CacheModel` defines the cache as a flat map from piece number to valid bytes, with the
  "offset to byte, or absent" view `ByteAt`. `BlockTable` relates the block and piece table to it.
  `MemStorage` is the storage object with its nested loops, each method proved to be the flat
  operation. `CacheFacts` and `CacheRuns` prove the laws: bytes last written, what eviction keeps, the
  memory bound over whole runs.
* **Pipe.** `HttpPipe` is the re-chunker object; `HttpPipeRuns` proves conservation and exactly when
  its asserts, and those of the storage it feeds, hold.
* **Session.** `SessionModel` gives the state steps, for any request. `SessionRuns` has the invariant, the
  delivery theorem over all interleavings, and which requests fail, close or wait forever; `Session` the
  object with its two buffers and the real storage.
* **Task and the whole path.** `Task` models the hold positions the media task computes and the
  pipes it opens. `StreamPath` composes pipes, deliveries in flight, evictions and clients into one
  transition system that starts with an empty store and ends where the source fails; from every reachable
  state each client with a safe request can be served to the end.
* **Codecs.** Each has a value-level model with its theorems and a module with the imperative code over
  `Mbuf` or arrays, proved equal to it: WebSocket (`WsFrames`, `WsModel`, `WsStreams`,
  `WsConnection`), chunked bodies (`ChunkModel`, `ChunkedBody`), CoAP (`CoapModel`, `CoapCodec`), MQTT
  (`MqttModel`, `MqttCommands`, `MqttConnection`), DNS names (`Dns`), MD5, SHA-1 and HMAC buffering
  (`HashModel`, `Md5`, `Sha1`), base64 (`Base64`), URI paths (`UriPath`), percent-encoding and play URLs
  (`Url`). Where a standard prints examples, they are proved byte for byte.
  `Queue` has the circular lists of the server.

## Findings

Where a desired property fails, the code is modelled as it is, and the exact condition is proved.

* The media task stores every reader's position in the same slot (`src/ms_task.c:157-161`), so eviction
  protects the surroundings of the last reader and of offset 0 only: `Task.HeldIff`,
  `Task.EarlierReaderUnprotected`.
* It aligns the start of the range a pipe is opened for but not its end (`src/ms_task.c:259-304`). The end
  is one the store accepts exactly when the reader is on a piece or at most 20 MiB from the end:
  `Task.RangeEndsWellIff`. Otherwise a fragment that ends exactly there fails an assert of
  `storage_write`, and no other fragment does: `Task.UnalignedReaderFails`, `HttpPipeRuns.WriteAssertsIff`.
* `piece_len` uses the file size even while only an estimate is known, and is then wrong for every
  piece: `CacheFacts.PieceLenNeedsFilesize`. Growing the store is safe exactly when no partly filled
  tail piece is cached: `BlockTable.GrowthKeepsPiecesIff`, `BlockTable.TailLostOnGrowth`. The `int`
  products of the storage are in range exactly up to 2^31 bytes: `CacheModel.BlockProductsFitIff`.
* The Range header names its end inclusively and asks for one byte too many:
  `HttpPipeRuns.OneByteTooMany`. The position assert of the pipe fails exactly when a fragment follows
  an unaligned end: `HttpPipeRuns.PositionAssertsIff`, `HttpPipeRuns.PositionAssertCanFail`.
* The range assert of a session can fail exactly for ranges of R bytes that end before the file does,
  with limit - header < R < 2 limit + limit / 2 - 1: `SessionRuns.RangeFailsIff`,
  `SessionRuns.RangeAssertCanFail`.
* A session does not compare its request with the file (`src/ms_session.c:254-286`), and no request outside
  it is answered properly. Some run closes the session if and only if the range starts and ends inside the
  file: `SessionRuns.ClosesIff`.
  * A range that ends behind the file promises more bytes than come and then waits forever:
    `SessionRuns.PastEndWaits`, `SessionRuns.PastEndSticks`.
  * A request without a length at the exact end of the file gets no answer, not even a header:
    `SessionRuns.ExactEndSilent`.
  * A request from behind the end makes a read of negative length, which `size_t` turns into an immense
    one, and a request from in front of the file a read at a negative position. These are exactly the
    requests that do: `SessionRuns.BadReadIff`, `SessionRuns.BehindEndFails`. A Range header for the last k
    bytes (RFC 7233, section 2.1) is taken for the position -k: `SessionRuns.SuffixFails`. One that ends just in
    front of its first byte is taken for one without an end: `SessionRuns.EmptyRangeIsOpen`.
* The WebSocket delivery loop ends because every consumed frame shortens `recv_mbuf`
  (`WsModel.DeliverShrinks`). The length behind the reassembled front is no measure: a first fragment
  in the middle of another message resets `reass_len` and leaves as many bytes or more, exactly when the
  front is at least as long as the frame: `WsModel.PendingShrinksIff`, `WsModel.PendingCanGrow`.
* The size of a delivered WebSocket message underflows exactly for an empty final continuation when
  nothing has been reassembled; the model reports it as the event `SizeUnderflow`:
  `WsModel.UnderflowIff`, `WsModel.UnderflowOnFresh`.
* The length of an HTTP chunk wraps at 2^64. A chunk found lies outside the buffer exactly when its
  length field is 2^64 - 2, and `memmove` is then called with that length: `ChunkModel.InsideIff`,
  `ChunkModel.WrappedIsFound`.
* `mg_coap_compose` accepts option numbers and lengths up to 65804, of which the parser keeps 16 bits:
  `CoapModel.RoundTripIff`, `CoapModel.WideOptionLost`.
* `mg_coap_parse` accepts a payload marker with no payload behind it: `CoapModel.MarkerAloneAccepted`.
* `parse_mqtt` reads five length bytes where the standard allows four, so its round trip reaches up to
  2^31 - 1 bytes; `mg_mqtt_publish` keeps topic lengths modulo 65536: `MqttModel.RoundTripIff`,
  `MqttModel.LongTopicLost`. A subscription with such a topic promises more bytes than it sends:
  `MqttCommands.SubscribeRoundTripIff`. Acknowledgements too short for their identifier are accepted, and the
  bytes behind them taken for it: `MqttCommands.ShortAckAccepted`.
* `mg_dns_encode_name` accepts labels of 64 to 127 bytes and empty ones, which the decoder rejects or
  takes for the end: `Dns.RoundTripIff`, `Dns.LongLabelLost`, `Dns.EmptyLabelLost`.
* `cs_md5_update` counts lengths modulo 2^32: `HashModel.CounterIff`, `HashModel.CounterCanFail`.
* `mg_normalize_uri_path` never needs its fallback for an empty result: `UriPath.NormalizeInPlace`.

## Model

| member | source | states |
|---|---|---|
| `CacheModel.HeldBlockHoldsPieces` | src/ms_mem_storage.c:269-295 | Skipping a whole held block agrees with the per-piece test: every piece slot of a held block is held. |
| `CacheModel.BlockProductsFitIff` | src/ms_mem_storage.c:269-305 | The 32-bit products of block and piece index are in range for every slot exactly when the file has at most 2^31 bytes. |
| `CacheModel.WindowBytes` | src/ms_mem_storage.c:247-295 | A piece is held for a position exactly when all of its bytes lie between 10 MiB in front of it and 20 MiB behind it. |
| `CacheModel.BlockWindowIff` | src/ms_mem_storage.c:269-281 | A whole block is skipped for a position exactly when all of its 128 pieces lie in the window. |
| `CacheFacts.WriteBytes` | src/ms_mem_storage.c:424-468 | A write replaces exactly the bytes of its range in the offset-to-byte view; every other offset keeps its byte or its absence. |
| `CacheFacts.EvictBytes` | src/ms_mem_storage.c:307-359 | Eviction removes whole pieces: an offset is absent afterwards if its piece is dropped, and otherwise shows the byte it showed before. |
| `CacheFacts.PieceLenNeedsFilesize` | src/ms_mem_storage.c:297-305 | A finding: `piece_len` agrees with the valid length of a piece, for any addressable piece, exactly when the file size is known and not just estimated. |
| `CacheFacts.GrowthKeepsCompleted` | src/ms_mem_storage.c:201-236 | Growing the addressable size leaves the total of the cached pieces as it was. |
| `BlockTable.StorePiece` | src/ms_mem_storage.c:441-451 | Copying a chunk to the front of a piece buffer changes the flat cache by exactly that piece, whether or not the slot was filled. |
| `BlockTable.GrowthKeepsPiecesIff` | src/ms_mem_storage.c:201-236 | Growing the size keeps the cached contents exactly when no partly filled tail piece is cached; this is the condition under which sizes may be announced late. |
| `BlockTable.TailLostOnGrowth` | src/ms_mem_storage.c:201-236 | A concrete store: one cached byte, grown to two, reads as two bytes. |
| `MemStorage.MemStorage.Write` | src/ms_mem_storage.c:424-468 | `storage_write`: takes all of the data, leaves the flat cache with the range overwritten, keeps the accounting (`completed_size` is the sum over cached pieces, no block without a piece). |
| `MemStorage.MemStorage.WriteBlock` | src/ms_mem_storage.c:439-457 | The inner loop fills the rest of one block and stops at its end or at the end of the data. |
| `MemStorage.MemStorage.WritePiece` | src/ms_mem_storage.c:441-451 | One piece of the data goes to its slot; `completed_size` grows only if the slot was empty. |
| `MemStorage.MemStorage.ReallocBlocks` | src/ms_mem_storage.c:201-209 | Growing the block array keeps the pieces below the old size and adds empty entries. |
| `MemStorage.MemStorage.SetFilesize` | src/ms_mem_storage.c:211-220 | The file size becomes known: contents and accounting are kept when the tail is settled. |
| `MemStorage.MemStorage.SetContentSize` | src/ms_mem_storage.c:227-236 | An estimate grows the store only while the file size is unknown, and never shrinks it. |
| `MemStorage.MemStorage.Read` | src/ms_mem_storage.c:470-512 | `storage_read` returns cached bytes from the offset on and stops short only at an uncached byte: the longest cached prefix of the range. |
| `MemStorage.MemStorage.ReadBlock` | src/ms_mem_storage.c:484-503 | The inner loop of the read: copies through one block and reports a missing piece. |
| `MemStorage.MemStorage.ReadPiece` | src/ms_mem_storage.c:491-497 | One round of it copies from the middle or the start of a piece to its end or to the end of the range. |
| `MemStorage.MemStorage.CachedFrom` | src/ms_mem_storage.c:361-422 | `cached_from` reports the earliest maximal run: nothing cached before it, all of it cached, ended by the store's end or an uncached byte; length 0 if there is none, -1 on a store of unknown size. |
| `MemStorage.MemStorage.ScanBlock` | src/ms_mem_storage.c:391-414 | The inner loop of the search keeps what is known about the pieces scanned so far, or ends the search with the earliest run. |
| `MemStorage.ReadTakesTheRun` | src/ms_mem_storage.c:361-512 | A read of n bytes where `cached_from` found a run of len returns exactly min(n, len) bytes. |
| `MemStorage.MemStorage.ClearBufferFor` | src/ms_mem_storage.c:307-359 | `clear_buffer_for` leaves exactly the cache of the specification: nothing dropped if there is room, otherwise unheld pieces outside the head, block by block, until enough is released. |
| `MemStorage.MemStorage.EvictBlock` | src/ms_mem_storage.c:332-353 | The inner loop frees the unheld pieces of one block, accounts for each, and finds out whether the block is empty. |
| `CacheRuns.EvictFlatBytes` | src/ms_mem_storage.c:307-359 | Eviction never touches the head block or a piece inside a hold window, and changes no byte it keeps. |
| `CacheRuns.CacheRefinesLastWrite` | src/ms_mem_storage.c:307-512 | Over every run of writes and evictions, an offset is absent or shows the byte last written there, and is present if every eviction since had to keep it. |
| `CacheRuns.ReadsLastWritten` | src/ms_mem_storage.c:470-512 | Whatever a read hands out after any run are the bytes last written at those offsets. |
| `CacheRuns.HeldTotal` | src/ms_mem_storage.c:251-295 | Counting: pieces in the head or in hold windows total at most 2 MiB and 30 MiB per position, however the windows overlap. |
| `CacheRuns.EvictMakesRoom` | src/ms_mem_storage.c:307-359 | After an eviction for len bytes they fit the budget, or the store shrank by len, or it is within the budget. |
| `CacheRuns.EvictScans` | src/ms_mem_storage.c:307-359 | A piece is dropped only without room, outside head and windows, and while what could be dropped in front of its block was not more than asked for; whatever else could be dropped up to its block is dropped too. |
| `CacheRuns.EvictReleasesLittle` | src/ms_mem_storage.c:332-357 | An eviction for len bytes releases at most len and one block of 2 MiB. |
| `CacheRuns.NothingLost` | src/ms_mem_storage.c:307-468 | Over every run in which, at each eviction, the bytes written so far and those announced fit the budget, nothing is ever lost: every offset shows the byte last written there. |
| `CacheRuns.WriteGrowth` | src/ms_mem_storage.c:446-449 | A write adds at most its own length to the completed size. |
| `CacheRuns.CacheBounded` | src/ms_mem_storage.c:255-359 | In every state of every run whose writes are announced to `clear_buffer_for`, the completed size is at most hold_size(K) + L for at most K hold positions and writes of at most L bytes. |
| `Task.HoldPositions` | src/ms_task.c:147-161 | The hold positions `on_recv` computes: the loop never advances its index, so only the last reader's position is stored and the other entries stay 0. |
| `Task.HeldIff` | src/ms_task.c:147-163 | A finding: the pieces protected are exactly those around the last reader and, with two or more readers, those around offset 0. |
| `Task.EarlierReaderUnprotected` | src/ms_task.c:158-163 | A concrete pair of readers whose first one loses the piece it stands at. |
| `Task.NearestPipe` | src/ms_task.c:52-68 | The loop finds a pipe ahead in the given direction such that none ahead is nearer, or that there is none. |
| `Task.DispatchReader` | src/ms_task.c:254-305 | `dispatch_reader` opens exactly the range of the specification, or none, for any reader, cached run and pipes. |
| `Task.DispatchedRange` | src/ms_task.c:254-305 | An opened range starts on a piece where no pipe stands and ends 20 MiB past its reader or at the estimated size, whichever is less; while no size is known it starts at or before its reader and has no length. |
| `Task.DispatchedIff` | src/ms_task.c:254-304 | With the first byte the cache lacks from the reader on: no pipe is opened exactly when 10 MiB or all the rest of the file are cached, or a pipe stands at its piece; any other starts at that piece and ends 20 MiB past the reader or with the file. |
| `Task.RangeEndsWellIff` | src/ms_task.c:259-265 | A finding: that end is on a piece or at the estimated size exactly when the reader is on a piece or at most 20 MiB from the end. |
| `Task.UnalignedReaderFails` | src/ms_task.c:259-304 | A concrete reader, at offset 1 of 100 MiB: its pipe is opened for 20971521 bytes, and if a fragment ends exactly there a delivery fails `storage_write`, however the response was cut before. |
| `HttpPipe.HttpPipe.constructor` | src/ms_http_pipe.c:277-305 | A new pipe has an empty piece buffer, stands at its request offset and expects its request length. |
| `HttpPipe.HttpPipe.OnHeader` | src/ms_http_pipe.c:94-125 | The first event of a response sets the expected length and announces sizes, exactly when this is the first event and the file size is unknown or no length was asked for. |
| `HttpPipe.HttpPipe.OnBody` | src/ms_http_pipe.c:126-205 | One fragment: the deliveries are contiguous from the old position and carry exactly what leaves, each is aligned and whole pieces except one that ends the request; the rest is buffered. |
| `HttpPipe.HttpPipe.CutPieces` | src/ms_http_pipe.c:131-196 | Both steps together: what leaves and what stays make up the pending bytes and the fragment, and all whole pieces have left. |
| `HttpPipe.HttpPipe.TopUp` | src/ms_http_pipe.c:131-185 | The first step fills a begun piece and delivers it when it is full. |
| `HttpPipe.HttpPipe.PassWhole` | src/ms_http_pipe.c:186-196 | The second step delivers the whole pieces of the fragment directly and buffers the remainder. |
| `HttpPipe.HttpPipe.Flush` | src/ms_http_pipe.c:198-203 | The whole buffer is delivered at the position it belongs to, and emptied. |
| `HttpPipeRuns.PipeConserves` | src/ms_http_pipe.c:126-205 | For every fragmentation: output followed by the buffer is exactly the bytes received, the position advances by the output, and after t bytes the output is all whole pieces of them, or everything when t completes the request. |
| `HttpPipeRuns.PassesOn` | src/ms_http_pipe.c:126-205 | A complete request has left entirely; before that whole pieces have left and less than one is held back. |
| `HttpPipeRuns.CutsDoNotMatter` | src/ms_http_pipe.c:126-205 | Two ways of cutting one response give the same output and the same final state. |
| `HttpPipeRuns.PositionAssertsIff` | src/ms_http_pipe.c:130 | The alignment assert holds through a run exactly when no fragment follows the exact end of a request that does not end on a piece. |
| `HttpPipeRuns.PositionAssertCanFail` | src/ms_http_pipe.c:130 | A concrete run: five bytes answer a request for five, and a sixth fails the assert. |
| `HttpPipeRuns.ShortRunsDoNotOverrun` | src/ms_http_pipe.c:126-205 | A response no longer than its request is never such a run, however it is cut. |
| `HttpPipeRuns.WriteAssertsIff` | src/ms_http_pipe.c:126-205 | All deliveries of a fragment, past the end of the request too, meet the asserts of `storage_write` exactly when the fragment does not end where a request ends that is neither on a piece nor at the estimated size. |
| `HttpPipeRuns.DeliveryInside` | src/ms_http_pipe.c:170-202 | Each delivery is the part of the output at its own offset. |
| `HttpPipeRuns.OneByteTooMany` | src/ms_http_pipe.c:240-252 | A finding: the Range header asks for one byte more than wanted; a server that honours it leaves exactly that byte stuck in the pipe. |
| `Session.MediaSession.constructor` | src/ms_session.c:243-289 | A session opens with the position and length of its Range header, negative numbers as they are, or with the rest of the file when no end was given and the size is known; the assert on the length is a precondition. |
| `Session.MediaSession.OnContentSizeFrom` | src/ms_session.c:213-222 | A late file size fixes the length of a session that has none. |
| `Session.MediaSession.SendHeader` | src/ms_session.c:86-105 | The header goes out once, before any data. |
| `Session.MediaSession.PushRead` | src/ms_session.c:130-154 | What was read joins the staged bytes; as much as the limit leaves beside the header moves to the connection, and `sending` grows by exactly that. |
| `Session.MediaSession.SendStaged` | src/ms_session.c:137-148 | The move itself: a prefix of the staged bytes is appended to the send buffer and removed from the stage. |
| `Session.MediaSession.ReadAndPush` | src/ms_session.c:112-154 | The read of a GET asks for what the limit, the range and the file leave, and pushes the longest cached prefix of it; it is refused exactly when the range assert fails, its position is negative or its length is, and then nothing changes. |
| `Session.MediaSession.TryTransferData` | src/ms_session.c:58-156 | A transfer equals its specification, for GET with the answer the store gave and for HEAD; the answer is the longest cached prefix of what is asked for, and the transfer stops behind the header exactly when its read is refused. |
| `Session.MediaSession.AcknowledgeBytes` | src/ms_session.c:163-197 | Sent bytes are charged to the header first, then to position, a positive length and `sending`; the session closes when nothing is left. |
| `Session.MediaSession.SocketTook` | src/ms_session.c:158-201 | The socket takes any part of the outbox and the rest of `on_send` runs, a further transfer included, refused or not, for GET and HEAD. |
| `Session.InvCanTransfer` | src/ms_session.c:58-156 | In every state the invariant allows a transfer meets its preconditions, and its read is refused exactly when a run of the model may not go on. |
| `Session.InvCanTake` | src/ms_session.c:158-201 | Likewise for `on_send`, for any number of bytes the socket took. |
| `SessionRuns.TransferKeeps` | src/ms_session.c:58-156 | A transfer without a fault keeps the invariant for every, possibly short, answer, for requests inside and outside the file. |
| `SessionRuns.AcknowledgeKeeps` | src/ms_session.c:158-201 | Taking any prefix of the outbox keeps the invariant, with the taken bytes appended to the wire. |
| `SessionRuns.RunKeeps` | src/ms_session.c:58-222 | Every run of size news, transfers and partial sends keeps the invariant, for requests inside and outside the file. |
| `SessionRuns.SessionDelivers` | src/ms_session.c:58-222 | A GET of any position and length, however its steps interleave, up to a fault: the wire is a prefix of the header and what the file has of the range, `sending` and the header share are the length of the send buffer, which stays within 1.5 limits, a session that sends anything started inside the file, and it is closed exactly when all of this is on the wire and the file has all of the range. |
| `SessionRuns.FirstToLastServed` | src/ms_session.c:254-289 | A header `bytes=first-last` inside the file: every run sends a prefix of the header and the bytes from first to last, the last one included, and closes exactly with all of them; some run does (RFC 7233, section 2.1). |
| `SessionRuns.FirstOnServed` | src/ms_session.c:254-289 | Likewise `bytes=first-`, with all bytes from first on. |
| `SessionRuns.WholeFileServed` | src/ms_session.c:254-289 | Without a Range header the whole file is served. |
| `SessionRuns.EmptyRangeIsOpen` | src/ms_session.c:262-267 | A finding: a header that ends one byte in front of its first is taken for one without an end. |
| `SessionRuns.BackwardRefused` | src/ms_session.c:262-268 | The assert on the length fails exactly for headers that end earlier than that. |
| `SessionRuns.WireIsPrefix` | src/ms_session.c:58-201 | The invariant alone gives these facts for any one state. |
| `SessionRuns.SafeNeverFails` | src/ms_session.c:112-128 | A request inside the file that reaches its end, fits the limit together with the header, or has at least 2.5 limits less one byte, reaches no failing range assert and no bad read in any run. |
| `SessionRuns.RangeFailsIff` | src/ms_session.c:112-127 | A finding: of all requests, some run reaches a failing range assert if and only if the range starts inside the file, ends before the file does and has R bytes with limit - header < R < 2 limit + limit / 2 - 1. |
| `SessionRuns.BadReadIff` | src/ms_session.c:112-128 | A finding: of all requests, some run makes a read at a negative position or of negative length if and only if the request starts in front of a non-empty file or behind its end. |
| `SessionRuns.BehindEndFails` | src/ms_session.c:112-128 | A concrete request, 10 bytes from offset 100 of a file of 5: its first read is for -95 bytes, and the range assert does not notice. |
| `SessionRuns.SuffixFails` | src/ms_session.c:254-286 | A Range header for the last k bytes is taken for the position -k, and some run makes a bad read on every file that is not empty (RFC 7233, section 2.1, means the last k bytes). |
| `SessionRuns.ClosesIff` | src/ms_session.c:158-197 | Of all requests, some run closes the session if and only if the range starts inside the file and does not end behind it. |
| `SessionRuns.Finishes` | src/ms_session.c:58-222 | From every reachable state of a safe request the file can answer, and of any other while nothing is staged, some run of at most one event per byte and four more closes the session. |
| `SessionRuns.PastEndWaits` | src/ms_session.c:112-134 | A finding: when all the file has of a range that ends behind it is sent, no event changes anything any more, and the session is open. |
| `SessionRuns.PastEndSticks` | src/ms_session.c:58-197 | A concrete request, 10 bytes of a file of 5: all 5 are on the wire, 5 are still due, and every further event changes nothing. |
| `SessionRuns.ExactEndSilent` | src/ms_session.c:64-67 | A finding: a request without a length at the exact end of any file sends nothing in any run, not even its header. |
| `SessionRuns.NeverStalls` | src/ms_session.c:130-154 | Between events an empty outbox means nothing is staged, and the next data goes out at once and whole. |
| `SessionRuns.HeadSendsHeader` | src/ms_session.c:86-110 | A HEAD of a range that is not empty puts out exactly the header, and its connection is to close behind it. |
| `SessionRuns.RangeAssertsIff` | src/ms_session.c:112-127 | In one state of a range that ends earlier, the assert holds exactly when nothing is staged, or the unsent rest is at least one limit, or the range ends where the file does. |
| `SessionRuns.RangeAssertCanFail` | src/ms_session.c:112-127 | A concrete request and run that reach the failing assert. |
| `StreamPath.ArrivalsAreFile` | src/ms_http_pipe.c:126-205 | What a pipe of any length hands on for the next bytes of the file, its end passed or not, are parts of the file at their offsets, each accepted by `storage_write`. |
| `StreamPath.ReceiveKeeps` | src/ms_task.c:144-165 | Making room and writing keeps the cache equal to the file and within its bound, for any hold positions. |
| `StreamPath.StepKeeps` | src/ms_task.c:125-174 | Every step of the composed system that does not fail keeps its invariant. |
| `StreamPath.PathDeliversFile` | src/ms_server.h:24-95 | Every interleaving, from an empty store of unknown size, of pipes with any aligned start and any length, fragments past their end included, deliveries, evictions and clients that ask for anything, up to a failure: the cache shows only the file and stays within its bound, every client has received a prefix of its header and what the file has of its range, and its session closed exactly when that is all sent and all of the range. |
| `StreamPath.DispatchedEnabled` | src/ms_task.c:254-305 | Every pipe the media task opens, before and after the file size is known, is one of those the theorem covers. |
| `StreamPath.SafeClientsPass` | src/ms_session.c:58-201 | In every reachable state the next transfer of a client with a safe request has no fault, whatever the socket takes. |
| `StreamPath.EveryClientCanFinish` | src/ms_server.h:24-95 | From every reachable state, each open client with a safe request the file can answer can be served to the end: some run, of at most four events per byte left and five more, closes its session with its whole stream on the wire, the cache answering every read with its longest cached prefix. |
| `StreamPath.PieceArrives` | src/ms_task.c:144-165 | From every reachable state that knows the size, a pipe opened for the piece of any offset, one fragment and its delivery bring that piece into the store, whatever is evicted for it. |
| `Mbuf.Mbuf.Append` | src/mongoose.c:1566-1613 | `mbuf_append` appends; it reallocates, with bounded headroom, exactly when the bytes do not fit. |
| `Mbuf.Mbuf.Remove` | src/mongoose.c:1615-1621 | `mbuf_remove` drops the first n bytes, or nothing when there are fewer. |
| `Mbuf.Mbuf.CloseGap` | src/mongoose.c:9809-9812 | A `memmove` of the tail closes a gap in the contents. |
| `Mbuf.Mbuf.MoveDown` | src/mongoose.c:6193-6195 | A `memmove` inside the contents copies the source range over the destination, overlap included. |
| `WsFrames.MaskedTwice` | src/mongoose.c:9930-9936 | Masking twice with the same key gives the payload back. |
| `WsFrames.MaskedBits` | src/mongoose.c:9930-9936 | Each bit of byte i of a masked payload is set exactly when that bit differs in byte i and in byte i modulo 4 of the key (RFC 6455, section 5.3). |
| `Bytes.XorIsExclusive` | src/mongoose.c:9930-9936 | The exclusive or of two octets, bit by bit. |
| `WsFrames.MostSignificantFirst` | src/mongoose.c:9757-9774 | Length fields are in network byte order. |
| `WsFrames.StandardExamples` | src/mongoose.c:9892-9950 | Frames printed in RFC 6455, section 5.7: in one part, in two fragments, and a ping. |
| `WsFrames.LongExamples` | src/mongoose.c:9892-9950 | The headers printed there for 256 and 65536 bytes. |
| `WsFrames.LengthBounds` | src/mongoose.c:9892-9917 | Where the three forms of the length change: at 126 and, one early, at 65535. |
| `WsFrames.HeaderOfEncoded` | src/mongoose.c:9757-9795 | Reading back an encoded frame, whatever follows it: header length, payload and mask are those sent (RFC 6455, section 5.2). |
| `WsFrames.HeaderExtends` | src/mongoose.c:9757-9774 | More bytes behind a complete frame do not change how it is read. |
| `WsFrames.HeaderIff` | src/mongoose.c:9757-9780 | A frame is found exactly when its header and payload are there in unbounded numbers, and refused exactly when they add up to 2^64 or more. |
| `WsModel.DeliverShrinks` | src/mongoose.c:9996-9999 | The delivery loop terminates on every input: each consumed frame shortens `recv_mbuf`. |
| `WsModel.PendingShrinksIff` | src/mongoose.c:9797-9812 | A finding: a consumed frame shortens the bytes behind the reassembled front unless it starts a new message behind a front at least as long as itself. |
| `WsModel.PendingCanGrow` | src/mongoose.c:9800-9812 | A concrete frame: two bytes behind a front of 100 leave 100 pending bytes. |
| `WsModel.UnderflowIff` | src/mongoose.c:9814-9823 | A finding: the size of a delivered message underflows exactly for an empty final continuation when nothing has been reassembled. |
| `WsModel.UnderflowOnFresh` | src/mongoose.c:9814-9823 | A concrete frame of two bytes on a fresh connection whose size underflows. |
| `WsModel.RefusedIff` | src/mongoose.c:9739-9755 | A complete frame is refused exactly when it is a fragmented control frame, or an unfragmented data frame inside a fragmented message. |
| `WsModel.CutsDoNotMatter` | src/mongoose.c:9706-9857 | For any bytes at all, any segmentation delivers the same messages and replies and leaves the same bytes as receiving them at once. |
| `WsModel.ErrorsPersist` | src/mongoose.c:9739-9780 | A protocol error seen on some bytes is still seen when more have arrived behind them. |
| `WsModel.CleanRuns` | src/mongoose.c:9706-9857 | If the bytes at once cause no error close, no segmentation does, and the final states are equal. |
| `WsStreams.StreamDelivered` | src/mongoose.c:9706-9950 | Any well-formed sequence of messages, in any fragments with control frames between them, masked or not, in any receive segments, is delivered as exactly the original sequence, with every ping and close answered in order, nothing left over and no error close (RFC 6455, section 5.4). |
| `WsStreams.FramesDelivered` | src/mongoose.c:9736-9738 | With MG_F_WEBSOCKET_NO_DEFRAG every frame is delivered as it was sent. |
| `WsConnection.SendFrame` | src/mongoose.c:9892-9950 | `mg_send_websocket_frame` appends exactly the encoded frame, with the payload masked in place for a client. |
| `WsConnection.MaskInPlace` | src/mongoose.c:9930-9936 | The masking loop over the buffer equals masking the payload. |
| `WsConnection.WsConnection.DeliverData` | src/mongoose.c:9706-9857 | `mg_deliver_websocket_data` on the buffer equals one step of the model, error branches included. |
| `WsConnection.WsConnection.Consume` | src/mongoose.c:9782-9854 | A complete frame is unmasked in place and then joined or delivered as the model says. |
| `WsConnection.WsConnection.JoinFragment` | src/mongoose.c:9797-9812 | A fragment is moved up against the reassembled bytes; a first one leaves its flags byte in front. |
| `WsConnection.WsConnection.FinishMessage` | src/mongoose.c:9814-9825 | The last fragment hands over the reassembled message, or a size underflow when there is none, and drops it. |
| `WsConnection.WsConnection.OnRecv` | src/mongoose.c:9991-9999 | A receive event appends the segment and delivers until no complete frame is left. |
| `ChunkModel.ArrivalsDecodeWhole` | src/mongoose.c:6180-6235 | For any bytes, any cuts and any deletion requests: decoded bytes, left-over bytes and the end of the body are those of decoding the whole at once, unless that meets a chunk outside the buffer. |
| `ChunkModel.CollectExtends` | src/mongoose.c:6189-6203 | Chunks complete in some bytes are found first in any extension of them. |
| `ChunkModel.InsideIff` | src/mongoose.c:6154-6177 | A finding: with lengths and indices modulo 2^64, a chunk that is found lies inside the buffer exactly when its length field is not 2^64 - 2. |
| `ChunkModel.WrappedIsFound` | src/mongoose.c:6154-6177 | That length field with its line end, 18 bytes in all, is taken for a chunk of 2^64 - 2 bytes. |
| `ChunkModel.ChunkedRoundTrip` | src/mongoose.c:6147-6235 | Any chunks written by `mg_send_http_chunk` and ended by an empty one, cut anywhere: the body is their concatenation, deleted or not, and the bytes behind are untouched (RFC 7230, section 4.1). |
| `ChunkModel.KeptBodies` | src/mongoose.c:6211-6216 | Without deletion the buffer ends up holding the body, and every event showed a prefix of it. |
| `ChunkModel.DeletedBodies` | src/mongoose.c:6218-6226 | With deletion at every event the events, in order, make up the body. |
| `ChunkModel.HexInverse` | src/mongoose.c:7180-7188 | The hexadecimal length written for n bytes is read back as n. |
| `ChunkModel.WrittenExamples` | src/mongoose.c:7180-7188 | Three written lengths and a chunk, byte for byte. |
| `ChunkedBody.SendChunk` | src/mongoose.c:7180-7188 | `mg_send_http_chunk` appends exactly the encoded chunk. |
| `ChunkedBody.ChunkedBody.ParseAt` | src/mongoose.c:6147-6178 | `mg_http_parse_chunk` at an offset, in `size_t` arithmetic, finds exactly the chunk of the model, or none. |
| `ChunkedBody.ChunkedBody.MoveChunk` | src/mongoose.c:6194-6196 | The data of a chunk joins the body and what follows the chunk stays where it is. |
| `ChunkedBody.ChunkedBody.CollapseChunks` | src/mongoose.c:6189-6203 | The traversal collapses all complete chunks in place, when each lies inside the buffer: old body and chunk data stand together, the unparsed bytes are intact at the reported position. |
| `ChunkedBody.ChunkedBody.HandleChunked` | src/mongoose.c:6180-6235 | `mg_handle_chunked` on the buffer equals the model, with or without deletion, and never touches the message head. |
| `ChunkedBody.ChunkedBody.OnRecv` | src/mongoose.c:6385-6386 | A segment that arrives is appended and handled unless the body has ended. |
| `CoapModel.Encode` | src/mongoose.c:12402-12471 | The packet written has exactly the precomputed size. |
| `CoapModel.RoundTripIff` | src/mongoose.c:12252-12471 | Every message that composes is parsed back to itself exactly when its option numbers and value lengths are below 65536 (RFC 7252, section 3). |
| `CoapModel.ParsedComposes` | src/mongoose.c:12252-12471 | Whatever packet the parser accepts, the message it reads composes and is parsed back to itself. |
| `CoapModel.StandardExample` | src/mongoose.c:12402-12471 | The request and the answer printed in RFC 7252, appendix A. |
| `CoapModel.ExtendedExamples` | src/mongoose.c:12284-12346 | Options with extended deltas of one and of two bytes, byte for byte. |
| `CoapModel.MarkerAloneAccepted` | src/mongoose.c:12252-12275 | A finding: a payload marker with nothing behind it is accepted (RFC 7252, section 3, calls it a format error). |
| `CoapModel.ParseComposed` | src/mongoose.c:12252-12471 | The round trip on such messages, with the fields the parser reports. |
| `CoapModel.ReadEncodedOptions` | src/mongoose.c:12168-12250 | Options written in order come back in order, in front of any payload. |
| `CoapModel.ReadOptionsNarrow` | src/mongoose.c:12168-12250 | On any bytes the parser reports no option number or length above 16 bits. |
| `CoapModel.WideOptionLost` | src/mongoose.c:12384-12388 | A finding: a message the composer accepts (option 65536) that the parser reads as option 0. |
| `CoapModel.AddKeepsOrder` | src/mongoose.c:11984-12026 | `mg_coap_add_option` keeps a sorted list sorted and puts the new option behind all equal numbers and in front of all larger ones. |
| `CoapCodec.CalculatePacketSize` | src/mongoose.c:12353-12400 | The size loop returns the size of the packet or the error of the first offending field. |
| `CoapCodec.Compose` | src/mongoose.c:12402-12471 | `mg_coap_compose` appends exactly the packet, or reports the error and appends nothing. |
| `CoapCodec.PutOptions` | src/mongoose.c:12440-12460 | The option loop writes all options at the cursor and leaves the rest of the buffer alone. |
| `CoapCodec.AddInOrder` | src/mongoose.c:11984-12026 | The search for the place and the insertion give the list of `CoapModel.AddOption`. |
| `CoapCodec.GetOptions` | src/mongoose.c:12168-12250 | The option loop of the parser equals the recursive reader, failures included. |
| `MqttModel.RoundTripIff` | src/mongoose.c:10526-10648 | `parse_mqtt` undoes `mg_mqtt_publish` exactly for topics below 65536 bytes in packets of at most 2^31 - 1 bytes: QoS, topic, identifier (from QoS 1 on), payload and length. |
| `MqttModel.LongTopicLost` | src/mongoose.c:10846-10862 | A concrete loss: the packet for a topic of 65536 bytes carries an empty topic. |
| `MqttModel.PrefixIncomplete` | src/mongoose.c:10544-10562 | Every strict prefix of such a packet is reported incomplete. |
| `MqttModel.LengthRoundTrip` | src/mongoose.c:10549-10557 | The length digits written are read back, in up to five bytes (MQTT 3.1.1, section 2.2.3, allows four). |
| `MqttModel.LengthLost` | src/mongoose.c:10549-10562 | A longer length is refused, read as a different one, or read as one no buffer holds. |
| `MqttModel.ParseExtends` | src/mongoose.c:10534-10648 | A verdict other than incomplete is not changed by bytes that follow. |
| `MqttModel.CutsDoNotMatter` | src/mongoose.c:10662-10692 | Without a buffer limit, any cuts of any bytes give the same messages, left-over bytes and closing. |
| `MqttModel.DrainStream` | src/mongoose.c:10662-10692 | The first bytes of a stream of packets yield its first packets and leave less than one. |
| `MqttModel.StreamDelivered` | src/mongoose.c:10662-10692 | Any publish packets that fit the buffer limit, cut anywhere, are delivered as exactly the messages meant, with nothing left over and the connection open. |
| `MqttModel.LimitClosesIff` | src/mongoose.c:10662-10692 | A packet that is still incomplete closes the connection exactly when what has come of it reaches the buffer limit. |
| `MqttCommands.ConnectRoundTripIff` | src/mongoose.c:10537-10844 | `parse_mqtt` undoes `mg_send_mqtt_handshake_opt`, will, user name and password included, exactly when no string has 65536 bytes or more; what arrives otherwise is stated too. |
| `MqttCommands.SentBits` | src/mongoose.c:10782-10792 | The three flags that say what is in the packet are right, and all others are those of the caller. |
| `MqttCommands.SubscribeRoundTripIff` | src/mongoose.c:10871-10910 | A finding: a subscription is read back, topic by topic, exactly when no topic has 65536 bytes or more; otherwise its header promises more bytes than are sent and it never completes. |
| `MqttCommands.ConnackRead` | src/mongoose.c:10936-10941 | The return code comes back. |
| `MqttCommands.ShortRead` | src/mongoose.c:10943-10992 | PUBACK, PUBREC, PUBREL and PUBCOMP come back with their identifier; that of UNSUBACK is not read. |
| `MqttCommands.SubackRead` | src/mongoose.c:10975-10988 | SUBACK comes back with its identifier, whatever codes follow it. |
| `MqttCommands.ShortAckAccepted` | src/mongoose.c:10611-10617 | A finding: an acknowledgement without room for its identifier is accepted. |
| `MqttCommands.StandardExamples` | src/mongoose.c:10744-10957 | A length and packets as MQTT 3.1.1 prints them, byte for byte. |
| `MqttCommands.ConnectExample` | src/mongoose.c:10769-10844 | A CONNECT packet with all its strings, byte for byte (MQTT 3.1.1, figure 3.6 and section 3.1.3). |
| `MqttConnection.PutLength` | src/mongoose.c:10750-10757 | The do-while loop writes the length digits, low ones first. |
| `MqttConnection.SendHeader` | src/mongoose.c:10744-10762 | `mg_send_mqtt_header` appends the fixed header. |
| `MqttConnection.Publish` | src/mongoose.c:10846-10869 | `mg_mqtt_publish` appends exactly the packet, topic length kept in 16 bits. |
| `MqttConnection.SendHandshake` | src/mongoose.c:10769-10844 | `mg_send_mqtt_handshake_opt` appends exactly the CONNECT packet. |
| `MqttConnection.ConnectFields` | src/mongoose.c:10772-10812 | Its first half computes flags, keep-alive time and the exact length of the packet. |
| `MqttConnection.SendSubscribe` | src/mongoose.c:10871-10895 | The two loops of `mg_mqtt_subscribe` compute the promised length and append the topics. |
| `MqttConnection.SendConnack` | src/mongoose.c:10936-10941 | `mg_mqtt_connack` appends its packet. |
| `MqttConnection.SendShort` | src/mongoose.c:10948-10957 | `mg_send_mqtt_short_command` appends its packet. |
| `MqttConnection.SendSuback` | src/mongoose.c:10975-10988 | `mg_mqtt_suback` appends its packet, code by code. |
| `MqttConnection.ListTopics` | src/mongoose.c:10897-10910 | Going through a subscription with `mg_mqtt_next_subscribe_topic` gives all its topics. |
| `MqttConnection.MqttConnection.ScanField` | src/mongoose.c:10547-10557 | The length loop equals the recursive reader, too long and cut fields included. |
| `MqttConnection.ParseConnect` | src/mongoose.c:10568-10606 | The CONNECT case takes its strings one after the other and fails unless they end with the packet. |
| `MqttConnection.ParsePublish` | src/mongoose.c:10618-10629 | The PUBLISH case, identifier from QoS 1 on. |
| `MqttConnection.ParseBody` | src/mongoose.c:10564-10645 | The cases of the parser give the message of the model. |
| `MqttConnection.MqttConnection.ParseMqtt` | src/mongoose.c:10534-10648 | `parse_mqtt` on the buffer equals the model, for all commands. |
| `MqttConnection.MqttConnection.OnRecv` | src/mongoose.c:10662-10692 | A receive event delivers all complete packets, removes them, and closes on malformed data or a full buffer. |
| `Dns.JoinSplit` | src/mongoose.c:11294-11321 | Cutting a name at its dots and joining the labels gives the name back. |
| `Dns.EncodeName` | src/mongoose.c:11294-11321 | `mg_dns_encode_name` appends the labels with their lengths and the end mark, or stops with -1 at a label over 127 bytes. |
| `Dns.Walk` | src/mongoose.c:11503-11538 | The decoding loop ends on every packet (measure: pointers left, then bytes left) and never writes more than the buffer holds. |
| `Dns.UncompressResolves` | src/mongoose.c:11491-11545 | A name that resolves to labels within 15 pointers is written as those labels joined by dots, cut to the buffer; any other gives nothing or fills the buffer (RFC 1035, section 4.1.4). |
| `Dns.CyclesEnd` | src/mongoose.c:11508-11519 | A name that runs in a circle, through labels or not, gives nothing or fills the buffer. |
| `Dns.RoundTripIff` | src/mongoose.c:11294-11545 | An encoded name, anywhere in any packet, decodes to itself exactly when all labels have 1 to 63 bytes or the name is empty; then a short buffer gets its prefix. |
| `Dns.CompressedRoundTrip` | src/mongoose.c:11491-11545 | Labels followed by a pointer to an encoded name elsewhere below offset 2^14 decode to the labels and that name, cut to the buffer (RFC 1035, section 4.1.4). |
| `Dns.ChainDecodes` | src/mongoose.c:11508-11519 | A name behind a chain of up to 15 pointers is decoded; behind a longer one it gives nothing. |
| `Dns.StandardExample` | src/mongoose.c:11491-11545 | The compressed names printed in RFC 1035, section 4.1.4. |
| `Dns.EncodableIff` | src/mongoose.c:11294-11321 | A single label is encoded exactly when it has at most 127 bytes. |
| `Dns.LongLabelLost` | src/mongoose.c:11294-11545 | A name of one label of 64 bytes is encoded and decodes to nothing. |
| `Dns.EmptyLabelLost` | src/mongoose.c:11294-11545 | `a..b` is encoded and decodes to `a`. |
| `Dns.UncompressName` | src/mongoose.c:11491-11545 | The loop over packet and destination leaves exactly that name in the destination and returns its length. |
| `HashModel.BlocksAppend` | src/mongoose.c:1198-1205 | Compressing whole blocks and then more data equals compressing the concatenation. |
| `HashModel.AbsorbBlock` | src/mongoose.c:1182-1196 | Completing a block with pending bytes advances the hash of the message by exactly that block. |
| `HashModel.CounterIff` | src/mongoose.c:1177-1179 | The two counter words hold the bit length modulo 2^64 after an update exactly when it is shorter than 2^32 bytes. |
| `HashModel.CounterCanFail` | src/mongoose.c:1177-1179 | A concrete update: 2^32 bytes leave both counter words at 0. |
| `HashModel.PaddingInjective` | src/mongoose.c:1210-1231 | Equal padded messages have equal length fields and, at equal length, equal bytes. |
| `HashModel.PaddedShape` | src/mongoose.c:1210-1231 | Padding is the message, one bit, as few zeros as fill the block, and the length. |
| `Md5.PaddedInjective` | src/mongoose.c:1210-1231 | Messages below 2^61 bytes are padded alike exactly when they are equal (little-endian length; RFC 1321, section 3). |
| `Md5.StartBytes` | src/mongoose.c:1082-1090 | The initial state is the one RFC 1321, section 3.3, prints. |
| `Md5.DigestWords` | src/mongoose.c:1232-1237 | The digest is the four words in order, low-order byte first. |
| `Md5.LengthBits` | src/mongoose.c:1210-1231 | The length field is the number of bits, low-order byte first. |
| `Md5.Md5Ctx.Update` | src/mongoose.c:1174-1208 | `cs_md5_update` takes a context that holds a message to one that holds the message and the data: state, pending bytes and counters. |
| `Md5.Md5Ctx.Final` | src/mongoose.c:1210-1237 | `cs_md5_final` gives the fold of the compression function over the padded message. |
| `Md5.HashParts` | src/mongoose.c:7353-7363 | The digest of several messages depends only on their concatenation. |
| `Sha1.PaddedInjective` | src/mongoose.c:1435-1453 | Messages below 2^61 bytes are padded alike exactly when they are equal (big-endian length; RFC 3174, section 4). |
| `Sha1.StartBytes` | src/mongoose.c:1408-1415 | The initial state is the one RFC 3174, section 6.1, prints. |
| `Sha1.DigestWords` | src/mongoose.c:1453-1459 | The digest is the five words in order, high-order byte first. |
| `Sha1.LengthBits` | src/mongoose.c:1439-1452 | The length field is the number of bits, high-order byte first. |
| `Sha1.Sha1Ctx.Update` | src/mongoose.c:1417-1437 | `cs_sha1_update` likewise; within its length limit none of its 32-bit index sums wraps. |
| `Sha1.Sha1Ctx.Final` | src/mongoose.c:1439-1459 | `cs_sha1_final`, padding byte by byte through the update, gives the fold over the padded message and stops. |
| `Sha1.HashParts` | src/mongoose.c:10018-10029 | The digest of several messages depends only on their concatenation. |
| `Sha1.HmacSha1` | src/mongoose.c:1461-1493 | `cs_hmac_sha1` is HMAC as RFC 2104, section 2, defines it, long keys included. |
| `Sha1.HmacIsNested` | src/mongoose.c:1461-1493 | For keys of up to 64 bytes HMAC is two nested digests, behind the zero-filled key exclusive-ored with 0x36 and with 0x5c. |
| `Sha1.HmacOfLongKey` | src/mongoose.c:1466-1475 | A longer key stands for its digest. |
| `Base64.RoundTrip` | src/mongoose.c:369-427 | Decoding an encoding returns the bytes and consumes the whole text, for every byte string (RFC 4648, section 4). |
| `Base64.CodeInAlphabet` | src/mongoose.c:249-260 | The 64 characters are those of RFC 4648, section 4, in order. |
| `Base64.SextetsValue` | src/mongoose.c:262-277 | The four characters of a group hold the 24 bits of its three bytes, in order. |
| `Base64.EncodeOnce` | src/mongoose.c:315-346 | The one-shot encoder computes the encoding. |
| `Base64.EncodeParts` | src/mongoose.c:283-303 | Updates over any split and a finish give the same text as the one-shot encoder. |
| `Base64.Base64Ctx.Update` | src/mongoose.c:283-293 | `cs_base64_update` puts out every complete chunk and keeps the rest. |
| `Base64.Base64Ctx.Finish` | src/mongoose.c:295-303 | `cs_base64_finish` completes the text with the last bytes and the pad characters. |
| `Base64.DecodeInto` | src/mongoose.c:406-427 | The decoding loop leaves the decoded bytes and a NUL in the destination and reports what it consumed, bad characters included. |
| `UriPath.NormalizedIsNormal` | src/mongoose.c:5486-5518 | For a path that starts with a slash the result starts with one, is no longer, has no `.` or `..` segment, and normalising again changes nothing (RFC 3986, section 5.2.4). |
| `UriPath.DotDotRemoves` | src/mongoose.c:5501-5511 | Behind any part that ends with a slash, a segment other than dots and a `..` behind it disappear together, in the middle or at the end of a path. |
| `UriPath.DotDotAtRoot` | src/mongoose.c:5501-5506 | A `..` at the root disappears. |
| `UriPath.DotDropped` | src/mongoose.c:5496-5501 | A `.` segment disappears. |
| `UriPath.PlainUnchanged` | src/mongoose.c:5486-5518 | A path without dot segments is left as it is. |
| `UriPath.StandardExample` | src/mongoose.c:5486-5518 | The example of RFC 3986, section 5.2.4. |
| `UriPath.SegmentsOfConcat` | src/mongoose.c:5496-5513 | Cutting a path put together from segments gives the segments back. |
| `UriPath.ApplyKeepsOk` | src/mongoose.c:5501-5511 | Every stack the loop reaches is the root followed by well-cut segments other than dots. |
| `UriPath.Backtrack` | src/mongoose.c:5503-5506 | The two backtracking loops stop exactly where the previous segment began, and never above the root. |
| `UriPath.NextComponent` | src/mongoose.c:5342-5354 | The component ends at the next slash or at the end, and the cursor stands behind it. |
| `UriPath.TakeComponent` | src/mongoose.c:5496-5513 | One round writes the stack after the component and leaves the unread bytes intact, because the write cursor is not ahead of the read cursor. |
| `UriPath.NormalizeInPlace` | src/mongoose.c:5486-5518 | The in-place run leaves the stack specification's path in the buffer, or refuses and changes nothing; the fallback for an empty result is never needed. |
| `Url.SafeSetIff` | src/mongoose.c:7106-7136 | Form decoding undoes an encoding for all strings exactly when neither `%` nor `+` is in the safe set. |
| `Url.PathSetIff` | src/mongoose.c:7106-7136 | Path decoding undoes an encoding for all strings exactly when `%` is encoded and no space becomes `+`. |
| `Url.VariablesFound` | src/mongoose.c:7138-7178 | In a query made of any variables, the decoded text of the first one with the name is found, or the code tells what is wrong. |
| `Url.LowerIff` | src/mongoose.c:7138-7178 | Names are compared without regard to the case of letters, and of letters only. |
| `Url.EncodedExamples` | src/mongoose.c:10482-10506 | Encodings in three styles, byte for byte. |
| `Url.PlayExample` | src/ms_server.c:191-198 | A play query, byte for byte. |
| `Url.CutLost` | src/mongoose.c:7106-7136 | An encoding that was cut decodes to less, or not at all. |
| `Url.PlayUrlIff` | src/ms_server.c:191-198 | `mg_get_http_var` recovers the exact URL from a play URL if and only if neither the output buffer nor the variable's buffer is too short. |
| `Url.UrlEncode` | src/mongoose.c:10482-10506 | The encoding loop computes the encoding, in either hexadecimal case and space style. |
| `Url.UrlDecode` | src/mongoose.c:7106-7136 | The decoding loop succeeds exactly when every escape is good and the result fits, and then leaves it in the destination. |
| `Url.GetHttpVar` | src/mongoose.c:7138-7178 | The search finds the first variable of that name, or reports which of the three failures occurred. |
| `Queue.InsertHead` | include/queue.h:83-90 | On a well-formed list, prepends; `next` and `prev` stay inverse and only the two neighbours change. |
| `Queue.InsertTail` | include/queue.h:92-99 | Appends. |
| `Queue.Remove` | include/queue.h:101-106 | Removes the element at its place. |
| `Queue.Add` | include/queue.h:52-59 | Concatenates the elements of two disjoint lists, empty ones included. |
| `Queue.Split` | include/queue.h:61-70 | Splits a list before an element into two well-formed lists. |
| `Queue.Move` | include/queue.h:72-81 | Moves all elements to another head, from an empty list too. |
| `Queue.Empty` | include/queue.h:39-40 | The test holds exactly for a list of its head alone. |

## Left out

- MemStorage.MemStorage.Write: blocks and piece buffers are values in a sequence field, so allocation, freeing and aliasing of buffers are not modelled; fresh piece memory has arbitrary contents. The range must lie below the estimated size, which the block array needs.
- MemStorage.MemStorage.ClearBufferFor: requires a known file size and a length below 2^31, because the source computes with `piece_len` and casts the length to `int`.
- MemStorage.MemStorage.CachedFrom: requires the offset to be at most the estimated size; the block array is not defined behind it.
- MemStorage.MemStorage.SetFilesize: takes sizes up to 2^31 and requires that no partly filled tail is cached; what happens otherwise is stated by `BlockTable.GrowthKeepsPiecesIff`.
- Session.MediaSession.TryTransferData: media sniffing, the header text and the estimate used when the size is unknown after the early return are not modelled; a read that the source would make with a wrapped length, or at which an assert stops it, is reported as refused.
- SessionRuns.SessionDelivers: for a fresh connection with a header of 1 to limit / 2 bytes, up to the first fault; what a read of wrapped length copies is not modelled, nor are negative lengths, which the source takes only from a Range header with a negative number.
- StreamPath.PathDeliversFile: a run ends where an assert fails or a read leaves the file; the response to a pipe opened without a length is one event, and upstream errors are not modelled. Hold positions, the times at which pipes open and close, and the choice of ranges are arbitrary, which includes those of the media task.
- StreamPath.EveryClientCanFinish: says that a run exists, not that the network takes it.
- HttpPipe.HttpPipe.OnHeader: header and Content-Range texts are parameters; redirects, error statuses and closing are not modelled.
- Mbuf.Mbuf.Append: allocation failure and the address overflow check are not modelled; the growth factor 1.5 is integer arithmetic.
- ChunkModel.ChunkedRoundTrip: the stream is shorter than 2^64 bytes; the zeroing of freed bytes has no effect on the contents.
- ChunkedBody.ChunkedBody.HandleChunked: requires that no chunk outside the buffer is met; the source's `memmove` is undefined there, and the value model only records the body as lost.
- ChunkedBody.ChunkedBody.OnRecv: stands for the calls of `mg_handle_chunked` only, not for `mg_http_handler` around it.
- WsStreams.StreamDelivered: the order between the logs of messages and of replies, and what the close handshake does to the socket, are not modelled.
- WsConnection.WsConnection.DeliverData: the reason text of error closes is not modelled, only that one is sent.
- MqttModel.RoundTripIff: for buffers below 2^63 bytes; the identifier of a QoS 0 message is modelled as absent, while the source leaves what an earlier message of the same receive event stored.
- MqttConnection.MqttConnection.ParseMqtt: the identifier of an acknowledgement that ends before it is modelled as absent, while the source reads what lies behind the packet.
- MqttConnection.SendHandshake: a user name or password whose flag the caller has set must be there, because the source measures it.
- MqttConnection.SendHeader: the flags of a call are four bits; the keep-alive clock is not modelled.
- Dns.EncodeName: the name contains no NUL byte, as a C string of its length.
- Dns.UncompressName: names only; the record parser around it and the resolver are left out.
- Md5.Md5Ctx.Update: an update is shorter than 2^32 bytes, beyond which the counter is wrong; the compression function is a parameter, the digit-level rounds are left out, and so is the byte reversal on big-endian machines.
- Sha1.Sha1Ctx.Update: an update is at most 2^32 - 64 bytes, within which its 32-bit index sums do not wrap.
- Base64.EncodeOnce: the NUL that ends the text is not part of the result.
- Url.PlayUrlIff: the text before the query contains no question mark; the request line around it is not parsed.
- CoapCodec.Compose: message ids are 16-bit fields and option lists are sequences instead of linked records.
- UriPath.NormalizeInPlace: input and output share one buffer, as in the only caller that normalises a request.
- Queue.Remove: the element's offset inside its record is not modelled, a node stands for the element.
- Sockets, TLS, CGI, WebDAV, directory listings, file storage, the JSON handlers and the display bitmap are foreign calls or plumbing.
- `mg_http_handler` and `mg_match_prefix_n` have no clean specification of their own.
