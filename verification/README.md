# Verified model of gev

gev is an event-loop TCP server for Go: one accepting loop, several work loops over epoll, non-blocking
connections with ring buffers, and pluggable protocols (a raw one, two length-prefixed ones and WebSocket).
This project models the non-Windows build in Dafny and proves what its design relies on.

The model has three parts.

* **The reactor.** `Reactor.dfy` is one event loop and any number of goroutines as a machine of atomic steps:
  append under the lock, compare-and-swap of `needWake`, eventfd write; and for the loop, collect, dispatch, arm,
  swap, run, check. `Server.dfy` puts any number of such loops together with connections, socket tables and
  descriptors that the kernel may reissue once closed. Theorems speak about every finite run from the start;
  `ServerOutput.dfy` says what is sent, written and closed over every run, told from the tasks, events and answers alone,
  and `ServerRuns.dfy` has the runs in which things go wrong where the theorems say so.
  `EventLoop.dfy` is the same loop as an object with its two task slices over arrays.
* **The connection.** `Connections.dfy` gives every handler as a function of the connection and of whatever the
  kernel answers; `Connection.dfy` is the object whose in-place code is proved to compute those functions, including
  the path that parses the shared packet array while appending answers to it. `Framing.dfy` has the theorem about
  cutting a stream into reads for an arbitrary protocol. `IdleTimer.dfy` is the timer chain over a clock.
* **The codecs.** `ExampleProtocol.dfy`, `Protobuf.dfy` and `DefaultProtocol.dfy`; for WebSocket `WsHeader.dfy`,
  `WsCipher.dfy`, `WsControl.dfy`, `Handshake.dfy` (on `HttpText.dfy` and `Decimal.dfy`, and with its texts spelled out in
  `HandshakeTexts.dfy`), `WsProtocol.dfy` and `WsLongFrames.dfy`, which follow sections 4.2.1, 5.2, 5.3, 5.5 and 7.4 of RFC 6455.

`Bytes.dfy` and `Bits.dfy` hold big-endian numbers and bit strings. `RingBuffer.dfy` is the contract the ring buffer
library is used by: a queue of bytes with a read cursor and a virtual one, whose contents may lie in two segments. Only a
write makes them do so, and only if something was taken from the buffer since it was new or reset.

Where the code falls short of what one would expect of it, the model keeps the code, and the exact condition is proved
together with an input or a run that meets it:

* an idle timer that closes a connection before its registration task has run upsets callback order, descriptor ownership
  and the counter (`Server.CallbackOrder`, `Server.DescriptorOwnership`, `ServerRuns.EarlyCloseBreaks`), and an event that
  then reaches it is answered to another connection's peer or into another connection's buffer (`Server.OutputConserved`,
  `ServerRuns.StrayWrite`, `ServerRuns.PooledBuffer`);
* the finish function of a send is called after `OnClose` when that send closes the connection (`Server.LastCallback`);
* the counter is too low after a refused registration (`Server.CounterExact`, `ServerRuns.CounterTooLow`);
* the idle close is late by the time a callback takes to set its timer (`IdleTimer.PromptExactly`, `IdleTimer.DelayShows`);
* it can also come up to a second early, since activity is kept in whole seconds (`IdleTimer.CloseWindow`,
  `IdleTimer.ClosedEarly`);
* zero-length frames of the example protocol hide frames behind them (`ExampleProtocol.Segmentation`);
* a protobuf message that announces a type longer than itself makes the server panic (`Protobuf.CrashExactly`);
* a handshake whose end is not in the first segment of the ring buffer is cut short or not found (`Handshake.WrapExactly`,
  `Handshake.Unanswered`), which the buffers of a connection do not come to before its upgrade (`WsProtocol.Keys.Serve`);
* WebSocket frames of 65536 to 2^32 - 1 bytes can be misread when their header is split (`WsLongFrames.SafeFrames`);
* a close reason can be cropped inside a character (`WsControl.ReplyPasses`).

Assumptions: the kernel never hands out a descriptor that is open, and closing a descriptor removes it from every epoll;
changing the interest of a registered descriptor succeeds; writing the eventfd succeeds; the pool hands out no buffer that an
open connection holds, and empty ones unless a closed connection worked on them; a timer fires at most a given
slack after the instant it was set for (it may be early).

## Model

| member | source | states |
|---|---|---|
| `Reactor.InvRun` | eventloop/eventloop.go:131-166 | every interleaving of producers, closers and the loop keeps the wakeup, FIFO, batch and shutdown invariants |
| `Reactor.NoLostWakeup` | eventloop/eventloop.go:131-158 | a queued task always has a goroutine on its way to the eventfd, a readable eventfd, or a loop that drained the eventfd and has not swapped yet; a loop that can only sleep has run everything |
| `Reactor.FifoExactlyOnce` | eventloop/eventloop.go:155-166 | executed tasks, the rest of `taskQueueR` and `taskQueueW`, in that order, are the tasks in the order they were appended |
| `Reactor.DrainRunsSnapshot` | eventloop/eventloop.go:155-166 | each drain runs exactly the tasks present at the swap, even if they or others append more meanwhile |
| `Reactor.WakeReadNeverBlocks` | poller/epoll.go:65-70 | whenever the loop reads the eventfd its counter is non-zero, and it reads it once per batch |
| `Reactor.NoMissedShutdown` | poller/epoll.go:73-87 | once `running` is cleared a wake is owed or pending or the loop is about to look or has exited, so nobody waits on `waitDone` for a loop that can only sleep |
| `Reactor.TasksCanRun` | poller/epoll.go:144-185 | from every reachable state of a running loop, its own steps and the eventfd writes already owed suffice to run every task appended so far |
| `Reactor.ShutdownCompletes` | poller/epoll.go:144-185 | from every reachable state with `running` cleared, the loop's own steps and the eventfd writes already owed suffice to make it exit |
| `Reactor.QueuedTaskRuns` | eventloop/eventloop.go:131-141 | a task appended in any reachable state of a loop not told to stop can run, after everything appended before, by owed steps alone |
| `Reactor.CloseStops` | poller/epoll.go:73-87 | from every reachable state of a running loop, `Close` clears `running` and wakes the loop, and owed steps then make it exit, with the closer waiting for exactly that |
| `Reactor.StartAndStop` | poller/epoll.go:73-87 | a run from the start in which the loop is closed and exits |
| `Server.InvRun` | server.go:80-91 | every run over any number of loops and connections, with closes at any time, keeps the tables, queues, registration phases and batches consistent |
| `Server.NoStaleDispatch` | poller/epoll.go:158-185 | an event goes to the very connection epoll watched its descriptor for when the batch was collected, or is dropped, even if the descriptor was closed and reused; that connection is connected and owns the descriptor, and no other is affected, if and only if it was not closed before its registration ran; otherwise it works on a buffer it has given back |
| `Server.OutputConserved` | connection.go:253-328 | in every run, as long as nobody else worked on the buffers of a connection, what the kernel took from it is a prefix of what it sent and, while it is open, `outBuffer` is the rest; what its socket took from whomever, followed by `outBuffer`, is then what was sent if and only if no other connection wrote to that socket; either can only come from a connection closed before its registration that was given the same descriptor or one of the same buffers |
| `Server.BuffersExclusive` | connection.go:52-80 | two open connections never hold the same ring buffer |
| `Server.InterestFollowsOutput` | connection.go:182-192 | epoll watches every connected and registered connection, for writing exactly while output is buffered unless a connection closed before its registration worked on its buffers, and its loop lists it unless another connection of the loop was closed before its registration under the same descriptor |
| `Server.CallbackOrder` | connection.go:288-303 | `OnConnect` first and `OnClose` once and at the end (at most a finish function after it) if and only if no close of the connection ran before its registration task |
| `Server.LastCallback` | connection.go:132-140 | whatever closes a connection makes `OnClose` its last callback, except a send with a finish function whose write fails while nothing is buffered: then and only then the finish function follows |
| `Server.ClosedStaysUntouched` | connection.go:122-154 | no step of any later run changes a closed connection that was not closed before its registration, whatever is still queued for it and whoever gets its descriptor |
| `Server.DescriptorOwnership` | eventloop/eventloop.go:80-98 | what a loop lists under a descriptor is the connected connection that owns it if and only if that connection was not closed before its registration ran |
| `Server.OneLoopEach` | eventloop/eventloop.go:80-98 | two loops list one descriptor only if one of the connections they list was closed before its registration ran |
| `Server.CounterExact` | eventloop/eventloop.go:80-98 | `ConnCunt` is in every run the registrations epoll took less the closes; on a loop without closes before registration it is the number of listed sockets if and only if no connection was closed after epoll had refused it, and otherwise too low by their number |
| `Server.LoopsAreReactors` | eventloop/eventloop.go:143-153 | the steps of each loop within a run of the server are a run of one event loop, so the single-loop theorems hold of it |
| `Server.NoLostWakeup` | eventloop/eventloop.go:131-158 | a loop of the server that can only sleep, with nobody inside `QueueInLoop`, has run every registration, send and close queued to it |
| `Server.TasksCanRun` | poller/epoll.go:144-185 | from every reachable world the steps of a running loop and the eventfd writes already owed suffice to run everything queued to it, whatever the outside answers at each step |
| `ServerOutput.StepExactly` | connection.go:122-154 | what every step does to an open connection, told from the task run, the event handed out and the answers of the kernel: what it sends, what the kernel takes and whether it closes |
| `ServerOutput.SentExactly` | connection.go:132-140 | over every run, what a connection sent is in order the data of the send tasks run while it was open and the answers to its reads, what the kernel took is what it answered to the writes of these steps, and it is open if and only if none of them closed it |
| `ServerOutput.TaskDone` | server.go:80-91 | a registration makes `OnConnect` the next callback and lists the connection exactly when epoll takes it, a send to an open connection sends its data, a close leaves it closed, and no other connection changes |
| `ServerOutput.SendIsSent` | connection.go:122-140 | from every reachable world a send queued to a connection can be run after everything queued before it, and its data is then part of what the connection has sent since, unless something closed it first |
| `ServerOutput.CloseIsDone` | connection.go:143-154 | from every reachable world a close queued to a connection can be run, and leaves it closed |
| `ServerRuns.CounterTooLow` | eventloop/eventloop.go:80-98 | a run from the start in which a refused registration and a close leave the counter below the number of listed sockets |
| `ServerRuns.FinishAfterClose` | connection.go:132-140 | a run from the start in which the finish function of a send is called after `OnClose` |
| `ServerRuns.PartialSend` | connection.go:309-320 | a run from the start in which the kernel takes the first n bytes of a send: they are on the wire, the rest is buffered and watched for |
| `ServerRuns.FlushedSend` | connection.go:253-286 | and in which it then takes the rest: exactly the data is on the wire |
| `ServerRuns.EarlyCloseBreaks` | server.go:80-91 | a run from the start in which a close before the registration makes `OnClose` precede `OnConnect`, lists the closed connection under a descriptor another one owns and a second loop lists, and leaves the counter wrong |
| `ServerRuns.EarlyCloseIsTouched` | connection.go:172-206 | and in which the closed connection then gets a message |
| `ServerRuns.StrayWrite` | connection.go:305-328 | a run from the start in which it answers, for every answer, and the peer of another connection is given bytes that were never sent to it |
| `ServerRuns.PooledBuffer` | connection.go:288-303 | a run from the start in which another connection was given its output buffer from the pool, and now holds output that was never sent and that epoll does not watch for |
| `EventLoops.EventLoop.Append` | eventloop/eventloop.go:131-134 | appends in place or into a larger new array; contents grow by one task and the other slice is untouched |
| `EventLoops.EventLoop.QueueInLoop` | eventloop/eventloop.go:131-141 | appends, and writes the eventfd exactly when it was the one to clear `needWake` |
| `EventLoops.EventLoop.RunAll` | eventloop/eventloop.go:160-163 | runs the read slice in order; what the tasks queue lands in the other slice in order, and the two never share storage |
| `EventLoops.EventLoop.DoPendingFunc` | eventloop/eventloop.go:155-166 | runs exactly the tasks queued before, in order; leaves exactly the tasks they queued |
| `EventLoops.EventLoop.HandleWake` | eventloop/eventloop.go:149-152 | afterwards `needWake` is set if and only if nothing is queued, and otherwise the eventfd has been written once |
| `EventLoops.EventLoop.AddSocketAndEnableRead` | eventloop/eventloop.go:89-98 | lists and watches the socket exactly when epoll accepts it, takes the entry back otherwise, and keeps the counter in step with what is watched |
| `EventLoops.EventLoop.DeleteFdInLoop` | eventloop/eventloop.go:80-86 | keeps the counter equal to the watched descriptors less the deletions of unwatched ones, of which this is one exactly when the descriptor was not watched; no other descriptor is affected |
| `Connections.SendKeeps` | connection.go:305-328 | sending keeps callback order and epoll registration, and conservation and poll interest if they held |
| `Connections.SendTaskKeeps` | connection.go:132-140 | the task of `Send` keeps the invariant and adds exactly the callbacks it should: a finish function, and `OnClose` before it exactly when nothing was buffered and the write fails |
| `Connections.EventKeeps` | connection.go:172-206 | every event a registered connection can be handed keeps callback order and epoll registration, and conservation and poll interest if they held, whatever the kernel answers |
| `Connections.SendExactly` | connection.go:305-328 | from the write result alone: what goes on the wire, what is buffered and when the connection closes |
| `Connections.WriteExactly` | connection.go:253-286 | from the two write results alone: what the kernel took of the first segment and, if that was all of it, of the second goes on the wire, the rest stays buffered, and a failed write closes |
| `Connections.EventExactly` | connection.go:172-206 | for every event and all answers: what is sent, what goes on the wire, when the connection closes and which callbacks are made |
| `ConnectionObjects.Connection.constructor` | connection.go:52-80 | a new connection is connected, unregistered, with empty buffers of its own |
| `ConnectionObjects.Connection.HandleClose` | connection.go:288-303 | closes once, hands both buffers back to the pool, and does nothing the second time |
| `ConnectionObjects.Connection.SendInLoop` | connection.go:305-328 | the in-place code does what the connection specification says for every write result, and reports a close exactly when there was one |
| `ConnectionObjects.Connection.HandleWrite` | connection.go:253-286 | the two-segment flush of the wrapped ring buffer does what the specification says for the cut it found |
| `ConnectionObjects.Connection.HandlerProtocolInPlace` | connection.go:208-218 | the loop over the packet array itself, with answers appended behind the input in the same array, never overwrites unread input and delivers what unpacking the input delivers |
| `ConnectionObjects.Connection.HandlerProtocolBuffered` | connection.go:208-218 | the loop over the input ring buffer delivers, answers and leaves what unpacking its contents does |
| `ConnectionObjects.Connection.Unpack` | connection.go:232-245 | both paths have the same outcome: that of unpacking the left-over bytes followed by the bytes just read |
| `ConnectionObjects.Connection.HandleRead` | connection.go:220-251 | frames, answers, left-over bytes and closing for every result of the read |
| `ConnectionObjects.Connection.HandleEvent` | connection.go:172-206 | the event handler refines the specification: error, then flush, and reading only once all output is gone; with the protocol state, the frames, the left-over bytes and the reads afterwards |
| `ConnectionObjects.Connection.Serve` | connection.go:172-251 | a whole list of events with whatever the kernel answers leaves the object as the specification of the list says |
| `ConnectionObjects.PlayAccounted` | connection.go:172-251 | over every list of events, frames and left-over bytes are those of the reads that took place, and everything sent is the answers to them |
| `ConnectionObjects.ServedAsOneRead` | connection.go:172-251 | with a protocol independent of segmentation, a served connection has delivered and answered what one big read of its input would have |
| `Framing.SplitRead` | connection.go:208-251 | for a protocol stable under appending bytes, reading b and then x is reading b followed by x |
| `Framing.SegmentationTheorem` | connection.go:208-251 | for a protocol that is stable under appending bytes and recognises a frame before the last byte of the next one, the outcome is the same for every way of cutting a stream into non-empty reads if and only if one big read leaves nothing that another `UnPacket` call would consume |
| `Framing.StreamDelivered` | connection.go:208-251 | every segmentation of an encoded list of frames and an incomplete tail delivers exactly the list and keeps the tail |
| `Framing.AnswersIndependent` | connection.go:208-251 | where the frames do not depend on the segmentation, what is sent back does not either, even if answers depend on the whole history |
| `Framing.AnswersExactly` | connection.go:208-218 | the bytes collected are the answers of the handler to each frame, given everything delivered up to it, one behind the other |
| `Framing.EarlyFrame` | connection.go:208-251 | a protocol that makes a frame of the first bytes of a stream that does not begin with it is not independent of the segmentation |
| `ExampleProtocol.Packet` | example/protocol/protocol.go:35-42 | fills a new array with the length and the data |
| `ExampleProtocol.UnPacket` | example/protocol/protocol.go:15-33 | flushes a complete frame off the ring buffer or takes the virtual cursor back |
| `ExampleProtocol.RoundTrip` | example/protocol/protocol.go:15-42 | what was packed is unpacked, whatever follows, if and only if it has 1 to 2^32 - 1 bytes |
| `ExampleProtocol.Segmentation` | example/protocol/protocol.go:15-42 | delivery is independent of how a stream is cut into non-empty reads if and only if the stream is not packets, an empty packet and text that starts with a complete frame |
| `ExampleProtocol.SegmentationFails` | example/protocol/protocol.go:15-33 | an input for which it is not: an empty frame followed by a frame of one byte |
| `ExampleProtocol.PacketsDelivered` | example/protocol/protocol.go:15-42 | every list of packets of 1 to 2^32 - 1 bytes arrives unchanged and in order under every segmentation |
| `Protobuf.PackMessage` | plugins/protobuf/protobuf.go:6-20 | fills a new array with both lengths, type and data at their offsets |
| `Protobuf.UnPacket` | plugins/protobuf/protocol.go:27-50 | takes a complete message off the ring buffer, or nothing; panics exactly when the type length exceeds the message |
| `Protobuf.RoundTrip` | plugins/protobuf/protocol.go:27-50 | what was packed is unpacked, whatever follows, if and only if both lengths fit their fields |
| `Protobuf.Segmentation` | plugins/protobuf/protocol.go:27-50 | for every byte stream, delivery (and whether the server panics) is independent of segmentation |
| `Protobuf.MessagesDelivered` | plugins/protobuf/protocol.go:27-50 | every list of fitting messages arrives unchanged and in order under every segmentation; only a last message of six bytes waits |
| `Protobuf.CrashExactly` | plugins/protobuf/protocol.go:27-50 | however it is cut, a stream crashes the server if and only if it holds, behind fitting messages, a complete message that announces a type longer than itself |
| `Protobuf.SevenBytesCrash` | plugins/protobuf/protocol.go:39-40 | seven bytes that do |
| `DefaultProtocols.UnPacket` | protocol.go:19-39 | both segments come out in order as one piece, the buffer is emptied, and the user buffer only grows |
| `DefaultProtocols.NothingLost` | protocol.go:19-39 | over every list of reads nothing is lost, repeated or reordered |
| `WsCipher.Cipher` | plugins/websocket/ws/cipher.go:14-56 | the head, eight-bytes-at-a-time and tail loops together combine byte i with mask byte (offset + i) mod 4, exactly once, in either byte order |
| `WsCipher.WordXor` | plugins/websocket/ws/cipher.go:48-51 | combining two words is combining the bytes they are stored in |
| `WsCipher.MaskTwice` | plugins/websocket/ws/cipher.go:42-43 | the doubled 32-bit mask is the word stored in the mask written twice |
| `WsCipher.MaskedTwice` | plugins/websocket/ws/cipher.go:7-14 | masking is its own inverse |
| `WsCipher.MaskedInPieces` | plugins/websocket/ws/cipher.go:7-14 | masking in pieces, each at the offset where the last ended, is masking the whole |
| `WsCipher.MaskedSum` | plugins/websocket/ws/cipher.go:14-56 | in arithmetic: every binary digit of a masked byte is the sum modulo two of that digit of the payload and of the mask byte whose turn it is |
| `WsCipher.MaskedByZeros` | plugins/websocket/ws/cipher.go:14-56 | a mask of zeros changes nothing |
| `Bits.XorSum` | plugins/websocket/ws/cipher.go:18-18 | the exclusive or of two bytes, digit by digit in arithmetic |
| `Bits.XorZero` | plugins/websocket/ws/cipher.go:18-18 | zero changes nothing and equal bytes cancel |
| `WsHeader.WriteHeader` | plugins/websocket/ws/write.go:48-84 | the bytes ORed and written into the fixed array are the encoding of the header |
| `WsHeader.VirtualReadHeader` | plugins/websocket/ws/read.go:19-84 | the virtual cursor, the scratch slice and the header read, also when the header is incomplete and wherever the virtual cursor stood |
| `WsHeader.RoundTrip` | plugins/websocket/ws/read.go:19-84 | a written header is read back, and the cursor moved by exactly its size, if and only if its fields fit their bits |
| `WsHeader.ParsedIsEncodable` | plugins/websocket/ws/read.go:29-77 | every header that is read has fields that fit their bits |
| `WsHeader.Shortest` | plugins/websocket/ws/write.go:58-76 | no complete header that reads as h is shorter than the one written for h |
| `WsHeader.WireWritten` | plugins/websocket/ws/write.go:48-84 | the writer writes the format of section 5.2 of RFC 6455, in numbers, with the length in its shortest form |
| `WsHeader.WireRead` | plugins/websocket/ws/read.go:19-84 | the reader reads that format in every form of the length and whatever follows; a 64-bit length with its top bit set is bad |
| `WsControl.NewCloseFrameBody` | plugins/websocket/ws/frame.go:251-271 | the filled slice is the code followed by as much of the reason as fits |
| `WsControl.CheckedCode` | plugins/websocket/ws/util/util.go:65-85 | the check passes if and only if the code may be sent by an endpoint and the reason is valid UTF-8 |
| `WsControl.CodeExactly` | plugins/websocket/ws/util/util.go:65-85 | which failure is reported for which code |
| `WsControl.CodeRead` | plugins/websocket/ws/read.go:89-102 | the code is the big-endian number in the first two bytes; a payload of one byte is refused as not in use |
| `WsControl.Utf8Exactly` | plugins/websocket/ws/util/util.go:79-80 | the reasons taken for valid are exactly the UTF-8 forms of sequences of Unicode scalar values |
| `WsControl.FrameReadsAs` | plugins/websocket/ws/frame.go:194-278 | the bytes of a frame read back as that frame |
| `WsControl.CloseReply` | plugins/websocket/ws/util/util.go:27-46 | for every close payload the reply reads as a final, unmasked close frame of at most 125 bytes, empty or with a sendable code, and echoes the payload if and only if it was valid and fits |
| `WsControl.ErrorReply` | plugins/websocket/ws/util/util.go:36-43 | an invalid payload is answered with code 1002 and a body that passes the check |
| `WsControl.ReplyPasses` | plugins/websocket/ws/util/util.go:27-46 | the reply passes the check itself if and only if no valid reason was cropped inside a character |
| `WsControl.ReplyFails` | plugins/websocket/ws/util/util.go:27-46 | a family of valid payloads whose reply does not pass: 122 ASCII bytes and a two-byte character |
| `WsControl.PongEchoes` | plugins/websocket/ws/util/util.go:49-51 | a ping is answered by a final, unmasked pong with the same payload |
| `WsControl.ReplyBytes` | plugins/websocket/ws/util/util.go:27-51 | a close reply is 0x88, the length and the body, a pong to at most 125 bytes is 0x8a, the length and the payload |
| `WsControl.ReplyText` | plugins/websocket/ws/util/util.go:27-46 | nothing to nothing; code 1002 and the reason of the refusal to an invalid payload; to a valid one its first 125 bytes |
| `Decimal.Pow` | plugins/websocket/ws/util.go:28-38 | square-and-multiply in wrapping 64-bit arithmetic is the power, truncated to 64 bits |
| `Decimal.AsciiToInt` | plugins/websocket/ws/util.go:9-24 | the decimal value truncated to 64 bits; fails exactly on empty input or a byte outside 0x30 to 0x3f |
| `Decimal.ReadsDecimals` | plugins/websocket/ws/util.go:9-24 | a number written in decimal is read back, truncated to 64 bits; nothing is read exactly of an empty text and of one with a byte outside 0x30 to 0x3f |
| `HttpText.Btrim` | plugins/websocket/ws/util.go:50-59 | the two loops compute the trimmed text |
| `HttpText.TrimExact` | plugins/websocket/ws/util.go:50-59 | trimming removes exactly the spaces and tabs around a text that has none at its ends |
| `HttpText.Split3Exact` | plugins/websocket/ws/util.go:40-48 | the text is split at its first two separators |
| `HttpText.CanonicalizeHeaderKey` | plugins/websocket/ws/util.go:76-86 | the in-place loop computes the canonical form |
| `HttpText.CanonicalIsFold` | plugins/websocket/ws/util.go:76-86 | two names have the same canonical form if and only if they differ only in the case of ASCII letters |
| `HttpText.HttpParseHeaderLine` | plugins/websocket/ws/http.go:126-138 | the canonical name and trimmed value around the first colon, or failure without one |
| `HttpText.HttpParseVersion` | plugins/websocket/ws/http.go:93-122 | agrees on every input, including its two fast cases, with the general rule |
| `HttpText.LinesOfJoined` | plugins/websocket/ws/ws.go:194-194 | splitting lines that were joined with CRLF gives the lines back |
| `Handshake.CheckRequestLine` | plugins/websocket/ws/ws.go:201-229 | the failure of a request line, if any, in the order of the checks |
| `Handshake.ScanHeaders` | plugins/websocket/ws/ws.go:238-307 | the loop with its bit mask finds the first failure, or records exactly the kinds of header seen and the last key |
| `Handshake.FindMissing` | plugins/websocket/ws/ws.go:308-323 | the first required header that is missing |
| `Handshake.Upgrade` | plugins/websocket/ws/ws.go:158-343 | for every input and wherever the ring buffer wraps, consumes and answers what the specification says |
| `Handshake.WrapExactly` | plugins/websocket/ws/ws.go:178-192 | where the buffer wraps makes no difference if and only if the end of the head is in the first segment or a search of the second alone finds what a search of both would |
| `Handshake.WrapCutsShort` | plugins/websocket/ws/ws.go:185-191 | a head whose end lies in the second segment is cut short by exactly the length of the first |
| `Handshake.WrapHidesEnd` | plugins/websocket/ws/ws.go:178-192 | a head whose end straddles the two segments, with no other in the second, is not found: nothing is consumed and an empty request is looked at |
| `Handshake.Unanswered` | plugins/websocket/ws/ws.go:178-192 | an acceptable request for every host and key that stays without an answer when the buffer wraps two bytes before its end |
| `Handshake.UpgradingHead` | plugins/websocket/ws/ws.go:178-343 | a request head, whatever follows it, is consumed whole and judged by its request line and its header lines |
| `Handshake.HeadExists` | plugins/websocket/ws/ws.go:178-194 | once CRLFCRLF has arrived, the bytes through the first one are a request line and non-blank header lines |
| `Handshake.Acceptance` | plugins/websocket/ws/ws.go:178-343 | a request is accepted if and only if its request line is good, every header line parses, every checked occurrence is valid and all five required headers occur |
| `Handshake.OnlyHeads` | plugins/websocket/ws/ws.go:178-204 | nothing is consumed or answered before CRLFCRLF arrives, and everything accepted starts with a good request |
| `Handshake.GoodRequestLine` | plugins/websocket/ws/http.go:77-122 | a request line of three words is good if and only if it is a GET with version 1.x, x at least 1 |
| `Handshake.HeaderLineExact` | plugins/websocket/ws/http.go:126-138 | name and value come without the blanks around them |
| `Handshake.KindByFold` | plugins/websocket/ws/ws.go:250-273 | a required header is recognised if and only if its name matches in any mixture of cases |
| `Handshake.Reordered` | plugins/websocket/ws/ws.go:238-323 | reordering header lines does not change acceptance |
| `Handshake.CaseOfNames` | plugins/websocket/ws/ws.go:238-323 | changing the case of ASCII letters in header names changes nothing in the outcome, down to the key |
| `Handshake.PlainIsGood` | plugins/websocket/ws/ws.go:178-343 | a GET for "/" with the five required headers is a good request for every host and every key of 24 bytes that need no trimming, so the theorems about good requests are not empty |
| `HandshakeTexts.AcceptedTexts` | plugins/websocket/ws/ws.go:178-343 | in the words of the source: a request is accepted if and only if it is a GET with version 1.x, x at least 1, no header line is refused, and Host, Upgrade, Connection, Sec-Websocket-Version and Sec-Websocket-Key occur, in any mixture of cases |
| `HandshakeTexts.LineTexts` | plugins/websocket/ws/ws.go:238-297 | a header line is refused, and with which failure, exactly if it has no colon, or is an Upgrade other than websocket, a Connection other than Upgrade or upgrade, a Sec-Websocket-Version other than 13 or a Sec-Websocket-Key of other than 24 bytes |
| `HandshakeTexts.RefusedTexts` | plugins/websocket/ws/ws.go:238-307 | the first refused line decides which failure is answered |
| `HandshakeTexts.MissingTexts` | plugins/websocket/ws/ws.go:308-323 | which failure is answered when a required header is missing |
| `HandshakeTexts.RequestTexts` | plugins/websocket/ws/ws.go:201-229 | which failure a request line has, or none, by its method and its version |
| `HandshakeTexts.NonceTexts` | plugins/websocket/ws/ws.go:271-277 | the key that is answered is that of the last key field |
| `HandshakeTexts.HeadText` | plugins/websocket/ws/ws.go:178-194 | a head is its lines, each with its CRLF, and one more CRLF |
| `HandshakeTexts.PlainText` | plugins/websocket/ws/ws.go:178-343 | the text of the plain request that is good for every host and key |
| `WsProtocol.Keys.UnPacketFrame` | plugins/websocket/protocol.go:39-61 | takes a complete frame with its payload unmasked off the ring buffer, or takes the virtual cursor back, or leaves it behind a header with an impossible length, wherever it stood |
| `WsProtocol.Keys.UnPacketHandshake` | plugins/websocket/protocol.go:28-37 | answers a handshake, wherever the buffer wraps, and switches to frames exactly when it was accepted |
| `WsProtocol.Keys.UnPacket` | plugins/websocket/protocol.go:27-64 | the two phases as one function of the keys kept in the connection, the buffer, where it wraps and where its virtual cursor stands |
| `WsProtocol.WrapAndTake` | plugins/websocket/protocol.go:28-37 | a handshake call does what it would on contiguous contents if and only if the wrap is harmless |
| `WsProtocol.DueIsDelivered` | plugins/websocket/protocol.go:27-64 | on contents that do not wrap before the upgrade, a call of the code delivers the next item of a session exactly when all of it is there, and consumes nothing otherwise |
| `WsProtocol.Keys.HandlerProtocol` | connection.go:208-218 | in a session the loop over the WebSocket code delivers, in order, the items that are there in full, and what is left is the text of the others |
| `WsProtocol.Keys.HandleRead` | connection.go:220-245 | the same for a read, with the direct path and with the buffered one, which does not wrap before the upgrade |
| `WsProtocol.Keys.Receive` | connection.go:220-245 | once the whole text of a session has been read, in whatever pieces, all of it was delivered and exactly its unfinished end is buffered |
| `WsProtocol.Keys.Serve` | plugins/websocket/protocol.go:27-64 | the code itself, fed a good request, masked frames of at most 65535 bytes and an unfinished one in any pieces, delivers the handshake response and exactly the frames |
| `WsProtocol.ShortCall` | plugins/websocket/protocol.go:39-61 | with any part of a short masked frame in the buffer, and any scratch contents, the frame comes off as soon as it is complete and nothing is consumed before |
| `WsProtocol.FrameOffTheWire` | plugins/websocket/protocol.go:39-61 | any frame on the wire with a length below 2^63, in every form of its length and masked or not, is taken exactly when all of it is there, with its payload unmasked if it was masked |
| `WsProtocol.HeadCall` | plugins/websocket/protocol.go:28-37 | the same for a good request in contents that do not wrap |
| `WsProtocol.TakeIsStable` | plugins/websocket/protocol.go:27-64 | on sessions, with a request that does not wrap, the protocol is stable under appending bytes, whatever the scratch slice holds |
| `WsProtocol.Segmentation` | plugins/websocket/protocol.go:27-64 | for every part of a session (handshake and masked frames of at most 65535 bytes, minimally encoded) whose request does not wrap, delivery is independent of segmentation |
| `WsProtocol.FramesDelivered` | plugins/websocket/protocol.go:39-61 | after the upgrade every segmentation delivers exactly the original headers and unmasked payloads and leaves an unfinished frame whole |
| `WsProtocol.SessionDelivered` | plugins/websocket/protocol.go:27-64 | from the first byte on, every segmentation delivers the handshake response and then exactly the frames, as a function of contents that do not wrap |
| `WsLongFrames.LongHeaderCut` | plugins/websocket/ws/read.go:60-77 | a 64-bit-length header cut after k bytes is taken for an empty frame if and only if the length bytes that arrived are zero and so are the scratch bytes in place of the others |
| `WsLongFrames.LongSegmentation` | plugins/websocket/protocol.go:39-61 | a frame of more than 65535 bytes is read the same however it is cut if and only if no cut of its header is misread with the scratch slice at hand |
| `WsLongFrames.SafeFrames` | plugins/websocket/protocol.go:39-61 | delivery of a masked frame is independent of segmentation whatever the scratch slice holds if and only if it has at most 65535 bytes or at least 2^32 |
| `WsLongFrames.LongFrameFails` | plugins/websocket/protocol.go:39-61 | one that is not: 65536 bytes with a scratch slice of zeros |
| `IdleTimer.InvRun` | connection.go:86-99 | every interleaving of clock, events, callback and close keeps the timing and chain invariants, with a callback that may take any time |
| `IdleTimer.CloseWindow` | connection.go:86-99 | at most one idle close is requested, decided within [floor(A) + idle, A + idle + slack + delay] of the last activity A seen, where delay is the time the last timer took to be set; neither lateness nor delays of earlier timers count |
| `IdleTimer.IdleIsNoticed` | connection.go:73-99 | while connected and without a request the chain goes on, and a timer that is set has its callback read the clock by A + idle + slack + delay |
| `IdleTimer.PromptExactly` | connection.go:86-99 | everything a timer can still lead to is decided within A + idle + slack if and only if the instant it was set for is within idle of the last activity |
| `IdleTimer.DelayShows` | connection.go:86-99 | a run with timers that are never late in which the close is decided after A + idle |
| `IdleTimer.OneMoreFire` | connection.go:288-302 | after the connection has closed the chain fires at most once more and is not renewed |
| `IdleTimer.FiresAgain` | connection.go:92-96 | it does fire once more whenever the close falls between the look at `connected` and the new timer |
| `IdleTimer.StoredIsCancelled` | connection.go:298-302 | if the timer that is set is the one `handleClose` finds, the chain neither fires nor requests anything again, whatever happens next |
| `IdleTimer.FirstIsCancelled` | connection.go:73-77 | a run in which the first timer is stored and then cancelled by a close |
| `IdleTimer.ClosedIsNotRequested` | connection.go:88-91 | no close is ever requested of a connection that is closed already |
| `IdleTimer.ClosedEarly` | connection.go:86-99 | a run with timers on time in which a connection active at 9.9 seconds is closed at 19 with ten seconds idle, because activity is kept in whole seconds |

## Left out

- Server.OutputConserved: of a connection whose buffers a connection closed before its registration worked on, or that was given such a buffer, it only says that there is one that was given the same descriptor or buffer; its output may or may not be in order.
- Server.InterestFollowsOutput: the same for its write interest.
- Server.NoStaleDispatch: what an early-closed connection reads from a descriptor that another one owns is lost to that one; input is not part of the server machine.
- WsProtocol.SessionDelivered: speaks of contents that do not wrap during the handshake, like HeadCall, TakeIsStable and Segmentation; that those of a connection do not is in WsProtocol.Keys.Serve.
- WsProtocol.Keys.Serve: asks for an input buffer nothing was taken from, as new and reset ones are; the two ways in which a wrapped request fails are in Handshake.dfy.
- WsProtocol.Segmentation: frames of more than 65535 bytes are in WsLongFrames.dfy; unmasked frames, which clients must not send, are only covered by the header round trip.
- IdleTimer.CloseWindow: bounds the clock reading that decides the close; the time a goroutine then takes to queue the close is not bounded.
- EventLoops.EventLoop.HandleWake: one call runs to its end; appends by other goroutines in the middle of it are in Reactor.dfy.
- WsControl.PongEchoes: control payloads over 125 bytes are answered as they come, as the source does.
- `EventLoop.Stop` and `Server.Stop` beyond the shutdown of one poller: the counter is reset independently of later closes, and tasks queued after the last swap may not run.
- Decoding of epoll event masks in `Poll`, growth of its event array and the choice of its timeout: the machine takes any batch of registered descriptors.
- `inBufferLen` and `outBufferLen`: copies of lengths for monitoring.
- Slices returned by `UnPacket` of the default protocol alias the user buffer or the ring storage; the model returns their contents.
- `OnRequest`, `OnHost`, `OnHeader` and `OnBeforeUpgrade` callbacks, subprotocol and extension selection, SHA-1 and base64 of the accept key, and the text of HTTP responses: the outcome is modelled as a verdict with the key.
- The Windows variant, whose close is not confined to a loop, and the kqueue poller.
- The inside of the ring buffer, the timing wheel, atomics, spin lock and byte pools: contracts or steps only.
- The ring buffer that `handleRead` lays over the packet array: the direct path is modelled by the window of the array it covers.
- Load balancing, options, key-value context, scheduler, listener and logging.
