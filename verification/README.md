# mixServer in Dafny

mixServer is an event-loop TCP server with a length-prefixed message protocol, an
HTTP and WebSocket front end, a timer heap, a reconnecting client and several
readiness backends. This project models its state machines and proves what they
keep over every run, which streams its parsers get right however they are cut
into chunks, and where the code's own assertions can break.

- `Sequences.dfy`, `Bytes.dfy`, `Buffer.dfy`: sequences, integers on the wire, and the
  byte buffer with its two indices. The vector's size and its capacity are kept
  apart, as the code tests the one and resizes by the other.
- `Framing.dfy`, `Service.dfy`, `MsgServer.dfy`, `Proto.dfy`: length-prefixed messages.
  `Split` says what a byte stream means, `Read` what of it is handed on before an
  assertion breaks, `Serve` what a server does over a run of connects, reads and closes;
  the objects are proved to compute it.
- `HttpLines.dfy`: the CR LF splitter and the switch to message mode.
- `WebSocketFrames.dfy`, `WebSocketParser.dfy`, `WebSocketStream.dfy`,
  `WebSocketUnmasked.dfy`, `WebSocketClose.dfy`, `WebSocketHandle.dfy`: the frames of
  RFC 6455, sections 5.2 and 5.3, the incremental parser, the masked and unmasked streams
  it delivers correctly, what closes, and its objects.
- `Heap.dfy`, `HeapRemoval.dfy`, `Timer.dfy`: the timer heap, when removing a timer
  keeps its order, and the update loop, whose callbacks push timers before the loop
  pops the one it ran.
- `Interest.dfy`, `Kqueue.dfy`, `Poll.dfy`, `Select.dfy`: one map of interests and
  three backends that refine it.
- `EventLoop.dfy`, `DispatchLaws.dfy`: registration and dispatch, and what a dispatch
  calls when callbacks unregister and register handles on the way.
- `TcpStream.dfy`, `TcpServer.dfy`: a server connection that is closed only when
  everything has been sent, with the tables of both kinds of server.
- `Connector.dfy`, `Client.dfy`: the client's connector, its retries, its assertions and
  what it reads over several connections.

Code that changes objects in place is a class whose methods are proved equal to
steps of a specification function; the laws are lemmas about that function.
An assertion of the code is a result the model can reach (`ok == false`, `Broken`,
`NoHandle`, `Raised`) unless it is a demand on the caller, which is a `requires`.

What the code does not do, each with the exact condition under which it does, and a
lemma with a failing input where the condition alone does not show one:

- Growing the buffer loses unread bytes that lie beyond the vector's size
  (`SlackLosesBytes`; exact for one write in `PutAppends`, for a run in `RunIsQueue`).
  With a library that doubles the size, one read of five full pieces into a new buffer
  is enough (`DoublingLosesBytes`).
- A length that is not positive and a message of at most eight bytes break an assertion
  before the message is handed on (`HandedOn`; for the server's runs `AbortsExactly`, for
  the client's steps `StepExact`).
- A stream of the HTTP server that ends before any read of it was handed over breaks the
  assertion on that server's own table (`HttpCloseExact`).
- A client that loses its connection within the data of a message takes what the next
  connection brings for the rest of it (`ReconnectExact`, `UnfinishedReached`).
- A masked frame with an empty payload, a mask whose first byte is zero, or a
  chunk that holds bytes of two frames makes the parser deliver the wrong thing or
  nothing ever again (`ExactlyTheGoodStreams`, `MaskCodesInvert`).
- An unmasked frame with a short length is lost if it is cut at the end of its header
  or behind it (`ShortExact`); one with an extended length is garbled, but for payloads
  that happen to repeat, if it is cut behind its header and not at the end of it
  (`UnmaskedExact`).
- What comes behind the first two bytes of a close frame, if it comes with a later read,
  is handed on and answered like the payload of any other frame (`CloseBodyGiven`).
- A sum of clock and delay beyond 32 bits makes `update` pop the new timer instead of
  the one it ran (`WrapDropsNewTimer`; exact in `RootSurvives`).
- `Pri_queue::remove` can leave the heap out of order; `RemoveExact` says for which
  sizes and positions it never does. Its minimum stays right (`RemoveKeepsMinimum`).
- A callback that unregisters a handle reported behind its own breaks the assertion of
  the dispatch loop unless the descriptor is registered again before its turn
  (`LookupsSucceed`); if it is, the new handle gets the event that was reported for the
  old one (`StaleEvent`; exact in `NewHandleCalled`). Neither happens if callbacks
  unregister only their own handles (`OwnOnlyIsSafe`).
- `Select::update_event` on a descriptor that is not registered leaves bits behind that
  count when it is registered (`AddExact`).
- A non-blocking connect that returns 0 leaves a registered connector in state
  CLOSED, and the next event breaks an assertion (`ImmediateBreaks`; exact in
  `StepExact`).
- A client whose connection is lost after the retry timer has fired never reconnects
  (`LostClientReached`; exact in `LossDecides`).
- `ProtoMsg::get_raw` after `read_ids` sends a wrong length (exact in `SentExact`).
- A read without bytes in whole-message mode breaks an assertion (exact in
  `AbortsOnEmptyRead`), and bytes that arrive together with the peer's close are not
  handed on (`DroppedByClose` says when a message is lost by it).

A callback that starts a timer with a delay of 0 can keep `update` running for ever
(`ZeroDelayForever`); with delays of at least 1 it ends (`RunsAreFinite`).

## Model

| member | source | states |
|---|---|---|
| Bytes.UnpackPack | script/httphandle.py:118-126 | Unpacking a number that fits its width gives back what was packed in network order |
| Bytes.PackUnpack | script/httphandle.py:180-196 | Any bytes are the packing of the number read from them, which fits their width |
| Bytes.BigEndianAt | script/httphandle.py:118-126 | Network order: octet i is the digit to base 256 with w - 1 - i digits behind it |
| Bytes.DecodeEncode | include/proto.hpp:25-33 | `read_int` gives back the signed `int` that `pack_int` copied out |
| Bytes.EncodeIntAt | include/proto.hpp:25-33 | Byte i is digit i to base 256 of the two's complement, lowest first |
| Bytes.EncodeDecode | net/buffer.cpp:45-51 | Four bytes are determined by the `int` that `read_int` finds in them |
| ByteBuffer.MakeSpaceUnread | net/buffer.cpp:4-16 | Making room leaves the unread bytes alone if and only if it does not grow, or no non-zero unread byte lies beyond the vector's size |
| ByteBuffer.PutAppends | net/buffer.cpp:17-22 | A write appends to the unread bytes if and only if the same condition holds before it |
| ByteBuffer.SlackLosesBytes | net/buffer.cpp:4-22 | Three writes of 5000, 3000 and 1000 bytes lose bytes when the first reallocation reserves more than was asked for |
| ByteBuffer.DoublingLosesBytes | net/buffer.cpp:4-22 | Five pieces of 4096 bytes into a new buffer are not what is unread afterwards when the third write's reallocation reserves as much as doubling does |
| ByteBuffer.RunFades | net/buffer.cpp:4-58 | Over any run, and whatever the library reserves, no byte is lost, added or reordered: some can only be replaced by 0 |
| ByteBuffer.RunIsQueue | net/buffer.cpp:4-58 | Over any run of writes and reads, and whatever the library reserves, what was there plus what was written is what was read plus what is unread, byte for byte, if and only if no write loses unread bytes |
| ByteBuffer.ExactKeepsAll | net/buffer.cpp:4-58 | If every reallocation is to exactly the requested size, no write ever loses any |
| ByteBuffer.GrowthStep | net/buffer.cpp:4-16 | A write reallocates if and only if unread and new bytes together exceed the capacity, and then, but for what the library reserves, to less than twice their number |
| ByteBuffer.CapacityBound | include/buffer.hpp:31-47 | Over any run the capacity never shrinks and stays within the larger of its first value and twice the peak of unread bytes plus pending write, plus the largest reserve |
| ByteBuffer.FirstCrlf | net/buffer.cpp:60-74 | The index found is that of a CR LF with none before it; -1 means there is none at all |
| ByteBuffer.CopyDown | net/buffer.cpp:10 | Copying overlapping ranges within one array onto its front moves every byte unharmed and leaves the rest |
| ByteBuffer.Buffer.constructor | include/buffer.hpp:14-20 | A new buffer has 4096 zero bytes and nothing unread |
| ByteBuffer.Buffer.MakeWriteSpace | net/buffer.cpp:4-16 | The arrays end up as the value that the growth and compaction laws are about |
| ByteBuffer.Buffer.Write | net/buffer.cpp:17-22 | The unread bytes become the old ones followed by the new ones whenever growing keeps them |
| ByteBuffer.Buffer.ReadAll | net/buffer.cpp:29-36 | Returns all unread bytes and leaves none; an empty buffer is left as it was |
| ByteBuffer.Buffer.Read | net/buffer.cpp:37-44 | Returns the first n unread bytes and leaves the others unread |
| ByteBuffer.Buffer.ReadInt | net/buffer.cpp:45-51 | Takes four bytes off and returns the `int` they hold |
| ByteBuffer.Buffer.HasRead | include/buffer.hpp:39-43 | Takes exactly n bytes off the front |
| ByteBuffer.Buffer.FindCrlf | net/buffer.cpp:60-74 | The scan finds the first CR LF of the unread bytes, or reports that there is none |
| Framing.SplitAppend | server/msgserver.cpp:30-57 | Reading on from the undelivered rest is reading the whole stream, for any two pieces |
| Framing.FeedIsSplit | server/msgserver.cpp:30-57 | Messages, rest and failure depend only on the bytes received, never on how they were cut |
| Framing.SplitRawAll | include/proto.hpp:54-59 | The concatenated `get_raw` bytes of non-empty messages split into exactly those messages with nothing left |
| Framing.RoundTrip | include/proto.hpp:54-59 | Any list of non-empty messages sent with `get_raw` and cut in any way is delivered unchanged, in order, with nothing left |
| Framing.NeverEarly | server/msgserver.cpp:41-57 | After any prefix of what was sent, the messages delivered are the first ones sent, none before its last byte, and nothing has failed |
| Framing.SplitRebuilds | server/msgserver.cpp:30-57 | For arbitrary bytes: the delivered messages in wire form and the rest are the bytes received, and no complete message is left over |
| MessageServer.Msg.TryWrite | net/msg.cpp:32-42 | A positive length starts an empty message that is being read |
| MessageServer.Msg.Write | net/msg.cpp:58-64 | Appends and counts what was written |
| MessageServer.Msg.Clear | net/msg.cpp:24-31 | The message is as new, so that the next length word is read |
| Framing.ReadAppend | server/msgserver.cpp:30-57 | Handing messages on from the undelivered rest is doing so with the whole stream at once, and a broken assertion is final |
| Framing.ReadExact | server/msgserver.cpp:30-64 | Whole messages of more than eight bytes, then any bytes: reading hands those messages on and stops at a length that is not positive, or at a whole message of at most eight bytes, or keeps the bytes of an unfinished one, by their first bytes alone |
| Framing.ReadDecided | server/msgserver.cpp:30-64 | Every stream is such messages followed by one of these three |
| Framing.ReadFeedIsRead | server/msgserver.cpp:30-64 | Messages handed on, rest and broken assertion depend only on the bytes received, never on how they were cut |
| Framing.HandedOn | include/proto.hpp:112-115 | Of non-empty messages sent and cut in any way, those before the first one of at most eight bytes are handed on; all are, and no assertion breaks, if and only if every one is longer |
| MessageServer.Reassemble | server/msgserver.cpp:30-64 | The recursion hands on exactly what `Read` says of all undelivered bytes: it stops at the first length that is not positive or message of at most eight bytes, and otherwise leaves exactly the rest, at rest |
| MessageServer.RestingDetermined | server/msgserver.cpp:33-57 | Between reads, a connection's message and buffer are determined by the undelivered bytes |
| Services.PerConnection | server/msgserver.cpp:11-64 | However connects, reads and closes of many connections interleave, each connection gets the messages of its own bytes, up to the last read of it that is handed on; a run that ends with a broken assertion has logged exactly what came before |
| Services.RestPerConnection | server/msgserver.cpp:11-64 | A run that goes through leaves on every open connection the unread rest of its own bytes |
| Services.AbortsExactly | server/msgserver.cpp:30-64 | The server aborts if and only if the bytes of some connection that are handed on reach a length that is not positive (net/msg.cpp:34) or complete a message of at most eight bytes (include/proto.hpp:115) |
| Services.ExactRunKeeps | net/buffer.cpp:4-22 | If every reallocation of a run is to exactly the requested size, no write of it loses unread bytes, which is what the other laws about runs ask for |
| MessageServer.MsgServer.NewConnect | server/tcpserver.cpp:46-59 | A new connection has the number after the last one, holds nothing and shares no buffer, array or message with another |
| MessageServer.MsgServer.CloseConnect | server/tcpserver.cpp:64-74 | Forgets the one stream, leaves every other connection as it was, and leaves the message of the closed one in the other table |
| MessageServer.MsgServer.HandleRead | server/msgserver.cpp:11-64 | On a first or later read, hands on what the connection's bytes complete, tagged with it, up to a broken assertion, leaves it at rest, and leaves every other connection as it was |
| MessageServer.MsgServer.ReadOnce | server/handles.cpp:71-89 | One read event, from received pieces, whatever each write reserves, to messages handed on, on the real tables |
| MessageServer.MsgServer.ServeAll | server/msgserver.cpp:11-64 | Any number of connects, reads and closes, interleaved on any connections, whatever each write reserves: log, tables and broken assertion are those of the run that the laws above are about |
| Services.DroppedByClose | server/handles.cpp:75-87 | Bytes that come with the end of the stream are logged nowhere, while the same bytes without it would have been handed on, at least one message of them, if and only if they complete a first message of more than eight bytes |
| Proto.ProtoMsg.Write | include/proto.hpp:126-130 | The length follows the data |
| Proto.ProtoMsg.GetRaw | include/proto.hpp:92-106 | The bytes are those of a length-prefixed message that carries the request whenever the length is the one of the data |
| Proto.SentExact | include/proto.hpp:92-106 | They are if and only if it is; so not after `read_ids`, which leaves the length as it was |
| Proto.SentOctets | include/proto.hpp:92-106 | The octets on the wire one by one: length with that of the identifiers, service and command, each lowest octet first and modulo 2^32, then the body |
| Proto.ProtoMsg.ReadIds | include/proto.hpp:112-120 | The old data are the two identifiers and the body that is left, when there is a body; fails exactly when there is none |
| Proto.ParsePayload | include/proto.hpp:112-120 | A message parses to a request if and only if it is that request's payload and the body is not empty |
| Proto.LongParse | include/proto.hpp:112-115 | All messages of a list parse if and only if every one has more than eight bytes, the condition that handing on stops at |
| Proto.RequestsRoundTrip | include/proto.hpp:92-120 | Requests with any identifiers and non-empty bodies, sent, cut in any way, reassembled, handed on and parsed, come out the same and in order, and break no assertion |
| HttpLines.SplitLinesAppend | server/httpserver.cpp:175-189 | Reading lines on from the unfinished one is reading the whole stream, also across a CR and LF in different pieces |
| HttpLines.FeedLinesIsSplit | server/httpserver.cpp:175-189 | In line mode, lines and rest depend only on the bytes received |
| HttpLines.SplitLinesRebuilds | server/httpserver.cpp:175-189 | Lines, each with its CR LF, and the rest are the bytes received, and neither contains a CR LF |
| HttpLines.LinesRoundTrip | server/httpserver.cpp:175-189 | That decomposition is the only one: lines without CR LF arrive as they were sent |
| HttpLines.NothingLost | server/httpserver.cpp:162-190 | Whenever the script switches between lines and whole messages, no byte is lost, repeated or reordered, as long as the assertion on an empty read holds |
| HttpLines.AbortsOnEmptyRead | server/httpserver.cpp:166-173 | It breaks if and only if some whole-message read brings no bytes and finds none |
| HttpLines.LastRead | server/httpserver.cpp:162-190 | What any read of any run adds: in whole-message mode exactly one upcall, with all bytes that were unread or came, and nothing is left; in line mode lines only, and no complete line is left |
| HttpLines.EveryMessage | server/httpserver.cpp:162-173 | From the switch to whole messages on, as long as every read brings bytes: one message for each read, of exactly its bytes, the first one with what was unread, and nothing is left |
| HttpLines.HttpHandle.HandleRead | server/httpserver.cpp:162-190 | The upcalls, the unread rest and the broken assertion are those of the mode the read started in, even if the script switches in the middle of the loop; a whole-message read makes one upcall with everything; the mode afterwards is the one the last upcall left behind |
| HttpLines.HttpHandle.ReadLines | server/httpserver.cpp:175-189 | The loop hands over every complete line, in order, and stops with no CR LF left |
| WebSocketFrames.XorLaws | script/httphandle.py:64-71 | Combining twice with the same octet gives the first octet back; only a zero octet changes nothing |
| WebSocketFrames.XorExact | script/httphandle.py:64-71 | Each of the eight bits of the result is set if and only if the two bits differ |
| WebSocketFrames.ApplyExact | script/httphandle.py:64-71 | Masking keeps the length, and turns a bit of octet i if and only if it is set in octet i modulo 4 of the mask |
| WebSocketFrames.MaskTwice | script/httphandle.py:64-71 | Masking twice with the same four octets is the identity |
| WebSocketFrames.MaskCodesInvert | script/httphandle.py:195-204 | The divide-and-reverse loop gives back the four mask bytes if and only if the first one is not zero |
| WebSocketFrames.MakeFrameIsFrame | script/httphandle.py:97-131 | What is built has the layout of RFC 6455, section 5.2, with the given payload and mask, in the shortest form for its length |
| WebSocketFrames.MakeFrameOctets | script/httphandle.py:97-131 | The octets of a built frame one by one, masked or not: first octet 0x81, mask bit and 7-bit length, extended length in network order, mask, payload bit by bit |
| WebSocketFrames.TopBitClear | script/httphandle.py:118-122 | With an 8-byte length its top bit is clear, as that section demands, if and only if the payload is below 2^63 bytes |
| WebSocketFrames.MakeFrameUnmasked | script/httphandle.py:97-131 | The same for a frame without a mask |
| WebSocketStream.StartOver | script/httphandle.py:134-221 | Within a frame, reading on after any number of bytes is the same as starting over with all of them at once |
| WebSocketStream.StillWaiting | script/httphandle.py:134-140 | A proper prefix of a frame calls nothing and leaves the parser in a state determined by the prefix alone |
| WebSocketStream.EndOfFrame | script/httphandle.py:195-221 | When the last byte of a frame arrives, its payload is delivered if and only if the frame is good and nothing came behind it; if nothing is delivered, nothing ever will be |
| WebSocketStream.MaskForgotten | script/httphandle.py:195-207 | A mask of four zero bytes is taken for no mask and the next four bytes for the mask; what is delivered, if anything, is too short |
| WebSocketStream.StuckStays | script/httphandle.py:208-221 | A parser that has read beyond its frame stays so for any further bytes and calls nothing; it raises an exception exactly while it looks for a mask that is not there |
| WebSocketStream.ExactlyTheGoodStreams | script/httphandle.py:134-262 | For every stream of masked frames and every cut: exactly the payloads are delivered, in order, if and only if every payload is non-empty, every mask starts with a non-zero byte and no chunk holds bytes of two frames |
| WebSocketStream.NeverEarly | script/httphandle.py:134-140 | No cut makes a frame arrive before its last byte, good or not |
| WebSocketStream.StreamNeverEarly | script/httphandle.py:134-262 | After any part of a stream of good frames, with no chunk across two of them, exactly the complete frames have been delivered, in order |
| WebSocketStream.GroupedIsAligned | script/httphandle.py:250-262 | Cutting every frame on its own is a cut in which no chunk holds bytes of two frames |
| WebSocketStream.FramesRoundTrip | script/httphandle.py:97-262 | Frames as `make_frame_data` builds them, with non-empty payloads and masks that start with a non-zero byte, each cut in any way, arrive as their payloads |
| WebSocketUnmasked.UnmaskedWhole | script/httphandle.py:134-221 | An unmasked frame in one piece is delivered if and only if its payload is not empty |
| WebSocketUnmasked.ShortExact | script/httphandle.py:136-221 | An unmasked frame with a short length, cut in any way, arrives if and only if its payload is not empty and no cut lies at the end of its header or behind it |
| WebSocketUnmasked.UnmaskedExact | script/httphandle.py:178-221 | For each form, payload length and cut: all payloads of the length arrive if and only if they are not empty and no cut lies at the end of the header or behind it or, with an extended length, one lies exactly at its end |
| WebSocketClose.ClosingExact | script/httphandle.py:134-170 | A call of `on_read` ends in `handle_close` if and only if it brings the second byte of a frame whose first has low four bits 8, masked or not and in any form; behind the header nothing closes |
| WebSocketClose.ClosesExactly | script/httphandle.py:250-262 | After any stream of good frames, and bytes cut in any way that begin as a close frame does: the handle closes if and only if two of them have come, with the call that brings the second, and until then it was given the payloads of the stream and nothing else |
| WebSocketClose.CloseBodyGiven | script/httphandle.py:167-170 | The rest of a masked close frame, if it comes with a later call, is given to `handle_frame` if and only if that of another frame would be |
| WebSocketHandle.WSFrame.OnRead | script/httphandle.py:134-221 | The re-entrant method on its fields takes the step of the parser that the stream laws are about, with the same call or exception at its end |
| WebSocketHandle.DecodeMask | script/httphandle.py:196-203 | The loop computes the digits of the mask without leading zeros |
| WebSocketHandle.ReplyRoundTrip | script/httphandle.py:261-265 | The answer to any message, read by the same parser, is the message with `echo:` in front |
| WebSocketHandle.WSHandle.HandleMessage | script/httphandle.py:250-265 | A delivered frame is answered once and the parser forgotten; a call that ends in `handle_close` closes the connection and answers nothing; any other call keeps the parser |
| WebSocketHandle.WSHandle.HandleMessages | script/httphandle.py:250-265 | Over any chunks, the frames handled are those of the session that the stream laws are about, each is answered once, and the connection is closed if and only if it was or one of the calls closes |
| Heaps.PushHeap | timer.cpp:40-43 | Pushing keeps the heap order and adds exactly one timer |
| Heaps.PopHeap | timer.cpp:49-53 | Popping keeps the heap order and removes exactly the root |
| Heaps.RootIsMin | timer.cpp:44-48 | No timer expires before the root |
| Heaps.PushRoot | timer.cpp:26-43 | A push replaces the root only if the new timer expires strictly earlier |
| Timers.ClockIsEnough | timer.cpp:94-106 | If every call is made with a clock that has not gone back, a sum that does not wrap and a delay of at least d, no callback starts a timer that expires before `now` plus d |
| Timers.RootSurvives | timer.cpp:128-133 | After a callback its own timer is still the root, so that `pop` removes it, if and only if none of the timers it started expires earlier |
| Timers.WrapDropsNewTimer | timer.cpp:101-133 | With a sum beyond 32 bits, the timer just run stays queued and the new one is lost |
| Timers.RunsAreSound | timer.cpp:122-137 | If callbacks start nothing that expires before `now`, after any number of rounds: every round popped the timer it ran, timers ran in order of expiry and none before it was due, nothing that is left expires sooner, and timers queued and started are those run and left, with multiplicity |
| Timers.RoundDue | timer.cpp:128-136 | If callbacks reschedule beyond `now`, each round leaves exactly one due timer fewer, however many it adds |
| Timers.RunsAreFinite | timer.cpp:122-137 | Then, however long the callbacks go on, the loop has stopped after as many rounds as timers were due at the start, and not before |
| Timers.RunsExactlyTheDue | timer.cpp:122-137 | And every timer due at the start runs as often as it was queued, and no other runs |
| Timers.ZeroDelayForever | timer.cpp:122-137 | With a delay of 0 in every callback the loop does not stop after any number of rounds |
| Heaps.HeapifyHeap | timer.cpp:72 | Rebuilding makes a heap of the same timers from any list |
| Heaps.RemoveKeepsMinimum | timer.cpp:65-74 | `remove` takes out exactly one occurrence and leaves a minimum at the root |
| HeapRemoval.RemoveExact | timer.cpp:65-74 | For every size n and position k: `remove` leaves a heap of every heap of n timers if and only if k is the root, the last or the second-last with its sibling last, or k is 1 and n at most 7, or k is 2 and n at most 6 |
| HeapRemoval.EarlyComesUp | timer.cpp:65-74 | A timer behind the hole that expires before the hole's parent is enough for the order to be lost |
| HeapRemoval.Loses | timer.cpp:65-74 | For every other size and position there is a heap that is left out of order |
| Heaps.PriQueue.Push | timer.cpp:40-43 | The sift-up loop in place computes the push that keeps the heap |
| Heaps.PriQueue.Pop | timer.cpp:49-53 | The sift-down loop in place computes the pop that keeps the heap |
| Heaps.PriQueue.Remove | timer.cpp:65-74 | Fails exactly if the timer is not queued; otherwise its first occurrence is removed |
| Timers.Timer.StartTimer | timer.cpp:101-113 | Queues exactly one timer, under the number after the last one, expiring at the sum of clock and delay modulo 2^32, and keeps the heap |
| Timers.Timer.Update | timer.cpp:122-137 | The loop on the real heap, with callbacks that may go on for ever, ends if all delays are at least 1 or if its rounds do; then nothing is due, and, with a monotone clock and sums that do not wrap, what it ran was popped, in order of expiry and never early, and with delays of at least 1 is as many timers as were due |
| Interest.SwapRemoveInverse | net/select.cpp:84-99 | Moving the last entry into the hole keeps vector and index map inverse to each other |
| KqueueBackend.Kqueue.SetKevent | net/kqueue.cpp:99-136 | Changes exactly the filters of the mask and fails exactly if the kernel lacks one it should change |
| KqueueBackend.Kqueue.AddHandle | net/kqueue.cpp:138-151 | The kernel accepts the change and has exactly the given interest enabled, every filter to be cleared when reported |
| KqueueBackend.Kqueue.CheckAndSetEvent | net/kqueue.cpp:153-168 | One filter ends up enabled exactly if wanted, the kernel never refuses, and no other filter changes |
| KqueueBackend.Kqueue.UpdateEvent | net/kqueue.cpp:169-187 | The deltas leave exactly the new interest enabled in the kernel |
| KqueueBackend.Kqueue.RmHandle | net/kqueue.cpp:188-198 | The kernel accepts the change; exactly the enabled filters of the descriptor are gone from it, and everything else is as it was |
| KqueueBackend.Kqueue.Replay | net/kqueue.cpp:138-198 | Over any run of operations, the kernel refuses nothing and has enabled exactly the last interest given to each registered descriptor |
| KqueueBackend.EventExact | include/kqueue.hpp:42-61 | A returned event stands for READ, WRITE, MODIFY, CLOSE and ERROR exactly by its filter, notes and error flag |
| KqueueBackend.Merge | net/kqueue.cpp:66-82 | The merge loop keeps for every descriptor that an event is returned for exactly what its events tell |
| KqueueBackend.Select | net/kqueue.cpp:66-87 | Every such descriptor is listed once, in ascending order, with exactly what its events tell, and no other |
| PollBackend.Poll.AddHandle | net/poll.cpp:99-111 | The entries ask for the new interest and otherwise for what they did |
| PollBackend.Poll.RmHandle | net/poll.cpp:112-129 | The swap-remove forgets exactly the one descriptor |
| PollBackend.Poll.UpdateEvent | net/poll.cpp:131-140 | Changes the interest of exactly the one descriptor |
| PollBackend.Poll.Replay | net/poll.cpp:99-140 | Over any run of operations, the entries ask for exactly the READ and WRITE part of the last interest given |
| PollBackend.BitsExact | include/poll.hpp:26-46 | An interest survives the way to poll(2) and back as far as it can be requested; READ, WRITE and ERROR stand for POLLIN, POLLOUT and POLLERR, and for nothing else |
| PollBackend.Poll.Scan | net/poll.cpp:72-94 | One report for each entry with returned events, in order and under its descriptor, with READ, WRITE and ERROR exactly if POLLIN, POLLOUT and POLLERR were returned and nothing else, although the scan stops at the count |
| SelectBackend.Select.AddHandle | net/select.cpp:38-57 | The sets gain the new interest on top of bits left behind, and `max_fds` is the greatest descriptor |
| SelectBackend.AddExact | net/select.cpp:48-53 | The descriptor gets the requested interest if and only if no other bit was left behind |
| SelectBackend.Select.UpdateEvent | net/select.cpp:71-80 | The three sets change at exactly the one descriptor, registered or not |
| SelectBackend.Select.RmHandle | net/select.cpp:81-105 | The descriptor leaves vector, map and sets, and `max_fds` is the greatest one left, or 0 |
| SelectBackend.Select.Replay | net/select.cpp:38-105 | Over any run that its own assertions allow, the sets hold the interests and the bits left behind that the operations say, with `max_fds` right and vector and map inverse throughout |
| SelectBackend.LegalRunsAreClean | net/select.cpp:38-105 | If only registered descriptors are updated, nothing is left behind and the sets hold exactly the last interest given |
| SelectBackend.Select.Scan | net/select.cpp:23-36 | One report for each registered descriptor that is in a returned set, in the order of the vector, each descriptor once, with READ, WRITE and ERROR exactly by the sets it is in |
| EventLoops.EventLoop.RegistHandle | net/eventloop.cpp:58-66 | Loop and backend learn of the handle together |
| EventLoops.EventLoop.UnregistHandle | net/eventloop.cpp:83-91 | Loop and backend forget the handle together, and its pending events are dropped |
| EventLoops.EventLoop.HandleEvent | net/handle.cpp:30-43 | The callbacks are the reported events in order, up to one that unregisters the handle, and loop and backend end up with what all their effects leave |
| EventLoops.EventLoop.DoSelect | net/eventloop.cpp:38-56 | The dispatch loop, with callbacks that unregister and register any handles on the way, makes exactly the calls that the laws below are about and stops exactly at a lookup that finds nothing |
| DispatchLaws.CalledLaws | net/handle.cpp:30-43 | A handle is called for reported events only, for none after one that unregisters it, and for all of them if there is none |
| DispatchLaws.TurnInOrder | net/handle.cpp:30-43 | A turn calls its handle for READ, WRITE, ERROR, MODIFY and CLOSE in this order, each at most once, and exactly for those reported events that no reported event in front of them has unregistered the handle |
| DispatchLaws.PresentExact | net/eventloop.cpp:58-91 | After any callbacks a descriptor is registered if and only if it was and none unregisters it, or one registers it and none after that unregisters it; under it is the old handle exactly in the first case |
| DispatchLaws.LookupsSucceed | net/eventloop.cpp:48-49 | Every lookup of a dispatch succeeds if and only if each reported descriptor is, by what the callbacks of the turns before its own do, still registered or registered again; no assumption on the reports |
| DispatchLaws.CallsExact | net/eventloop.cpp:43-54 | The calls of a dispatch are exactly those of the turns it reaches, to the handle that is registered by then |
| DispatchLaws.NewHandleCalled | net/eventloop.cpp:43-54 | A handle registered since the report is called if and only if a reached turn has a descriptor that an earlier callback unregistered (or that was not registered when reported) and one registered again |
| DispatchLaws.NoCallAfterUnregister | net/eventloop.cpp:83-91 | Every call is of a handle that is registered at that moment: none runs after it was unregistered, by itself or by another, whatever is registered in between |
| DispatchLaws.OwnOnlyIsSafe | net/eventloop.cpp:38-56 | If callbacks unregister only their own handles and registered descriptors are reported, each once, every lookup succeeds and no new handle is called |
| DispatchLaws.StaleEvent | net/eventloop.cpp:43-53 | If a callback closes a handle and its descriptor is used again at once, the new handle is given the event reported for the old one |
| TcpStreams.HandleEventKeeps | server/handles.cpp:71-153 | A dispatch on a connected stream keeps the invariant and breaks no assertion on loop and stream table; one that a read handler makes on the bytes breaks if and only if the bytes handed over break it, and the one on the HTTP server's table (server/httpserver.cpp:265-266) if and only if the dispatch ends the stream before any read of it was handed over |
| TcpStreams.DispatchExact | server/handles.cpp:71-153 | All that a dispatch changes, from what was reported, brought, sent and taken: bytes given, written and unsent; the stream is closing if and only if it was, or its end was read, a script asked for it, a write failed with bytes left or a close was reported; closed if and only if closing and nothing is unsent; and an open one wants to write after a write if and only if bytes are left |
| TcpStreams.LateExact | server/handles.cpp:125-138 | Acts of the server send on a closed stream if and only if some send comes when the stream was closed before or the first close among the acts before it found nothing unsent |
| TcpStreams.RunKeeps | server/handles.cpp:71-153 | Over every run: closing but not closed implies unsent bytes, unsent bytes imply WRITE interest, the stream is closed at most once and only after every byte it was given was written; no assertion on loop and stream table breaks, one of a read handler only by a read that breaks it, and the one on the HTTP server's table only while a stream is not in it |
| TcpStreams.RunTotals | net/socket.cpp:121-139 | Over every run: bytes given are the sum of the sends made, bytes written the sum over the writes of the lesser of what was unsent then and what the socket could take, and unsent is the difference |
| TcpStreams.FlushCloses | server/handles.cpp:90-117 | A closing stream is closed by any number of writes, failed or not, if and only if the socket takes all that is unsent; otherwise exactly the rest is still unsent |
| TcpStreams.HttpCloseExact | server/httpserver.cpp:222-269 | Over every run from a new connection: the assertion on the HTTP server's table breaks if and only if a read that finds the end of the stream or an error, or a reported close, comes before any read was handed over; never in a message server |
| TcpStreams.CloseIsFinal | server/handles.cpp:140-153 | Over every run a closing stream stays closing and a closed one no longer changes |
| TcpServers.TcpServer.NewConnect | server/tcpserver.cpp:46-59 | The new stream's number is one more than the last number ever given, and the others keep theirs |
| TcpServers.TcpServer.CloseConnect | server/httpserver.cpp:259-269 | Removes exactly the one stream from stream table and, in an HTTP server, from its own table, and drops its pending events; fails exactly if one of them does not know it |
| TcpServers.TcpStream.Run | server/handles.cpp:71-153 | The object with both tables, over any run of dispatches and acts of the server, is in the state that the run laws are about, and fails exactly where the run does |
| Connectors.StepExact | client/connector.cpp:43-153 | A possible step breaks an assertion on status or registration if and only if it calls a read or write handler on what a connect that returned 0 left behind, and one on a message (net/msg.cpp:34, include/proto.hpp:115) if and only if a read on a connected client reaches a length that is not positive or completes a message of at most eight bytes; every other step keeps the invariant |
| Connectors.ZombieOnlyByZero | client/connector.cpp:27-41 | That leftover comes from a connect that returns 0 and from nothing else |
| Connectors.ConnectingExact | client/connector.cpp:43-106 | A connecting client is lost by a dispatch if and only if a reported read finds that the connect failed, a reported write finds a socket error, or a close is reported; otherwise it is connected if and only if a write is reported; unsent bytes, retry count and shutdown follow |
| Connectors.ConnectedExact | client/connector.cpp:61-128 | A connected client is lost by a dispatch if and only if a reported read finds the end or an error, a reported write fails with bytes left, or a close is reported; unsent bytes are those before and sent, less those taken |
| Connectors.StartUpExact | client/connector.cpp:174-200 | The start makes one attempt: a new connector in the state connect(2) leaves it in, known to the loop unless connect failed at once, and one timer |
| Connectors.RunIsSafe | client/connector.cpp:43-231 | Over every run in which connect never returns 0: no handler runs on a closed connector, the client's status is its connector's, at most one retry timer is pending, the retry count stays within eleven and is zero while connected, and unsent bytes imply WRITE interest; only a message can break an assertion |
| Connectors.BrokenMeansImmediate | client/connector.cpp:27-41 | In any run from the start, a broken assertion on status or registration means that some connect returned 0 |
| Connectors.ConnectionReads | client/connector.cpp:247-293 | While one connection lasts, messages handed on, unread rest and broken assertion on a message are those of the bytes at hand and received, however they arrived |
| Connectors.RunRests | client/connector.cpp:247-279 | Over every run nothing more can be read from the bytes at hand, and what the client keeps beyond a connector is nothing or a length with part of its data |
| Connectors.ReconnectExact | client/connector.cpp:185-200 | What the next connection brings, if it breaks no assertion by itself, is handed on and kept as it was sent if and only if fewer than four bytes were unread, so if the old connection did not end within the data of a message |
| Connectors.UnfinishedReached | client/connector.cpp:247-279 | Every beginning of a message is what some run leaves behind at the loss of its connection, with the retry timer pending |
| Connectors.ImmediateBreaks | client/connector.cpp:27-45 | A connect that returns 0 followed by a read event breaks the assertion on the status |
| Connectors.ShutdownIsFinal | client/connector.cpp:304-318 | After the shutdown nothing is dispatched or connected any more: at most the pending timer fires, in the iteration that goes on (net/eventloop.cpp:99-104), and only uses itself up |
| Connectors.TimeoutCounts | client/connector.cpp:208-231 | A firing reschedules if and only if attempts are left and the client is not connected, and then gives a pending connector up, makes one attempt with a new one and counts it unless connect fails at once; otherwise it only uses the timer up |
| Connectors.LossDecides | client/connector.cpp:202-231 | At the loss of a connection: nothing can ever happen again if and only if the retry timer had fired before; otherwise its next firing makes a new attempt |
| Connectors.LostClientReached | client/connector.cpp:202-231 | Such a client is reached by connecting, waiting for the timer and losing the connection, with all attempts left |
| Clients.Client.Run | client/connector.cpp:43-318 | The objects, over any run of starts, dispatches and timers, are in the state that the run laws are about, and fail exactly where the run does |

## Left out

- System calls, clock readings and what scripts do: they are parameters, arbitrary
  unless a contract says otherwise (a monotone clock; a new descriptor is not in use).
- Event masks are sets of the five event bits; bits without a name do not exist.
- MakeFrame: masks of other lengths than four (shorter ones raise an exception,
  longer ones are cut), and payloads of 2^64 bytes and more, which `struct.pack` refuses.
- WebSocketStream.ExactlyTheGoodStreams: frames with the close opcode, which are in
  `WebSocketClose.dfy`; empty chunks, which the read loop never hands over; fragmentation and
  other control frames, which the parser treats as data frames.
- WebSocketUnmasked.UnmaskedExact: one frame at a time; for a harmful cut it does not say
  which single payloads arrive all the same.
- The FIN, RSV and `mode` fields of the parser, which nothing reads; its call of
  `handle_frame` or `handle_close` is the method's result instead of a call back.
- Services.PerConnection: of runs in which no write loses unread bytes (`KeptRun`); what
  is lost otherwise is `RunIsQueue` and `RunFades`. When a stream that still has bytes to
  send is closed is in `TcpStream.dfy`; here a close is an event of the run.
- Clients.Client.Run: `Client::on_read` has the same body as `MsgServer::handle_read`, which
  `Reassemble` is for both; the client's objects take what `Read` says. What arrived in
  the same read as the end of the stream is not in the model, as nothing reads it.
- What the handlers behind `Proto::on_msg` do with a request, with their own assertions
  (an answer to a connection that is gone, a body that does not parse).
- The 8-byte copy of the length word in `ProtoMsg::get_raw`, whose upper half is
  overwritten, and the cast of a `Msg` to a `ProtoMsg`.
- The message bodies of protobuf: a body is any sequence of bytes.
- TcpStreams.RunKeeps: counts bytes; which bytes the socket is given is not
  modelled. A send on a closed stream ends the run: callers must not do it.
- HttpLines.HttpHandle.HandleRead: what the script does to the connection itself
  (sending, closing) while it handles a line.
- Timer numbers are unbounded and stand for the identity of the shared handle; the
  code's are 32 bits wide.
- Timers.Timer.Update: does not say when callbacks with delays of 0 let the loop end.
- `Pri_queue::remove` as a step of a run: nothing calls `end_timer`.
- HeapRemoval.RemoveExact: of the sift-up and sift-down that `Heap.dfy` uses; another
  implementation of the standard library's heap algorithms may leave another heap.
- PollBackend.Poll.Scan: takes poll's count of entries with returned events as given.
- The limit on descriptors of `fd_set`, and errors of the three waiting calls.
- EventLoops.EventLoop.DoSelect: a callback unregisters what is registered and
  registers under free descriptors only, in this order, as the backends' assertions
  demand; changes of interest in a callback are left out, as they do not affect the
  dispatch.
- Connectors.RunIsSafe: connect does not return a positive number, and the socket
  calls that `Connector` makes beyond those listed in the model cannot fail.
- The epoll backend, inotify, `EventLoop::clear` and process shutdown.
- HTTP request handling and responses, the Python embedding, hot reload, logging and
  the code generator.
