# Trojan server: a Dafny model

The server accepts Trojan clients over TCP, WebSocket or a gRPC tunnel, reads one request, and
relays bytes or UDP packets to an outbound. This project models the stateful core of that path and
proves what it promises for every input, every fragmentation and every order of events.

| file | models |
|---|---|
| `Bytes.dfy` | byte sequences |
| `GrpcCodec.dfy`, `GrpcStream.dfy` | protobuf varints, gRPC frames, and the payload of a stream of frames |
| `H2.dfy` | the part of HTTP/2 (RFC 9113) a tunnel stream relies on: events in, capacity and frames out |
| `GrpcSending.dfy` | what becomes of one frame under given capacity and answers of HTTP/2 |
| `GrpcTunnel.dfy`, `GrpcPipe.dfy` | the tunnel transport, and two of them joined by a network |
| `WebSocket.dfy` | the WebSocket transport |
| `RelayStream.dfy`, `Relay.dfy`, `RelaySession.dfy` | the bidirectional relay with billing, deadlines and half-close |
| `Registry.dfy`, `RegistryRuns.dfy`, `RegistryLocks.dfy`, `ConnectionManager.dfy` | the connection registry: interleavings, whole operations, locks, and its sequential form |
| `Trojan.dfy`, `RequestReader.dfy` | the wire format, and reading one request from a fragmented stream |
| `UdpFraming.dfy`, `UdpSession.dfy` | the packets in a client's stream, and the UDP session that routes and sends them |
| `Heartbeat.dfy`, `IdleDrain.dfy` | PING supervision and draining of gRPC connections |

Objects the source updates in place are classes, loops are loops, and the outside world (the HTTP/2
library, sockets, outbounds, the router, clocks) is a script of answers that the theorems range
over. An exhausted script means "not yet", or failure for UDP outbounds. The registry is a transition system, because its
operations interleave.

What turned out not to hold of the code is kept as the code has it, with an example and the exact
condition:

- A gRPC `poll_shutdown` that first blocks, followed by a flush that drains the queue, reports
  completion without ever ending the response (`GrpcPipe.SkippedTrailers`; exactly when, in
  `GrpcTunnel.GrpcTransport.PollShutdown`).
- A frame whose send failed half-way is repeated from its old offset if it is sent again
  (`GrpcPipe.RepeatedBytes`, `GrpcPipe.ResendByFlush`; exactly when, in `GrpcPipe.ResendAfterError`).
- A well-formed request whose header names a host of at most two bytes is not recognised before its
  payload arrives (`Trojan.RequestRecognisedExactly`); a last UDP packet shorter than 11 bytes waits
  likewise (`UdpFraming.EmittedExactly`).
- Names over 255 bytes and UDP payloads over 65535 bytes are cut or mislabelled on encoding
  (`Trojan.AddressRoundTripExactly`, `Trojan.PacketRoundTripExactly`); gRPC messages of 4 GiB and
  more likewise (`GrpcCodec.FrameRoundTripExactly`).
- With a buffer below 319 bytes the size limit turns away well-formed requests
  (`RequestReader.SmallBufferTurnsAway`).
- UDP packets of more than 65536 bytes can hit the read-buffer limit (`UdpFraming.LimitExactly`).
- A failed dial for one proxy makes later packets of the previous proxy disappear
  (`UdpSession.LostAssociation`; exactly when, in `UdpSession.Session.Forward`).

## Model

| member | source | states |
|---|---|---|
| `GrpcCodec.DecodeVarint` | src/transport/grpc/codec.rs:121-146 | the loop yields the base-128 value of the bytes up to the first without continuation bit, cut to 64 bits, and their number; too long or incomplete exactly when there is no such byte among the first ten |
| `GrpcCodec.EncodeVarint` | src/transport/grpc/codec.rs:157-169 | the loop appends exactly the canonical encoding |
| `GrpcCodec.VarintRoundTrip` | src/transport/grpc/codec.rs:121-169 | every 64-bit value decodes back from its encoding in front of any bytes |
| `GrpcCodec.VarintLenIsLength` | src/transport/grpc/codec.rs:149-155 | the computed length, bits divided by seven rounded up, is the length of the encoding |
| `GrpcCodec.VarintBytesShape` | src/transport/grpc/codec.rs:157-169 | only the last byte of an encoding lacks the continuation bit |
| `GrpcCodec.GroupAt` | src/transport/grpc/codec.rs:121-169 | the i-th group of seven bits of the value is in the i-th byte, the least significant first |
| `GrpcCodec.VarintExactly` | src/transport/grpc/codec.rs:121-146 | each verdict on a varint, byte by byte: a value if and only if the bytes end within ten, too long if and only if ten go on, incomplete if and only if all there are go on |
| `GrpcCodec.WalkFields` | src/transport/grpc/codec.rs:46-87 | the walk finds the ranges of exactly the fields of the frame, in order and in range, or the first error |
| `GrpcCodec.JoinFields` | src/transport/grpc/codec.rs:89-102 | the single-field fast path and the general path both yield the concatenation of all fields |
| `GrpcCodec.ParseGrpcMessage` | src/transport/grpc/codec.rs:28-105 | a complete frame yields all its fields joined and consumes five bytes plus the declared length; otherwise nothing is consumed |
| `GrpcCodec.ParseStable` | src/transport/grpc/codec.rs:28-105 | bytes that follow never change a verdict |
| `GrpcCodec.FrameExactly` | src/transport/grpc/codec.rs:28-105 | a frame is read if and only if the bytes are a zero, the length with its high byte first, and that many bytes of entries, each a 10, its length as any varint, and its data; the payload is the data of all entries |
| `GrpcCodec.EntriesRoundTrip` | src/transport/grpc/codec.rs:46-102 | a message of any number of entries, in front of any bytes, is read as all their data joined |
| `GrpcCodec.FirstBadField` | src/transport/grpc/codec.rs:46-87 | the first wrong entry decides the error: tag, varint or length |
| `GrpcCodec.EncodeGrpcMessage` | src/transport/grpc/codec.rs:108-119 | the buffer built is the frame of the payload |
| `GrpcCodec.FrameRoundTrip` | src/transport/grpc/codec.rs:28-119 | a frame in front of any bytes parses to its payload and its own length |
| `GrpcCodec.FrameLayout` | src/transport/grpc/codec.rs:108-119 | what is written for any payload, byte by byte, with the length cut to 32 bits |
| `GrpcCodec.FrameRoundTripExactly` | src/transport/grpc/codec.rs:114 | the round trip works if and only if the message length fits 32 bits |
| `GrpcStream.DecodeAppend` | src/transport/grpc/transport.rs:292-334 | decoding what has arrived and then the rest equals decoding all at once |
| `GrpcStream.InspectExactly` | src/transport/grpc/transport.rs:292-332 | the reader's verdict on its buffer, byte by byte: a declared length over 256 KiB comes first, then compression, then waiting for the frame |
| `GrpcStream.MoreIsBounded` | src/transport/grpc/transport.rs:292-306 | a buffer that waits for more is smaller than one maximal frame |
| `GrpcStream.StuckForGood` | src/transport/grpc/transport.rs:292-332 | after an invalid or oversized frame nothing more is ever decoded |
| `GrpcStream.WholeExactly` | src/transport/grpc/transport.rs:292-334 | nothing is left over if and only if the bytes are a concatenation of complete valid frames |
| `GrpcStream.EncodedPrefix` | src/transport/grpc/codec.rs:108-119 | any prefix of encoded messages decodes to a prefix of their payload, without error if the messages are small enough |
| `GrpcStream.AcceptedExactly` | src/transport/grpc/transport.rs:292-306 | the receiver accepts a message if and only if it has at most 262140 bytes |
| `GrpcSending.SentWithin` | src/transport/grpc/transport.rs:184-245 | a frame is done exactly when all of it was handed over, and blocked only without capacity |
| `GrpcSending.Funded` | src/transport/grpc/transport.rs:191-244 | no more is sent than the capacity in hand and the capacity granted |
| `GrpcSending.CleanNeverBreaks` | src/transport/grpc/transport.rs:199-242 | only a failing answer of HTTP/2 breaks a stream |
| `GrpcSending.SmoothNeverBreaks` | src/transport/grpc/transport.rs:191-244 | a send that has begun is broken only by refused capacity or data |
| `GrpcSending.BreaksCleanlyExactly` | src/transport/grpc/transport.rs:184-245 | a failing call has handed over nothing if and only if the first answers fail, told from the state before the call |
| `GrpcSending.RichSends` | src/transport/grpc/transport.rs:191-244 | with more capacity than a frame and the bytes behind it, the frame goes out and enough is left for those |
| `GrpcSending.EndExactly` | src/transport/grpc/transport.rs:436-464 | the end of a response fails if and only if its trailers, or the response if none was begun, are refused while the peer is there |
| `GrpcSending.MildShut` | src/transport/grpc/transport.rs:423-469 | a shutdown that meets only refusals of a peer that is gone does not fail |
| `GrpcTunnel.ReadBufferReserve` | src/transport/grpc/transport.rs:259-266 | nothing is reserved if and only if the bytes fit; otherwise enough for them, at least double the capacity or the cap, and beyond need at most that |
| `GrpcTunnel.GrpcTransport.constructor` | src/transport/grpc/transport.rs:77-104 | a new transport keeps both invariants and has delivered and accepted nothing |
| `GrpcTunnel.GrpcTransport.PollRead` | src/transport/grpc/transport.rs:269-386 | delivered bytes are a prefix of the payload received; released window is exactly the parsed bytes; a zero-byte read into a non-empty buffer is end of stream only; every other result is decided by the bytes and events received, end of stream exactly on a normal close behind whole frames; an invalid frame is reported again and again, any other failure once; the buffer stays within one frame plus one DATA chunk |
| `GrpcTunnel.CleanEndExactly` | src/transport/grpc/transport.rs:337-384 | the end of stream is reported if and only if the peer closed normally and the bytes received are complete valid frames |
| `GrpcTunnel.EndingExactly` | src/transport/grpc/transport.rs:337-384 | behind frames, or frames and a part of one, the last event alone decides: waiting, a clean end, an end in mid-frame, or a failure |
| `GrpcTunnel.GrpcTransport.CopyOut` | src/transport/grpc/transport.rs:278-290 | buffered payload goes out first and keeps the invariant |
| `GrpcTunnel.GrpcTransport.FetchData` | src/transport/grpc/transport.rs:337-384 | more data is requested only below the window; normal close with an empty buffer is the end, mid-frame it is an error |
| `GrpcTunnel.GrpcTransport.TakeFrame` | src/transport/grpc/transport.rs:307-332 | a parsed frame's bytes are released at once and its payload is copied or kept whole |
| `GrpcTunnel.GrpcTransport.Undelivered` | src/transport/grpc/transport.rs:274-334 | payload received is delivered plus copied-out slice plus what the buffer decodes to |
| `GrpcTunnel.GrpcTransport.OpenStream` | src/transport/grpc/transport.rs:166-182 | response headers are sent once, before any data |
| `GrpcTunnel.GrpcTransport.PollSendCurrentFrame` | src/transport/grpc/transport.rs:184-245 | the outcome, the bytes sent and what is left of capacity and answers are those of the frame's course, decided by the state before the call; what reached the wire is exactly the next bytes of the frame; a failure leaves the offset where it was |
| `GrpcTunnel.GrpcTransport.SendChunk` | src/transport/grpc/transport.rs:191-244 | one turn sends a piece within the granted capacity |
| `GrpcTunnel.GrpcTransport.PollSendQueued` | src/transport/grpc/transport.rs:124-152 | result and sender are those of the pure model, frame after frame; wire plus backlog stay the frames of everything accepted; done means drained, and enough capacity means done; broken only by a failing answer; the queue count is exact so its subtraction never saturates |
| `GrpcTunnel.GrpcTransport.SendCurrent` | src/transport/grpc/transport.rs:126-142 | a finished frame leaves the count by its own length |
| `GrpcTunnel.GrpcTransport.PopFrame` | src/transport/grpc/transport.rs:144-150 | the next frame moves from the queue without changing the backlog |
| `GrpcTunnel.GrpcTransport.Enqueue` | src/transport/grpc/transport.rs:408-412 | one more message is accepted, the queue staying below its limit plus one frame |
| `GrpcTunnel.GrpcTransport.PollWrite` | src/transport/grpc/transport.rs:390-417 | result and sender are those of the pure model; reports exactly the bytes it queued as one message, and has then sent all or used up the capacity, with the queue within 128 KiB and one frame; refuses after close; waits only with 128 KiB queued and no capacity left; fails otherwise only by a failing answer |
| `GrpcTunnel.GrpcTransport.PollFlush` | src/transport/grpc/transport.rs:419-421 | done means every accepted byte was handed to HTTP/2 |
| `GrpcTunnel.GrpcTransport.PollShutdown` | src/transport/grpc/transport.rs:423-469 | the response is ended at most once and only behind all accepted bytes; a completed shutdown has tried to end it exactly unless it was already closed and drained without that; with everything sent, it fails if and only if the end is refused while the peer is there |
| `GrpcTunnel.GrpcTransport.EndResponse` | src/transport/grpc/transport.rs:436-464 | trailers, or a trailers-only response if nothing was sent, after the drained queue; an error if and only if they are refused by a peer that is there |
| `GrpcTunnel.GrpcTransport.DrainedWire` | src/transport/grpc/transport.rs:124-152 | the wire is a prefix of the frames of all accepted messages, and all of them when drained |
| `GrpcTunnel.GrpcTransport.BacklogWithinQueue` | src/transport/grpc/transport.rs:124-152 | the bytes still to be sent are at most the bytes counted for the queue |
| `GrpcTunnel.GrpcTransport.QueueTotal` | src/transport/grpc/transport.rs:124-152 | the count is exactly the frames' bytes in the pure model of the sender |
| `GrpcPipe.Pipe.Integrity` | src/transport/grpc/transport.rs:124-421 | in every state the bytes read are a prefix of those written, and all of them once drained, moved and read |
| `GrpcPipe.RunPipe` | src/transport/grpc/transport.rs:124-469 | over every list of operations, capacity grants, re-chunkings and read sizes: counts, failure and what is left queued are exactly those of the pure run, and, without a failure and with messages the receiver accepts, so are the bytes read and the end; a run fails only on a failing answer, and not on an end refused because the peer is gone; a write takes one message unless the write side is shut or the queue full; the bytes read are a prefix of those written and no more than the capacity granted; with accepted messages no read fails, everything written before a flush or shutdown granted more than the queue is read, a drained or ended run is read completely, and such a shutdown is seen as the end |
| `GrpcPipe.MildNeverFails` | src/transport/grpc/transport.rs:423-469 | a run whose only failing answers are ends refused because the peer is gone does not fail |
| `GrpcPipe.SkippedTrailers` | src/transport/grpc/transport.rs:426-429 | a run in which shutdown completes and the response was never ended |
| `GrpcPipe.ResendAfterError` | src/transport/grpc/transport.rs:207-242 | a resent frame repeats exactly the bytes the failed call had handed over, so none if and only if the headers are refused or the first answers fail before any data |
| `GrpcPipe.RepeatedBytes` | src/transport/grpc/transport.rs:207-242 | a run in which the first three bytes of a frame are on the wire twice |
| `GrpcPipe.ResendByFlush` | src/transport/grpc/transport.rs:207-242 | the same through a failing write and a flush: three bytes more on the wire than the frame has |
| `WebSocket.WebSocketTransport.constructor` | src/transport/ws.rs:51-59 | the stream promised is early data followed by all binary messages before the end |
| `WebSocket.StreamExactly` | src/transport/ws.rs:174-224 | text, pings, pongs and empty polls do not end the stream; a close message, an orderly close, a failure and the end do; its bytes are the binary messages before the first of those |
| `WebSocket.WebSocketTransport.PollRead` | src/transport/ws.rs:150-224 | delivered, buffered and outstanding bytes always make up the promised stream; buffered bytes come first, as many as fit; a zero-byte read with room means the end with everything delivered; the first terminal result is an error exactly on a failure, and later polls report the end; pending only when the message stream was |
| `WebSocket.WebSocketTransport.CopyBuffered` | src/transport/ws.rs:160-172 | as much of the rest of a message as fits is handed out |
| `WebSocket.WebSocketTransport.TakeMessage` | src/transport/ws.rs:181-192 | of a new message as much as fits is handed out, and the rest buffered |
| `WebSocket.WebSocketTransport.PollWrite` | src/transport/ws.rs:231-268 | a write becomes one whole binary message or nothing, and fails once either side is closed |
| `WebSocket.WebSocketTransport.PollShutdown` | src/transport/ws.rs:287-307 | at most one close message, behind all writes and never skipped for a busy sink; waits, fails and completes with the flush |
| `WebSocket.ReadAll` | src/transport/ws.rs:150-224 | over any sequence of reads the output is a prefix of the promised stream, all of it at the end, and the end is clean exactly when the close was orderly; every read brings a byte, the end, or a poll that found nothing, so enough reads reach the end |
| `WebSocket.Transfer` | src/transport/ws.rs:150-307 | what one side writes is what the other side reads: all of it after as many reads as bytes, and the end one read later if the writer has closed |
| `Relay.DirectionalBuffer.PollCopy` | src/core/relay.rs:143-247 | bytes read are bytes written plus bytes buffered, the count is exact, the writer is closed only behind the true end with nothing unwritten, a waiting poll has met a pending answer of the side it waits for, a flush has been asked for once all is written, and it fails exactly when a side does |
| `Relay.DirectionalBuffer.WriteBuffered` | src/core/relay.rs:159-207 | the write loop, probing the reader while the writer blocks, keeps the invariant |
| `Relay.DirectionalBuffer.WriteOnce` | src/core/relay.rs:160-206 | all that is buffered is offered, and exactly the accepted bytes move; a zero write is an error |
| `Relay.DirectionalBuffer.Stalled` | src/core/relay.rs:176-205 | behind a blocked write the source is probed as long as there is room |
| `Relay.DirectionalBuffer.Probe` | src/core/relay.rs:176-203 | a probe read into all the room there is appends behind the buffered bytes or notes the end |
| `Relay.DirectionalBuffer.FlushAndClose` | src/core/relay.rs:209-232 | the flush flag is set only by a completed flush, the close comes only behind the end |
| `Relay.DirectionalBuffer.Flush` | src/core/relay.rs:209-224 | a flush of everything accepted is asked for; it is noted exactly when it completes, and fails the poll exactly when it fails |
| `Relay.DirectionalBuffer.Close` | src/core/relay.rs:226-232 | the writer is closed, and the direction complete, as soon as the close is answered, well or not; until then the poll waits |
| `Relay.DirectionalBuffer.Refill` | src/core/relay.rs:234-245 | a refill asks for a whole buffer and keeps what was read |
| `RelaySession.BidirectionalRelay.constructor` | src/core/relay.rs:272-295 | a new relay is settled with both deadlines counted from the start |
| `RelaySession.BidirectionalRelay.Poll` | src/core/relay.rs:297-418 | at every suspension billing is exact, the half-close window is open exactly when a direction is drained and belongs to the one that drained first, both deadlines equal their last cause plus their timeout and lie ahead, as they did in every poll before, and they restart exactly when a direction wrote and flushed, which needs a flush completed in that very poll; completion means both directions are closed; a timeout means its deadline is over |
| `RelaySession.BidirectionalRelay.PollBoth` | src/core/relay.rs:301-321 | both directions are polled until they complete or have to wait; an error is returned exactly when a stream had one, and after one of the upload the download is not polled; flushed progress has a flush of this poll behind it, which covers every byte credited before, and bears its stamp |
| `RelaySession.PollOne` | src/core/relay.rs:301-321 | the same for one direction |
| `RelaySession.BidirectionalRelay.PollUp` | src/core/relay.rs:301-310 | the upload's part, nothing of the download being touched |
| `RelaySession.BidirectionalRelay.PollDown` | src/core/relay.rs:312-321 | the download's part, nothing of the upload being touched |
| `RelaySession.BidirectionalRelay.Account` | src/core/relay.rs:333-417 | window, billing, credit and decision of one poll |
| `RelaySession.BidirectionalRelay.Reckon` | src/core/relay.rs:333-397 | window, bill and deadlines move exactly as the progress of this poll says |
| `RelaySession.BidirectionalRelay.ArmHalfClose` | src/core/relay.rs:333-348 | the window is opened once, with the length of the direction that drained first |
| `RelaySession.BidirectionalRelay.Report` | src/core/relay.rs:353-364 | afterwards exactly the bytes accepted by the writers have been recorded |
| `RelaySession.BidirectionalRelay.Credit` | src/core/relay.rs:383-397 | resets are credited only to flushed progress, and no more often than flushes complete |
| `RelaySession.BidirectionalRelay.Decide` | src/core/relay.rs:399-417 | completion, then half-close, then idle timeout; pending only before every live deadline |
| `RelaySession.BidirectionalRelay.Integrity` | src/core/relay.rs:143-403 | each side has received a prefix of what the other sent; a closed side has received all of it |
| `RelaySession.BidirectionalRelay.PollUntil` | src/core/relay.rs:297-457 | over any sequence of polls: a direction that is not complete has waited in every one; every poll but the one that ends the relay was before the idle deadline, which counts from the last poll in which a direction both wrote and flushed, and before the end of the half-close window, which counts from the poll that drained its direction or from the last credit; a timeout comes only in a poll that finds its deadline over, an error exactly with a stream's, and completion exactly with both directions closed |
| `RelaySession.CreditMoves` | src/core/relay.rs:383-388 | the credited time moves to a poll exactly when a writer both accepted bytes and flushed in it |
| `RelaySession.WindowStays` | src/core/relay.rs:333-396 | an open half-close window moves with credits and with nothing else, and stays that of the direction drained first |
| `RelaySession.WindowOpens` | src/core/relay.rs:333-348 | a window counts from the poll that drained its direction |
| `RelaySession.StaysAlive` | src/core/relay.rs:297-417 | a further poll changes nothing about the deadlines of earlier ones |
| `RelaySession.Conclude` | src/core/relay.rs:419-457 | the last report bills what an error return skipped, and the result has the exact counts |
| `RelaySession.CopyBidirectional` | src/core/relay.rs:259-457 | however the relay ends, dropped, failed or returned, both outputs are prefixes of the inputs and exactly their lengths are billed; completed means both streams were delivered whole and is returned exactly when both are closed; it fails exactly when a stream does; as the streams' own records of writes, flushes and ends have it, every poll but the last was before the idle deadline and inside the half-close window of the side delivered first, and a timeout is returned only past them; a direction still alive has waited in every poll, and a flush was asked for once everything read was written |
| `Registry.InvAlways` | src/core/connection.rs:57-117 | the registry invariant holds in every state of every interleaving of register, unregister, kick and cancel-all steps |
| `Registry.LinkedStep` | src/core/connection.rs:57-90 | each single map operation keeps the two maps linked up to threads in the middle of one |
| `Registry.OneMapOnly` | src/core/connection.rs:57-90 | an id is in exactly one map if and only if its own register or unregister is between its two operations |
| `Registry.Quiescent` | src/core/connection.rs:57-90 | at rest the user map is exactly the inverse of the connection map and both are empty together |
| `Registry.KickTouchesOwnUser` | src/core/connection.rs:93-104 | a kick cancels only tokens of its own user |
| `Registry.KickResult` | src/core/connection.rs:93-104 | the number returned is the number cancelled, and every remaining connection of the user is cancelled unless its register is unfinished |
| `Registry.KickHoldsEntry` | src/core/connection.rs:93-104 | the set of ids a kick visits cannot change under it |
| `Registry.KickCovers` | src/core/connection.rs:93-104 | over a whole kick, from taking the entry to giving it back, whatever other threads do: every connection registered for the user when the entry was taken is visited, once, and cancelled and counted if and only if present at that moment; nothing else is visited or counted |
| `Registry.CancelAllResult` | src/core/connection.rs:110-117 | the number returned is the number cancelled, and of all connections visited every remaining one is cancelled |
| `Registry.CancelAllCovers` | src/core/connection.rs:110-117 | over a whole cancel-all: every connection there at the start is visited, none twice, and each one visited is cancelled and counted if and only if present at that moment |
| `Registry.SomeoneCanMove` | src/core/connection.rs:57-117 | in every state some thread that is inside an operation can take its next step |
| `Registry.AnyoneMayBegin` | src/core/connection.rs:57-117 | an idle thread may begin any operation, an unregister for every id handed out |
| `RegistryRuns.Registered` | src/core/connection.rs:57-75 | once a register is finished its connection, under an id never used before, is in both maps and stays there until its own unregister, in every run |
| `RegistryRuns.Unregistered` | src/core/connection.rs:78-90 | from the first step of an unregister on its id is never in the connection map again |
| `RegistryRuns.LeftForGood` | src/core/connection.rs:78-90 | once an unregister is finished no user has its connection again |
| `RegistryRuns.NothingThere` | src/core/connection.rs:78-104 | unregistering an id that is not there and kicking a user without connections change nothing |
| `RegistryRuns.EmptyInTheEnd` | src/core/connection.rs:57-90 | with every id handed out unregistered again and no thread inside, both maps are empty |
| `RegistryLocks.LockOrder` | src/core/connection.rs:57-104 | a thread that holds a connection shard wants no further lock, so two locks are only ever taken user map first |
| `RegistryLocks.TakesWhatItWants` | src/core/connection.rs:57-117 | a lock step takes exactly the lock waited for, and nothing is held outside |
| `RegistryLocks.TouchesUnderLock` | src/core/connection.rs:57-117 | every step of a registry thread touches map entries only while it holds their shards, a kick's visit both |
| `RegistryLocks.NoDeadlock` | src/core/connection.rs:57-104 | in every state with unfinished threads some thread can move |
| `RegistryLocks.EveryoneGetsOut` | src/core/connection.rs:57-104 | from every state some schedule finishes all threads |
| `RegistryLocks.StepIsLockSteps` | src/core/connection.rs:57-117 | every step of a registry thread is a run of its lock steps, from where its last one left it |
| `RegistryLocks.EntryIsLocked` | src/core/connection.rs:93-104 | whoever finds a user's shard free is not shut out by a kick |
| `ConnectionManager.ConnectionManager.Register` | src/core/connection.rs:57-75 | a fresh id joins its user's connections and nothing else changes |
| `ConnectionManager.ConnectionManager.Unregister` | src/core/connection.rs:78-90 | the id leaves both maps, an emptied user with it; unknown ids change nothing |
| `ConnectionManager.ConnectionManager.KickUser` | src/core/connection.rs:93-104 | exactly the user's connections are cancelled and counted |
| `ConnectionManager.ConnectionManager.CancelAll` | src/core/connection.rs:110-117 | exactly all connections are cancelled and counted |
| `Trojan.AddressRoundTrip` | src/core/protocol.rs:95-171 | an address decodes back from its encoding in front of any bytes |
| `Trojan.AddressSound` | src/core/protocol.rs:95-141 | what decodes is the encoding of the result |
| `Trojan.AddressExactly` | src/core/protocol.rs:95-171 | decoding yields an address if and only if the buffer starts with its encoding |
| `Trojan.AddressLayout` | src/core/protocol.rs:95-141 | a decoded address byte by byte: type 1, 3 or 4, the host, and the port with its high byte first |
| `Trojan.AddressVerdict` | src/core/protocol.rs:95-141 | an address is undecided or invalid exactly by its type, its length and the UTF-8 of its name |
| `Trojan.ValidUtf8Exactly` | src/core/protocol.rs:132-135 | a name is accepted if and only if it is the UTF-8 form of some sequence of scalar values (RFC 3629) |
| `Trojan.AddressRoundTripExactly` | src/core/protocol.rs:154-168 | the round trip works if and only if the name fits its length byte |
| `Trojan.AddressStable` | src/core/protocol.rs:95-141 | bytes that follow never change a verdict |
| `Trojan.DecodeRequestInPlace` | src/core/protocol.rs:253-307 | the zero-copy decoder agrees with the completeness test on every buffer, so the branch behind it is dead, takes everything on success and nothing otherwise |
| `Trojan.RequestExactly` | src/core/protocol.rs:253-307 | decoding yields a request if and only if the buffer is its header and payload and has 68 bytes |
| `Trojan.RequestLayout` | src/core/protocol.rs:253-307 | a decoded request byte by byte: password, command 1 or 3, address, the two line ends, payload |
| `Trojan.RequestUndecidedExactly` | src/core/protocol.rs:214-248 | a buffer is undecided if and only if it is below 68 bytes or nothing is wrong in a header that is not complete |
| `Trojan.UndecidedIsOpen` | src/core/protocol.rs:214-248 | an undecided buffer of 68 bytes can still become a request, unless its name has broken off inside a character or the byte behind the address is wrong: no rejection waits longer |
| `Trojan.RequestRecognisedExactly` | src/core/protocol.rs:209-217 | a whole request is recognised if and only if it has 68 bytes; only headers with names of up to two bytes are shorter |
| `Trojan.RequestStable` | src/core/protocol.rs:214-307 | bytes that follow only lengthen the payload |
| `Trojan.UndecidedIsShort` | src/core/protocol.rs:214-248 | an undecided buffer is shorter than 320 bytes |
| `Trojan.DecodePacketInPlace` | src/core/protocol.rs:365-397 | the zero-copy decoder agrees with the copying one and leaves exactly the bytes behind the packet |
| `Trojan.PacketExactly` | src/core/protocol.rs:328-362 | decoding yields a packet if and only if the buffer starts with its encoding and has 11 bytes |
| `Trojan.PacketLayout` | src/core/protocol.rs:328-362 | a decoded packet byte by byte: address, length with its high byte first, line end, payload |
| `Trojan.PacketUndecidedExactly` | src/core/protocol.rs:328-362 | when a packet is undecided, byte by byte |
| `Trojan.EncodedLayout` | src/core/protocol.rs:145-171 | what is written for any packet, byte by byte: a name is cut to its first 255 bytes, the length to 16 bits, the payload never |
| `Trojan.PacketRoundTripExactly` | src/core/protocol.rs:400-407 | an encoded packet reads back if and only if name and payload fit their length fields and it has 11 bytes |
| `Trojan.PacketStable` | src/core/protocol.rs:328-397 | bytes that follow never change a verdict |
| `RequestReader.ReadTrojanRequest` | src/handler.rs:52-101 | for every fragmentation the outcome is the verdict on the whole stream, header, payload and unread bytes make up the stream, no read happens after a verdict, and the size limit cannot be hit by reads within a buffer of at least 319 bytes |
| `RequestReader.CutsDoNotMatter` | src/handler.rs:52-101 | two readers of the same stream reach the same verdict |
| `RequestReader.HeaderPrefixIsUndecided` | src/handler.rs:58-84 | a request is neither recognised nor rejected before the last byte of its header |
| `RequestReader.SmallBufferTurnsAway` | src/handler.rs:96-99 | below 319 bytes there is a well-formed request the limit turns away, although no read exceeds the buffer |
| `UdpFraming.DrainAppend` | src/handler.rs:548-660 | the packets emitted and the bytes left depend only on the bytes received, not on how they were cut |
| `UdpFraming.OutOfSyncForGood` | src/handler.rs:652-658 | after a framing error nothing more is ever framed |
| `UdpFraming.EmittedExactly` | src/core/protocol.rs:324-407 | the stream of a packet list drains to exactly that list if and only if the last packet has 11 bytes |
| `UdpFraming.PartOfStream` | src/handler.rs:548-660 | any part of a packet stream drains to the first packets and leaves less than the next one |
| `UdpFraming.LimitExactly` | src/handler.rs:515-520 | the read-buffer limit is out of reach for every cut if and only if no packet exceeds 65536 bytes |
| `UdpSession.Session.constructor` | src/handler.rs:474-504 | a session starts at rest, with an initial payload waiting for its turn |
| `UdpSession.RouteExactly` | src/handler.rs:447-460 | the destination is the target, resolved as the router says for a direct outbound, and the hijacking address with the target's port for a proxy that has one |
| `UdpSession.Session.Lookup` | src/handler.rs:552-565 | the cached route is always the router's; a full cache of 256 entries is emptied before a new one, and never exceeded |
| `UdpSession.Session.ConnectDirect` | src/handler.rs:572-595 | one direct association serves all direct targets and is redialed exactly when there is none or it was a proxy's |
| `UdpSession.Session.ConnectProxy` | src/handler.rs:603-623 | a proxy association is redialed exactly when the handler changes; after a failure the old handler stays current without association |
| `UdpSession.Session.Send` | src/handler.rs:626-649 | a success resets the error count, marks activity and is counted; the eighth failure in a row gives up |
| `UdpSession.Session.Deliver` | src/handler.rs:551-650 | by the router's choice alone: a packet's own payload is written only to the target, the resolved target or the hijacking address, over an association dialed for its own outbound; rejected and UDP-less packets over none; fate and association are those of the pure treatment of the packet |
| `UdpSession.Session.DeliverDirect` | src/handler.rs:572-595 | the direct arm: one association for all direct targets, redialed after a proxy's |
| `UdpSession.Session.DeliverProxy` | src/handler.rs:597-649 | the proxy arm: its handler becomes current only if the dial works |
| `UdpSession.Session.Forward` | src/handler.rs:551-650 | the same with the history; a packet is dropped without a dial if and only if its handler is current and its association is gone |
| `UdpSession.Session.Handle` | src/handler.rs:551-650 | one packet off the buffer joins the history with the fate due to it |
| `UdpSession.Session.DrainBuffer` | src/handler.rs:547-663 | the loop handles exactly the packets of the bytes received and gives up exactly on a framing error or eight failed sends in a row |
| `UdpSession.Session.Fetch` | src/handler.rs:509-546 | an initial payload is handled before any read; the limit is checked before reading and ends the session exactly when reached; the client is gone exactly at the end of its stream, and a read fails exactly on an error |
| `UdpSession.Session.ClientArm` | src/handler.rs:508-664 | after the client's turn everything received has been handled, no packet of it after the eighth failed send in a row |
| `UdpSession.Session.OutboundArm` | src/handler.rs:666-720 | the client is sent exactly the encoded replies, but for the first bytes of one cut short that ends the session; the eighth failed receive in a row ends it too |
| `UdpSession.Session.OtherArm` | src/handler.rs:666-736 | idle timeout exactly when the time since the last forwarded or delivered packet reaches the limit; a kick always ends the session |
| `UdpSession.Session.Turn` | src/handler.rs:506-737 | every turn keeps all session invariants, and activity is exactly a forwarded or delivered packet |
| `UdpSession.Session.Run` | src/handler.rs:463-744 | over every order of events: every packet is treated as the router says, and meets exactly the fate that the packets before it and the answers to dials and sends have left for it; route cache, accounting; packets handled are those of the bytes received; for packets of 11 to 65536 bytes exactly the list sent, without framing or limit exit; events are taken one by one until one of them causes the exit, and none is passed over: each client turn takes a chunk; the end of the stream, a read error and a full buffer end the session exactly when met; replies and failed receives are exactly those of the datagrams that found an association, which follows from the packets handled by then; no packet and no datagram is taken after the eighth failure in a row; a kick or an undelivered reply ends the session; and an idle tick does exactly when the last forwarded or delivered packet is the timeout ago |
| `UdpSession.LostAssociation` | src/handler.rs:609-621 | a run in which a failed dial for one proxy makes the next packet of another vanish although a dial would work |
| `Heartbeat.H2Heartbeat.OnActivity` | src/transport/grpc/heartbeat.rs:46-48 | a new stream clears the misses |
| `Heartbeat.H2Heartbeat.PollPong` | src/transport/grpc/heartbeat.rs:63-78 | a PONG clears the misses, a PONG error ends the connection |
| `Heartbeat.H2Heartbeat.PollTick` | src/transport/grpc/heartbeat.rs:79-114 | a tick ends the connection if and only if the trace ends in three misses on one PING |
| `Heartbeat.MissedOnlyWhileWaiting` | src/transport/grpc/heartbeat.rs:62-114 | in every trace misses are counted only while a PING is outstanding and stay below three |
| `Heartbeat.WaitingExactly` | src/transport/grpc/heartbeat.rs:62-114 | the flag says exactly whether a PING was sent and not answered |
| `Heartbeat.TimeoutExactly` | src/transport/grpc/heartbeat.rs:79-98 | a timeout happens if and only if three ticks in a row found the same PING unanswered, with no data in the three intervals and no new stream since the first |
| `Heartbeat.SilentPeerIsDead` | src/transport/grpc/heartbeat.rs:54-115 | from every state a silent peer is dead by the fourth tick if PINGs can be sent |
| `Heartbeat.ThreeTicksExactly` | src/transport/grpc/heartbeat.rs:54-115 | three ticks suffice if and only if a PING was outstanding without data since the last tick |
| `Heartbeat.UnsentNeverTimesOut` | src/transport/grpc/heartbeat.rs:106-112 | without a sent PING the heartbeat never gives up |
| `IdleDrain.Connection.OnAccept` | src/transport/grpc/connection.rs:200-227 | a served stream restarts the idle count |
| `IdleDrain.Connection.OnProbe` | src/transport/grpc/connection.rs:175-198 | a rejected request does not |
| `IdleDrain.Connection.OnTick` | src/transport/grpc/connection.rs:250-265 | GOAWAY or close exactly on the third or a later tick since the last stream began or ended, with none alive |
| `IdleDrain.ActionExactly` | src/transport/grpc/connection.rs:250-265 | without a stream the third tick of an idle stretch sends GOAWAY, every later one closes, and no other does anything |
| `IdleDrain.GoAwayIsTimely` | src/transport/grpc/connection.rs:153-159 | GOAWAY comes between one and one and a half idle timeouts after the last stream ended |
| `IdleDrain.GoAwayComes` | src/transport/grpc/connection.rs:153-159 | once that time has passed without a stream it has been sent |
| `IdleDrain.CloseComes` | src/transport/grpc/connection.rs:250-265 | two idle timeouts after the last stream ended the connection has been closed, and not before one and a half |
| `IdleDrain.CloseMeansIdle` | src/transport/grpc/connection.rs:250-265 | at a hard close no stream was alive at any instant across the last four ticks |
| `IdleDrain.CloseFollowsGoAway` | src/transport/grpc/connection.rs:250-265 | a close comes at least one tick after a GOAWAY of the same idle stretch |

## Left out

- HTTP/2, WebSocket framing, the concurrent map and the async runtime themselves: they appear as scripts of answers or as atomic steps; wake-ups and fairness are not modelled.
- The connection-level HTTP/2 window shared by several streams: each stream has its own.
- Routing, DNS, address filters, ACL files, authentication and configuration: the router is an arbitrary function, and a buffer size of zero, which configuration refuses, only weakens the relay's claims.
- TLS, listeners, path matching, the WebSocket handshake and decoding of early data: they would only add easy members.
- Dialing and the first payload of TCP requests: the relay starts from two open streams.
- The wrapper that hides half-close from some outbounds: it forwards calls.
- Textual conversion of addresses between the router and the wire: destinations are addresses here.
- Which handler dialed the one direct UDP association: later direct targets share it whatever their own handler is.
- Varint arithmetic is on integers: bit masks and shifts are written as remainders and multiples.
- One clock reading stands for a whole relay poll.
- Cancel-all may visit connections that came after it began, in any order, where the map visits shard by shard; the user lock of the registry is per user, where the map has one per shard.
- Registry.Enabled: an unregister is only for an id that a finished register has returned, as its callers do; the source takes any id, and the invariant rests on that.
- A kick reaches connections that have finished registering; the model says so and does not strengthen it.
- Timers tick ideally in the idle-drain bounds; delayed ticks only come later.
- Trojan.UndecidedIsOpen: one way only; whether a name that has broken off inside a character can still be completed depends on the bytes left to it.
- The texts of error messages.
- GrpcPipe.RunPipe: says nothing of the bytes read after a failed HTTP/2 send call, because the source may then repeat bytes.
- H2.RecvStream and H2.SendStream members have no source lines of their own: they state what the tunnel may rely on.
