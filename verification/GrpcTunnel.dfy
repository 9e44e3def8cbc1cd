/** The gRPC tunnel as a byte stream: frames are reassembled and acknowledged on the read
    side, queued and sent within the granted capacity on the write side. */
module GrpcTunnel {
  import opened Bytes
  import opened GrpcCodec
  import opened GrpcStream
  import opened H2
  import opened GrpcSending

  const MAX_FRAME_SIZE: nat := 64 * 1024
  const DEFAULT_GRPC_MAX_MESSAGE_SIZE: nat := 32 * 1024
  const MAX_READ_BUFFER_SIZE: nat := 128 * 1024

  /** Response side: headers still to be sent, or stream open. */
  datatype Responder = Unsent | Open

  datatype ReadError = FrameTooLarge | BadFrame(error: FrameError) | ClosedMidFrame | RecvFailed

  datatype ReadResult = ReadPending | ReadReady(bytes: Bytes) | ReadFailed(error: ReadError)

  function SaturatingSub(a: nat, b: nat): nat {
    if a >= b then a - b else 0
  }

  /** read_buffer_reserve: enough for the next chunk, doubling only up to the soft cap, and
      never asked to shrink below what is already buffered. */
  function ReadBufferReserve(len: nat, capacity: nat, additional: nat): (reserve: nat)
    requires len <= capacity
    ensures reserve == 0 <==> len + additional <= capacity
    ensures reserve > 0 ==> len + additional <= len + reserve
    ensures reserve > 0 ==> len + reserve == len + additional || len + reserve <= 2 * capacity
    ensures reserve > 0 ==> len + reserve == len + additional || len + reserve <= 131072
    ensures reserve > 0 ==> len + reserve >= 2 * capacity || len + reserve >= 131072
  {
    var needed := len + additional;
    if capacity >= needed then 0
    else
      var grown := Min(capacity * 2, MAX_READ_BUFFER_SIZE);
      (if needed > grown then needed else grown) - len
  }

  /** The peer has ended its side in good order. */
  ghost predicate NormalEnd(history: seq<RecvEvent>) {
    && history != []
    && (history[|history| - 1] == EndStream || history[|history| - 1] == StreamError(true))
  }

  ghost predicate NoEndYet(history: seq<RecvEvent>) {
    forall i :: 0 <= i < |history| ==> history[i].Data? || history[i].Idle?
  }

  /** The one result a finished stream may give, from what was received. */
  ghost function Ending(history: seq<RecvEvent>): ReadResult {
    var left := Rest(DataIn(history));
    match Inspect(left)
    case TooLarge => ReadFailed(FrameTooLarge)
    case Bad(e) => ReadFailed(BadFrame(e))
    case _ =>
      if NoEndYet(history) then ReadPending
      else if !NormalEnd(history) then ReadFailed(RecvFailed)
      else if left != [] then ReadFailed(ClosedMidFrame)
      else ReadReady([])
  }

  /** How a stream ends that has brought frames and perhaps the beginning of another: by its last event
      alone, as long as no event before it was an end. */
  lemma {:induction false} EndingExactly(history: seq<RecvEvent>, last: RecvEvent)
    requires forall e :: e in history ==> e.Data? || e.Idle?
    requires Inspect(Rest(DataIn(history + [last]))).More?
    ensures Ending(history + [last]) ==
            match last
            case Data(_) => ReadPending
            case Idle => ReadPending
            case EndStream => if Rest(DataIn(history)) == [] then ReadReady([]) else ReadFailed(ClosedMidFrame)
            case StreamError(true) => if Rest(DataIn(history)) == [] then ReadReady([]) else ReadFailed(ClosedMidFrame)
            case StreamError(false) => ReadFailed(RecvFailed)
  {
    hide Inspect, Rest, DataIn;
    DataInSnoc(history, last);
    assert DataIn(history) + [] == DataIn(history);
    var all := history + [last];
    assert all[|history|] == last;
    forall i | 0 <= i < |history| ensures all[i].Data? || all[i].Idle? {
      assert all[i] in history;
    }
  }

  /** A stream ends cleanly exactly when the peer closed it normally behind complete valid frames. */
  lemma {:induction false} CleanEndExactly(history: seq<RecvEvent>)
    ensures Ending(history) == ReadReady([]) <==>
            NormalEnd(history) && exists frames :: IsFrames(DataIn(history), frames)
  {
    hide Inspect, Rest, DataIn, IsFrames;
    WholeExactly(DataIn(history));
    EmptyStream();
    var n := |history| - 1;
    if NormalEnd(history) {
      assert !history[n].Data? && !history[n].Idle?;
      assert !NoEndYet(history);
    }
    assert Rest(DataIn(history)) == [] ==> Inspect(Rest(DataIn(history))).More?;
  }

  /** The refusal that fails the end of a response: the peer is still there. */
  function RefusedEnd(responder: Responder): SendEvent {
    match responder
    case Open => TrailersRefused(false)
    case Unsent => ResponseRefused(false)
  }

  class GrpcTransport {
    const recv: RecvStream
    const send: SendStream
    const maxMessageSize: nat

    // read side
    var readPending: Bytes
    var readBuf: Bytes
    var readPos: nat
    var pendingReleaseCapacity: nat
    var readClosed: bool
    ghost var parsed: Bytes      // received bytes already taken apart into frames
    ghost var delivered: Bytes   // bytes handed to the caller

    // write side
    var responder: Responder
    var sendQueue: seq<Bytes>
    var sendQueueBytes: nat
    var currentFrame: Option<Bytes>
    var currentFrameOffset: nat
    var writeClosed: bool
    ghost var chunks: seq<Bytes> // payloads put into frames, in order
    ghost var broken: bool       // an HTTP/2 send call has failed

    /** with_activity; a message size of zero selects the default. */
    constructor (recv: RecvStream, send: SendStream, maxMessageSize: nat)
      requires recv.history == [] && recv.released == 0
      requires send.trace == [] && send.endAttempts == 0
      ensures this.recv == recv && this.send == send
      ensures this.maxMessageSize == if maxMessageSize == 0 then 32768 else maxMessageSize
      ensures ReadInv() && WriteInv()
      ensures recv.script == old(recv.script) && send.trace == []
      ensures delivered == [] && !readClosed
      ensures chunks == [] && !broken && !writeClosed && Drained() && sendQueueBytes == 0
    {
      this.recv, this.send := recv, send;
      this.maxMessageSize := if maxMessageSize == 0 then DEFAULT_GRPC_MAX_MESSAGE_SIZE else maxMessageSize;
      readPending, readBuf, readPos, pendingReleaseCapacity, readClosed := [], [], 0, 0, false;
      parsed, delivered := [], [];
      responder, sendQueue, sendQueueBytes := Unsent, [], 0;
      currentFrame, currentFrameOffset, writeClosed := None, 0, false;
      chunks, broken := [], false;
      new;
      hide Payload, Rest, Inspect, ProtoLen, FrameBytes;
      EmptyStream();
    }

    // ------------------------------------------------------------ reading

    /** Received bytes are the parsed frames plus the buffer; the parsed payload is what was
        delivered plus the slice not yet copied out; and exactly the parsed bytes have been
        released to the peer's window. */
    ghost predicate ReadInv()
      reads this`readPending, this`readBuf, this`readPos, this`pendingReleaseCapacity, this`readClosed,
            this`parsed, this`delivered, recv`history, recv`released
    {
      && recv.Received() == parsed + readPending
      && Rest(parsed) == []
      && readPos <= |readBuf|
      && Payload(parsed) == delivered + readBuf[readPos..]
      && pendingReleaseCapacity == |readPending|
      && recv.released == |parsed|
      && (!readClosed ==> NoEndYet(recv.history))
    }

    /** DATA frames keep to the advertised frame size, and the buffer to one maximal message
        plus one DATA frame. */
    ghost predicate ReadBounded()
      reads this`readPending, recv`script
    {
      && (forall e :: e in recv.script && e.Data? ==> |e.chunk| <= MAX_FRAME_SIZE)
      && |readPending| < 5 + MAX_INBOUND_FRAME_LEN + MAX_FRAME_SIZE
    }

    /** The stream has just reported that no data is available. */
    ghost predicate NothingNow()
      reads recv`script, recv`history
    {
      recv.script == [] || (recv.history != [] && recv.history[|recv.history| - 1].Idle?)
    }

    /** Payload received but not yet delivered is the parsed slice plus what the buffer decodes to. */
    lemma {:induction false} Undelivered()
      requires ReadInv()
      ensures Payload(recv.Received()) == delivered + readBuf[readPos..] + Payload(readPending)
      ensures Rest(recv.Received()) == Rest(readPending)
    {
      DecodeAppend(parsed, readPending);
    }

    /** poll_read into a buffer with `room` bytes left. */
    method PollRead(room: nat) returns (r: ReadResult)
      requires ReadInv()
      modifies this`readPending, this`readBuf, this`readPos, this`pendingReleaseCapacity, this`readClosed,
               this`parsed, this`delivered, recv`script, recv`history, recv`released
      ensures ReadInv()
      ensures delivered == old(delivered) + if r.ReadReady? then r.bytes else []
      ensures r.ReadReady? ==> |r.bytes| <= room
      ensures old(readClosed) ==> r == ReadReady([]) && readClosed
      ensures old(readClosed) ==> recv.history == old(recv.history) && recv.script == old(recv.script)
      // a zero-byte read into a non-empty buffer is the end of the stream, nothing else
      ensures r == ReadReady([]) && room > 0 ==> readClosed
      // whatever is not a delivery is decided by the bytes and events received so far
      ensures !old(readClosed) && (!r.ReadReady? || readClosed) ==>
                r == Ending(recv.history) && delivered == Payload(recv.Received())
      ensures r.ReadPending? ==> !readClosed && NothingNow()
      // an invalid frame is reported again and again, any other failure once
      ensures r.ReadFailed? ==> (readClosed <==> !r.error.BadFrame?)
      ensures old(recv.history) <= recv.history
      ensures recv.history + recv.script == old(recv.history + recv.script)
      ensures old(ReadBounded()) ==> ReadBounded()
    {
      hide ParseFrame, Inspect, Payload, Rest, Ending, DataIn;
      if readClosed {
        return ReadReady([]);
      }
      if readPos < |readBuf| {
        r := CopyOut(room);
        return;
      }
      while true
        invariant ReadInv() && !readClosed && readBuf[readPos..] == []
        invariant delivered == old(delivered)
        invariant old(recv.history) <= recv.history
        invariant recv.history + recv.script == old(recv.history + recv.script)
        invariant old(ReadBounded()) ==> ReadBounded()
        decreases |recv.script|, |readPending|
      {
        InspectCases(readPending);
        var declared := DeclaredLen(readPending);
        if declared.Some? && declared.value > MAX_INBOUND_FRAME_LEN {
          StuckHere();
          readClosed := true;
          return ReadFailed(FrameTooLarge);
        }
        var frame, rest := ParseGrpcMessage(readPending);
        match frame {
          case Frame(payload, consumed) =>
            r := TakeFrame(payload, consumed, rest, room);
            if payload == [] {
              continue;
            }
            return;
          case Invalid(e) =>
            StuckHere();
            return ReadFailed(BadFrame(e));
          case NeedMore =>
            var result := FetchData();
            if result.Some? {
              return result.value;
            }
        }
      }
    }

    /** The leftover arm of poll_read; the frame's window was released when it was parsed. */
    method CopyOut(room: nat) returns (r: ReadResult)
      requires ReadInv() && readPos < |readBuf|
      modifies this`readBuf, this`readPos, this`delivered
      ensures ReadInv()
      ensures r == ReadReady(old(readBuf[readPos..])[..Min(|old(readBuf[readPos..])|, room)])
      ensures delivered == old(delivered) + r.bytes
    {
      hide DataIn, Payload, Rest;
      var toCopy := Min(|readBuf| - readPos, room);
      r := ReadReady(readBuf[readPos..][..toCopy]);
      assert readBuf[readPos..] == r.bytes + readBuf[readPos + toCopy..];
      delivered := delivered + r.bytes;
      readPos := readPos + toCopy;
      if readPos >= |readBuf| {
        readBuf, readPos := [], 0;
      }
    }

    /** With no complete frame in the buffer everything decodable has been delivered, and how
        the stream ends depends on the buffer and the events alone. */
    lemma {:induction false} StuckHere()
      requires ReadInv() && readBuf[readPos..] == [] && !Inspect(readPending).Complete?
      ensures delivered == Payload(recv.Received()) && Rest(recv.Received()) == readPending
      ensures Inspect(readPending).TooLarge? ==> Ending(recv.history) == ReadFailed(FrameTooLarge)
      ensures Inspect(readPending).Bad? ==> Ending(recv.history) == ReadFailed(BadFrame(Inspect(readPending).error))
      ensures Inspect(readPending).More? ==>
                Ending(recv.history) == if NoEndYet(recv.history) then ReadPending
                                        else if !NormalEnd(recv.history) then ReadFailed(RecvFailed)
                                        else if readPending != [] then ReadFailed(ClosedMidFrame)
                                        else ReadReady([])
    {
      hide Inspect;
      Undelivered();
    }

    /** The poll_data arm of poll_read: extend the buffer, or tell how the stream stands. */
    method FetchData() returns (result: Option<ReadResult>)
      requires ReadInv() && !readClosed && readBuf[readPos..] == [] && Inspect(readPending).More?
      modifies this`readPending, this`pendingReleaseCapacity, this`readClosed, recv`script, recv`history
      ensures ReadInv() && old(recv.history) <= recv.history
      ensures recv.history + recv.script == old(recv.history + recv.script)
      ensures old(ReadBounded()) ==> ReadBounded()
      ensures result.None? ==> !readClosed && |recv.script| < |old(recv.script)|
      ensures result.Some? ==> result.value == Ending(recv.history) && delivered == Payload(recv.Received())
      ensures result == Some(ReadPending) ==> !readClosed && NothingNow()
      ensures result.Some? && result.value.ReadFailed? ==> readClosed && !result.value.error.BadFrame?
      ensures result.Some? && result.value.ReadReady? ==> readClosed && result.value.bytes == []
    {
      hide Inspect, Payload, Rest, Ending;
      MoreIsBounded(readPending);
      var event := recv.PollData();
      match event {
        case Data(chunk) =>
          readPending := readPending + chunk;
          pendingReleaseCapacity := pendingReleaseCapacity + |chunk|;
          return None;
        case Idle =>
          StuckHere();
          return Some(ReadPending);
        case StreamError(normal) =>
          readClosed := true;
          StuckHere();
          if normal && readPending == [] {
            return Some(ReadReady([]));
          }
          if normal {
            return Some(ReadFailed(ClosedMidFrame));
          }
          return Some(ReadFailed(RecvFailed));
        case EndStream =>
          readClosed := true;
          StuckHere();
          if readPending != [] {
            return Some(ReadFailed(ClosedMidFrame));
          }
          return Some(ReadReady([]));
      }
    }

    /** The parsed-frame arm of poll_read: release the frame's window at once, copy what fits
        and keep the rest of the payload. */
    method TakeFrame(payload: Bytes, consumed: nat, rest: Bytes, room: nat) returns (r: ReadResult)
      requires ReadInv() && readBuf[readPos..] == []
      requires Inspect(readPending) == Complete(payload, consumed) && rest == readPending[consumed..]
      modifies this`readPending, this`readBuf, this`readPos, this`pendingReleaseCapacity,
               this`parsed, this`delivered, recv`released
      ensures ReadInv()
      ensures readPending == rest && |rest| < |old(readPending)|
      ensures r.ReadReady? && r.bytes == payload[..Min(|payload|, room)]
      ensures delivered == old(delivered) + r.bytes
      ensures payload == [] ==> readBuf[readPos..] == []
    {
      hide Inspect, Payload, Rest;
      FirstFrame(readPending);
      ghost var frame := readPending[..consumed];
      WholeFrame(frame, payload);
      DecodeAppend(parsed, frame);
      assert readPending == frame + rest;
      assert parsed + readPending == (parsed + frame) + rest;
      parsed := parsed + frame;
      readPending := rest;
      var toRelease := Min(pendingReleaseCapacity, consumed);
      if toRelease > 0 {
        recv.ReleaseCapacity(toRelease);
        pendingReleaseCapacity := pendingReleaseCapacity - toRelease;
      }
      var toCopy := Min(|payload|, room);
      r := ReadReady(payload[..toCopy]);
      delivered := delivered + r.bytes;
      if toCopy < |payload| {
        readBuf, readPos := payload[toCopy..], 0;
        assert payload == payload[..toCopy] + payload[toCopy..];
      }
    }

    // ------------------------------------------------------------ writing

    /** Bytes queued and not yet handed to HTTP/2. */
    ghost function Backlog(): Bytes
      requires currentFrame.Some? ==> currentFrameOffset <= |currentFrame.value|
      reads this`currentFrame, this`currentFrameOffset, this`sendQueue
    {
      (if currentFrame.Some? then currentFrame.value[currentFrameOffset..] else []) + Concat(sendQueue)
    }

    ghost predicate Drained()
      reads this`currentFrame, this`sendQueue
    {
      currentFrame.None? && sendQueue == []
    }

    /** The byte count is exact, the response so far is a legal one, and until an HTTP/2 call
        fails the wire plus the backlog are the frames of everything accepted. */
    ghost predicate WriteInv()
      reads this`responder, this`sendQueue, this`sendQueueBytes, this`currentFrame, this`currentFrameOffset,
            this`writeClosed, this`chunks, this`broken, send`trace, send`endAttempts
    {
      && (forall i :: 0 <= i < |sendQueue| ==> sendQueue[i] != [])
      && (currentFrame.Some? ==> currentFrameOffset < |currentFrame.value|)
      && QueueExact()
      && Legal(send.trace)
      && (responder.Open? <==> Started(send.trace))
      && send.endAttempts <= 1
      && (Ended(send.trace) ==> send.endAttempts == 1)
      && (send.endAttempts == 1 ==> writeClosed && Drained())
      && (!broken ==> EncodeAll(chunks) == send.Wire() + Backlog())
      && (forall i :: 0 <= i < |chunks| ==> |chunks[i]| <= maxMessageSize)
    }

    /** The sending side in numbers. */
    ghost function View(): Link
      reads this`responder, this`currentFrame, this`currentFrameOffset, this`sendQueue
      reads send`trace, send`capacity, send`script
    {
      Link(responder.Open?, Ended(send.trace), send.capacity, send.script,
           (if currentFrame.Some? then [|currentFrame.value|] else []) + Lens(sendQueue),
           if currentFrame.Some? then currentFrameOffset else 0, |send.Wire()|)
    }

    lemma {:induction false} EmptyQueue()
      requires WriteInv()
      ensures Drained() ==> sendQueueBytes == 0
      ensures currentFrame.Some? ==> currentFrameOffset <= |currentFrame.value|
    {
    }

    /** The count of queued bytes is that of the frames. */
    lemma {:induction false} QueueTotal()
      requires WriteInv()
      ensures Total(View().frames) == sendQueueBytes
    {
      LensTotal(sendQueue);
      if currentFrame.Some? {
        assert View().frames[1..] == Lens(sendQueue);
      } else {
        assert View().frames == Lens(sendQueue);
      }
    }

    /** Bytes sent, capacity in hand and capacity to come. */
    ghost function Budget(): nat
      reads send`trace, send`capacity, send`script
    {
      |send.Wire()| + send.capacity + Grants(send.script)
    }

    ghost predicate QueueExact()
      reads this`sendQueue, this`sendQueueBytes, this`currentFrame
    {
      && sendQueueBytes == TotalLen(sendQueue) + (if currentFrame.Some? then |currentFrame.value| else 0)
      && sendQueueBytes < MAX_SEND_QUEUE_BYTES + 5 + ProtoLen(maxMessageSize)
    }

    /** A drained, working sender has put every queued byte on the wire. */
    lemma {:induction false} DrainedWire()
      requires WriteInv() && !broken
      ensures send.Wire() <= EncodeAll(chunks)
      ensures Drained() ==> send.Wire() == EncodeAll(chunks)
    {
      hide EncodeAll, WireBytes, Legal;
    }

    /** The bytes still to be sent are at most the bytes counted for the queue. */
    lemma {:induction false} BacklogWithinQueue()
      requires WriteInv()
      ensures |Backlog()| <= sendQueueBytes
    {
      hide EncodeAll, WireBytes, Legal, ProtoLen;
      ConcatLen(sendQueue);
    }

    /** Nothing follows the end of a response. */
    lemma {:induction false} EndIsFinal()
      requires WriteInv() && Ended(send.trace)
      ensures writeClosed && Drained()
    {
    }

    /** open_stream: response headers go out with the first data. */
    method OpenStream() returns (ok: bool)
      requires Legal(send.trace) && (responder.Open? <==> Started(send.trace)) && !Ended(send.trace)
      modifies this`responder, send`script, send`trace, send`endAttempts
      ensures send.endAttempts == old(send.endAttempts) && send.Wire() == old(send.Wire())
      ensures Legal(send.trace) && (responder.Open? <==> Started(send.trace)) && !Ended(send.trace)
      ensures ok <==> responder.Open?
      ensures !ok <==> old(responder).Unsent? && RefusesResponse(old(send.script))
      ensures send.script == if ok then old(send.script) else old(send.script)[1..]
      ensures old(send.trace) <= send.trace
      ensures !ok ==> send.trace == []
    {
      if responder.Unsent? {
        var r := send.SendResponse(false);
        if r.Refused? {
          return false;
        }
        responder := Open;
      }
      ok := true;
    }

    /** poll_send_current_frame: hand over as much of the frame as the capacity allows.  A
        failed call leaves the stored offset where it was, whatever it has sent. */
    method PollSendCurrentFrame() returns (r: Progress, ghost sent: nat)
      requires currentFrame.Some? && currentFrameOffset < |currentFrame.value|
      requires Legal(send.trace) && (responder.Open? <==> Started(send.trace)) && !Ended(send.trace)
      modifies this`responder, this`currentFrameOffset, send`script, send`capacity, send`trace, send`endAttempts
      ensures Legal(send.trace) && (responder.Open? <==> Started(send.trace)) && !Ended(send.trace)
      ensures send.endAttempts == old(send.endAttempts) && old(send.trace) <= send.trace
      ensures old(currentFrameOffset) + sent <= |currentFrame.value|
      ensures send.Wire() == old(send.Wire()) + currentFrame.value[old(currentFrameOffset)..old(currentFrameOffset) + sent]
      ensures r.Done? ==> old(currentFrameOffset) + sent == |currentFrame.value|
      ensures r.Blocked? ==> currentFrameOffset == old(currentFrameOffset) + sent < |currentFrame.value|
      ensures r.Broken? ==> currentFrameOffset == old(currentFrameOffset)
      // what happens is decided by the capacity and the answers of HTTP/2 alone
      ensures Sending(r, sent, send.capacity, send.script) ==
              Course(old(responder).Open?, old(send.capacity), old(send.script), |currentFrame.value| - old(currentFrameOffset))
      ensures r.Blocked? ==> send.capacity == 0
      ensures responder.Open? <==> old(responder).Open? || !RefusesResponse(old(send.script))
    {
      hide WireBytes, Legal, Started, Ended, SendFrame, CapacityNext, AfterCapacity;
      var frame := currentFrame.value;
      var offset := currentFrameOffset;
      ghost var base := currentFrameOffset;
      sent := 0;
      SentWithin(send.capacity, send.script, |frame| - base);
      var ready := OpenStream();
      if !ready {
        return Broken, sent;
      }
      ghost var course := SendFrame(send.capacity, send.script, |frame| - base);
      while true
        invariant base + sent == offset < |frame| && currentFrameOffset == base && Streaming()
        invariant send.endAttempts == old(send.endAttempts) && old(send.trace) <= send.trace
        invariant send.Wire() == old(send.Wire()) + frame[base..offset]
        invariant course == Later(sent, SendFrame(send.capacity, send.script, |frame| - offset))
        decreases |frame| - offset, |send.script|
      {
        var stop, n := SendChunk(frame, offset);
        if stop.Some? {
          if stop.value.Blocked? {
            currentFrameOffset := offset;
          }
          return stop.value, sent;
        }
        assert frame[base..offset + n] == frame[base..offset] + frame[offset..offset + n];
        offset, sent := offset + n, sent + n;
        if offset >= |frame| {
          currentFrameOffset := offset;
          return Done, sent;
        }
      }
    }

    ghost predicate Streaming()
      reads this`responder, send`trace
    {
      Legal(send.trace) && responder.Open? && Started(send.trace) && !Ended(send.trace)
    }

    /** One round of the sending loop: send what the capacity allows, or ask for capacity. */
    method SendChunk(frame: Bytes, offset: nat) returns (stop: Option<Progress>, n: nat)
      requires offset < |frame| && Streaming()
      modifies send`script, send`capacity, send`trace
      ensures Streaming() && old(send.trace) <= send.trace
      ensures offset + n <= |frame| && send.Wire() == old(send.Wire()) + frame[offset..offset + n]
      ensures stop.None? ==> n > 0 || |send.script| < |old(send.script)|
      ensures stop.Some? ==> n == 0 && !stop.value.Done?
      ensures var course := SendFrame(old(send.capacity), old(send.script), |frame| - offset);
              course == if stop.Some? then Sending(stop.value, 0, send.capacity, send.script)
                        else if offset + n == |frame| then Sending(Done, n, send.capacity, send.script)
                        else Later(n, SendFrame(send.capacity, send.script, |frame| - offset - n))
    {
      hide WireBytes, Legal;
      var remaining := |frame| - offset;
      var capacity := send.Capacity();
      if capacity == 0 {
        // reserve_capacity only tells h2 what is wanted
        var poll := send.PollCapacity();
        match poll {
          case Ready(_) => return None, 0;
          case Failed => return Some(Broken), 0;
          case Gone => return Some(Broken), 0;
          case Pending => return Some(Blocked), 0;
        }
      }
      n := Min(remaining, capacity);
      var ok := send.SendData(frame[offset..offset + n]);
      if !ok {
        return Some(Broken), 0;
      }
      stop := None;
    }

    /** poll_send_queued: send frame after frame; done only when nothing is left. */
    method PollSendQueued() returns (r: Progress)
      requires WriteInv()
      modifies this`responder, this`sendQueue, this`sendQueueBytes, this`currentFrame, this`currentFrameOffset,
               this`broken, send`script, send`capacity, send`trace, send`endAttempts
      ensures WriteInv()
      ensures (r, View()) == Pump(old(View()))
      ensures sendQueueBytes <= old(sendQueueBytes)
      ensures r.Done? ==> Drained()
      ensures r.Blocked? ==> !Drained() && send.capacity == 0
      ensures broken == (old(broken) || r.Broken?)
      ensures old(send.script) == [] ==>
                send.script == [] && send.capacity + |send.Wire()| == old(send.capacity + |send.Wire()|)
      ensures Budget() <= old(Budget())
      ensures Clean(old(send.script)) ==> !r.Broken? && Clean(send.script)
      ensures Rich(old(send.capacity), old(send.script), |old(Backlog())|) ==> r.Done?
      ensures send.endAttempts == old(send.endAttempts) && old(send.trace) <= send.trace
      ensures old(Drained()) ==> r.Done? && send.trace == old(send.trace)
    {
      hide Legal, WireBytes, EncodeAll, ProtoLen, TotalLen, Concat, Rich, Clean, Grants, PumpOne;
      while true
        invariant WriteInv()
        invariant Pump(View()) == Pump(old(View()))
        invariant sendQueueBytes <= old(sendQueueBytes)
        invariant broken == old(broken) && send.endAttempts == old(send.endAttempts) && old(send.trace) <= send.trace
        invariant old(Drained()) ==> Drained() && send.trace == old(send.trace)
        invariant old(send.script) == [] ==>
                    send.script == [] && send.capacity + |send.Wire()| == old(send.capacity + |send.Wire()|)
        invariant Budget() <= old(Budget())
        invariant Clean(old(send.script)) ==> Clean(send.script)
        invariant Rich(old(send.capacity), old(send.script), |old(Backlog())|) ==>
                    Rich(send.capacity, send.script, |Backlog()|)
        decreases |sendQueue| + (if currentFrame.Some? then 1 else 0), currentFrame.None?
      {
        if currentFrame.Some? {
          r := SendCurrent();
          if !r.Done? {
            return;
          }
        }
        if sendQueue == [] {
          return Done;
        }
        PopFrame();
      }
    }

    /** The current-frame arm of poll_send_queued. */
    method SendCurrent() returns (r: Progress)
      requires WriteInv() && currentFrame.Some?
      modifies this`responder, this`sendQueueBytes, this`currentFrame, this`currentFrameOffset,
               this`broken, send`script, send`capacity, send`trace, send`endAttempts
      ensures WriteInv()
      ensures (r, View()) == PumpOne(old(View()))
      ensures sendQueueBytes <= old(sendQueueBytes)
      ensures r.Done? <==> currentFrame.None?
      ensures Rich(old(send.capacity), old(send.script), |old(Backlog())|) ==>
                Rich(send.capacity, send.script, |Backlog()|)
      ensures r.Blocked? ==> send.capacity == 0
      ensures old(send.script) == [] ==>
                send.script == [] && send.capacity + |send.Wire()| == old(send.capacity + |send.Wire()|)
      ensures Budget() <= old(Budget())
      ensures Clean(old(send.script)) ==> !r.Broken? && Clean(send.script)
      ensures Rich(old(send.capacity), old(send.script), |old(Backlog())|) ==> r.Done?
      ensures broken == (old(broken) || r.Broken?)
      ensures send.endAttempts == old(send.endAttempts) && old(send.trace) <= send.trace
    {
      hide Legal, WireBytes, EncodeAll, ProtoLen, TotalLen, Concat, Rich, Clean, Grants, Course, Lens;
      assert View().frames[1..] == Lens(sendQueue);
      var frameLen := |currentFrame.value|;
      if frameLen - currentFrameOffset == 0 {
        // a frame is cleared as soon as its last byte is sent
        assert false;
      }
      ghost var tail := currentFrame.value[currentFrameOffset..];
      assert !Ended(send.trace);
      ghost var sent;
      CourseFacts(responder.Open?, send.capacity, send.script, |tail|, |Concat(sendQueue)|);
      r, sent := PollSendCurrentFrame();
      match r {
        case Done =>
          assert send.Wire() + Concat(sendQueue) == old(send.Wire()) + (tail + Concat(sendQueue));
          sendQueueBytes := SaturatingSub(sendQueueBytes, frameLen);
          currentFrame, currentFrameOffset := None, 0;
          assert Backlog() == Concat(sendQueue);
          assert [] + Lens(sendQueue) == Lens(sendQueue);
        case Blocked =>
          ghost var left := currentFrame.value[currentFrameOffset..];
          assert send.Wire() + (left + Concat(sendQueue)) == (send.Wire() + left) + Concat(sendQueue);
          assert old(send.Wire()) + (tail + Concat(sendQueue)) == (old(send.Wire()) + tail) + Concat(sendQueue);
        case Broken =>
          broken := true;
      }
    }

    /** pop_front of poll_send_queued. */
    method PopFrame()
      requires WriteInv() && currentFrame.None? && sendQueue != []
      modifies this`sendQueue, this`currentFrame, this`currentFrameOffset
      ensures WriteInv() && currentFrame == Some(old(sendQueue)[0]) && currentFrameOffset == 0
      ensures sendQueue == old(sendQueue)[1..]
      ensures Backlog() == old(Backlog()) && View() == old(View())
    {
      assert sendQueue[0] + Concat(sendQueue[1..]) == Concat(sendQueue);
      assert Lens(sendQueue) == [|sendQueue[0]|] + Lens(sendQueue[1..]);
      currentFrame, currentFrameOffset := Some(sendQueue[0]), 0;
      sendQueue := sendQueue[1..];
      assert currentFrame.value[0..] == currentFrame.value;
    }

    /** push_back of poll_write. */
    method Enqueue(frame: Bytes, ghost payload: Bytes)
      requires WriteInv() && !writeClosed && sendQueueBytes < MAX_SEND_QUEUE_BYTES
      requires frame == FrameBytes(payload) && |payload| <= maxMessageSize
      modifies this`sendQueue, this`sendQueueBytes, this`chunks
      ensures WriteInv() && chunks == old(chunks) + [payload] && sendQueue == old(sendQueue) + [frame]
      ensures View() == old(View()).(frames := old(View()).frames + [FrameLen(|payload|)])
      ensures sendQueueBytes == old(sendQueueBytes) + FrameLen(|payload|)
    {
      hide FrameBytes, EncodeAll, Legal, WireBytes, ProtoLen, TotalLen, Concat;
      FrameBytesLen(payload);
      ProtoLenMonotone(|payload|, maxMessageSize);
      TotalLenSnoc(sendQueue, frame);
      LensSnoc(sendQueue, frame);
      ConcatSnoc(sendQueue, frame);
      EncodeAllSnoc(chunks, payload);
      assert send.Wire() + Backlog() + frame == send.Wire() + (Backlog() + frame);
      sendQueue := sendQueue + [frame];
      sendQueueBytes := sendQueueBytes + |frame|;
      chunks := chunks + [payload];
    }

    /** poll_write: take at most one message worth of bytes, unless the queue is full.  Bytes
        reported as written are queued whole; a failing call may have queued its bytes too. */
    method PollWrite(buf: Bytes) returns (r: WriteResult)
      requires WriteInv() && |buf| < TWO_64
      modifies this`responder, this`sendQueue, this`sendQueueBytes, this`currentFrame, this`currentFrameOffset,
               this`chunks, this`broken, send`script, send`capacity, send`trace, send`endAttempts
      ensures WriteInv()
      ensures (r, View()) == WriteLink(old(View()), old(writeClosed), |buf|, maxMessageSize)
      ensures r.Wrote? ==>
                && !old(writeClosed)
                && r.n == Min(|buf|, maxMessageSize)
                && chunks == old(chunks) + [buf[..r.n]]
                && broken == old(broken)
                && sendQueueBytes < 131072 + FrameLen(r.n)
                && (Drained() || send.capacity == 0)
      ensures !r.WriteFailed? ==> sendQueueBytes <= old(sendQueueBytes) + if r.Wrote? then FrameLen(r.n) else 0
      ensures old(writeClosed) ==> sendQueueBytes == old(sendQueueBytes)
      ensures r.WritePending? ==>
                && old(sendQueueBytes) >= sendQueueBytes >= 131072 && send.capacity == 0
                && chunks == old(chunks)
                && broken == old(broken)
      ensures Budget() <= old(Budget())
      ensures Clean(old(send.script)) ==> (r.WriteFailed? ==> old(writeClosed)) && Clean(send.script)
      ensures Rich(old(send.capacity), old(send.script), |old(Backlog())|) ==> r.Wrote? || old(writeClosed)
      ensures old(send.script) == [] ==>
                && send.script == []
                && send.capacity + |send.Wire()| == old(send.capacity + |send.Wire()|)
      ensures old(writeClosed) ==>
                r.WriteFailed? && send.trace == old(send.trace) && chunks == old(chunks) && broken == old(broken)
      ensures r.WriteFailed? && !old(writeClosed) ==> broken
      ensures send.endAttempts == old(send.endAttempts) && old(send.trace) <= send.trace
    {
      hide WireBytes, Legal, EncodeAll, ProtoLen, FrameLen, Concat, Pump, Total, Rich, Clean, Grants, Ended, Started,
           GrpcTransport.View, GrpcTransport.Budget, GrpcTransport.WriteInv;
      EmptyQueue();
      RichIsClean(send.capacity, send.script, |Backlog()|);
      if writeClosed {
        return WriteFailed;
      }
      var p := PollSendQueued();
      if p.Broken? {
        return WriteFailed;
      }
      QueueTotal();
      EmptyQueue();
      if sendQueueBytes >= MAX_SEND_QUEUE_BYTES {
        return WritePending;
      }
      var toWrite := Min(|buf|, maxMessageSize);
      var frame := EncodeGrpcMessage(buf[..toWrite]);
      Enqueue(frame, buf[..toWrite]);
      p := PollSendQueued();
      if p.Broken? {
        return WriteFailed;
      }
      r := Wrote(toWrite);
    }

    /** poll_flush. */
    method PollFlush() returns (r: Progress)
      requires WriteInv()
      modifies this`responder, this`sendQueue, this`sendQueueBytes, this`currentFrame, this`currentFrameOffset,
               this`broken, send`script, send`capacity, send`trace, send`endAttempts
      ensures WriteInv()
      ensures (r, View()) == Pump(old(View()))
      ensures r.Done? ==> Drained()
      ensures sendQueueBytes <= old(sendQueueBytes) && (Drained() ==> sendQueueBytes == 0)
      ensures r.Blocked? ==> !Drained() && send.capacity == 0
      ensures old(send.script) == [] ==>
                send.script == [] && send.capacity + |send.Wire()| == old(send.capacity + |send.Wire()|)
      ensures Budget() <= old(Budget())
      ensures Clean(old(send.script)) ==> !r.Broken? && Clean(send.script)
      ensures Rich(old(send.capacity), old(send.script), |old(Backlog())|) ==> r.Done?
      ensures broken == (old(broken) || r.Broken?)
      ensures send.endAttempts == old(send.endAttempts) && old(send.trace) <= send.trace
      ensures old(Drained()) ==> r.Done? && send.trace == old(send.trace)
    {
      r := PollSendQueued();
    }

    /** poll_shutdown: close the write side, drain, then end the response.  The end of the
        response is attempted at most once and only with everything handed over; a completed
        shutdown has attempted it unless an earlier, blocked one was drained by a flush. */
    method PollShutdown() returns (r: Progress)
      requires WriteInv()
      modifies this`responder, this`sendQueue, this`sendQueueBytes, this`currentFrame, this`currentFrameOffset,
               this`writeClosed, this`broken, send`script, send`capacity, send`trace, send`endAttempts
      ensures WriteInv() && writeClosed && old(send.trace) <= send.trace
      ensures (r, View()) == ShutLink(old(View()), old(writeClosed))
      ensures r.Done? ==> Drained()
      ensures sendQueueBytes <= old(sendQueueBytes) && (Drained() ==> sendQueueBytes == 0)
      ensures !r.Broken? ==> broken == old(broken)
      ensures old(broken) ==> broken
      ensures r.Blocked? ==> !Drained() && send.capacity == 0
      ensures old(send.script) == [] ==>
                send.script == [] && send.capacity + |send.Wire()| == old(send.capacity + |send.Wire()|)
      ensures Budget() <= old(Budget())
      ensures Clean(old(send.script)) ==> !r.Broken? && Clean(send.script)
      ensures Rich(old(send.capacity), old(send.script), |old(Backlog())|) ==> r.Done?
      ensures old(send.endAttempts) <= send.endAttempts <= 1
      ensures send.endAttempts > old(send.endAttempts) ==> Drained() && broken == old(broken)
      ensures send.endAttempts > old(send.endAttempts) && Clean(old(send.script)) ==> Ended(send.trace)
      ensures old(writeClosed && Drained()) ==> r.Done? && send.trace == old(send.trace)
      // with all handed over, it fails exactly when the end is refused while the peer is there
      ensures old(Drained() && !writeClosed) ==>
                r == if old(send.script) != [] && old(send.script)[0] == RefusedEnd(old(responder)) then Broken else Done
      ensures r.Done? ==> (send.endAttempts == 1 <==> old(send.endAttempts == 1 || !writeClosed || !Drained()))
    {
      hide EncodeAll, ProtoLen, TotalLen, Concat, WireBytes, Legal;
      if writeClosed && sendQueue == [] && currentFrame.None? {
        EmptyQueue();
        return Done;
      }
      writeClosed := true;
      r := PollFlush();
      if !r.Done? {
        return;
      }
      r := EndResponse();
    }

    /** The end of the response: trailers, or a trailers-only response if nothing was sent. */
    method EndResponse() returns (r: Progress)
      requires WriteInv() && writeClosed && Drained() && send.endAttempts == 0
      modifies send`script, send`trace, send`endAttempts
      ensures WriteInv() && send.endAttempts == 1 && old(send.trace) <= send.trace
      ensures (r, View()) == EndLink(old(View()))
      ensures r == if old(send.script) != [] && old(send.script)[0] == RefusedEnd(responder) then Broken else Done
      ensures old(send.script) == [] ==> send.script == []
      ensures send.Wire() == old(send.Wire()) && send.capacity == old(send.capacity)
      ensures Budget() <= old(Budget())
      ensures Clean(old(send.script)) ==> !r.Broken? && Clean(send.script) && Ended(send.trace)
    {
      hide EncodeAll, ProtoLen, TotalLen, Concat;
      assert send.script != [] ==> send.script[0] in send.script;
      var result: Outcome;
      match responder {
        case Open =>
          result := send.SendTrailers();
        case Unsent =>
          result := send.SendResponse(true);
      }
      r := if result.Accepted? || result.benign then Done else Broken;
    }
  }

  lemma {:induction false} WholeFrame(frame: Bytes, payload: Bytes)
    requires Inspect(frame) == Complete(payload, |frame|)
    ensures Payload(frame) == payload && Rest(frame) == []
  {
    hide Inspect;
    EmptyStream();
    assert frame[|frame|..] == [];
  }

  lemma {:induction false} RichIsClean(capacity: nat, script: seq<SendEvent>, need: nat)
    ensures Rich(capacity, script, need) ==> Clean(script)
  {
  }

  lemma {:induction false} CourseFacts(begun: bool, capacity: nat, script: seq<SendEvent>, left: nat, spare: nat)
    ensures var c := Course(begun, capacity, script, left);
            && (Clean(script) ==> !c.outcome.Broken? && Clean(c.script))
            && (Rich(capacity, script, left + spare) ==> c.outcome.Done? && Rich(c.capacity, c.script, spare))
            && (script == [] ==> c.script == [] && c.capacity + c.sent == capacity)
            && c.sent + c.capacity + Grants(c.script) <= capacity + Grants(script)
  {
    hide SendFrame;
    Funded(capacity, script, left);
    if Clean(script) {
      CleanNeverBreaks(capacity, script, left);
      assert script != [] ==> script[0] in script;
    }
    if Rich(capacity, script, left + spare) {
      RichIsClean(capacity, script, left + spare);
      assert script != [] ==> script[0] in script;
      RichSends(capacity, script, left, spare);
    }
    if script == [] {
      WithoutAnswers(capacity, left);
    }
  }

  lemma {:induction false} ConcatLen(parts: seq<Bytes>)
    ensures |Concat(parts)| == TotalLen(parts)
  {
    if parts != [] {
      ConcatLen(parts[1..]);
    }
  }

  /** The lengths of the frames. */
  ghost function Lens(frames: seq<Bytes>): seq<nat> {
    if frames == [] then [] else [|frames[0]|] + Lens(frames[1..])
  }

  lemma {:induction false} LensSnoc(frames: seq<Bytes>, f: Bytes)
    ensures Lens(frames + [f]) == Lens(frames) + [|f|]
  {
    if frames == [] {
      assert frames + [f] == [f];
    } else {
      LensSnoc(frames[1..], f);
      assert (frames + [f])[1..] == frames[1..] + [f];
    }
  }

  lemma {:induction false} LensTotal(frames: seq<Bytes>)
    ensures Total(Lens(frames)) == TotalLen(frames)
  {
    if frames != [] {
      LensTotal(frames[1..]);
      assert Lens(frames)[1..] == Lens(frames[1..]);
    }
  }
}
