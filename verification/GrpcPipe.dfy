/** Two transports joined by a network: what one end is told was written is what the other
    end reads, for every interleaving of calls, every capacity grant, every way the bytes are
    cut into DATA frames and every read size, up to the first failed HTTP/2 call. */
module GrpcPipe {
  import opened Bytes
  import opened GrpcCodec
  import opened GrpcStream
  import opened H2
  import opened GrpcSending
  import opened GrpcTunnel

  datatype Op =
    | Write(buf: Bytes, events: seq<SendEvent>)
    | Flush(events: seq<SendEvent>)
    | Shutdown(events: seq<SendEvent>)
    | Transfer(n: nat)         // the next n sent bytes arrive as one DATA frame
    | Finish                   // END_STREAM arrives after the trailers
    | Read(room: nat)

  /** The answers HTTP/2 has in store for an operation. */
  function EventsOf(op: Op): seq<SendEvent> {
    match op
    case Write(_, events) => events
    case Flush(events) => events
    case Shutdown(events) => events
    case _ => []
  }

  /** A bound on the queue after an operation: nothing is left behind a flush or shutdown that was
      granted more capacity than the queue needs, and a write adds its frame. */
  function NextLoad(op: Op, n: nat, load: nat): nat {
    if (op.Flush? || op.Shutdown?) && Generous(op.events, load) then 0
    else if op.Write? then load + FrameLen(n) else load
  }

  /** More capacity is granted than `load` bytes need. */
  predicate Generous(events: seq<SendEvent>, load: nat) {
    Rich(0, events, load)
  }

  /** A write takes one message or nothing: nothing once the write side is closed, and one message
      while the queue has room, or gets it by more capacity than the queue needs. */
  predicate Answered(op: Op, n: nat, closed: bool, load: nat, size: nat)
    requires op.Write?
  {
    && (n == 0 || n == Min(|op.buf|, size))
    && (closed ==> n == 0)
    && (!closed && (load < 131072 || Generous(op.events, load)) ==> n == Min(|op.buf|, size))
  }

  /** The sender's side of a run as a value: the link, whether the write side is closed, whether a
      call of HTTP/2 has failed, and the messages acknowledged. */
  datatype Sender = Sender(link: Link, closed: bool, failed: bool, acked: seq<Bytes>)

  const NEW_SENDER: Sender := Sender(Link(false, false, 0, [], [], 0, 0), false, false, [])

  /** One operation, and the count it reports. */
  function Next(s: Sender, op: Op, size: nat): (r: (Sender, nat))
    ensures op.Write? ==> r.1 <= |op.buf|
  {
    match op
    case Write(buf, events) =>
      var (w, l) := WriteLink(s.link.(script := events), s.closed, |buf|, size);
      (Sender(l, s.closed, s.failed || (w.WriteFailed? && !s.closed),
              if w.Wrote? then s.acked + [buf[..w.n]] else s.acked),
       if w.Wrote? then w.n else 0)
    case Flush(events) =>
      var (p, l) := Pump(s.link.(script := events));
      (Sender(l, s.closed, s.failed || p.Broken?, s.acked), 0)
    case Shutdown(events) =>
      var (p, l) := ShutLink(s.link.(script := events), s.closed);
      (Sender(l, true, s.failed || p.Broken?, s.acked), 0)
    case _ => (s, 0)
  }

  /** A whole run of operations, and the counts they report. */
  function After(ops: seq<Op>, size: nat): (Sender, seq<nat>) {
    if ops == [] then (NEW_SENDER, [])
    else
      var k := |ops| - 1;
      var (s, counts) := After(ops[..k], size);
      var (next, n) := Next(s, ops[k], size);
      (next, counts + [n])
  }

  lemma {:induction false} AfterSnoc(ops: seq<Op>, op: Op, size: nat)
    ensures var (s, counts) := After(ops, size);
            var (next, n) := Next(s, op, size);
            After(ops + [op], size) == (next, counts + [n])
  {
    hide Next;
    assert (ops + [op])[..|ops|] == ops;
  }

  /** What was acknowledged before has no bearing on what happens next. */
  lemma {:induction false} NextAcked(s: Sender, op: Op, size: nat)
    ensures var (plain, m) := Next(s.(acked := []), op, size);
            var (next, n) := Next(s, op, size);
            n == m && next == plain.(acked := s.acked + plain.acked)
  {
    hide Pump, Total;
  }

  lemma {:induction false} OneAnswer(buf: Bytes, events: seq<SendEvent>, r: WriteResult, closed: bool, load: nat, size: nat)
    requires closed <==> r.WriteFailed?
    requires r.Wrote? ==> r.n == Min(|buf|, size)
    requires r.WritePending? ==> load >= MAX_SEND_QUEUE_BYTES && !Generous(events, load)
    ensures Answered(Op.Write(buf, events), if r.Wrote? then r.n else 0, closed, load, size)
  {
    hide Rich;
  }

  class Pipe {
    const sender: GrpcTransport
    const receiver: GrpcTransport
    var moved: Bytes           // bytes that have left the sender's side
    var finished: bool
    var written: Bytes         // what poll_write reported
    var read: Bytes            // what poll_read returned
    var ended: bool            // poll_read returned end of stream
    var readError: bool
    var failed: bool           // an HTTP/2 call on the sender's side failed

    /** Messages the receiver accepts. */
    ghost predicate Small() {
      ProtoLen(sender.maxMessageSize) <= MAX_INBOUND_FRAME_LEN
    }

    /** The sender's side: what was acknowledged, what has left, whether it has ended. */
    ghost predicate SenderSide()
      reads this`written, this`moved, this`finished, this`failed, sender, sender.send
    {
      && sender.WriteInv()
      && (sender.broken ==> failed)
      && (!sender.broken ==> written == Concat(sender.chunks))
      && moved <= sender.send.Wire()
      && (finished ==> Ended(sender.send.trace) && moved == sender.send.Wire())
    }

    /** The receiver's side: the moved bytes are those received or about to be. */
    ghost predicate ReceiverSide()
      reads this`moved, this`finished, this`read, this`ended, this`readError, receiver, receiver.recv
    {
      && receiver.ReadInv()
      && DataIn(receiver.recv.history + receiver.recv.script) == moved
      && OnlyData(receiver.recv.history + receiver.recv.script, finished)
      && (finished ==> EndStream in receiver.recv.history + receiver.recv.script)
      && read == receiver.delivered
      && (receiver.readClosed ==> ended || readError)
      && (ended ==> receiver.readClosed && finished && receiver.recv.script == [] && read == Payload(moved))
    }

    ghost predicate Valid()
      reads this, sender, receiver, sender.send, receiver.recv
    {
      && sender != receiver
      && SenderSide()
      && ReceiverSide()
      && (readError && Small() ==> sender.broken)
    }

    constructor (sender: GrpcTransport, receiver: GrpcTransport)
      requires sender != receiver
      requires sender.WriteInv() && sender.chunks == [] && !sender.broken && sender.send.trace == []
      requires receiver.ReadInv() && receiver.delivered == [] && !receiver.readClosed
      requires receiver.recv.history == [] && receiver.recv.script == []
      ensures Valid() && this.sender == sender && this.receiver == receiver
      ensures written == [] && read == [] && !ended && !readError && !failed
    {
      this.sender, this.receiver := sender, receiver;
      moved, finished, written, read, ended, readError := [], false, [], [], false, false;
      failed := false;
    }

    /** Whatever has been read is a prefix of what was written; with acceptable messages it is
        all of it once the sender is drained and the receiver has nothing left to read. */
    lemma {:induction false} Integrity()
      requires sender != receiver && SenderSide() && ReceiverSide()
      requires !sender.broken && ProtoLen(sender.maxMessageSize) < TWO_32
      ensures read <= written
      ensures Small() ==> Inspect(Rest(receiver.recv.Received())).More?
      ensures Small() && sender.Drained() && moved == sender.send.Wire() ==> Payload(moved) == written && Rest(moved) == []
      ensures Small() && ended ==> read == written
    {
      hide Payload, Rest, Inspect, EncodeAll, Legal, ProtoLen;
      var received := receiver.recv.Received();
      DataInGrows(receiver.recv.history, receiver.recv.script);
      assert received <= moved <= EncodeAll(sender.chunks);
      forall i | 0 <= i < |sender.chunks| ensures ProtoLen(|sender.chunks[i]|) <= ProtoLen(sender.maxMessageSize) {
        ProtoLenMonotone(|sender.chunks[i]|, sender.maxMessageSize);
      }
      EncodedPrefix(received, sender.chunks);
      EncodedPrefix(moved, sender.chunks);
      receiver.Undelivered();
      assert read <= Payload(received);
    }

    /** The queue holds at most `load` bytes. */
    ghost predicate Within(load: nat)
      reads this`failed, sender`sendQueueBytes
    {
      !failed ==> sender.sendQueueBytes <= load
    }

    /** The sender's side as the pure model has it. */
    ghost function Now(acked: seq<Bytes>): Sender
      reads this`failed, sender, sender.send
    {
      Sender(sender.View(), sender.writeClosed, failed, acked)
    }

    /** Capacity spent and in hand. */
    ghost function Used(): nat
      reads sender.send`trace, sender.send`capacity
    {
      |sender.send.Wire()| + sender.send.capacity
    }

    method Write(buf: Bytes, events: seq<SendEvent>, ghost load: nat) returns (n: nat)
      requires SenderSide() && |buf| < TWO_64 && Within(load)
      modifies this`written, this`failed, sender, sender.send
      ensures SenderSide() && (old(sender.broken) ==> sender.broken) && n <= |buf| && written == old(written) + buf[..n]
      ensures Within(load + FrameLen(n)) && SenderKept(old(sender.send.trace))
      ensures Follows(Op.Write(buf, events), n, old(Now([])), old(sender.chunks))
      ensures sender.writeClosed == old(sender.writeClosed)
      ensures Used() <= old(Used()) + Grants(events)
      ensures failed ==> old(failed) || !Clean(events)
      ensures old(failed) ==> failed
      ensures !failed ==> Answered(Op.Write(buf, events), n, old(sender.writeClosed), load, sender.maxMessageSize)
    {
      hide Payload, Rest, DataIn, WireBytes, Ended, Legal, EncodeAll, ProtoLen, Rich, Clean, Grants, Concat, FrameLen,
           Pipe.SenderKept;
      hide GrpcTransport.ReadInv, GrpcTransport.WriteInv, GrpcTransport.View, WriteLink, Pump, ShutLink;
      Ready(load, events);
      if finished {
        sender.EndIsFinal();
      }
      var closed := sender.writeClosed;
      hide Answered;
      Answer(events);
      var r := sender.PollWrite(buf);
      failed := failed || (r.WriteFailed? && !closed);
      n := 0;
      if r.Wrote? {
        ConcatSnoc(old(sender.chunks), buf[..r.n]);
        written := written + buf[..r.n];
        n := r.n;
      }
      if !failed {
        OneAnswer(buf, events, r, closed, load, sender.maxMessageSize);
      }
      Kept(old(sender.send.trace));
    }

    method Flush(events: seq<SendEvent>, ghost load: nat)
      requires SenderSide() && Within(load)
      modifies this`failed, sender, sender.send
      ensures SenderSide() && (old(sender.broken) ==> sender.broken)
      ensures Within(NextLoad(Op.Flush(events), 0, load)) && SenderKept(old(sender.send.trace))
      ensures Follows(Op.Flush(events), 0, old(Now([])), old(sender.chunks))
      ensures sender.writeClosed == old(sender.writeClosed)
      ensures Used() <= old(Used()) + Grants(events)
      ensures failed ==> old(failed) || !Clean(events)
      ensures old(failed) ==> failed
      ensures !failed && Generous(events, load) ==> sender.Drained()
    {
      hide Payload, Rest, DataIn, WireBytes, Ended, Legal, EncodeAll, Rich, Clean, Grants;
      hide GrpcTransport.ReadInv, GrpcTransport.WriteInv, GrpcTransport.View, WriteLink, Pump, ShutLink;
      Ready(load, events);
      if finished {
        sender.EndIsFinal();
      }
      Answer(events);
      var r := sender.PollFlush();
      failed := failed || r.Broken?;
      Kept(old(sender.send.trace));
    }

    method Shutdown(events: seq<SendEvent>, ghost load: nat)
      requires SenderSide() && Within(load)
      modifies this`failed, sender, sender.send
      ensures SenderSide() && (old(sender.broken) ==> sender.broken)
      ensures Within(NextLoad(Op.Shutdown(events), 0, load)) && SenderKept(old(sender.send.trace))
      ensures Follows(Op.Shutdown(events), 0, old(Now([])), old(sender.chunks))
      ensures sender.writeClosed
      ensures Used() <= old(Used()) + Grants(events)
      ensures failed ==> old(failed) || !Clean(events)
      ensures old(failed) ==> failed
      ensures !failed && Generous(events, load) ==> sender.Drained()
      ensures !failed && Generous(events, load) && !old(sender.writeClosed) ==> Ended(sender.send.trace)
    {
      hide Payload, Rest, DataIn, WireBytes, Ended, Legal, EncodeAll, Rich, Clean, Grants;
      hide GrpcTransport.ReadInv, GrpcTransport.WriteInv, GrpcTransport.View, WriteLink, Pump, ShutLink;
      Ready(load, events);
      if finished {
        sender.EndIsFinal();
      }
      Answer(events);
      var r := sender.PollShutdown();
      failed := failed || r.Broken?;
      Kept(old(sender.send.trace));
    }

    /** The answers HTTP/2 will give to the next call. */
    method Answer(events: seq<SendEvent>)
      modifies sender.send`script
      ensures sender.send.script == events
      ensures sender.View() == old(sender.View()).(script := events)
    {
      sender.send.script := events;
    }

    /** The operation has brought the sender's side, and the count reported, to where the pure model
        says; as long as nothing fails, the messages queued are those acknowledged. */
    ghost predicate Follows(op: Op, n: nat, was: Sender, chunks: seq<Bytes>)
      reads this`failed, sender, sender.send
    {
      var (now, count) := Next(was, op, sender.maxMessageSize);
      && n == count && Now(now.acked) == now
      && (!failed ==> sender.chunks == chunks + now.acked)
    }

    /** The response only grows, and an ended one stays ended. */
    ghost predicate SenderKept(trace: seq<Sent>)
      reads sender.send`trace
    {
      trace <= sender.send.trace && (Ended(trace) ==> Ended(sender.send.trace))
    }

    lemma {:induction false} Kept(trace: seq<Sent>)
      requires sender.WriteInv() && trace <= sender.send.trace && Legal(trace)
      ensures SenderKept(trace) && WireBytes(trace) <= sender.send.Wire()
    {
      hide WireBytes;
      WireBytesGrow(trace, sender.send.trace);
      if Ended(trace) && |trace| < |sender.send.trace| {
        assert sender.send.trace[|trace| - 1] == trace[|trace| - 1];
      }
    }

    /** Enough capacity for the queue is enough for the backlog. */
    lemma {:induction false} Ready(load: nat, events: seq<SendEvent>)
      requires sender.WriteInv() && Within(load) && (sender.broken ==> failed)
      ensures Legal(sender.send.trace)
      ensures !failed ==> |sender.Backlog()| <= load && sender.sendQueueBytes <= load
      ensures !failed && Generous(events, load) ==> Rich(sender.send.capacity, events, |sender.Backlog()|)
      ensures Generous(events, load) ==> Clean(events)
      ensures !sender.writeClosed ==> sender.send.endAttempts == 0
    {
      hide EncodeAll, WireBytes, Legal;
      if !failed {
        sender.BacklogWithinQueue();
      }
    }

    /** Some more of the sent bytes arrive, cut anywhere. */
    method Transfer(n: nat)
      requires Valid()
      modifies this`moved, receiver.recv
      ensures Valid() && finished == old(finished)
      ensures n >= |sender.send.Wire()| - |old(moved)| ==> moved == sender.send.Wire()
    {
      hide Payload, Rest, Inspect, DataIn, EncodeAll, Legal, WireBytes;
      var wire := WireBytes(sender.send.trace);
      var chunk := wire[|moved|..][..Min(n, |wire| - |moved|)];
      if chunk != [] {
        Deliver(Data(chunk));
        moved := moved + chunk;
      }
    }

    /** END_STREAM follows the trailers once all data has arrived. */
    method Finish()
      requires Valid()
      modifies this`finished, receiver.recv
      ensures Valid()
      ensures Ended(sender.send.trace) && moved == sender.send.Wire() ==> finished
    {
      hide Payload, Rest, Inspect, DataIn, EncodeAll, Legal, WireBytes;
      var trace := sender.send.trace;
      if !finished && trace != [] && (trace[|trace| - 1].Trailers? || trace[|trace| - 1].TrailersOnly?) && moved == WireBytes(trace) {
        Deliver(EndStream);
        finished := true;
      }
    }

    method Deliver(e: RecvEvent)
      modifies receiver.recv`script
      ensures receiver.recv.history + receiver.recv.script == old(receiver.recv.history + receiver.recv.script) + [e]
      ensures DataIn(receiver.recv.history + receiver.recv.script) ==
              DataIn(old(receiver.recv.history + receiver.recv.script)) + if e.Data? then e.chunk else []
    {
      DataInSnoc(receiver.recv.history + receiver.recv.script, e);
      receiver.recv.script := receiver.recv.script + [e];
      assert receiver.recv.history + receiver.recv.script == old(receiver.recv.history + receiver.recv.script) + [e];
    }

    /** One poll_read; `more` tells whether it delivered anything. */
    method Read(room: nat) returns (more: bool)
      requires Valid() && ProtoLen(sender.maxMessageSize) < TWO_32
      modifies this`read, this`ended, this`readError, receiver, receiver.recv
      ensures Valid() && old(read) <= read
      ensures more <==> old(read) != read
      ensures !more && room > 0 && !sender.broken && Small() ==> read == Payload(moved) && (finished ==> ended)
      ensures finished == old(finished)
    {
      hide Payload, Rest, Inspect, DataIn, EncodeAll, Legal, WireBytes, Ending, ProtoLen, Pipe.SenderSide;
      var wasClosed := receiver.readClosed;
      var r := receiver.PollRead(room);
      assert receiver.recv.history + [] == receiver.recv.history;
      more := r.ReadReady? && r.bytes != [];
      if r.ReadReady? {
        read := read + r.bytes;
      }
      if !wasClosed && (!r.ReadReady? || receiver.readClosed) {
        EndingCases(receiver.recv.history, receiver.recv.script, finished);
        if r.ReadReady? {
          ended := true;
        } else if r.ReadFailed? {
          readError := true;
          if Small() && !sender.broken {
            NoReadError();
          }
        }
      }
    }

    /** Any operation, with the facts a run is made of. */
    method Apply(op: Op, ghost load: nat) returns (n: nat)
      requires Valid() && ProtoLen(sender.maxMessageSize) < TWO_32 && (op.Write? ==> |op.buf| < TWO_64)
      requires Within(load)
      modifies this, sender, sender.send, receiver, receiver.recv
      ensures Valid() && Within(NextLoad(op, n, load)) && SenderKept(old(sender.send.trace))
      ensures Follows(op, n, old(Now([])), old(sender.chunks))
      ensures op.Write? ==> n <= |op.buf|
      ensures written == old(written) + if op.Write? then op.buf[..n] else []
      ensures sender.writeClosed == (old(sender.writeClosed) || op.Shutdown?)
      ensures Used() <= old(Used()) + Grants(EventsOf(op))
      ensures failed ==> old(failed) || !Clean(EventsOf(op))
      ensures old(failed) ==> failed
      ensures !failed && op.Write? ==> Answered(op, n, old(sender.writeClosed), load, sender.maxMessageSize)
      ensures !failed && (op.Flush? || op.Shutdown?) && Generous(op.events, load) ==> sender.Drained()
      ensures !failed && op.Shutdown? && Generous(op.events, load) && !old(sender.writeClosed) ==> Ended(sender.send.trace)
    {
      hide ProtoLen, Pipe.SenderSide, Pipe.ReceiverSide, EncodeAll, Answered, Ended, Rich, Clean, Grants, WireBytes,
           WriteLink, Pump, ShutLink;
      NoGrants();
      n := 0;
      match op {
        case Write(buf, events) => n := Write(buf, events, load);
        case Flush(events) => Flush(events, load);
        case Shutdown(events) => Shutdown(events, load);
        case Transfer(n) => Transfer(n);
        case Finish => Finish();
        case Read(room) => var _ := Read(room);
      }
    }

    /** Read until nothing more comes. */
    method TakeAll()
      requires Valid() && ProtoLen(sender.maxMessageSize) < TWO_32 && moved == sender.send.Wire()
      modifies this`read, this`ended, this`readError, receiver, receiver.recv
      ensures Valid() && finished == old(finished)
      ensures !failed && Small() ==> read == Payload(moved) && (finished ==> ended)
    {
      hide Payload, Rest, Inspect, DataIn, EncodeAll, Legal, WireBytes, ProtoLen, GrpcTransport.ReadInv;
      var more := true;
      while more && !failed
        invariant Valid() && finished == old(finished)
        invariant !more && !failed && Small() ==> read == Payload(moved) && (finished ==> ended)
        decreases |written| - |read|, more
      {
        Integrity();
        more := Read(8192);
        Integrity();
      }
    }

    /** What is owed after one more operation. */
    lemma {:induction false} StepOwed(done: seq<Op>, counts: seq<nat>, op: Op, n: nat, before: seq<Sent>)
      requires Counted(done, counts) && Counted(done + [op], counts + [n])
      requires SenderSide() && !failed && SenderKept(before)
      requires AllOwed(done, counts, sender.maxMessageSize, Payload(WireBytes(before)), Small(), Ended(before))
      requires op.Write? ==> Answered(op, n, ShutBefore(done), Load(done, counts), sender.maxMessageSize)
      requires (op.Flush? || op.Shutdown?) && Generous(op.events, Load(done, counts)) ==>
                 sender.Drained() && written == Written(done, counts)
      requires op.Shutdown? && Generous(op.events, Load(done, counts)) && !ShutBefore(done) ==> Ended(sender.send.trace)
      ensures AllOwed(done + [op], counts + [n], sender.maxMessageSize, Payload(sender.send.Wire()), Small(),
                      Ended(sender.send.trace))
      ensures Settles(done + [op], counts + [n], |done|) ==> sender.Drained()
    {
      hide Written, Load, ShutBefore, Answered, Rich, Payload, WireBytes, EncodeAll, Ended, AllOwed, ProtoLen;
      var wire, was := sender.send.Wire(), WireBytes(before);
      WireBytesGrow(before, sender.send.trace);
      PayloadGrows(was, wire[|was|..]);
      assert wire == was + wire[|was|..];
      if sender.Drained() && Small() {
        DrainedPayload();
      }
      assert (done + [op])[..|done|] == done && (counts + [n])[..|done|] == counts;
      OwedSnoc(done, counts, op, n, sender.maxMessageSize, Payload(was), Payload(wire), Small(),
               Ended(before), Ended(sender.send.trace));
    }

    /** No more is read than was sent; an end that was seen was sent; a broken sender has failed. */
    lemma {:induction false} Bounds()
      requires Valid()
      ensures |read| <= |sender.send.Wire()|
      ensures ended ==> sender.writeClosed && Ended(sender.send.trace)
      ensures !failed ==> !sender.broken
    {
      hide Payload, Rest, DataIn, WireBytes, EncodeAll, Legal;
      receiver.Undelivered();
      DataInGrows(receiver.recv.history, receiver.recv.script);
      PayloadShorter(receiver.recv.Received());
    }

    /** All that was written is in the payload of a drained sender's wire. */
    lemma {:induction false} DrainedPayload()
      requires SenderSide() && !failed && sender.Drained() && Small()
      ensures Payload(sender.send.Wire()) == written
    {
      hide Payload, Rest, Inspect, EncodeAll, Legal, ProtoLen;
      sender.DrainedWire();
      forall i | 0 <= i < |sender.chunks| ensures ProtoLen(|sender.chunks[i]|) <= ProtoLen(sender.maxMessageSize) {
        ProtoLenMonotone(|sender.chunks[i]|, sender.maxMessageSize);
      }
      EncodedPrefix(sender.send.Wire(), sender.chunks);
    }

    /** All that was sent arrives, the end of the response behind it, and is read. */
    method Complete()
      requires Valid() && ProtoLen(sender.maxMessageSize) < TWO_32
      modifies this`moved, this`finished, this`read, this`ended, this`readError, receiver, receiver.recv
      ensures Valid() && moved == sender.send.Wire()
      ensures !failed && Small() ==> read == Payload(sender.send.Wire()) && (Ended(sender.send.trace) ==> ended)
    {
      hide Payload, Rest, Inspect, DataIn, EncodeAll, Legal, WireBytes, ProtoLen, Ended, Pipe.SenderSide,
           Pipe.ReceiverSide;
      Transfer(|WireBytes(sender.send.trace)|);
      Finish();
      TakeAll();
    }

    /** With acceptable messages and a working sender the stream never ends in an error. */
    lemma {:induction false} NoReadError()
      requires SenderSide() && ReceiverSide() && sender != receiver && !sender.broken && Small()
      ensures !Ending(receiver.recv.history).ReadFailed?
    {
      hide Payload, Rest, Inspect, DataIn, EncodeAll, Legal, WireBytes, Ending;
      assert receiver.recv.history + [] == receiver.recv.history;
      Integrity();
      EndingCases(receiver.recv.history, receiver.recv.script, finished);
    }
  }

  /** How a stream of DATA and END_STREAM can end. */
  lemma {:induction false} EndingCases(history: seq<RecvEvent>, script: seq<RecvEvent>, finished: bool)
    requires OnlyData(history + script, finished)
    ensures Ending(history).ReadReady? ==> Ending(history).bytes == [] && finished && script == []
    ensures history != [] ==> !history[|history| - 1].Idle?
    ensures Ending(history).ReadFailed? && Inspect(Rest(DataIn(history))).More? ==>
              finished && script == [] && Rest(DataIn(history)) != []
  {
    hide Inspect, Rest, DataIn;
    if history != [] {
      assert (history + script)[|history| - 1] == history[|history| - 1];
    }
    if !NoEndYet(history) {
      var i :| 0 <= i < |history| && !history[i].Data? && !history[i].Idle?;
      assert (history + script)[i] == history[i];
      assert i == |history + script| - 1;
      assert NormalEnd(history);
    }
  }

  /** Events on the receiving stream: DATA, then END_STREAM once it has been sent. */
  ghost predicate OnlyData(events: seq<RecvEvent>, finished: bool) {
    forall i :: 0 <= i < |events| ==> events[i].Data? || (events[i].EndStream? && finished && i == |events| - 1)
  }

  method NewTransport(messageSize: nat) returns (t: GrpcTransport)
    ensures fresh(t) && fresh(t.recv) && fresh(t.send)
    ensures t.ReadInv() && t.WriteInv()
    ensures t.delivered == [] && !t.readClosed && t.recv.history == [] && t.recv.script == []
    ensures t.chunks == [] && !t.broken && !t.writeClosed && t.sendQueueBytes == 0 && t.Drained()
    ensures t.send.trace == [] && t.send.script == [] && t.send.capacity == 0 && t.send.endAttempts == 0
    ensures t.maxMessageSize == EffectiveSize(messageSize)
  {
    var recv := new RecvStream();
    var send := new SendStream();
    t := new GrpcTransport(recv, send, messageSize);
  }

  /** One acknowledged count per operation. */
  ghost predicate Counted(ops: seq<Op>, counts: seq<nat>) {
    |counts| == |ops| && forall i :: 0 <= i < |ops| && ops[i].Write? ==> counts[i] <= |ops[i].buf|
  }

  /** The bytes the writes acknowledged, in order. */
  ghost function Written(ops: seq<Op>, counts: seq<nat>): Bytes
    requires Counted(ops, counts)
  {
    if ops == [] then []
    else
      var k := |ops| - 1;
      Written(ops[..k], counts[..k]) + if ops[k].Write? then ops[k].buf[..counts[k]] else []
  }

  lemma {:induction false} WrittenSnoc(ops: seq<Op>, counts: seq<nat>, op: Op, n: nat)
    requires Counted(ops, counts) && (op.Write? ==> n <= |op.buf|)
    ensures Counted(ops + [op], counts + [n])
    ensures Written(ops + [op], counts + [n]) == Written(ops, counts) + if op.Write? then op.buf[..n] else []
  {
    assert (ops + [op])[..|ops|] == ops && (counts + [n])[..|ops|] == counts;
  }

  /** A bound on the queue after the operations. */
  ghost function Load(ops: seq<Op>, counts: seq<nat>): nat
    requires |counts| == |ops|
  {
    if ops == [] then 0
    else
      var k := |ops| - 1;
      NextLoad(ops[k], counts[k], Load(ops[..k], counts[..k]))
  }

  lemma {:induction false} LoadSnoc(ops: seq<Op>, counts: seq<nat>, op: Op, n: nat)
    requires |counts| == |ops|
    ensures Load(ops + [op], counts + [n]) == NextLoad(op, n, Load(ops, counts))
  {
    hide NextLoad;
    assert (ops + [op])[..|ops|] == ops && (counts + [n])[..|ops|] == counts;
  }

  predicate ShutBefore(ops: seq<Op>) {
    exists op :: op in ops && op.Shutdown?
  }

  lemma {:induction false} ShutSnoc(ops: seq<Op>, op: Op)
    ensures ShutBefore(ops + [op]) <==> ShutBefore(ops) || op.Shutdown?
  {
    assert op in ops + [op];
    assert forall x :: x in ops ==> x in ops + [op];
  }

  /** The k-th operation empties the queue: it is a flush or a shutdown that is granted more
      capacity than the queue can need. */
  ghost predicate Settles(ops: seq<Op>, counts: seq<nat>, k: nat)
    requires |counts| == |ops| && k < |ops|
  {
    (ops[k].Flush? || ops[k].Shutdown?) && Generous(ops[k].events, Load(ops[..k], counts[..k]))
  }

  /** What the run owes for its k-th operation: a write is answered, everything written before an
      operation that settles is among `bytes`, and the first shutdown, if it settles, ends the
      response. */
  ghost predicate Owed(ops: seq<Op>, counts: seq<nat>, k: nat, size: nat, bytes: Bytes, small: bool, over: bool)
    requires Counted(ops, counts) && k < |ops|
  {
    && (ops[k].Write? ==> Answered(ops[k], counts[k], ShutBefore(ops[..k]), Load(ops[..k], counts[..k]), size))
    && (small && Settles(ops, counts, k) ==> Written(ops[..k], counts[..k]) <= bytes)
    && (Settles(ops, counts, k) && ops[k].Shutdown? && !ShutBefore(ops[..k]) ==> over)
  }

  ghost predicate AllOwed(ops: seq<Op>, counts: seq<nat>, size: nat, bytes: Bytes, small: bool, over: bool)
    requires Counted(ops, counts)
  {
    forall k :: 0 <= k < |ops| ==> Owed(ops, counts, k, size, bytes, small, over)
  }

  /** One more operation keeps what is owed for the earlier ones. */
  lemma {:induction false} OwedSnoc(ops: seq<Op>, counts: seq<nat>, op: Op, n: nat, size: nat,
                                    bytes: Bytes, more: Bytes, small: bool, over: bool, over': bool)
    requires Counted(ops, counts) && Counted(ops + [op], counts + [n])
    requires AllOwed(ops, counts, size, bytes, small, over)
    requires small ==> bytes <= more
    requires over ==> over'
    requires Owed(ops + [op], counts + [n], |ops|, size, more, small, over')
    ensures AllOwed(ops + [op], counts + [n], size, more, small, over')
  {
    hide Written, Load, ShutBefore, Answered, Rich;
    var ops', counts' := ops + [op], counts + [n];
    forall k | 0 <= k < |ops'| ensures Owed(ops', counts', k, size, more, small, over') {
      if k < |ops| {
        assert ops'[..k] == ops[..k] && counts'[..k] == counts[..k];
        assert Owed(ops, counts, k, size, bytes, small, over);
      }
    }
  }

  lemma {:induction false} NoGrants()
    ensures Grants([]) == 0
  {
  }

  /** All capacity that is ever granted. */
  ghost function AllGrants(ops: seq<Op>): nat {
    if ops == [] then 0 else AllGrants(ops[..|ops| - 1]) + Grants(EventsOf(ops[|ops| - 1]))
  }

  lemma {:induction false} GrantsSnoc(ops: seq<Op>, op: Op)
    ensures AllGrants(ops + [op]) == AllGrants(ops) + Grants(EventsOf(op))
  {
    hide Grants;
    assert (ops + [op])[..|ops|] == ops;
  }

  predicate AllClean(ops: seq<Op>) {
    forall op :: op in ops ==> Clean(EventsOf(op))
  }

  lemma {:induction false} CleanSnoc(ops: seq<Op>, op: Op)
    ensures AllClean(ops + [op]) <==> AllClean(ops) && Clean(EventsOf(op))
  {
    hide Clean;
    assert op in ops + [op];
    assert forall x :: x in ops ==> x in ops + [op];
  }

  /** All that fails in a run is an end the peer is not there for any more. */
  predicate MildRun(ops: seq<Op>) {
    forall k :: 0 <= k < |ops| ==> Mild(EventsOf(ops[k]), Unwritten(ops[..k + 1]))
  }

  predicate Unwritten(ops: seq<Op>) {
    forall op :: op in ops ==> !op.Write?
  }

  lemma {:induction false} MildNeverFails(ops: seq<Op>, size: nat)
    requires MildRun(ops)
    ensures !After(ops, size).0.failed
    ensures Unwritten(ops) ==> After(ops, size).0.link.frames == []
  {
    if ops != [] {
      var k := |ops| - 1;
      forall i | 0 <= i < k ensures Mild(EventsOf(ops[..k][i]), Unwritten(ops[..k][..i + 1])) {
        assert ops[..k][..i + 1] == ops[..i + 1];
      }
      MildNeverFails(ops[..k], size);
      assert ops[..k + 1] == ops && forall op :: op in ops[..k] ==> op in ops;
      MildNext(After(ops[..k], size).0, ops[k], size, Unwritten(ops));
    }
  }

  lemma {:induction false} MildWeaker(script: seq<SendEvent>, unwritten: bool, empty: bool)
    requires Mild(script, unwritten) && (unwritten ==> empty)
    ensures Mild(script, empty)
  {
  }

  lemma {:induction false} MildNext(s: Sender, op: Op, size: nat, unwritten: bool)
    requires !s.failed && Mild(EventsOf(op), unwritten)
    requires unwritten ==> !op.Write? && s.link.frames == []
    ensures !Next(s, op, size).0.failed
    ensures unwritten ==> Next(s, op, size).0.link.frames == []
  {
    hide Mild, PumpOne, Total;
    var l := s.link.(script := EventsOf(op));
    match op {
      case Write(buf, _) => MildWrite(l, s.closed, |buf|, size);
      case Flush(_) =>
        if !unwritten {
          MildPump(l);
        }
      case Shutdown(_) =>
        MildWeaker(l.script, unwritten, l.frames == []);
        MildShut(l, s.closed);
      case _ =>
    }
  }

  /** Everything a run of operations has brought about, at the sender's side. */
  ghost predicate Driven(pipe: Pipe, ops: seq<Op>, counts: seq<nat>)
    reads pipe, pipe.sender, pipe.receiver, pipe.sender.send, pipe.receiver.recv
  {
    && pipe.Valid()
    && Counted(ops, counts)
    && pipe.written == Written(ops, counts)
    && pipe.Within(Load(ops, counts))
    && pipe.sender.writeClosed == ShutBefore(ops)
    && pipe.Used() <= AllGrants(ops)
    && (pipe.failed ==> !AllClean(ops))
    && (!pipe.failed ==>
          AllOwed(ops, counts, pipe.sender.maxMessageSize, Payload(pipe.sender.send.Wire()), pipe.Small(),
                  Ended(pipe.sender.send.trace)))
  }

  /** The sender's side, the counts and the messages queued are those of the pure model. */
  ghost predicate Exact(pipe: Pipe, ops: seq<Op>, counts: seq<nat>)
    reads pipe`failed, pipe.sender, pipe.sender.send
  {
    var (s, cs) := After(ops, pipe.sender.maxMessageSize);
    counts == cs && pipe.Now(s.acked) == s && (!pipe.failed ==> pipe.sender.chunks == s.acked)
  }

  lemma {:induction false} ExactStep(pipe: Pipe, ops: seq<Op>, counts: seq<nat>, op: Op, n: nat, was: Sender, chunks: seq<Bytes>)
    requires After(ops, pipe.sender.maxMessageSize) == (was, counts)
    requires !was.failed ==> chunks == was.acked
    requires pipe.Follows(op, n, was.(acked := []), chunks)
    ensures Exact(pipe, ops + [op], counts + [n])
  {
    hide Next, After;
    AfterSnoc(ops, op, pipe.sender.maxMessageSize);
    NextAcked(was, op, pipe.sender.maxMessageSize);
    NextFailed(was, op, pipe.sender.maxMessageSize);
  }

  lemma {:induction false} NextFailed(s: Sender, op: Op, size: nat)
    ensures s.failed ==> Next(s, op, size).0.failed
  {
    hide Pump, Total, WriteLink, ShutLink;
  }

  lemma {:induction false} NothingDriven(pipe: Pipe)
    requires pipe.Valid() && pipe.written == [] && pipe.sender.chunks == [] && !pipe.sender.writeClosed && !pipe.failed
    requires pipe.sender.send.trace == [] && pipe.sender.send.capacity == 0
    requires pipe.sender.View() == NEW_SENDER.link
    ensures Driven(pipe, [], []) && Exact(pipe, [], [])
  {
  }

  /** A message size of zero selects the default. */
  function EffectiveSize(messageSize: nat): nat {
    if messageSize == 0 then DEFAULT_GRPC_MAX_MESSAGE_SIZE else messageSize
  }

  /** Two new transports, joined. */
  method NewPipe(messageSize: nat) returns (pipe: Pipe)
    ensures fresh(pipe) && fresh(pipe.sender) && fresh(pipe.sender.send)
    ensures fresh(pipe.receiver) && fresh(pipe.receiver.recv)
    ensures pipe.sender.maxMessageSize == EffectiveSize(messageSize)
    ensures Driven(pipe, [], []) && Exact(pipe, [], [])
  {
    hide Payload, Rest, Inspect, DataIn, EncodeAll, Legal, ProtoLen, GrpcTransport.ReadInv;
    var sender := NewTransport(messageSize);
    var receiver := NewTransport(messageSize);
    pipe := new Pipe(sender, receiver);
    NothingSent();
    NothingDriven(pipe);
  }

  method Drive(pipe: Pipe, ops: seq<Op>) returns (counts: seq<nat>)
    requires Driven(pipe, [], []) && Exact(pipe, [], [])
    requires ProtoLen(pipe.sender.maxMessageSize) < TWO_32
    requires forall i :: 0 <= i < |ops| && ops[i].Write? ==> |ops[i].buf| < TWO_64
    modifies pipe, pipe.sender, pipe.sender.send, pipe.receiver, pipe.receiver.recv
    ensures Driven(pipe, ops, counts) && Exact(pipe, ops, counts)
    ensures !pipe.failed && ops != [] && Settles(ops, counts, |ops| - 1) ==> pipe.sender.Drained()
  {
    hide ProtoLen, Driven, Exact, Settles;
    counts := [];
    for i := 0 to |ops|
      invariant Driven(pipe, ops[..i], counts) && Exact(pipe, ops[..i], counts) && |counts| == i
      invariant !pipe.failed && i > 0 && Settles(ops[..i], counts, i - 1) ==> pipe.sender.Drained()
    {
      var n := DriveOne(pipe, ops[..i], counts, ops[i]);
      assert ops[..i + 1] == ops[..i] + [ops[i]];
      counts := counts + [n];
    }
    assert ops[..|ops|] == ops;
  }

  method DriveOne(pipe: Pipe, ghost done: seq<Op>, ghost counts: seq<nat>, op: Op) returns (n: nat)
    requires Driven(pipe, done, counts) && Exact(pipe, done, counts)
    requires ProtoLen(pipe.sender.maxMessageSize) < TWO_32 && (op.Write? ==> |op.buf| < TWO_64)
    modifies pipe, pipe.sender, pipe.sender.send, pipe.receiver, pipe.receiver.recv
    ensures |counts| == |done| && Driven(pipe, done + [op], counts + [n]) && Exact(pipe, done + [op], counts + [n])
    ensures !pipe.failed && Settles(done + [op], counts + [n], |done|) ==> pipe.sender.Drained()
  {
    hide ProtoLen, Written, Load, ShutBefore, Answered, Rich, Clean, AllClean, Payload, WireBytes, EncodeAll, Ended,
         AllOwed, AllGrants, Grants, After, Next, NextLoad, Pipe.Follows, GrpcTransport.View;
    hide Pipe.SenderSide, Pipe.ReceiverSide, Concat;
    ghost var before := pipe.sender.send.trace;
    ghost var failedBefore := pipe.failed;
    ghost var load := Load(done, counts);
    ghost var was := pipe.Now(After(done, pipe.sender.maxMessageSize).0.acked);
    ghost var chunks := pipe.sender.chunks;
    n := pipe.Apply(op, load);
    ExactStep(pipe, done, counts, op, n, was, chunks);
    WrittenSnoc(done, counts, op, n);
    LoadSnoc(done, counts, op, n);
    ShutSnoc(done, op);
    CleanSnoc(done, op);
    GrantsSnoc(done, op);
    if !pipe.failed {
      pipe.StepOwed(done, counts, op, n, before);
    }
  }

  /** Every run: whatever the operations, and after the network has then delivered all that was
      sent and the receiver has taken it, the bytes read are a prefix of the bytes the writes
      acknowledged.  A run fails only on a failing answer of HTTP/2; otherwise each write is
      answered as its place in the run demands.  If the message size is one the receiver accepts, no
      read fails, everything written before a flush or shutdown with enough capacity is read, a
      drained sender has been read completely, and so has one whose end was seen; a shutdown with
      enough capacity is seen as the end. */
  method RunPipe(messageSize: nat, ops: seq<Op>)
    returns (counts: seq<nat>, read: Bytes, failed: bool, readError: bool, drained: bool, ended: bool)
    requires forall i :: 0 <= i < |ops| && ops[i].Write? ==> |ops[i].buf| < TWO_64
    requires ProtoLen(EffectiveSize(messageSize)) < TWO_32
    ensures Counted(ops, counts)
    // the run, exactly
    ensures var (s, cs) := After(ops, EffectiveSize(messageSize));
            && counts == cs && failed == s.failed && drained == (s.link.frames == [])
            && (!failed ==> s.link.sent <= |EncodeAll(s.acked)|)
            && (!failed && messageSize <= 262140 ==>
                  read == Payload(EncodeAll(s.acked)[..s.link.sent]) && ended == s.link.over)
    // and what it means
    ensures failed ==> !AllClean(ops)
    ensures MildRun(ops) ==> !failed
    ensures |read| <= AllGrants(ops)
    ensures ended ==> ShutBefore(ops)
    ensures !failed ==> read <= Written(ops, counts)
    ensures !failed && messageSize <= 262140 ==> !readError
    ensures !failed && messageSize <= 262140 && (drained || ended) ==> read == Written(ops, counts)
    ensures !failed ==>
              AllOwed(ops, counts, EffectiveSize(messageSize),
                      read, messageSize <= 262140, messageSize <= 262140 ==> ended)
    ensures !failed && ops != [] && Settles(ops, counts, |ops| - 1) ==> drained
  {
    hide Payload, Rest, Inspect, DataIn, EncodeAll, Legal, WireBytes, ProtoLen, Written, AllOwed, AllClean,
         AllGrants, Settles, Ended, Answered, Counted, After, Exact, MildRun;
    hide GrpcTransport.ReadInv, GrpcTransport.WriteInv, Pipe.SenderSide, Pipe.ReceiverSide, Load, ShutBefore;
    var pipe := NewPipe(messageSize);
    var sender := pipe.sender;
    counts := Drive(pipe, ops);
    pipe.Complete();
    if messageSize <= 262140 {
      DefaultIsSmall(messageSize);
    }
    pipe.Bounds();
    ExactOutcome(pipe, ops, counts);
    if MildRun(ops) {
      MildNeverFails(ops, sender.maxMessageSize);
    }
    if !pipe.failed {
      pipe.Integrity();
      OwedWeaken(ops, counts, sender.maxMessageSize, Payload(sender.send.Wire()), pipe.Small(),
                 Ended(sender.send.trace), pipe.read, messageSize <= 262140, messageSize <= 262140 ==> pipe.ended);
    }
    read, failed, readError, ended := pipe.read, pipe.failed, pipe.readError, pipe.ended;
    drained := sender.sendQueue == [] && sender.currentFrame.None?;
  }

  /** What the pure model says about the wire, the queue and the end of the response. */
  lemma {:induction false} ExactOutcome(pipe: Pipe, ops: seq<Op>, counts: seq<nat>)
    requires Exact(pipe, ops, counts) && pipe.Valid()
    ensures var (s, cs) := After(ops, pipe.sender.maxMessageSize);
            && counts == cs && pipe.failed == s.failed && s.link.over == Ended(pipe.sender.send.trace)
            && (pipe.sender.Drained() <==> s.link.frames == [])
            && (!pipe.failed ==>
                  s.link.sent <= |EncodeAll(s.acked)| && pipe.sender.send.Wire() == EncodeAll(s.acked)[..s.link.sent])
  {
    hide EncodeAll, WireBytes, Legal, Ended, After, Payload, Rest, DataIn, GrpcTransport.WriteInv, GrpcTransport.ReadInv;
    if !pipe.failed {
      pipe.sender.DrainedWire();
    }
  }

  lemma {:induction false} OwedWeaken(ops: seq<Op>, counts: seq<nat>, size: nat, bytes: Bytes, small: bool, over: bool,
                                      bytes': Bytes, small': bool, over': bool)
    requires Counted(ops, counts) && AllOwed(ops, counts, size, bytes, small, over)
    requires small' ==> small && bytes <= bytes'
    requires over ==> over'
    ensures AllOwed(ops, counts, size, bytes', small', over')
  {
    hide Written, Load, ShutBefore, Answered, Rich;
    forall k | 0 <= k < |ops| ensures Owed(ops, counts, k, size, bytes', small', over') {
      assert Owed(ops, counts, k, size, bytes, small, over);
    }
  }

  lemma {:induction false} DefaultIsSmall(messageSize: nat)
    requires messageSize <= 262140
    ensures ProtoLen(EffectiveSize(messageSize)) <= MAX_INBOUND_FRAME_LEN
  {
    var size := EffectiveSize(messageSize);
    ProtoLenMonotone(size, 262140);
    VarintLenIsLength(262140);
    VarintBytesBound3(262140);
  }

  /** A new transport that has accepted one byte and has no capacity to send it. */
  method OneByteQueued() returns (t: GrpcTransport)
    ensures fresh(t) && fresh(t.recv) && fresh(t.send)
    ensures t.WriteInv() && !t.broken && !t.writeClosed && !t.Drained()
    ensures EncodeAll(t.chunks) == FrameBytes([0x61])
    ensures t.send.script == [] && t.send.capacity == 0 && t.send.endAttempts == 0 && t.send.Wire() == []
  {
    hide GrpcTransport.ReadInv, GrpcTransport.WriteInv, FrameBytes, WireBytes, Rich, Grants, Legal, Ended;
    t := NewTransport(0);
    NothingSent();
    var w := t.PollWrite([0x61]);
    assert [0x61 as Byte][..1] == [0x61];
    assert t.chunks == [] + [[0x61]];
    EncodeAllSnoc([], [0x61]);
    assert EncodeAll([]) == [];
    t.DrainedWire();
  }

  /** A shutdown that blocks, a flush that drains and a second shutdown: all complete, and
      the response was never ended. */
  method SkippedTrailers() returns (first: Progress, flush: Progress, second: Progress, endAttempts: nat)
    ensures first.Blocked? && flush.Done? && second.Done? && endAttempts == 0
  {
    hide GrpcTransport.ReadInv, GrpcTransport.WriteInv, FrameBytes, WireBytes, EncodeAll, Rich, Grants, Legal, Ended;
    var t := OneByteQueued();
    FrameBytesLen([0x61]);
    first := t.PollShutdown();
    t.DrainedWire();
    t.send.capacity := |FrameBytes([0x61])| + 1;
    flush := t.PollFlush();
    t.DrainedWire();
    second := t.PollShutdown();
    endAttempts := t.send.endAttempts;
  }

  /** A failed send keeps the old offset: if the frame is sent after all, the bytes the failed
      call had already handed over are on the wire twice.  Nothing is repeated exactly when the
      headers are refused or the first answers fail, as can be told before the call. */
  method ResendAfterError(t: GrpcTransport) returns (first: Progress, second: Progress)
    requires t.WriteInv() && t.currentFrame.Some?
    modifies t, t.send
    ensures first.Broken? && second.Done? ==>
              var left := old(t.currentFrame.value[t.currentFrameOffset..]);
              var course := Course(old(t.responder).Open?, old(t.send.capacity), old(t.send.script), |left|);
              && course.outcome.Broken? && course.sent < |left|
              && t.send.Wire() == old(t.send.Wire()) + left[..course.sent] + left
              && (t.send.Wire() == old(t.send.Wire()) + left <==>
                    BreaksFirst(old(t.responder).Open?, old(t.send.capacity), old(t.send.script)))
  {
    hide WireBytes, Legal, EncodeAll, SendFrame, FailsFirst;
    ghost var left := t.currentFrame.value[t.currentFrameOffset..];
    BreaksCleanlyExactly(t.send.capacity, t.send.script, |left|);
    SentWithin(t.send.capacity, t.send.script, |left|);
    ghost var sent;
    first, sent := t.PollSendCurrentFrame();
    second := Done;
    if first.Broken? {
      ghost var all;
      SliceBehind(t.currentFrame.value, t.currentFrameOffset, 0, sent);
      assert left[0..sent] == left[..sent];
      second, all := t.PollSendCurrentFrame();
      if second.Done? {
        assert t.currentFrame.value[old(t.currentFrameOffset)..|t.currentFrame.value|] == left;
      }
    }
  }

  /** A new transport with one message queued and its frame up next. */
  method FrameUpNext(payload: Bytes) returns (t: GrpcTransport, frame: Bytes)
    requires |payload| <= DEFAULT_GRPC_MAX_MESSAGE_SIZE
    ensures fresh(t) && fresh(t.send) && frame == FrameBytes(payload)
    ensures t.currentFrame == Some(frame) && t.currentFrameOffset == 0
    ensures t.responder.Unsent? && t.send.trace == []
  {
    hide GrpcTransport.ReadInv, FrameBytes, WireBytes, EncodeAll;
    t := NewTransport(0);
    frame := FrameBytes(payload);
    t.Enqueue(frame, payload);
    t.PopFrame();
  }

  /** Three bytes of a frame go out, the stream reports an error, and the frame is sent again: its
      first three bytes are on the wire twice. */
  method RepeatedBytes() returns (first: Progress, second: Progress, wire: Bytes)
    ensures first.Broken? && second.Done?
    ensures var frame := FrameBytes([0x61]);
            |frame| > 3 && wire == frame[..3] + frame && wire != frame
  {
    hide GrpcTransport.ReadInv, GrpcTransport.WriteInv, FrameBytes, WireBytes, Legal, Started, Ended, SendFrame;
    var t, frame := FrameUpNext([0x61]);
    FrameBytesLen([0x61]);
    NothingSent();
    t.send.capacity, t.send.script := 3, [CapacityError];
    ThreeThenError(|frame|);
    ghost var sent;
    first, sent := t.PollSendCurrentFrame();
    t.send.capacity := |frame|;
    WithoutAnswers(|frame|, |frame|);
    second, sent := t.PollSendCurrentFrame();
    wire := WireBytes(t.send.trace);
    assert frame[0..3] == frame[..3] && frame[0..|frame|] == frame;
  }

  lemma {:induction false} NothingSent()
    ensures WireBytes([]) == [] && Legal([]) && !Started([]) && !Ended([])
  {
  }

  /** The same run through the calls of a user: a write fails after three bytes, a flush completes,
      and there are three bytes more on the wire than the one frame has. */
  method ResendByFlush() returns (first: WriteResult, second: Progress, sent: nat)
    ensures first.WriteFailed? && second.Done? && sent == |FrameBytes([0x61])| + 3
  {
    hide GrpcTransport.ReadInv, GrpcTransport.WriteInv, FrameBytes, WireBytes, Legal, Ended, EncodeAll, SendFrame;
    hide Rich, Clean, Grants, ProtoLen;
    var t := NewTransport(0);
    NothingSent();
    FrameBytesLen([0x61]);
    var n := |FrameBytes([0x61])|;
    t.send.capacity, t.send.script := 3, [CapacityError];
    ThreeThenError(n);
    WithoutAnswers(n, n);
    assert t.View() == Link(false, false, 3, [CapacityError], [], 0, 0);
    OneFrameQueued(Link(false, false, 3, [CapacityError], [], 0, 0), n);
    first := t.PollWrite([0x61]);
    assert t.View() == Link(true, false, 0, [], [n], 0, 3);
    t.send.capacity := n;
    assert t.View() == Link(true, false, n, [], [n], 0, 3);
    OneFrameLeft(Link(true, false, n, [], [n], 0, 3), n);
    second := t.PollFlush();
    sent := |WireBytes(t.send.trace)|;
  }

  lemma {:induction false} OneFrameQueued(l: Link, n: nat)
    requires l == Link(false, false, 3, [CapacityError], [], 0, 0)
    requires n == FrameLen(1) && SendFrame(3, [CapacityError], n) == Sending(Broken, 3, 0, [])
    ensures WriteLink(l, false, 1, DEFAULT_GRPC_MAX_MESSAGE_SIZE) == (WriteFailed, Link(true, false, 0, [], [n], 0, 3))
  {
    hide SendFrame;
    assert l.frames + [n] == [n];
  }

  lemma {:induction false} OneFrameLeft(l: Link, n: nat)
    requires l == Link(true, false, n, [], [n], 0, 3) && n > 0
    requires SendFrame(n, [], n) == Sending(Done, n, 0, [])
    ensures Pump(l) == (Done, Link(true, false, 0, [], [], 0, 3 + n))
  {
    hide SendFrame;
    assert [n][1..] == [];
  }

  lemma {:induction false} ThreeThenError(left: nat)
    requires left > 3
    ensures SendFrame(3, [CapacityError], left) == Sending(Broken, 3, 0, [])
  {
    assert SendFrame(0, [CapacityError], left - 3) == Sending(Broken, 0, 0, []);
  }
}
