/** A byte stream over WebSocket messages. */
module WebSocket {
  import opened Bytes

  /** What the message stream yields.  `Other` is a text, ping or pong message, `Closed` the error
      that reports an orderly close, `Failure` any other error, `Finished` its end, and `NotYet` a
      poll that finds nothing. */
  datatype Message = Binary(data: Bytes) | Other | CloseFrame | Closed | Failure | Finished | NotYet

  datatype ReadPoll = ReadReady(data: Bytes) | ReadError | ReadPending

  predicate Ends(m: Message) {
    m.CloseFrame? || m.Closed? || m.Failure? || m.Finished?
  }

  /** The bytes of all binary messages before the first that ends the stream. */
  function UpToEnd(messages: seq<Message>): Bytes {
    if messages == [] || Ends(messages[0]) then []
    else (if messages[0].Binary? then messages[0].data else []) + UpToEnd(messages[1..])
  }

  /** The message that ends the stream. */
  function Ending(messages: seq<Message>): Option<Message> {
    if messages == [] then None
    else if Ends(messages[0]) then Some(messages[0])
    else Ending(messages[1..])
  }

  lemma {:induction false} FirstMessage(have: Bytes, messages: seq<Message>)
    requires messages != [] && !Ends(messages[0])
    ensures Ending(messages) == Ending(messages[1..])
    ensures messages[0].Binary? ==>
              have + UpToEnd(messages) == have + messages[0].data + UpToEnd(messages[1..])
    ensures !messages[0].Binary? || messages[0].data == [] ==> UpToEnd(messages) == UpToEnd(messages[1..])
  {
  }

  /** The bytes of the binary messages. */
  function BinaryData(messages: seq<Message>): Bytes {
    if messages == [] then []
    else (match messages[0] case Binary(data) => data case _ => []) + BinaryData(messages[1..])
  }

  /** Text, pings, pongs and polls that find nothing do not end a stream; a close message, an orderly
      close, a failure and the end do; and the stream is the binary messages before the first of those. */
  lemma {:induction false} StreamExactly(messages: seq<Message>, k: nat)
    requires k <= |messages|
    requires forall i :: 0 <= i < k ==> messages[i].Binary? || messages[i].Other? || messages[i].NotYet?
    requires k < |messages| ==>
               messages[k].CloseFrame? || messages[k].Closed? || messages[k].Failure? || messages[k].Finished?
    ensures UpToEnd(messages) == BinaryData(messages[..k])
    ensures Ending(messages) == if k < |messages| then Some(messages[k]) else None
  {
    if k > 0 {
      StreamExactly(messages[1..], k - 1);
      assert messages[1..][..k - 1] == messages[..k][1..];
    }
  }

  datatype SinkReply = SinkReady(startOk: bool) | SinkBusy | SinkBroken
  datatype FlushReply = Flushed | FlushClosed | FlushFailed | FlushBusy
  datatype WritePoll = WriteReady(n: nat) | WriteError | WritePending
  datatype DonePoll = DoneReady | DoneError | DonePending

  class WebSocketTransport {
    var readBuffer: Bytes
    var readPos: nat
    var readClosed: bool
    var writeClosed: bool

    /** Messages the peer has in store; none left means not yet. */
    var incoming: seq<Message>
    /** Messages handed to the sink. */
    var wire: seq<Message>

    ghost var delivered: Bytes
    ghost var accepted: Bytes
    ghost const promised: Bytes
    ghost const ending: Option<Message>

    /** with_early_data. */
    constructor (early: Bytes, incoming: seq<Message>)
      ensures ReadValid() && WriteValid()
      ensures promised == early + UpToEnd(incoming) && ending == Ending(incoming) && this.incoming == incoming
      ensures delivered == [] && accepted == [] && !readClosed && !writeClosed
    {
      readBuffer, readPos, readClosed, writeClosed := early, 0, false, false;
      this.incoming, wire := incoming, [];
      delivered, accepted := [], [];
      promised, ending := early + UpToEnd(incoming), Ending(incoming);
    }

    /** Delivered, buffered and still to come make up what was promised; nothing is buffered behind
        the end. */
    ghost predicate ReadValid()
      reads `readBuffer, `readPos, `readClosed, `incoming, `delivered
    {
      && readPos <= |readBuffer|
      && (readClosed ==> readPos == |readBuffer| && delivered == promised && ending.Some?)
      && (!readClosed ==> delivered + readBuffer[readPos..] + UpToEnd(incoming) == promised && Ending(incoming) == ending)
    }

    /** Every write is one binary message, and only a close message comes behind them. */
    ghost predicate WriteValid()
      reads `wire, `accepted, `writeClosed
    {
      && UpToEnd(wire) == accepted
      && (!writeClosed ==> Ending(wire) == None)
      && (forall i :: 0 <= i < |wire| ==> wire[i].Binary? || (wire[i].CloseFrame? && i == |wire| - 1 && writeClosed))
    }

    /** Copies from the buffered rest of a message. */
    method CopyBuffered(capacity: nat) returns (data: Bytes)
      requires ReadValid() && !readClosed && readPos < |readBuffer|
      modifies `readBuffer, `readPos, `delivered
      ensures ReadValid() && delivered == old(delivered) + data
      ensures data == old(readBuffer[readPos..])[..Min(|old(readBuffer[readPos..])|, capacity)]
    {
      hide UpToEnd, Ending;
      var toCopy := Min(|readBuffer| - readPos, capacity);
      ghost var left := readBuffer[readPos..];
      data := readBuffer[readPos..readPos + toCopy];
      TakeFront(delivered, left, data, toCopy);
      readPos, delivered := readPos + toCopy, delivered + data;
      assert readBuffer[readPos..] == left[toCopy..];
      if readPos >= |readBuffer| {
        readBuffer, readPos := [], 0;
      }
    }

    /** poll_read.  With room in the buffer, nothing read means the end, with every promised byte
        delivered; the first such result is clean exactly when the close was orderly. */
    method PollRead(capacity: nat) returns (r: ReadPoll)
      requires ReadValid()
      modifies `readBuffer, `readPos, `readClosed, `incoming, `delivered
      ensures ReadValid() && |incoming| <= |old(incoming)|
      ensures delivered == old(delivered) + (if r.ReadReady? then r.data else [])
      ensures r.ReadReady? ==> |r.data| <= capacity
      ensures capacity > 0 && r == ReadReady([]) ==> readClosed
      ensures !old(readClosed) && readClosed ==> r == (if ending == Some(Failure) then ReadError else ReadReady([]))
      ensures old(readClosed) ==> readClosed && r == ReadReady([])
      ensures r.ReadError? ==> !old(readClosed) && readClosed
      ensures incoming == old(incoming)[|old(incoming)| - |incoming|..]
      ensures !old(readClosed) && old(readPos) < |old(readBuffer)| ==>
                && r == ReadReady(old(readBuffer[readPos..])[..Min(|old(readBuffer[readPos..])|, capacity)])
                && incoming == old(incoming)
      ensures r.ReadPending? ==> !readClosed && old(readPos) == |old(readBuffer)| && readPos == |readBuffer|
      ensures r.ReadPending? && incoming != [] ==>
                |incoming| < |old(incoming)| && old(incoming)[|old(incoming)| - |incoming| - 1].NotYet?
    {
      hide UpToEnd, Ending;
      if readClosed {
        return ReadReady([]);
      }
      if readPos < |readBuffer| {
        var data := CopyBuffered(capacity);
        return ReadReady(data);
      }
      assert delivered + readBuffer[readPos..] == delivered;
      while incoming != []
        invariant ReadValid() && !readClosed && readPos == |readBuffer|
        invariant delivered == old(delivered)
        invariant readBuffer == old(readBuffer) && readPos == old(readPos)
        invariant |incoming| <= |old(incoming)| && incoming == old(incoming)[|old(incoming)| - |incoming|..]
        decreases |incoming|
      {
        var m := incoming[0];
        assert delivered + readBuffer[readPos..] == delivered;
        if Ends(m) {
          Over(incoming);
          incoming, readClosed := incoming[1..], true;
          return if m.Failure? then ReadError else ReadReady([]);
        }
        FirstMessage(delivered, incoming);
        incoming := incoming[1..];
        if m.NotYet? {
          return ReadPending;
        }
        if m.Binary? && m.data != [] {
          r := TakeMessage(m.data, capacity);
          return;
        }
      }
      return ReadPending;
    }

    /** Copies what fits of a new message and buffers the rest. */
    method TakeMessage(data: Bytes, capacity: nat) returns (r: ReadPoll)
      requires !readClosed && readPos == |readBuffer| && data != []
      requires delivered + data + UpToEnd(incoming) == promised && Ending(incoming) == ending
      modifies `readBuffer, `readPos, `delivered
      ensures ReadValid() && r.ReadReady?
      ensures delivered == old(delivered) + r.data
      ensures r.data == data[..Min(|data|, capacity)]
    {
      hide UpToEnd, Ending;
      var toCopy := Min(|data|, capacity);
      r := ReadReady(data[..toCopy]);
      assert delivered + data == (delivered + data[..toCopy]) + data[toCopy..];
      delivered := delivered + data[..toCopy];
      if toCopy < |data| {
        readBuffer, readPos := data[toCopy..], 0;
        assert readBuffer[readPos..] == data[toCopy..];
      } else {
        assert data[toCopy..] == [] && readBuffer[readPos..] == [];
      }
    }

    /** poll_write: a write is taken whole, as one message, or not at all. */
    method PollWrite(buf: Bytes, sink: SinkReply) returns (r: WritePoll)
      requires WriteValid()
      modifies `wire, `accepted
      ensures WriteValid()
      ensures accepted == old(accepted) + (if r.WriteReady? then buf else [])
      ensures r.WriteReady? <==> !writeClosed && !readClosed && sink == SinkReady(true)
      ensures r.WriteReady? ==> r.n == |buf|
      ensures r.WritePending? <==> !writeClosed && !readClosed && sink.SinkBusy?
    {
      if writeClosed || readClosed {
        return WriteError;
      }
      match sink {
        case SinkReady(startOk) =>
          if !startOk {
            return WriteError;
          }
          WireSnoc(wire, Binary(buf));
          wire, accepted := wire + [Binary(buf)], accepted + buf;
          r := WriteReady(|buf|);
        case SinkBroken => r := WriteError;
        case SinkBusy => r := WritePending;
      }
    }

    /** poll_flush: a flush that meets an orderly close has nothing left to do. */
    method PollFlush(flush: FlushReply) returns (r: DonePoll)
      ensures r.DoneReady? <==> flush.Flushed? || flush.FlushClosed?
      ensures r.DonePending? <==> flush.FlushBusy?
    {
      match flush
      case Flushed => r := DoneReady;
      case FlushClosed => r := DoneReady;
      case FlushFailed => r := DoneError;
      case FlushBusy => r := DonePending;
    }

    /** poll_shutdown: the close message is queued at most once, and never while the sink is full. */
    method PollShutdown(sink: SinkReply, flush: FlushReply) returns (r: DonePoll)
      requires WriteValid()
      modifies `wire, `writeClosed
      ensures WriteValid() && accepted == old(accepted)
      ensures writeClosed <==> old(writeClosed) || !sink.SinkBusy?
      ensures wire == old(wire) + (if !old(writeClosed) && sink == SinkReady(true) then [CloseFrame] else [])
      ensures r == if !writeClosed || flush.FlushBusy? then DonePending
                   else if flush.FlushFailed? then DoneError else DoneReady
    {
      if !writeClosed {
        if sink.SinkBusy? {
          return DonePending;
        }
        if sink == SinkReady(true) {
          WireSnoc(wire, CloseFrame);
          wire := wire + [CloseFrame];
        }
        writeClosed := true;
      }
      r := PollFlush(flush);
    }
  }

  lemma {:induction false} TakeFront(have: Bytes, left: Bytes, data: Bytes, n: nat)
    requires n <= |left| && data == left[..n]
    ensures have + left == (have + data) + left[n..]
  {
    assert left == left[..n] + left[n..];
  }

  lemma {:induction false} Over(messages: seq<Message>)
    requires messages != [] && Ends(messages[0])
    ensures UpToEnd(messages) == [] && Ending(messages) == Some(messages[0])
  {
  }

  lemma {:induction false} WireSnoc(wire: seq<Message>, m: Message)
    requires Ending(wire) == None
    ensures UpToEnd(wire + [m]) == UpToEnd(wire) + (if m.Binary? then m.data else [])
    ensures Ending(wire + [m]) == if Ends(m) then Some(m) else None
    decreases |wire|
  {
    if wire == [] {
      assert wire + [m] == [m];
      assert [m][1..] == [];
    } else {
      assert (wire + [m])[1..] == wire[1..] + [m];
      WireSnoc(wire[1..], m);
    }
  }

  /** Polls in store that find nothing. */
  function NotYets(messages: seq<Message>): nat {
    if messages == [] then 0 else (if messages[0].NotYet? then 1 else 0) + NotYets(messages[1..])
  }

  lemma {:induction false} NotYetsBehind(messages: seq<Message>, k: nat)
    requires k <= |messages|
    ensures NotYets(messages[k..]) + (if k > 0 && messages[k - 1].NotYet? then 1 else 0) <= NotYets(messages)
  {
    if k > 0 {
      assert messages[1..][k - 1..] == messages[k..];
      NotYetsBehind(messages[1..], k - 1);
    }
  }

  /** Reads until the stream ends, whatever the sizes asked for.  Every read brings a byte, the end,
      or a poll that found nothing. */
  method ReadAll(peer: WebSocketTransport, capacities: seq<nat>) returns (out: Bytes, last: ReadPoll)
    requires peer.ReadValid() && !peer.readClosed && peer.delivered == []
    requires forall c :: c in capacities ==> c > 0
    modifies peer
    ensures peer.ReadValid() && out == peer.delivered && out <= peer.promised
    ensures peer.readClosed ==> out == peer.promised
    ensures last == ReadReady([]) ==> peer.readClosed && peer.ending.Some? && !peer.ending.value.Failure?
    ensures last.ReadError? ==> peer.readClosed && peer.ending == Some(Failure)
    ensures peer.readClosed ==> last == if peer.ending == Some(Failure) then ReadError else ReadReady([])
    ensures !peer.readClosed ==> out == peer.promised || |capacities| <= |out| + NotYets(old(peer.incoming))
    ensures peer.ending.Some? && |capacities| > |peer.promised| + NotYets(old(peer.incoming)) ==> peer.readClosed
  {
    hide UpToEnd, Ending, NotYets;
    out, last := [], ReadPending;
    var i := 0;
    ghost var all := peer.incoming;
    ghost var found := NotYets(all);
    while i < |capacities| && !peer.readClosed
      invariant 0 <= i <= |capacities|
      invariant peer.ReadValid() && out == peer.delivered
      invariant last == ReadReady([]) || last.ReadError? ==> peer.readClosed
      invariant peer.readClosed ==> last == if peer.ending == Some(Failure) then ReadError else ReadReady([])
      invariant NotYets(peer.incoming) <= found
      invariant !peer.readClosed && peer.ending.Some? ==> i + NotYets(peer.incoming) <= |out| + found
      invariant !peer.readClosed ==> out == peer.promised || i + NotYets(peer.incoming) <= |out| + found
    {
      assert capacities[i] in capacities;
      ghost var before := peer.incoming;
      last := peer.PollRead(capacities[i]);
      NotYetsBehind(before, |before| - |peer.incoming|);
      out := out + (if last.ReadReady? then last.data else []);
      i := i + 1;
      Promised(peer);
    }
    Promised(peer);
  }

  lemma {:induction false} Promised(peer: WebSocketTransport)
    requires peer.ReadValid()
    ensures peer.delivered <= peer.promised
    ensures !peer.readClosed && peer.readPos == |peer.readBuffer| && peer.incoming == [] ==>
              peer.delivered == peer.promised && peer.ending.None?
  {
  }

  /** What one side writes is what the other side reads, however the reads are cut: a prefix at any
      time, all of it after as many reads as there are bytes, and one read later the end, if the
      writer has closed. */
  method Transfer(writer: WebSocketTransport, capacities: seq<nat>) returns (out: Bytes, last: ReadPoll)
    requires writer.WriteValid()
    requires forall c :: c in capacities ==> c > 0
    ensures out <= writer.accepted && !last.ReadError?
    ensures last == ReadReady([]) ==> out == writer.accepted && writer.writeClosed
    ensures |capacities| >= |writer.accepted| ==> out == writer.accepted
    ensures |capacities| > |writer.accepted| && CloseFrame in writer.wire ==> last == ReadReady([])
  {
    hide UpToEnd, Ending, NotYets;
    OnlyCloseEnds(writer.wire);
    var peer := new WebSocketTransport([], writer.wire);
    out, last := ReadAll(peer, capacities);
  }

  lemma {:induction false} OnlyCloseEnds(wire: seq<Message>)
    requires forall i :: 0 <= i < |wire| ==> wire[i].Binary? || wire[i].CloseFrame?
    ensures Ending(wire).Some? ==> Ending(wire) == Some(CloseFrame)
    ensures CloseFrame in wire ==> Ending(wire).Some?
    ensures NotYets(wire) == 0
  {
    if wire != [] {
      OnlyCloseEnds(wire[1..]);
    }
  }
}
