/** One direction of the relay: read, write, flush, close, with a probe read behind a blocked
    write so that the end of the source is seen in time. */
module Relay {
  import opened Bytes
  import opened RelayStream

  /** poll_copy: direction complete, blocked, or an I/O error. */
  datatype CopyPoll = Finished | Waiting | Failed

  class DirectionalBuffer {
    const buf: array<Byte>
    var pos: nat
    var cap: nat
    var amt: nat
    var readDone: bool
    var shutdownDone: bool
    var flushOk: bool

    constructor (size: nat)
      ensures fresh(buf) && buf.Length == size
      ensures pos == 0 && cap == 0 && amt == 0 && !readDone && !shutdownDone && !flushOk
    {
      buf := new Byte[size];
      pos, cap, amt, readDone, shutdownDone, flushOk := 0, 0, 0, false, false, false;
    }

    /** is_drained: end of stream seen and every buffered byte handed to the writer. */
    predicate IsDrained()
      reads this`readDone, this`pos, this`cap
    {
      readDone && pos >= cap
    }

    /** What was read is what was written plus what is buffered; the count is exact; and the
        writer is closed only behind the true end of the source with nothing left unwritten. */
    ghost predicate Inv(reader: Stream, writer: Stream)
      reads this, buf, reader`source, reader`sawEnd, writer`sink, writer`closeCalled, writer`closeDone, writer`flushedLen
    {
      && pos <= cap <= buf.Length
      && reader.source == writer.sink + buf[pos..cap]
      && amt == |writer.sink|
      && (reader.sawEnd ==> readDone)
      && (buf.Length > 0 && readDone ==> reader.sawEnd)
      && (writer.closeCalled ==> IsDrained())
      && (shutdownDone ==> writer.closeCalled)
      && (shutdownDone <==> writer.closeDone)
      && writer.flushedLen <= |writer.sink|
    }

    ghost function Mark(reader: Stream, writer: Stream): Progress
      reads this, reader, writer
    {
      Progress(reader.source, writer.sink, readDone, writer.flushCount, writer.flushedLen,
               reader.readPolls, reader.readLaters, writer.writeLaters, writer.closeLaters,
               reader.readFaults, writer.writeFaults, reader.sawEnd, reader.endAt, writer.wroteAt, writer.flushedAt,
               writer.bothAt, reader.Stamped() && writer.Stamped())
    }

    /** Bytes only move forward, and a flush noted in this poll covers all earlier bytes. */
    ghost predicate Since(m: Progress, reader: Stream, writer: Stream)
      reads this, reader, writer
    {
      && m.sink <= writer.sink
      && (m.readDone ==> readDone && reader.source == m.source)
      && (flushOk ==> writer.flushCount > m.flushCount && writer.flushedLen >= |m.sink|)
      && m.flushCount <= writer.flushCount
      && m.flushedLen <= writer.flushedLen
      && m.readPolls <= reader.readPolls
      && m.readLaters <= reader.readLaters
      && m.writeLaters <= writer.writeLaters
      && m.closeLaters <= writer.closeLaters
    }

    /** What happened in this poll, and only that, bears its stamp. */
    ghost predicate Stamps(m: Progress, reader: Stream, writer: Stream)
      reads this`flushOk, this`readDone, reader, writer
    {
      && (m.sawEnd ==> reader.sawEnd)
      && (m.readDone ==> reader.sawEnd == m.sawEnd)
      && reader.endAt == (if readDone && !m.readDone then reader.tick else m.endAt)
      && writer.wroteAt == (if |writer.sink| > |m.sink| then writer.tick else m.wroteAt)
      && writer.flushedAt == (if flushOk then writer.tick else m.flushedAt)
      && (writer.bothAt == writer.tick || writer.bothAt == m.bothAt)
      && (m.stamped ==> reader.Stamped() && writer.Stamped())
    }

    /** A blocked poll waits for something: the writer while bytes are buffered (with the
        source probed as long as there is room), the source when there are none, and the
        close at the very end. */
    ghost predicate Blocked(m: Progress, reader: Stream, writer: Stream)
      reads this`pos, this`cap, this`readDone
      reads reader`readPolls, reader`readLaters, writer`writeLaters, writer`closeLaters
    {
      && (pos < cap ==> writer.writeLaters > m.writeLaters)
      && (pos < cap && !readDone ==> cap == buf.Length || reader.readPolls > m.readPolls)
      && (pos >= cap && !readDone ==> reader.readLaters > m.readLaters)
      && (pos >= cap && readDone ==> writer.closeLaters > m.closeLaters)
    }

    /** Once all is written, a flush of all of it has been asked for. */
    ghost predicate Tried(writer: Stream)
      reads this`pos, this`cap, writer`flushTried, writer`sink
    {
      pos >= cap ==> writer.flushTried == |writer.sink|
    }

    /** How often the two sides have answered "not yet". */
    ghost function Waits(reader: Stream, writer: Stream): nat
      reads reader`readLaters, writer`writeLaters, writer`closeLaters
    {
      reader.readLaters + writer.writeLaters + writer.closeLaters
    }

    /** No error on either side. */
    ghost predicate Unharmed(m: Progress, reader: Stream, writer: Stream)
      reads reader`readFaults, writer`writeFaults
    {
      reader.readFaults == m.readFaults && writer.writeFaults == m.writeFaults
    }

    /** poll_copy: as much progress as possible in one poll. */
    method PollCopy(reader: Stream, writer: Stream) returns (r: CopyPoll)
      requires reader != writer && Inv(reader, writer)
      modifies this`pos, this`cap, this`amt, this`readDone, this`shutdownDone, this`flushOk, buf
      modifies reader`readReplies, reader`source, reader`sawEnd, reader`readPolls, reader`asked, reader`readLaters,
               reader`readFaults, reader`endAt
      modifies writer`wroteAt, writer`flushedAt, writer`bothAt, writer`writeFaults, writer`writeReplies, writer`sink,
               writer`writeLaters, writer`offered, writer`flushReplies, writer`flushCount, writer`flushedLen,
               writer`flushTried,
               writer`closeReplies, writer`closeCalled, writer`closeLaters, writer`closeDone
      ensures Inv(reader, writer)
      ensures r.Finished? <==> shutdownDone
      ensures old(shutdownDone) ==> writer.sink == old(writer.sink)
      ensures !old(shutdownDone) ==> Since(old(Mark(reader, writer)), reader, writer)
      ensures old(writer.sink) <= writer.sink
      ensures old(writer.flushCount) <= writer.flushCount && old(writer.flushedLen) <= writer.flushedLen
      ensures !old(shutdownDone) && flushOk ==>
                writer.flushCount > old(writer.flushCount) && writer.flushedLen >= |old(writer.sink)|
      ensures !old(shutdownDone) ==> Stamps(old(Mark(reader, writer)), reader, writer)
      ensures old(shutdownDone) ==> unchanged(reader) && unchanged(writer)
      ensures old(shutdownDone) ==> shutdownDone
      ensures old(IsDrained()) ==> IsDrained() && writer.sink == old(writer.sink) && reader.sawEnd == old(reader.sawEnd)
      ensures r.Waiting? ==> Blocked(old(Mark(reader, writer)), reader, writer)
      ensures r.Failed? <==> !Unharmed(old(Mark(reader, writer)), reader, writer)
      ensures Waits(reader, writer) >= old(Waits(reader, writer))
      ensures r.Waiting? ==> Waits(reader, writer) > old(Waits(reader, writer))
      ensures !r.Failed? && old(Tried(writer)) ==> Tried(writer)
      ensures !old(IsDrained()) && IsDrained() ==> reader.endAt == reader.tick || writer.wroteAt == writer.tick
    {
      hide ReadMeasure;
      if shutdownDone {
        return Finished;
      }
      flushOk := false;
      r := Rounds(reader, writer, Mark(reader, writer));
    }

    /** The loop of poll_copy. */
    method Rounds(reader: Stream, writer: Stream, ghost m: Progress) returns (r: CopyPoll)
      requires reader != writer && Inv(reader, writer) && Since(m, reader, writer) && Stamps(m, reader, writer)
      requires Unharmed(m, reader, writer) && !shutdownDone
      modifies this`pos, this`cap, this`amt, this`readDone, this`shutdownDone, this`flushOk, buf
      modifies reader`readReplies, reader`source, reader`sawEnd, reader`readPolls, reader`asked, reader`readLaters,
               reader`readFaults, reader`endAt
      modifies writer`wroteAt, writer`flushedAt, writer`bothAt, writer`writeFaults, writer`writeReplies, writer`sink,
               writer`writeLaters, writer`offered, writer`flushReplies, writer`flushCount, writer`flushedLen,
               writer`flushTried, writer`closeReplies,
               writer`closeCalled, writer`closeLaters, writer`closeDone
      ensures Inv(reader, writer) && Since(m, reader, writer) && Stamps(m, reader, writer)
      ensures r.Finished? <==> shutdownDone
      ensures r.Waiting? ==> Blocked(m, reader, writer)
      ensures r.Failed? <==> !Unharmed(m, reader, writer)
      ensures !r.Failed? ==> Tried(writer)
    {
      hide ReadMeasure, DirectionalBuffer.Inv, DirectionalBuffer.Since, DirectionalBuffer.Stamps;
      hide DirectionalBuffer.Blocked, DirectionalBuffer.Unharmed;
      while true
        invariant Inv(reader, writer) && Since(m, reader, writer) && Stamps(m, reader, writer)
        invariant Unharmed(m, reader, writer) && !shutdownDone
        decreases !readDone, ReadMeasure(reader.readReplies)
      {
        Bounds(reader, writer);
        var stop := WriteBuffered(reader, writer, m);
        if stop.Some? {
          return stop.value;
        }
        stop := FlushAndClose(reader, writer, m);
        if stop.Some? {
          return stop.value;
        }
        stop := Refill(reader, writer, m);
        if stop.Some? {
          return stop.value;
        }
      }
    }

    lemma {:induction false} Bounds(reader: Stream, writer: Stream)
      requires Inv(reader, writer)
      ensures pos <= cap <= buf.Length
    {
    }

    /** Steps 2 and 3: flush if possible, and behind the end of the source close the writer. */
    method FlushAndClose(reader: Stream, writer: Stream, ghost m: Progress) returns (stop: Option<CopyPoll>)
      requires reader != writer && Unharmed(m, reader, writer) && Inv(reader, writer) && Since(m, reader, writer)
      requires Stamps(m, reader, writer) && !shutdownDone && pos == cap
      modifies this`shutdownDone, this`flushOk
      modifies writer`flushedAt, writer`bothAt, writer`writeFaults, writer`flushReplies, writer`flushCount,
               writer`flushedLen,
               writer`flushTried, writer`closeReplies, writer`closeCalled, writer`closeLaters, writer`closeDone
      ensures Inv(reader, writer) && Since(m, reader, writer) && Stamps(m, reader, writer)
      ensures stop.None? ==> !readDone
      ensures writer.flushTried == |writer.sink|
      ensures stop == Some(Finished) <==> shutdownDone
      ensures stop == Some(Waiting) ==> Blocked(m, reader, writer)
      ensures stop == Some(Failed) <==> !Unharmed(m, reader, writer)
    {
      hide DirectionalBuffer.Inv, DirectionalBuffer.Since, DirectionalBuffer.Stamps, DirectionalBuffer.Blocked;
      hide DirectionalBuffer.Unharmed;
      var ok := Flush(reader, writer, m);
      if !ok {
        return Some(Failed);
      }
      if !readDone {
        return None;
      }
      stop := Close(reader, writer, m);
    }

    /** Step 2: a flush that completes is noted, one that does not is left for later. */
    method Flush(reader: Stream, writer: Stream, ghost m: Progress) returns (ok: bool)
      requires reader != writer && Unharmed(m, reader, writer) && Inv(reader, writer) && Since(m, reader, writer)
      requires Stamps(m, reader, writer) && !shutdownDone
      modifies this`flushOk
      modifies writer`flushedAt, writer`bothAt, writer`writeFaults, writer`flushReplies, writer`flushCount,
               writer`flushedLen,
               writer`flushTried
      ensures Inv(reader, writer) && Since(m, reader, writer) && Stamps(m, reader, writer)
      ensures ok <==> Unharmed(m, reader, writer)
      ensures writer.flushTried == |writer.sink|
      ensures flushOk == (old(flushOk) || writer.flushCount > old(writer.flushCount))
    {
      var flushed := writer.PollFlush();
      if flushed.DoneNow? {
        flushOk := true;
      }
      ok := !flushed.DoneBroken?;
    }

    /** Step 3: behind the end of the source; an error of the close is ignored, as the peer may be
        gone already. */
    method Close(reader: Stream, writer: Stream, ghost m: Progress) returns (stop: Option<CopyPoll>)
      requires reader != writer && Unharmed(m, reader, writer) && Inv(reader, writer) && Since(m, reader, writer)
      requires Stamps(m, reader, writer) && !shutdownDone && pos == cap && readDone
      modifies this`shutdownDone, writer`closeReplies, writer`closeCalled, writer`closeLaters, writer`closeDone
      ensures Inv(reader, writer) && Since(m, reader, writer) && Stamps(m, reader, writer) && Unharmed(m, reader, writer)
      ensures stop == Some(if shutdownDone then Finished else Waiting)
      ensures stop == Some(Waiting) ==> Blocked(m, reader, writer)
    {
      var closed := writer.PollClose();
      if closed.DoneLater? {
        return Some(Waiting);
      }
      shutdownDone := true;
      stop := Some(Finished);
    }

    /** Step 1: write what is buffered; behind a blocked write, probe the source for its end. */
    method WriteBuffered(reader: Stream, writer: Stream, ghost m: Progress) returns (stop: Option<CopyPoll>)
      requires reader != writer && Unharmed(m, reader, writer) && Inv(reader, writer) && Since(m, reader, writer)
      requires Stamps(m, reader, writer) && !shutdownDone && pos <= cap
      modifies this`pos, this`cap, this`amt, this`readDone, buf
      modifies reader`readReplies, reader`source, reader`sawEnd, reader`readPolls, reader`asked, reader`readLaters,
               reader`readFaults, reader`endAt
      modifies writer`writeReplies, writer`sink, writer`writeLaters, writer`offered, writer`writeFaults,
               writer`wroteAt, writer`bothAt
      ensures Inv(reader, writer) && Since(m, reader, writer) && Stamps(m, reader, writer)
      ensures stop.None? ==> pos == cap && readDone == old(readDone) && reader.readReplies == old(reader.readReplies)
      ensures stop.Some? ==> !stop.value.Finished?
      ensures stop == Some(Waiting) ==> Blocked(m, reader, writer) && Tried(writer)
      ensures stop == Some(Failed) <==> !Unharmed(m, reader, writer)
    {
      hide DirectionalBuffer.Inv, DirectionalBuffer.Since, DirectionalBuffer.Stamps, DirectionalBuffer.Blocked;
      while pos < cap
        invariant pos <= cap
        invariant Inv(reader, writer) && Since(m, reader, writer) && Stamps(m, reader, writer) && Unharmed(m, reader, writer)
        invariant readDone == old(readDone) && reader.readReplies == old(reader.readReplies)
      {
        stop := WriteOnce(reader, writer, m);
        if stop.Some? {
          return;
        }
      }
      stop := None;
    }

    method WriteOnce(reader: Stream, writer: Stream, ghost m: Progress) returns (stop: Option<CopyPoll>)
      requires reader != writer && Unharmed(m, reader, writer) && Inv(reader, writer) && Since(m, reader, writer)
      requires Stamps(m, reader, writer) && !shutdownDone && pos < cap
      modifies this`pos, this`cap, this`amt, this`readDone, buf
      modifies reader`readReplies, reader`source, reader`sawEnd, reader`readPolls, reader`asked, reader`readLaters,
               reader`readFaults, reader`endAt
      modifies writer`writeReplies, writer`sink, writer`writeLaters, writer`offered, writer`writeFaults,
               writer`wroteAt, writer`bothAt
      ensures Inv(reader, writer) && Since(m, reader, writer) && Stamps(m, reader, writer)
      ensures stop.None? ==>
                old(pos) < pos <= cap && cap == old(cap) && readDone == old(readDone) && reader.readReplies == old(reader.readReplies)
      ensures stop.Some? ==> !stop.value.Finished?
      ensures stop == Some(Waiting) ==> Blocked(m, reader, writer) && Tried(writer)
      ensures stop == Some(Failed) <==> !Unharmed(m, reader, writer)
      // all that is buffered is offered
      ensures writer.offered == old(cap) - old(pos)
    {
      hide DirectionalBuffer.Blocked, ReadMeasure;
      ghost var buffered := buf[pos..cap];
      ghost var sink := writer.sink;
      var w := writer.PollWrite(buf[pos..cap]);
      match w {
        case Took(n) =>
          if n == 0 {
            return Some(Failed);
          }
          Moved(sink, buffered, n);
          assert buf[pos + n..cap] == buffered[n..];
          pos, amt := pos + n, amt + n;
          return None;
        case WriteBroken =>
          return Some(Failed);
        case WriteLater =>
          stop := Stalled(reader, writer, m);
      }
    }

    /** A blocked write: if there is room, the source is probed. */
    method Stalled(reader: Stream, writer: Stream, ghost m: Progress) returns (stop: Option<CopyPoll>)
      requires reader != writer && Unharmed(m, reader, writer) && Inv(reader, writer) && Since(m, reader, writer)
      requires Stamps(m, reader, writer) && !shutdownDone && pos < cap <= buf.Length && writer.writeLaters > m.writeLaters
      modifies this`cap, this`readDone, buf
      modifies reader`readReplies, reader`source, reader`sawEnd, reader`readPolls, reader`asked, reader`readLaters,
               reader`readFaults, reader`endAt
      ensures Inv(reader, writer) && Since(m, reader, writer) && Stamps(m, reader, writer)
      ensures stop == Some(Waiting) || stop == Some(Failed)
      ensures stop == Some(Waiting) ==> Blocked(m, reader, writer) && Tried(writer)
      ensures stop == Some(Failed) <==> !Unharmed(m, reader, writer)
    {
      hide DirectionalBuffer.Inv;
      stop := Some(Waiting);
      if !readDone && cap < buf.Length {
        var ok := Probe(reader, writer, m);
        if !ok {
          stop := Some(Failed);
        }
      }
    }

    /** The probe read of a blocked write, into the unused end of the buffer. */
    method Probe(reader: Stream, writer: Stream, ghost m: Progress) returns (ok: bool)
      requires reader != writer && Unharmed(m, reader, writer) && Inv(reader, writer) && Since(m, reader, writer)
      requires Stamps(m, reader, writer) && !shutdownDone
      requires !readDone && cap < buf.Length
      modifies this`cap, this`readDone, buf
      modifies reader`readReplies, reader`source, reader`sawEnd, reader`readPolls, reader`asked, reader`readLaters,
               reader`readFaults, reader`endAt
      ensures Inv(reader, writer) && Since(m, reader, writer) && Stamps(m, reader, writer)
      ensures reader.readPolls > old(reader.readPolls) && cap >= old(cap)
      ensures ok <==> Unharmed(m, reader, writer)
      ensures reader.asked == buf.Length - old(cap)
    {
      hide ReadMeasure;
      var r := reader.PollRead(buf.Length - cap);
      match r {
        case Arrived(data) =>
          if data == [] {
            readDone := true;
          } else {
            Append(data);
          }
          ok := true;
        case ReadBroken =>
          ok := false;
        case ReadLater =>
          ok := true;
      }
    }

    /** Step 4: refill the empty buffer from the source. */
    method Refill(reader: Stream, writer: Stream, ghost m: Progress) returns (stop: Option<CopyPoll>)
      requires reader != writer && Unharmed(m, reader, writer) && Inv(reader, writer) && Since(m, reader, writer)
      requires Stamps(m, reader, writer) && !shutdownDone
      requires !readDone && pos == cap && Tried(writer)
      modifies this`pos, this`cap, this`readDone, buf
      modifies reader`readReplies, reader`source, reader`sawEnd, reader`readPolls, reader`asked, reader`readLaters,
               reader`readFaults, reader`endAt
      ensures Inv(reader, writer) && Since(m, reader, writer) && Stamps(m, reader, writer)
      ensures stop.None? ==> readDone || ReadMeasure(reader.readReplies) < ReadMeasure(old(reader.readReplies))
      ensures stop.Some? ==> !stop.value.Finished?
      ensures stop == Some(Waiting) ==> Blocked(m, reader, writer) && Tried(writer)
      ensures stop == Some(Failed) <==> !Unharmed(m, reader, writer)
      ensures reader.asked == buf.Length
    {
      var r := reader.PollRead(buf.Length);
      match r {
        case Arrived(data) =>
          if data == [] {
            readDone := true;
          } else {
            Store(0, data);
            pos, cap := 0, |data|;
          }
          stop := None;
        case ReadBroken =>
          stop := Some(Failed);
        case ReadLater =>
          stop := Some(Waiting);
      }
    }

    /** Puts more bytes behind those that are buffered. */
    method Append(data: Bytes)
      requires pos <= cap && cap + |data| <= buf.Length
      modifies this`cap, buf
      ensures cap == old(cap) + |data|
      ensures buf[pos..cap] == old(buf[pos..cap]) + data
    {
      ghost var kept := buf[..cap];
      Store(cap, data);
      assert buf[pos..cap] == kept[pos..];
      assert buf[pos..cap + |data|] == buf[pos..cap] + buf[cap..cap + |data|];
      cap := cap + |data|;
    }

    method Store(at: nat, data: Bytes)
      requires at + |data| <= buf.Length
      modifies buf
      ensures buf[at..at + |data|] == data
      ensures buf[..at] == old(buf[..at])
    {
      forall i | 0 <= i < |data| {
        buf[at + i] := data[i];
      }
    }
  }

  lemma {:induction false} Moved(sink: Bytes, buffered: Bytes, n: nat)
    requires n <= |buffered|
    ensures (sink + buffered[..n]) + buffered[n..] == sink + buffered
  {
    assert buffered == buffered[..n] + buffered[n..];
  }

  /** The counters of one direction at some moment. */
  datatype Progress = Progress(source: Bytes, sink: Bytes, readDone: bool, flushCount: nat, flushedLen: nat,
                               readPolls: nat, readLaters: nat, writeLaters: nat, closeLaters: nat,
                               readFaults: nat, writeFaults: nat, sawEnd: bool, endAt: nat, wroteAt: nat, flushedAt: nat,
                               bothAt: nat, stamped: bool)
}
