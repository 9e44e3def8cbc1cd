/** The two ends of a relay as poll scripts: any reader, any writer. */
module RelayStream {
  import opened Bytes

  /** poll_read: data (none at all is end of stream), pending, or an error. */
  datatype ReadReply = Arrived(data: Bytes) | ReadLater | ReadBroken

  /** poll_write: bytes taken, pending, or an error. */
  datatype WriteReply = Took(n: nat) | WriteLater | WriteBroken

  /** poll_flush and poll_shutdown. */
  datatype DoneReply = DoneNow | DoneLater | DoneBroken

  /** What is left to read, counting replies and bytes. */
  function ReadMeasure(readReplies: seq<ReadReply>): nat {
    if readReplies == [] then 0
    else 1 + (if readReplies[0].Arrived? then |readReplies[0].data| else 0) + ReadMeasure(readReplies[1..])
  }

  class Stream {
    var readReplies: seq<ReadReply>
    var writeReplies: seq<WriteReply>
    var flushReplies: seq<DoneReply>
    var closeReplies: seq<DoneReply>

    ghost var source: Bytes      // bytes read from this end so far
    ghost var sawEnd: bool       // its end of stream was returned
    ghost var readPolls: nat
    ghost var asked: nat         // room of the last read
    ghost var readLaters: nat
    ghost var readFaults: nat
    ghost var endAt: nat         // last poll in which a read brought nothing

    ghost var sink: Bytes        // bytes this end has accepted
    ghost var writeLaters: nat
    ghost var offered: nat       // bytes offered in the last write
    ghost var flushCount: nat    // completed flushes
    ghost var flushedLen: nat    // bytes accepted before the last completed flush
    ghost var flushTried: nat    // bytes accepted before the last flush asked for
    ghost var closeCalled: bool
    ghost var closeLaters: nat
    ghost var closeDone: bool    // the close has been answered, well or not
    ghost var writeFaults: nat   // errors and zero writes, those of the close aside
    ghost var wroteAt: nat       // last poll in which bytes were accepted
    ghost var flushedAt: nat     // last poll in which a flush completed
    ghost var bothAt: nat        // last poll in which both happened

    ghost var tick: nat          // the poll under way, counted from 1 by the caller
    ghost var past: seq<nat>     // what bothAt was after each earlier poll, and before the first

    constructor (readReplies: seq<ReadReply>, writeReplies: seq<WriteReply>,
                 flushReplies: seq<DoneReply>, closeReplies: seq<DoneReply>)
      ensures source == [] && !sawEnd && sink == [] && !closeCalled && flushCount == 0 && flushedLen == 0
      ensures readFaults == 0 && writeFaults == 0 && !closeDone && flushTried == 0
      ensures tick == 0 && past == [] && endAt == 0 && wroteAt == 0 && flushedAt == 0 && bothAt == 0
    {
      this.readReplies, this.writeReplies := readReplies, writeReplies;
      this.flushReplies, this.closeReplies := flushReplies, closeReplies;
      source, sawEnd, readPolls, readLaters, readFaults := [], false, 0, 0, 0;
      sink, writeLaters, flushCount, flushedLen, closeCalled, closeLaters, writeFaults := [], 0, 0, 0, false, 0, 0;
      tick, endAt, wroteAt, flushedAt, bothAt, closeDone, past, flushTried := 0, 0, 0, 0, 0, false, [], 0;
      asked, offered := 0, 0;
    }

    /** The stamps are of polls so far, and the last one is right. */
    ghost predicate Stamped()
      reads this`tick, this`endAt, this`wroteAt, this`flushedAt, this`bothAt
    {
      && endAt <= tick && wroteAt <= tick && flushedAt <= tick && bothAt <= tick
      && (bothAt == tick <==> wroteAt == tick && flushedAt == tick)
    }

    /** All polls so far are remembered. */
    ghost predicate Remembers()
      reads this`tick, this`past
    {
      |past| == tick && forall k :: 0 <= k < |past| ==> past[k] <= k
    }

    /** A new poll of the caller. */
    ghost method NextPoll()
      requires Stamped() && Remembers()
      modifies this`tick, this`past
      ensures Stamped() && Remembers() && tick == old(tick) + 1 && past == old(past) + [bothAt]
      ensures endAt < tick && wroteAt < tick && flushedAt < tick && bothAt < tick
    {
      tick, past := tick + 1, past + [bothAt];
    }

    /** Read into `room` free bytes; a finished reader is not polled again. */
    method PollRead(room: nat) returns (r: ReadReply)
      requires !sawEnd
      modifies this`readReplies, this`source, this`sawEnd, this`readPolls, this`asked, this`readLaters, this`readFaults,
               this`endAt
      ensures r.Arrived? ==> |r.data| <= room
      ensures source == old(source) + if r.Arrived? then r.data else []
      ensures sawEnd <==> r == Arrived([]) && room > 0
      ensures readPolls == old(readPolls) + 1 && asked == room
      ensures readLaters == old(readLaters) + if r.ReadLater? then 1 else 0
      ensures readFaults == old(readFaults) + if r.ReadBroken? then 1 else 0
      ensures endAt == if r == Arrived([]) then tick else old(endAt)
      ensures old(Stamped()) ==> Stamped()
      ensures r.Arrived? && r.data != [] ==> ReadMeasure(readReplies) < ReadMeasure(old(readReplies))
    {
      readPolls, asked := readPolls + 1, room;
      if room == 0 {
        endAt := tick;
        return Arrived([]);
      }
      if readReplies == [] {
        readLaters := readLaters + 1;
        return ReadLater;
      }
      r := readReplies[0];
      if r.Arrived? && |r.data| > room {
        var left := Arrived(r.data[room..]);
        r := Arrived(r.data[..room]);
        readReplies := [left] + readReplies[1..];
        assert readReplies[1..] == old(readReplies)[1..];
      } else {
        readReplies := readReplies[1..];
      }
      if r.Arrived? {
        source := source + r.data;
        sawEnd := r.data == [];
        if sawEnd {
          endAt := tick;
        }
      } else if r.ReadLater? {
        readLaters := readLaters + 1;
      } else {
        readFaults := readFaults + 1;
      }
    }

    /** Offer some bytes; nothing is written once the close has begun. */
    method PollWrite(data: Bytes) returns (r: WriteReply)
      requires data != [] && !closeCalled
      modifies this`writeReplies, this`sink, this`writeLaters, this`offered, this`writeFaults, this`wroteAt, this`bothAt
      ensures r.Took? ==> r.n <= |data|
      ensures offered == |data|
      ensures sink == old(sink) + if r.Took? then data[..r.n] else []
      ensures writeLaters == old(writeLaters) + if r.WriteLater? then 1 else 0
      ensures writeFaults == old(writeFaults) + if r.WriteBroken? || r == Took(0) then 1 else 0
      ensures wroteAt == if r.Took? && r.n > 0 then tick else old(wroteAt)
      ensures bothAt == tick || bothAt == old(bothAt)
      ensures old(Stamped()) ==> Stamped()
    {
      offered := |data|;
      if writeReplies == [] {
        writeLaters := writeLaters + 1;
        return WriteLater;
      }
      r := writeReplies[0];
      writeReplies := writeReplies[1..];
      if r.Took? {
        r := Took(Min(r.n, |data|));
        sink := sink + data[..r.n];
      } else if r.WriteLater? {
        writeLaters := writeLaters + 1;
      }
      if r.WriteBroken? || r == Took(0) {
        writeFaults := writeFaults + 1;
      } else if r.Took? {
        wroteAt := tick;
        bothAt := if flushedAt == tick then tick else bothAt;
      }
    }

    method PollFlush() returns (r: DoneReply)
      modifies this`flushReplies, this`flushCount, this`flushedLen, this`flushTried, this`writeFaults, this`flushedAt,
               this`bothAt
      ensures flushCount == old(flushCount) + if r.DoneNow? then 1 else 0
      ensures flushedLen == if r.DoneNow? then |sink| else old(flushedLen)
      ensures flushTried == |sink|
      ensures writeFaults == old(writeFaults) + if r.DoneBroken? then 1 else 0
      ensures flushedAt == if r.DoneNow? then tick else old(flushedAt)
      ensures bothAt == tick || bothAt == old(bothAt)
      ensures old(Stamped()) ==> Stamped()
    {
      r, flushTried := DoneLater, |sink|;
      if flushReplies != [] {
        r := flushReplies[0];
        flushReplies := flushReplies[1..];
      }
      if r.DoneNow? {
        flushCount, flushedLen, flushedAt := flushCount + 1, |sink|, tick;
        bothAt := if wroteAt == tick then tick else bothAt;
      }
      if r.DoneBroken? {
        writeFaults := writeFaults + 1;
      }
    }

    method PollClose() returns (r: DoneReply)
      modifies this`closeReplies, this`closeCalled, this`closeLaters, this`closeDone
      ensures closeCalled && (closeDone <==> !r.DoneLater?)
      ensures closeLaters == old(closeLaters) + if r.DoneLater? then 1 else 0
    {
      closeCalled := true;
      r := DoneLater;
      if closeReplies != [] {
        r := closeReplies[0];
        closeReplies := closeReplies[1..];
      }
      closeDone := !r.DoneLater?;
      if r.DoneLater? {
        closeLaters := closeLaters + 1;
      }
    }
  }
}
