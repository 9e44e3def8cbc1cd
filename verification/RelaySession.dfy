/** The relay of both directions with its idle and half-close deadlines and incremental
    billing.  Time is a number; each poll sees one value of the clock. */
module RelaySession {
  import opened Bytes
  import opened RelayStream
  import opened Relay

  datatype Termination = Completed | HalfCloseTimeout | IdleTimeout

  datatype RelayPoll = Pending | Ready(termination: Termination) | Error

  /** Byte counts at the moments a direction reset the idle timer: all but the latest have
      been flushed since, and there are no more of them than completed flushes. */
  ghost predicate Credited(credits: seq<nat>, writer: Stream)
    reads writer`sink, writer`flushCount, writer`flushedLen
  {
    && |credits| <= writer.flushCount
    && (forall i :: 0 <= i < |credits| ==> credits[i] <= |writer.sink|)
    && (forall i :: 0 <= i < |credits| - 1 ==> credits[i] <= writer.flushedLen)
  }

  datatype Limits = Limits(idle: nat, downlinkOnly: nat, uplinkOnly: nat)

  /** A stream nothing has been read from or written to. */
  ghost predicate NewStream(s: Stream)
    reads s
  {
    && s.source == [] && !s.sawEnd && s.sink == [] && !s.closeCalled && !s.closeDone && s.flushedLen == 0
    && s.readFaults == 0 && s.writeFaults == 0
    && s.past == [] && s.flushTried == 0
    && s.tick == 0 && s.endAt == 0 && s.wroteAt == 0 && s.flushedAt == 0 && s.bothAt == 0
  }

  function Max(a: nat, b: nat): nat {
    if a < b then b else a
  }

  /** When the k-th poll was; the start stands for none. */
  function TimeOf(start: nat, polls: seq<nat>, k: nat): nat {
    if 0 < k <= |polls| then polls[k - 1] else start
  }

  lemma {:induction false} TimeStays(start: nat, polls: seq<nat>, now: nat, k: nat)
    requires k <= |polls|
    ensures TimeOf(start, polls + [now], k) == TimeOf(start, polls, k)
    ensures TimeOf(start, polls + [now], |polls| + 1) == now
  {
  }

  /** A half-close window: that of the direction drained first, counted from then or from the last
      credit. */
  predicate Fits(timeout: nat, from: nat, credit: nat, limits: Limits, up: bool, upTime: nat, down: bool, downTime: nat) {
    || (timeout == limits.downlinkOnly && up && (down ==> upTime <= downTime) && from == Max(upTime, credit))
    || (timeout == limits.uplinkOnly && down && (up ==> downTime <= upTime) && from == Max(downTime, credit))
  }

  /** The window, if there is one, is not over. */
  predicate Open(now: nat, credit: nat, limits: Limits, up: bool, upTime: nat, down: bool, downTime: nat) {
    up || down ==>
      || (up && (down ==> upTime <= downTime) && now < Max(upTime, credit) + limits.downlinkOnly)
      || (down && (up ==> downTime <= upTime) && now < Max(downTime, credit) + limits.uplinkOnly)
  }

  /** The window is over. */
  predicate Over(now: nat, credit: nat, limits: Limits, up: bool, upTime: nat, down: bool, downTime: nat) {
    || (up && (down ==> upTime <= downTime) && now >= Max(upTime, credit) + limits.downlinkOnly)
    || (down && (up ==> downTime <= upTime) && now >= Max(downTime, credit) + limits.uplinkOnly)
  }

  /** A run: its polls, the last poll credited to each writer after each of them, and the poll that
      drained each direction if one did. */
  datatype History = History(start: nat, polls: seq<nat>, aBoth: seq<nat>, bBoth: seq<nat>,
                             up: bool, upAt: nat, down: bool, downAt: nat)
  {
    ghost predicate Complete() {
      && |aBoth| == |bBoth| == |polls| + 1
      && (forall k :: 0 <= k < |aBoth| ==> aBoth[k] <= k)
      && (forall k :: 0 <= k < |bBoth| ==> bBoth[k] <= k)
      && upAt <= |polls| && downAt <= |polls|
    }

    /** Time of the last credit as of the k-th poll. */
    function Credit(k: nat): nat {
      if k < |aBoth| && k < |bBoth| then TimeOf(start, polls, Max(aBoth[k], bBoth[k])) else start
    }

    function UpTime(): nat {
      TimeOf(start, polls, upAt)
    }

    function DownTime(): nat {
      TimeOf(start, polls, downAt)
    }

    /** The k-th poll left the window open. */
    predicate OpenAt(k: nat, limits: Limits)
      requires 0 < k <= |polls|
    {
      Open(polls[k - 1], Credit(k), limits, up && upAt <= k, UpTime(), down && downAt <= k, DownTime())
    }

    /** The k-th poll found the window over. */
    predicate OverAt(k: nat, limits: Limits)
      requires 0 < k <= |polls|
    {
      Over(polls[k - 1], Credit(k), limits, up && upAt <= k, UpTime(), down && downAt <= k, DownTime())
    }

    /** The first n polls were before every deadline. */
    predicate AliveUntil(n: nat, limits: Limits) {
      n <= |polls| && Busy(n, limits.idle) && forall k :: 0 < k <= n ==> OpenAt(k, limits)
    }

    /** None of the first n polls was the idle timeout behind the last credit. */
    predicate Busy(n: nat, idle: nat) {
      n <= |polls| && forall k :: 0 < k <= n ==> polls[k - 1] < Credit(k) + idle
    }

    predicate Window(timeout: nat, from: nat, limits: Limits) {
      Fits(timeout, from, Credit(|polls|), limits, up, UpTime(), down, DownTime())
    }
  }

  /** One more poll: it may be credited and may drain a direction, and what was stays. */
  ghost predicate Extends(h: History, h': History, now: nat) {
    && h'.start == h.start && h'.polls == h.polls + [now]
    && |h'.aBoth| == |h.aBoth| + 1 && |h'.bBoth| == |h.bBoth| + 1 && h.aBoth <= h'.aBoth && h.bBoth <= h'.bBoth
    && (if h.up then h'.up && h'.upAt == h.upAt else h'.up ==> h'.upAt == |h'.polls|)
    && (if h.down then h'.down && h'.downAt == h.downAt else h'.down ==> h'.downAt == |h'.polls|)
  }

  lemma {:induction false} DrainTimesStay(h: History, h': History, now: nat)
    requires h.Complete() && Extends(h, h', now)
    ensures if h.up then h'.UpTime() == h.UpTime() else h'.up ==> h'.UpTime() == now
    ensures if h.down then h'.DownTime() == h.DownTime() else h'.down ==> h'.DownTime() == now
  {
    TimeStays(h.start, h.polls, now, h.upAt);
    TimeStays(h.start, h.polls, now, h.downAt);
  }

  lemma {:induction false} CreditStays(h: History, h': History, now: nat, k: nat)
    requires h.Complete() && Extends(h, h', now) && k <= |h.polls|
    ensures h'.Credit(k) == h.Credit(k)
  {
    assert h'.aBoth[k] == h.aBoth[k] && h'.bBoth[k] == h.bBoth[k];
    TimeStays(h.start, h.polls, now, Max(h.aBoth[k], h.bBoth[k]));
  }

  /** The credited time moves to this poll exactly when a direction has both stamps of it. */
  lemma {:induction false} CreditMoves(h: History, h': History, now: nat)
    requires h.Complete() && Extends(h, h', now)
    requires var n := |h.polls|;
             && (h'.aBoth[n + 1] == h.aBoth[n] || h'.aBoth[n + 1] == n + 1)
             && (h'.bBoth[n + 1] == h.bBoth[n] || h'.bBoth[n + 1] == n + 1)
    ensures var n := |h.polls|;
            h'.Credit(n + 1) == if h'.aBoth[n + 1] == n + 1 || h'.bBoth[n + 1] == n + 1 then now else h.Credit(n)
  {
    var n := |h.polls|;
    TimeStays(h.start, h.polls, now, Max(h.aBoth[n], h.bBoth[n]));
  }

  /** A further poll does not change what was. */
  lemma {:induction false} StaysAlive(h: History, h': History, now: nat, limits: Limits)
    requires h.Complete() && Extends(h, h', now) && h.AliveUntil(|h.polls|, limits)
    ensures h'.AliveUntil(|h.polls|, limits)
  {
    hide Open;
    forall k | 0 < k <= |h.polls|
      ensures h'.polls[k - 1] < h'.Credit(k) + limits.idle && h'.OpenAt(k, limits)
    {
      assert h.polls[k - 1] < h.Credit(k) + limits.idle && h.OpenAt(k, limits);
      CreditStays(h, h', now, k);
      OpenStays(h, h', now, limits, k);
    }
  }

  lemma {:induction false} OpenStays(h: History, h': History, now: nat, limits: Limits, k: nat)
    requires h.Complete() && Extends(h, h', now) && 0 < k <= |h.polls| && h.OpenAt(k, limits)
    requires h'.Credit(k) == h.Credit(k)
    ensures h'.OpenAt(k, limits)
  {
    hide TimeOf, Max;
    DrainTimesStay(h, h', now);
  }

  /** An open window moves with the credits and with nothing else. */
  lemma {:induction false} WindowStays(h: History, h': History, now: nat, limits: Limits, timeout: nat, from: nat, from': nat)
    requires h.Complete() && Extends(h, h', now) && h.Window(timeout, from, limits) && from <= now
    requires var credit, credit' := h.Credit(|h.polls|), h'.Credit(|h'.polls|);
             (from' == from && credit' == credit) || (from' == now && credit' == now)
    ensures h'.Window(timeout, from', limits)
  {
    hide TimeOf, History.Credit, History.UpTime, History.DownTime;
    DrainTimesStay(h, h', now);
  }

  /** A window opened by the poll that drained a direction counts from that poll. */
  lemma {:induction false} WindowOpens(h: History, h': History, now: nat, limits: Limits, timeout: nat)
    requires h.Complete() && Extends(h, h', now) && !h.up && !h.down && h'.Credit(|h'.polls|) <= now
    requires (timeout == limits.downlinkOnly && h'.up) || (timeout == limits.uplinkOnly && h'.down)
    ensures h'.Window(timeout, now, limits)
  {
    hide TimeOf, History.Credit, History.UpTime, History.DownTime;
    DrainTimesStay(h, h', now);
  }

  /** The window tells whether the last poll was in time. */
  lemma {:induction false} WindowTells(h: History, limits: Limits, timeout: nat, from: nat)
    requires h.Complete() && h.polls != [] && (h.up || h.down ==> h.Window(timeout, from, limits))
    ensures var n := |h.polls|;
            && (h.up || h.down ==> h.polls[n - 1] < from + timeout) ==> h.OpenAt(n, limits)
    ensures var n := |h.polls|;
            (h.up || h.down) && h.polls[n - 1] >= from + timeout ==> h.OverAt(n, limits)
  {
    hide TimeOf, History.Credit, History.UpTime, History.DownTime;
  }

  /** One direction in one poll of the relay. */
  method PollOne(d: DirectionalBuffer, reader: Stream, writer: Stream, ghost credits: seq<nat>) returns (ok: bool)
    requires reader != writer && d.Inv(reader, writer) && !d.shutdownDone && Credited(credits, writer)
    requires reader.Stamped() && writer.Stamped() && writer.wroteAt < writer.tick && writer.flushedAt < writer.tick
    modifies d`pos, d`cap, d`amt, d`readDone, d`shutdownDone, d`flushOk, d.buf
    modifies reader`readReplies, reader`source, reader`sawEnd, reader`readPolls, reader`asked, reader`readLaters,
             reader`readFaults, reader`endAt
    modifies writer`wroteAt, writer`flushedAt, writer`bothAt, writer`writeFaults, writer`writeReplies, writer`sink,
             writer`writeLaters, writer`offered, writer`flushReplies, writer`flushCount, writer`flushedLen,
             writer`flushTried, writer`closeReplies,
             writer`closeCalled, writer`closeLaters, writer`closeDone
    ensures d.Inv(reader, writer) && Credited(credits, writer) && reader.Stamped() && writer.Stamped()
    ensures Grown(d, reader, writer, old(WayOf(d, reader, writer)))
    ensures Progressed(d, writer, old(WayOf(d, reader, writer))) ==> Confirmable(credits, writer)
    ensures ok <==> Fine(reader, writer, old(WayOf(d, reader, writer)))
    ensures ok ==> Waited(d, reader, writer, old(WayOf(d, reader, writer)))
  {
    hide DirectionalBuffer.Inv, DirectionalBuffer.Blocked, DirectionalBuffer.Since;
    var r := d.PollCopy(reader, writer);
    ok := !r.Failed?;
  }

  /** A direction at some moment. */
  datatype Way = Way(sink: Bytes, flushes: nat, waits: nat, drained: bool, done: bool, readFaults: nat, writeFaults: nat,
                     endAt: nat, wroteAt: nat, bothAt: nat, tried: bool)

  ghost function WayOf(d: DirectionalBuffer, reader: Stream, writer: Stream): Way
    reads d`pos, d`cap, d`readDone, d`shutdownDone, reader`readLaters, reader`readFaults, reader`endAt
    reads writer`sink, writer`flushCount, writer`flushTried, writer`writeLaters, writer`closeLaters, writer`writeFaults,
          writer`wroteAt, writer`bothAt
  {
    Way(writer.sink, writer.flushCount, d.Waits(reader, writer), d.IsDrained(), d.shutdownDone,
        reader.readFaults, writer.writeFaults, reader.endAt, writer.wroteAt, writer.bothAt, d.Tried(writer))
  }

  /** It has both written and flushed since. */
  ghost predicate Progressed(d: DirectionalBuffer, writer: Stream, w: Way)
    reads d`flushOk, writer`sink
  {
    |writer.sink| > |w.sink| && d.flushOk
  }

  /** Output only grows, what is over stays over, flushed progress has a completed flush behind it,
      and it bears the stamp of this poll. */
  ghost predicate Grown(d: DirectionalBuffer, reader: Stream, writer: Stream, w: Way)
    reads d`pos, d`cap, d`readDone, d`shutdownDone, d`flushOk, reader`readLaters, reader`endAt, reader`tick
    reads writer`sink, writer`flushCount, writer`writeLaters, writer`closeLaters, writer`wroteAt, writer`bothAt,
          writer`tick
  {
    && w.sink <= writer.sink && w.flushes <= writer.flushCount && w.waits <= d.Waits(reader, writer)
    && (w.drained ==> d.IsDrained() && reader.endAt == w.endAt && writer.wroteAt == w.wroteAt)
    && (!w.drained && d.IsDrained() ==> reader.endAt == reader.tick || writer.wroteAt == writer.tick)
    && (w.done ==> d.shutdownDone)
    && (Progressed(d, writer, w) ==> writer.flushCount > w.flushes)
    && writer.bothAt == if Progressed(d, writer, w) then writer.tick else w.bothAt
  }

  /** Neither side has failed. */
  ghost predicate Fine(reader: Stream, writer: Stream, w: Way)
    reads reader`readFaults, writer`writeFaults
  {
    reader.readFaults == w.readFaults && writer.writeFaults == w.writeFaults
  }

  /** Unless it is complete, it has been polled until it had to wait; and a flush has been asked for
      once all was written. */
  ghost predicate Waited(d: DirectionalBuffer, reader: Stream, writer: Stream, w: Way)
    reads d`shutdownDone, d`pos, d`cap, reader`readLaters, writer`writeLaters, writer`closeLaters
    reads writer`flushTried, writer`sink
  {
    && (d.shutdownDone || d.Waits(reader, writer) > w.waits)
    && (w.tried ==> d.Tried(writer))
  }

  /** One direction's part of a poll of the relay. */
  ghost predicate Polled(d: DirectionalBuffer, reader: Stream, writer: Stream, credits: seq<nat>, w: Way, ok: bool)
    reads d`pos, d`cap, d`readDone, d`shutdownDone, d`flushOk, reader`readLaters, reader`readFaults, reader`endAt, reader`tick
    reads writer`sink, writer`flushCount, writer`flushedLen, writer`flushTried, writer`writeLaters, writer`closeLaters,
          writer`writeFaults, writer`wroteAt, writer`bothAt, writer`tick
  {
    && Grown(d, reader, writer, w)
    && (Progressed(d, writer, w) ==> Confirmable(credits, writer))
    && (ok <==> Fine(reader, writer, w))
    && (ok ==> Waited(d, reader, writer, w))
  }

  /** A direction that is left alone has not moved. */
  lemma {:induction false} StayedPut(d: DirectionalBuffer, reader: Stream, writer: Stream)
    ensures var w := WayOf(d, reader, writer);
            && Grown(d, reader, writer, w) && Fine(reader, writer, w) && !Progressed(d, writer, w)
            && (d.shutdownDone ==> Waited(d, reader, writer, w)) && w.sink == writer.sink
  {
  }

  lemma {:induction false} SinkGrows(d: DirectionalBuffer, reader: Stream, writer: Stream, w: Way)
    requires Grown(d, reader, writer, w)
    ensures w.sink <= writer.sink
  {
  }

  /** The relay at some moment. */
  datatype Moment = Moment(up: Way, down: Way, active: bool, timeout: nat, lastCredit: nat, lastHalf: nat,
                           creditsUp: seq<nat>, creditsDown: seq<nat>)

  class BidirectionalRelay {
    const a: Stream              // client
    const b: Stream              // remote
    const aToB: DirectionalBuffer
    const bToA: DirectionalBuffer
    const idleTimeout: nat
    const uplinkOnly: nat
    const downlinkOnly: nat
    const billed: bool

    var halfCloseActive: bool
    var halfCloseTimeout: nat
    var halfCloseDeadline: nat
    var idleDeadline: nat
    var reportedUp: nat
    var reportedDown: nat
    var recordedUp: nat          // total passed to record_upload
    var recordedDown: nat        // total passed to record_download

    ghost var start: nat
    ghost var polls: seq<nat>    // times of the polls
    ghost var clock: nat         // time of the latest poll
    ghost var lastCredit: nat    // start, or the latest credited progress
    ghost var lastHalf: nat      // arming of the half-close window, or credited progress since
    ghost var creditsUp: seq<nat>
    ghost var creditsDown: seq<nat>

    constructor (a: Stream, b: Stream, idleTimeout: nat, uplinkOnly: nat, downlinkOnly: nat,
                 bufferSize: nat, billed: bool, now: nat)
      requires a != b
      requires NewStream(a) && NewStream(b)
      ensures this.a == a && this.b == b && this.billed == billed && clock == now == lastCredit
      ensures this.idleTimeout == idleTimeout && this.uplinkOnly == uplinkOnly && this.downlinkOnly == downlinkOnly
      ensures fresh(aToB) && fresh(bToA) && fresh(aToB.buf) && fresh(bToA.buf)
      ensures aToB.buf.Length == bufferSize == bToA.buf.Length
      ensures Copying() && Suspended() && !halfCloseActive && polls == [] && start == now
    {
      this.a, this.b := a, b;
      aToB := new DirectionalBuffer(bufferSize);
      bToA := new DirectionalBuffer(bufferSize);
      this.idleTimeout, this.uplinkOnly, this.downlinkOnly, this.billed := idleTimeout, uplinkOnly, downlinkOnly, billed;
      halfCloseActive, halfCloseTimeout, halfCloseDeadline := false, 0, now;
      idleDeadline := now + idleTimeout;
      reportedUp, reportedDown, recordedUp, recordedDown := 0, 0, 0, 0;
      clock, lastCredit, lastHalf, creditsUp, creditsDown := now, now, now, [], [];
      start, polls := now, [];
    }

    /** Both directions are sound, nothing is billed twice or too early, and every credited
        reset is backed by flushes. */
    ghost predicate Copying()
      reads this`reportedUp, this`reportedDown, this`recordedUp, this`recordedDown, this`creditsUp, this`creditsDown
      reads a`source, a`sawEnd, a`sink, a`closeCalled, a`closeDone, a`flushCount, a`flushedLen
      reads b`source, b`sawEnd, b`sink, b`closeCalled, b`closeDone, b`flushCount, b`flushedLen
      reads aToB, aToB.buf, bToA, bToA.buf
    {
      && a != b && aToB != bToA && aToB.buf != bToA.buf
      && aToB.Inv(a, b) && bToA.Inv(b, a)
      && Billing()
      && Credited(creditsUp, b) && Credited(creditsDown, a)
    }

    lemma {:induction false} Counts()
      requires Copying()
      ensures a != b && aToB != bToA && aToB.buf != bToA.buf && aToB.amt == |b.sink| && bToA.amt == |a.sink|
      ensures aToB.shutdownDone ==> aToB.IsDrained()
      ensures bToA.shutdownDone ==> bToA.IsDrained()
    {
    }

    /** Nothing is lost, invented or reordered, and a writer is closed only behind a whole stream. */
    lemma {:induction false} Integrity()
      requires Copying()
      ensures b.sink <= a.source && a.sink <= b.source
      ensures b.closeCalled && aToB.buf.Length > 0 ==> a.sawEnd && b.sink == a.source
      ensures a.closeCalled && bToA.buf.Length > 0 ==> b.sawEnd && a.sink == b.source
      ensures aToB.amt == |b.sink| && bToA.amt == |a.sink|
      ensures aToB.shutdownDone ==> b.closeCalled
      ensures bToA.shutdownDone ==> a.closeCalled
      ensures !billed ==> recordedUp == 0 && recordedDown == 0
      ensures aToB.buf.Length > 0 ==> (aToB.readDone <==> a.sawEnd)
      ensures bToA.buf.Length > 0 ==> (bToA.readDone <==> b.sawEnd)
      ensures (aToB.shutdownDone <==> b.closeDone) && (bToA.shutdownDone <==> a.closeDone)
      ensures aToB.buf.Length > 0 ==> (aToB.IsDrained() <==> a.sawEnd && b.sink == a.source)
      ensures bToA.buf.Length > 0 ==> (bToA.IsDrained() <==> b.sawEnd && a.sink == b.source)
      ensures (b.sink == a.source ==> aToB.pos >= aToB.cap) && (a.sink == b.source ==> bToA.pos >= bToA.cap)
    {
    }

    ghost predicate Billing()
      reads this`reportedUp, this`reportedDown, this`recordedUp, this`recordedDown, a`sink, b`sink
    {
      if billed then recordedUp == reportedUp <= |b.sink| && recordedDown == reportedDown <= |a.sink|
      else recordedUp == 0 && recordedDown == 0
    }

    /** Everything accepted by a writer has been billed. */
    ghost predicate Settled()
      reads this`recordedUp, this`recordedDown, a`sink, b`sink
    {
      billed ==> recordedUp == |b.sink| && recordedDown == |a.sink|
    }

    /** The streams count the polls, and all of them were in time. */
    ghost predicate Ticking()
      reads `start, `polls, `clock, a, b
    {
      && a.tick == b.tick == |polls| && a.Stamped() && b.Stamped() && a.Remembers() && b.Remembers()
      && start <= clock && forall k :: 0 <= k < |polls| ==> start <= polls[k] <= clock
    }

    /** The run so far, as the streams have it. */
    ghost function Story(): History
      reads `start, `polls, a`past, a`bothAt, a`endAt, a`wroteAt, b`past, b`bothAt, b`endAt, b`wroteAt
      reads aToB`pos, aToB`cap, aToB`readDone, bToA`pos, bToA`cap, bToA`readDone
    {
      History(start, polls, a.past + [a.bothAt], b.past + [b.bothAt],
              aToB.IsDrained(), Max(a.endAt, b.wroteAt), bToA.IsDrained(), Max(b.endAt, a.wroteAt))
    }

    ghost function Times(): Limits {
      Limits(idleTimeout, downlinkOnly, uplinkOnly)
    }

    /** The last credit and the window are those of the run. */
    ghost predicate Timed()
      reads `lastCredit, `lastHalf, `halfCloseActive, `halfCloseTimeout
      reads `start, `polls, a`past, a`bothAt, a`endAt, a`wroteAt, b`past, b`bothAt, b`endAt, b`wroteAt
      reads aToB`pos, aToB`cap, aToB`readDone, bToA`pos, bToA`cap, bToA`readDone
    {
      && lastCredit == Story().Credit(|polls|)
      && (halfCloseActive ==> Story().Window(halfCloseTimeout, lastHalf, Times()))
    }

    /** Where the relay may be dropped: billing is exact, the half-close window is open exactly
        when a direction is drained, both deadlines count from the last event that set them, and all
        polls were before them. */
    ghost predicate Suspended()
      reads this, a, b, aToB, bToA
    {
      && Settled() && !(aToB.shutdownDone && bToA.shutdownDone) && aToB.Tried(b) && bToA.Tried(a)
      && (halfCloseActive <==> aToB.IsDrained() || bToA.IsDrained())
      && Deadlines() && Ticking() && Timed()
      && Story().AliveUntil(|polls|, Times())
    }

    ghost predicate Deadlines()
      reads `idleDeadline, `halfCloseDeadline, `halfCloseActive, `halfCloseTimeout, `lastCredit, `lastHalf, `clock
    {
      && idleDeadline == lastCredit + idleTimeout
      && lastCredit <= clock && lastHalf <= clock
      && (halfCloseActive ==>
            && halfCloseDeadline == lastHalf + halfCloseTimeout && halfCloseTimeout in {uplinkOnly, downlinkOnly}
            && lastCredit <= lastHalf)
    }

    ghost function Here(): Moment
      reads aToB`pos, aToB`cap, aToB`readDone, aToB`shutdownDone, bToA`pos, bToA`cap, bToA`readDone, bToA`shutdownDone
      reads a`readLaters, a`readFaults, a`endAt, a`sink, a`flushCount, a`flushTried, a`writeLaters, a`closeLaters,
            a`writeFaults,
            a`wroteAt, a`bothAt
      reads b`readLaters, b`readFaults, b`endAt, b`sink, b`flushCount, b`flushTried, b`writeLaters, b`closeLaters,
            b`writeFaults,
            b`wroteAt, b`bothAt
      reads `halfCloseActive, `halfCloseTimeout, `lastCredit, `lastHalf, `creditsUp, `creditsDown
    {
      Moment(WayOf(aToB, a, b), WayOf(bToA, b, a), halfCloseActive, halfCloseTimeout, lastCredit, lastHalf,
             creditsUp, creditsDown)
    }

    /** What one poll does to the streams; `ok` tells that none of them failed. */
    ghost predicate Copied(m: Moment, ok: bool)
      reads a, b, aToB, bToA
    {
      && Grown(aToB, a, b, m.up) && Grown(bToA, b, a, m.down)
      && (ok <==> Fine(a, b, m.up) && Fine(b, a, m.down))
      && (ok ==> Waited(aToB, a, b, m.up) && Waited(bToA, b, a, m.down))
    }

    /** A direction has both written and flushed. */
    ghost predicate Up(m: Moment)
      reads b`sink, aToB`flushOk
    {
      Progressed(aToB, b, m.up)
    }

    ghost predicate Down(m: Moment)
      reads a`sink, bToA`flushOk
    {
      Progressed(bToA, a, m.down)
    }

    /** What one poll does to streams and deadlines, and what its result means. */
    ghost predicate Advanced(m: Moment, now: nat, r: RelayPoll)
      reads this, a, b, aToB, bToA
    {
      Copied(m, !r.Error?) && (!r.Error? ==> Judged(m, now, r))
    }

    /** A timeout is returned by a poll that found its deadline over. */
    ghost predicate Verdict(r: RelayPoll)
      reads this, a, b, aToB, bToA
    {
      && |polls| > 0
      && (r == Ready(HalfCloseTimeout) ==> Story().OverAt(|polls|, Times()))
      && (r == Ready(IdleTimeout) ==> clock >= Story().Credit(|polls|) + idleTimeout && Story().OpenAt(|polls|, Times()))
    }

    /** Deadlines and result of a poll without an error. */
    ghost predicate Judged(m: Moment, now: nat, r: RelayPoll)
      reads this, a`sink, b`sink, aToB, bToA
    {
      Credits(m, now) && Ruled(now, r)
    }

    ghost predicate Credits(m: Moment, now: nat)
      reads this, a`sink, b`sink, aToB, bToA
    {
      // both deadlines restart exactly when a direction wrote and flushed in this poll
      && creditsUp == m.creditsUp + (if Up(m) then [|b.sink|] else [])
      && creditsDown == m.creditsDown + (if Down(m) then [|a.sink|] else [])
      && lastCredit == (if Up(m) || Down(m) then now else m.lastCredit)
      && (halfCloseActive ==> lastHalf == if Up(m) || Down(m) || !m.active then now else m.lastHalf)
      // the window: opened once, for the direction that drained first
      && (m.active ==> halfCloseActive && halfCloseTimeout == m.timeout)
      && (halfCloseActive && !m.active ==> RightWindow())
    }

    ghost predicate Ruled(now: nat, r: RelayPoll)
      reads `idleDeadline, `halfCloseActive, `halfCloseDeadline, aToB`shutdownDone, bToA`shutdownDone
    {
      // no poll is left pending at or past a live deadline
      && (r.Pending? ==> now < idleDeadline && (halfCloseActive ==> now < halfCloseDeadline))
      && (r == Ready(HalfCloseTimeout) ==> halfCloseActive && now >= halfCloseDeadline)
      && (r == Ready(IdleTimeout) ==> now >= idleDeadline && (halfCloseActive ==> now < halfCloseDeadline))
      // completion means both directions were closed behind their end of stream
      && (r == Ready(Completed) <==> aToB.shutdownDone && bToA.shutdownDone)
    }

    /** One poll of the relay future at time `now`. */
    method Poll(now: nat) returns (r: RelayPoll)
      requires Copying() && Suspended() && clock <= now
      modifies this, a, b, aToB, aToB.buf, bToA, bToA.buf
      ensures Copying() && clock == now && Advanced(old(Here()), now, r)
      ensures r.Pending? ==> Suspended()
      ensures !r.Error? ==> Settled() && Deadlines() && Timed() && aToB.Tried(b) && bToA.Tried(a)
      ensures Ticking() && polls == old(polls) + [now] && start == old(start)
      ensures Story().AliveUntil(|old(polls)|, Times()) && Verdict(r)
    {
      hide *;
      Counts();
      Parts();
      HereIs();
      ghost var m, h := Here(), Story();
      Begin(now);
      r := Step(now);
      Ticks();
      Carries(m, h, now, r);
      if r.Error? {
        NoVerdict(r);
        return;
      }
      InTheWindow(m, h, now, r);
      NotBoth(m, now, r);
      Ends(h, now, r);
      Whole();
    }

    /** Copying, then billing, credit and decision. */
    method Step(now: nat) returns (r: RelayPoll)
      requires Copying() && Deadlines() && clock == now && a.Stamped() && b.Stamped()
      requires a.wroteAt < a.tick && a.flushedAt < a.tick && b.wroteAt < b.tick && b.flushedAt < b.tick
      requires halfCloseActive ==> aToB.IsDrained() || bToA.IsDrained()
      modifies a, b, aToB, aToB.buf, bToA, bToA.buf
      modifies `halfCloseActive, `halfCloseTimeout, `halfCloseDeadline, `lastHalf, `idleDeadline, `lastCredit,
               `reportedUp, `reportedDown, `recordedUp, `recordedDown, `creditsUp, `creditsDown
      ensures Copying() && Advanced(old(Here()), now, r)
      ensures !r.Error? ==> Settled() && Deadlines()
      ensures !r.Error? && r != Ready(Completed) ==> (halfCloseActive <==> aToB.IsDrained() || bToA.IsDrained())
      ensures a.tick == old(a.tick) && b.tick == old(b.tick) && a.past == old(a.past) && b.past == old(b.past)
      ensures a.Stamped() && b.Stamped()
    {
      hide *;
      Counts();
      ghost var m := Here();
      HereIs();
      var aBytesBefore, bBytesBefore := aToB.amt, bToA.amt;
      var ok := PollBoth();
      r := Error;
      if ok {
        Counts();
        StaysDrained(m);
        r := Account(now, aBytesBefore, bBytesBefore, m);
      }
      Together(m, now, r);
    }

    lemma {:induction false} Together(m: Moment, now: nat, r: RelayPoll)
      ensures Copied(m, !r.Error?) && (!r.Error? ==> Judged(m, now, r)) ==> Advanced(m, now, r)
    {
    }

    lemma {:induction false} StaysDrained(m: Moment)
      requires Copied(m, true)
      ensures (m.up.drained ==> aToB.IsDrained()) && (m.down.drained ==> bToA.IsDrained())
    {
    }

    lemma {:induction false} HereIs()
      ensures Here().active == halfCloseActive && Here().timeout == halfCloseTimeout
      ensures Here().lastCredit == lastCredit && Here().lastHalf == lastHalf
      ensures Here().up == WayOf(aToB, a, b) && Here().down == WayOf(bToA, b, a)
      ensures Here().up.drained == aToB.IsDrained() && Here().down.drained == bToA.IsDrained()
      ensures Here().up.sink == b.sink && Here().down.sink == a.sink
      ensures Here().up.endAt == a.endAt && Here().up.wroteAt == b.wroteAt && Here().up.bothAt == b.bothAt
      ensures Here().down.endAt == b.endAt && Here().down.wroteAt == a.wroteAt && Here().down.bothAt == a.bothAt
      ensures Here().creditsUp == creditsUp && Here().creditsDown == creditsDown
    {
    }

    /** The moment and the run agree. */
    ghost predicate Matches(m: Moment, h: History) {
      && h.Complete()
      && h.up == m.up.drained && h.upAt == Max(m.up.endAt, m.up.wroteAt) && h.bBoth[|h.polls|] == m.up.bothAt
      && h.down == m.down.drained && h.downAt == Max(m.down.endAt, m.down.wroteAt) && h.aBoth[|h.polls|] == m.down.bothAt
    }

    /** A poll adds itself to the run. */
    lemma {:induction false} Carries(m: Moment, h: History, now: nat, r: RelayPoll)
      requires Ticking() && Matches(m, h) && Advanced(m, now, r)
      requires start == h.start && polls == h.polls + [now] && a.past == h.aBoth && b.past == h.bBoth
      requires h.AliveUntil(|h.polls|, Times())
      ensures Extends(h, Story(), now) && Story().Complete() && Story().AliveUntil(|h.polls|, Times())
      ensures Copied(m, !r.Error?) && (!r.Error? ==> Judged(m, now, r))
      ensures !r.Error? ==> (m.up.tried ==> aToB.Tried(b)) && (m.down.tried ==> bToA.Tried(a))
    {
      hide BidirectionalRelay.Judged, Fine, Progressed, History.AliveUntil, DirectionalBuffer.IsDrained,
           DirectionalBuffer.Waits, DirectionalBuffer.Tried;
      assert Extends(h, Story(), now);
      StaysAlive(h, Story(), now, Times());
    }

    /** After a poll the last credit and an open window are those of the run. */
    lemma {:induction false} InTheWindow(m: Moment, h: History, now: nat, r: RelayPoll)
      requires Ticking() && Matches(m, h) && Extends(h, Story(), now) && polls == h.polls + [now]
      requires a.past == h.aBoth && b.past == h.bBoth
      requires clock == now && Deadlines() && Copied(m, true) && Judged(m, now, r)
      requires m.lastCredit == h.Credit(|h.polls|) && m.lastHalf <= now
      requires m.active <==> h.up || h.down
      requires m.active ==> h.Window(m.timeout, m.lastHalf, Times())
      ensures Timed()
    {
      hide TimeOf, Max, Fits, Fine, Waited, Progressed, Extends, History.Credit, History.Window, BidirectionalRelay.Ruled,
           DirectionalBuffer.IsDrained, DirectionalBuffer.Waits;
      CreditMoves(h, Story(), now);
      if halfCloseActive {
        if m.active {
          WindowStays(h, Story(), now, Times(), halfCloseTimeout, m.lastHalf, lastHalf);
        } else {
          WindowOpens(h, Story(), now, Times(), halfCloseTimeout);
        }
      }
    }

    /** A poll that times out has found its deadline over, and one that is pending none. */
    lemma {:induction false} Ends(h: History, now: nat, r: RelayPoll)
      requires Timed() && Deadlines() && Ruled(now, r) && clock == now && polls == h.polls + [now]
      requires Story().Complete() && Story().AliveUntil(|h.polls|, Times())
      requires !r.Error? && r != Ready(Completed) ==> (halfCloseActive <==> aToB.IsDrained() || bToA.IsDrained())
      ensures !r.Error? ==> Verdict(r)
      ensures r.Pending? ==> Story().AliveUntil(|polls|, Times())
    {
      hide TimeOf, Max, History.Complete, History.Credit, History.Window, History.OpenAt, History.OverAt;
      if !r.Error? && r != Ready(Completed) {
        WindowTells(Story(), Times(), halfCloseTimeout, lastHalf);
      }
    }

    lemma {:induction false} NoVerdict(r: RelayPoll)
      requires r.Error? && polls != []
      ensures Verdict(r)
    {
    }

    /** What a suspended relay is made of. */
    lemma {:induction false} Parts()
      requires Suspended()
      ensures Deadlines() && Ticking() && Timed() && Story().AliveUntil(|polls|, Times())
      ensures lastCredit == Story().Credit(|polls|) && lastCredit <= clock && lastHalf <= clock
      ensures halfCloseActive <==> aToB.IsDrained() || bToA.IsDrained()
      ensures halfCloseActive ==> Story().Window(halfCloseTimeout, lastHalf, Times())
      ensures Matches(Here(), Story()) && Story().start == start && Story().polls == polls
      ensures Story().up == aToB.IsDrained() && Story().down == bToA.IsDrained()
      ensures Story().aBoth == a.past + [a.bothAt] && Story().bBoth == b.past + [b.bothAt]
      ensures Here().up.tried && Here().down.tried
    {
      hide TimeOf, Fits, History.Credit, History.Window, History.AliveUntil;
    }

    /** And the way back. */
    lemma {:induction false} Whole()
      ensures && Settled() && !(aToB.shutdownDone && bToA.shutdownDone) && aToB.Tried(b) && bToA.Tried(a)
              && (halfCloseActive <==> aToB.IsDrained() || bToA.IsDrained())
              && Deadlines() && Ticking() && Timed()
              && Story().AliveUntil(|polls|, Times())
              ==> Suspended()
    {
    }

    lemma {:induction false} NotBoth(m: Moment, now: nat, r: RelayPoll)
      requires Judged(m, now, r)
      ensures Ruled(now, r) && (r.Pending? ==> !(aToB.shutdownDone && bToA.shutdownDone))
    {
    }

    /** The streams' counts are those of the polls. */
    lemma {:induction false} Ticks()
      requires a.tick == b.tick == |polls| && a.Stamped() && b.Stamped() && |a.past| == |b.past| == |polls|
      requires (forall k :: 0 <= k < |a.past| ==> a.past[k] <= k) && (forall k :: 0 <= k < |b.past| ==> b.past[k] <= k)
      requires start <= clock && forall k :: 0 <= k < |polls| ==> start <= polls[k] <= clock
      ensures Ticking()
    {
    }

    /** The poll is counted, here and at the streams. */
    ghost method Begin(now: nat)
      requires a != b && Ticking() && Deadlines() && clock <= now
      modifies `clock, `polls, a`tick, a`past, b`tick, b`past
      ensures Ticking() && Deadlines() && clock == now && polls == old(polls) + [now]
      ensures a.tick == b.tick == |polls| && a.Stamped() && b.Stamped()
      ensures |a.past| == |b.past| == |polls| && a.past == old(a.past) + [a.bothAt] && b.past == old(b.past) + [b.bothAt]
      ensures (forall k :: 0 <= k < |a.past| ==> a.past[k] <= k) && (forall k :: 0 <= k < |b.past| ==> b.past[k] <= k)
      ensures start <= clock && forall k :: 0 <= k < |polls| ==> start <= polls[k] <= clock
      ensures a.endAt < a.tick && a.wroteAt < a.tick && a.flushedAt < a.tick && a.bothAt < a.tick
      ensures b.endAt < b.tick && b.wroteAt < b.tick && b.flushedAt < b.tick && b.bothAt < b.tick
    {
      clock, polls := now, polls + [now];
      a.NextPoll();
      b.NextPoll();
    }

    /** The second half of a poll: window, billing, credit, decision. */
    method Account(now: nat, aBytesBefore: nat, bBytesBefore: nat, ghost m: Moment) returns (r: RelayPoll)
      requires Copying() && Deadlines() && clock == now
      requires !halfCloseActive || aToB.IsDrained() || bToA.IsDrained()
      requires aBytesBefore == |m.up.sink| && bBytesBefore == |m.down.sink|
      requires Up(m) ==> Confirmable(creditsUp, b)
      requires Down(m) ==> Confirmable(creditsDown, a)
      requires m.active == halfCloseActive && m.timeout == halfCloseTimeout
      requires m.lastCredit == lastCredit && m.lastHalf == lastHalf
      requires m.creditsUp == creditsUp && m.creditsDown == creditsDown
      modifies `halfCloseActive, `halfCloseTimeout, `halfCloseDeadline, `lastHalf, `idleDeadline, `lastCredit,
               `reportedUp, `reportedDown, `recordedUp, `recordedDown, `creditsUp, `creditsDown
      ensures Copying() && clock == now && !r.Error? && Settled() && Deadlines()
      ensures !r.Error? && r != Ready(Completed) ==> (halfCloseActive <==> aToB.IsDrained() || bToA.IsDrained())
      ensures Judged(m, now, r)
    {
      hide Confirmable, BidirectionalRelay.Copying, BidirectionalRelay.Deadlines, BidirectionalRelay.Settled,
           DirectionalBuffer.IsDrained, BidirectionalRelay.Credits, BidirectionalRelay.Up, BidirectionalRelay.Down;
      Reckon(now, aBytesBefore, bBytesBefore, m);
      r := Decide(now);
    }

    /** Window, bill and deadlines of a poll without an error. */
    method Reckon(now: nat, aBytesBefore: nat, bBytesBefore: nat, ghost m: Moment)
      requires Copying() && Deadlines() && clock == now
      requires !halfCloseActive || aToB.IsDrained() || bToA.IsDrained()
      requires aBytesBefore == |m.up.sink| && bBytesBefore == |m.down.sink|
      requires Up(m) ==> Confirmable(creditsUp, b)
      requires Down(m) ==> Confirmable(creditsDown, a)
      requires m.active == halfCloseActive && m.timeout == halfCloseTimeout
      requires m.lastCredit == lastCredit && m.lastHalf == lastHalf
      requires m.creditsUp == creditsUp && m.creditsDown == creditsDown
      modifies `halfCloseActive, `halfCloseTimeout, `halfCloseDeadline, `lastHalf, `idleDeadline, `lastCredit,
               `reportedUp, `reportedDown, `recordedUp, `recordedDown, `creditsUp, `creditsDown
      ensures Copying() && Settled() && Deadlines()
      ensures halfCloseActive || (aToB.shutdownDone && bToA.shutdownDone) <==> aToB.IsDrained() || bToA.IsDrained()
      ensures Credits(m, now)
    {
      hide Confirmable, BidirectionalRelay.Copying, BidirectionalRelay.Deadlines, BidirectionalRelay.Settled,
           DirectionalBuffer.IsDrained, BidirectionalRelay.RightWindow;
      Counts();
      ArmHalfClose(now);
      Report();
      Credit(now, aBytesBefore, bBytesBefore);
    }

    /** The window length of the direction that drained first. */
    ghost predicate RightWindow()
      reads this`halfCloseTimeout, aToB, bToA
    {
      && (!bToA.IsDrained() ==> aToB.IsDrained() && halfCloseTimeout == downlinkOnly)
      && (!aToB.IsDrained() ==> bToA.IsDrained() && halfCloseTimeout == uplinkOnly)
      && (aToB.IsDrained() && bToA.IsDrained() ==>
            halfCloseTimeout == if bToA.shutdownDone then uplinkOnly else downlinkOnly)
    }

    /** What a poll without an error comes to. */
    method Decide(now: nat) returns (r: RelayPoll)
      ensures !r.Error? && Ruled(now, r)
    {
      if aToB.shutdownDone && bToA.shutdownDone {
        return Ready(Completed);
      }
      if halfCloseActive && now >= halfCloseDeadline {
        return Ready(HalfCloseTimeout);
      }
      if now >= idleDeadline {
        return Ready(IdleTimeout);
      }
      r := Pending;
    }

    /** No stream has had an error beyond these. */
    ghost predicate Unharmed(aRead: nat, aWrite: nat, bRead: nat, bWrite: nat)
      reads a`readFaults, a`writeFaults, b`readFaults, b`writeFaults
    {
      a.readFaults == aRead && a.writeFaults == aWrite && b.readFaults == bRead && b.writeFaults == bWrite
    }

    /** Everything the download has read, buffered and written, and how often it was polled. */
    ghost function DownSide(): (nat, Bytes, Bytes, nat, nat, bool, (nat, nat, bool, bool))
      reads b`readPolls, b`source, a`sink, a`writeLaters, a`flushTried, a`closeCalled
      reads bToA`pos, bToA`cap, bToA`readDone, bToA`shutdownDone
    {
      (b.readPolls, b.source, a.sink, a.writeLaters, a.flushTried, a.closeCalled,
       (bToA.pos, bToA.cap, bToA.readDone, bToA.shutdownDone))
    }

    /** The upload's part of one poll. */
    method PollUp() returns (ok: bool)
      requires Copying() && a.Stamped() && b.Stamped() && b.wroteAt < b.tick && b.flushedAt < b.tick
      modifies aToB`pos, aToB`cap, aToB`amt, aToB`readDone, aToB`shutdownDone, aToB`flushOk, aToB.buf
      modifies a`readReplies, a`source, a`sawEnd, a`readPolls, a`asked, a`readLaters, a`readFaults, a`endAt
      modifies b`wroteAt, b`flushedAt, b`bothAt, b`writeFaults, b`writeReplies, b`sink, b`writeLaters, b`offered,
               b`flushReplies, b`flushCount, b`flushedLen, b`flushTried, b`closeReplies, b`closeCalled, b`closeLaters,
               b`closeDone
      ensures Copying() && a.Stamped() && b.Stamped()
      ensures Polled(aToB, a, b, creditsUp, old(WayOf(aToB, a, b)), ok)
    {
      hide DirectionalBuffer.Inv, Grown, Fine, Waited, Stream.Stamped, Credited, Confirmable, Progressed, WayOf;
      StayedPut(aToB, a, b);
      ok := true;
      if !aToB.shutdownDone {
        ok := PollOne(aToB, a, b, creditsUp);
      }
      SinkGrows(aToB, a, b, old(WayOf(aToB, a, b)));
    }

    /** The download's part. */
    method PollDown() returns (ok: bool)
      requires Copying() && a.Stamped() && b.Stamped() && a.wroteAt < a.tick && a.flushedAt < a.tick
      modifies bToA`pos, bToA`cap, bToA`amt, bToA`readDone, bToA`shutdownDone, bToA`flushOk, bToA.buf
      modifies b`readReplies, b`source, b`sawEnd, b`readPolls, b`asked, b`readLaters, b`readFaults, b`endAt
      modifies a`wroteAt, a`flushedAt, a`bothAt, a`writeFaults, a`writeReplies, a`sink, a`writeLaters, a`offered,
               a`flushReplies, a`flushCount, a`flushedLen, a`flushTried, a`closeReplies, a`closeCalled, a`closeLaters,
               a`closeDone
      ensures Copying() && a.Stamped() && b.Stamped()
      ensures Polled(bToA, b, a, creditsDown, old(WayOf(bToA, b, a)), ok)
    {
      hide DirectionalBuffer.Inv, Grown, Fine, Waited, Stream.Stamped, Credited, Confirmable, Progressed, WayOf;
      StayedPut(bToA, b, a);
      ok := true;
      if !bToA.shutdownDone {
        ok := PollOne(bToA, b, a, creditsDown);
      }
      SinkGrows(bToA, b, a, old(WayOf(bToA, b, a)));
    }

    lemma {:induction false} Both(m: Moment, okUp: bool, ok: bool)
      requires a != b && Polled(aToB, a, b, creditsUp, m.up, okUp)
      requires if okUp then Polled(bToA, b, a, creditsDown, m.down, ok)
               else !ok && m.down == WayOf(bToA, b, a)
      ensures Copied(m, ok)
      ensures Up(m) ==> Confirmable(creditsUp, b)
      ensures Down(m) ==> Confirmable(creditsDown, a)
      ensures !Fine(a, b, m.up) <==> !okUp
    {
      hide Grown, Fine, Waited, Confirmable, Progressed, WayOf;
      StayedPut(bToA, b, a);
    }

    /** The copying of one poll: client to remote first, then back. */
    method PollBoth() returns (ok: bool)
      requires Copying() && a.Stamped() && b.Stamped()
      requires a.wroteAt < a.tick && a.flushedAt < a.tick && b.wroteAt < b.tick && b.flushedAt < b.tick
      modifies a, b, aToB, aToB.buf, bToA, bToA.buf
      ensures Copying() && Copied(old(Here()), ok)
      // after an error of the upload the download is not polled
      ensures !Fine(a, b, old(Here()).up) ==> DownSide() == old(DownSide())
      // what is credited next is confirmed by a flush
      ensures Up(old(Here())) ==> Confirmable(creditsUp, b)
      ensures Down(old(Here())) ==> Confirmable(creditsDown, a)
      ensures a.tick == old(a.tick) && b.tick == old(b.tick) && a.past == old(a.past) && b.past == old(b.past)
      ensures a.Stamped() && b.Stamped()
    {
      hide *;
      Counts();
      HereIs();
      ghost var m := Here();
      var okUp := PollUp();
      ok := false;
      if okUp {
        ok := PollDown();
      }
      Both(m, okUp, ok);
    }

    /** Opens the half-close window for the direction that has drained. */
    method ArmHalfClose(now: nat)
      requires Copying() && Deadlines() && clock == now
      requires !halfCloseActive || aToB.IsDrained() || bToA.IsDrained()
      modifies this`halfCloseActive, this`halfCloseTimeout, this`halfCloseDeadline, this`lastHalf
      ensures Copying() && Deadlines()
      ensures halfCloseActive || (aToB.shutdownDone && bToA.shutdownDone) <==> aToB.IsDrained() || bToA.IsDrained()
      ensures old(halfCloseActive) ==> halfCloseActive && halfCloseTimeout == old(halfCloseTimeout) && lastHalf == old(lastHalf)
      ensures halfCloseActive && !old(halfCloseActive) ==>
                lastHalf == now && RightWindow()
    {
      hide BidirectionalRelay.Copying;
      Counts();
      if aToB.IsDrained() && !bToA.shutdownDone && !halfCloseActive {
        halfCloseActive, halfCloseTimeout := true, downlinkOnly;
        halfCloseDeadline, lastHalf := now + halfCloseTimeout, now;
      }
      if bToA.IsDrained() && !aToB.shutdownDone && !halfCloseActive {
        halfCloseActive, halfCloseTimeout := true, uplinkOnly;
        halfCloseDeadline, lastHalf := now + halfCloseTimeout, now;
      }
    }

    /** Bills what has been transferred since the last report. */
    method Report()
      requires Copying()
      modifies this`reportedUp, this`reportedDown, this`recordedUp, this`recordedDown
      ensures Copying() && Settled()
    {
      if billed {
        var up := aToB.amt;
        if up > reportedUp {
          recordedUp, reportedUp := recordedUp + (up - reportedUp), up;
        }
        var down := bToA.amt;
        if down > reportedDown {
          recordedDown, reportedDown := recordedDown + (down - reportedDown), down;
        }
      }
    }

    /** Restarts the idle deadline, and the half-close window if it is open. */
    method Restart(now: nat)
      requires Deadlines() && clock == now
      modifies this`idleDeadline, this`halfCloseDeadline, this`lastCredit, this`lastHalf
      ensures Deadlines() && lastCredit == now && (halfCloseActive ==> lastHalf == now)
    {
      idleDeadline := now + idleTimeout;
      lastCredit := now;
      if halfCloseActive {
        halfCloseDeadline := now + halfCloseTimeout;
        lastHalf := now;
      }
    }

    /** Restarts the deadlines for progress that was both written and flushed. */
    method Credit(now: nat, aBytesBefore: nat, bBytesBefore: nat)
      requires Copying() && Deadlines() && clock == now
      requires aToB.amt > aBytesBefore && aToB.flushOk ==> Confirmable(creditsUp, b)
      requires bToA.amt > bBytesBefore && bToA.flushOk ==> Confirmable(creditsDown, a)
      modifies this`idleDeadline, this`halfCloseDeadline, this`lastCredit, this`lastHalf, this`creditsUp, this`creditsDown
      ensures Copying() && Deadlines()
      ensures var up := aToB.amt > aBytesBefore && aToB.flushOk;
              var down := bToA.amt > bBytesBefore && bToA.flushOk;
              && creditsUp == old(creditsUp) + (if up then [|b.sink|] else [])
              && creditsDown == old(creditsDown) + (if down then [|a.sink|] else [])
              && lastCredit == (if up || down then now else old(lastCredit))
              && (halfCloseActive ==> lastHalf == if up || down then now else old(lastHalf))
    {
      hide DirectionalBuffer.Inv, BidirectionalRelay.Billing, Credited, Confirmable;
      Counts();
      var aProgress := aToB.amt > aBytesBefore && aToB.flushOk;
      var bProgress := bToA.amt > bBytesBefore && bToA.flushOk;
      if aProgress || bProgress {
        Restart(now);
      }
      if aProgress {
        AddCredit(creditsUp, b);
        creditsUp := creditsUp + [|b.sink|];
      }
      if bProgress {
        AddCredit(creditsDown, a);
        creditsDown := creditsDown + [|a.sink|];
      }
    }

    /** Polls at the given times until the relay is no longer pending. */
    method PollUntil(times: seq<nat>) returns (r: RelayPoll)
      requires Copying() && Suspended()
      requires forall i :: 0 <= i < |times| ==> clock <= times[i] && (i > 0 ==> times[i - 1] <= times[i])
      modifies this, a, b, aToB, aToB.buf, bToA, bToA.buf
      ensures Copying() && Ticking() && start == old(start)
      ensures |old(polls)| <= |polls| <= |old(polls)| + |times|
      ensures polls == old(polls) + times[..|polls| - |old(polls)|]
      ensures !r.Pending? ==> |polls| > |old(polls)| && clock == polls[|polls| - 1]
      // a relay still alive has taken all polls, and each direction that is not complete has waited in every one
      ensures r.Pending? ==> Suspended() && polls == old(polls) + times
      ensures r.Pending? && !aToB.shutdownDone ==> aToB.Waits(a, b) >= old(aToB.Waits(a, b)) + |times|
      ensures r.Pending? && !bToA.shutdownDone ==> bToA.Waits(b, a) >= old(bToA.Waits(b, a)) + |times|
      ensures r.Error? <==> !Unharmed(old(a.readFaults), old(a.writeFaults), old(b.readFaults), old(b.writeFaults))
      ensures !r.Error? ==> Settled() && aToB.Tried(b) && bToA.Tried(a)
      ensures !r.Error? ==> (r == Ready(Completed) <==> aToB.shutdownDone && bToA.shutdownDone)
      // all polls but one that ends it were before every deadline, and one that times out was not
      ensures Story().AliveUntil(if r.Pending? then |polls| else |polls| - 1, Times())
      ensures !r.Pending? ==> Verdict(r)
      // and no deadline moves without a flush
      ensures !r.Error? ==> Timed() && Deadlines()
      ensures !r.Error? && a.flushCount == old(a.flushCount) && b.flushCount == old(b.flushCount) ==>
                lastCredit == old(lastCredit)
    {
      hide BidirectionalRelay.Copying, BidirectionalRelay.Settled, BidirectionalRelay.Timed, BidirectionalRelay.Deadlines,
           BidirectionalRelay.Ticking, BidirectionalRelay.RightWindow, DirectionalBuffer.Waits, DirectionalBuffer.Tried,
           BidirectionalRelay.Suspended, BidirectionalRelay.Story, BidirectionalRelay.Verdict, History.AliveUntil;
      r := Pending;
      var i := 0;
      InStep();
      while r.Pending? && i < |times|
        invariant 0 <= i <= |times| && polls == old(polls) + times[..i] && start == old(start)
        invariant Copying() && Ticking() && clock == if i == 0 then old(clock) else times[i - 1]
        invariant r.Pending? ==> Suspended()
        invariant old(aToB.Waits(a, b)) <= aToB.Waits(a, b) && old(bToA.Waits(b, a)) <= bToA.Waits(b, a)
        invariant r.Pending? && !aToB.shutdownDone ==> aToB.Waits(a, b) >= old(aToB.Waits(a, b)) + i
        invariant r.Pending? && !bToA.shutdownDone ==> bToA.Waits(b, a) >= old(bToA.Waits(b, a)) + i
        invariant r.Error? <==> !Unharmed(old(a.readFaults), old(a.writeFaults), old(b.readFaults), old(b.writeFaults))
        invariant !r.Error? ==> Settled() && Timed() && Deadlines() && aToB.Tried(b) && bToA.Tried(a)
        invariant !r.Error? ==> (r == Ready(Completed) <==> aToB.shutdownDone && bToA.shutdownDone)
        invariant !r.Pending? ==> i > 0 && Verdict(r)
        invariant Story().AliveUntil(if r.Pending? then |polls| else |polls| - 1, Times())
        invariant old(a.flushCount) <= a.flushCount && old(b.flushCount) <= b.flushCount
        invariant !r.Error? && a.flushCount == old(a.flushCount) && b.flushCount == old(b.flushCount) ==>
                    lastCredit == old(lastCredit)
      {
        r := Poll(times[i]);
        if r.Pending? {
          InStep();
        }
        assert times[..i + 1] == times[..i] + [times[i]];
        i := i + 1;
      }
      assert times[..|times|] == times;
    }

    lemma {:induction false} InStep()
      requires Suspended()
      ensures Ticking() && Settled() && Timed() && Deadlines() && Story().AliveUntil(|polls|, Times())
      ensures aToB.Tried(b) && bToA.Tried(a) && !(aToB.shutdownDone && bToA.shutdownDone)
    {
    }
  }

  datatype CopyResult = CopyResult(aToB: nat, bToA: nat, termination: Termination, clientEof: bool, remoteEof: bool)

  datatype Outcome = Dropped | Returned(result: CopyResult) | Errored

  /** How often a reader and a writer have answered "not yet". */
  ghost function WaitsUp(reader: Stream, writer: Stream): nat
    reads reader, writer
  {
    reader.readLaters + writer.writeLaters + writer.closeLaters
  }

  /** A run as its two streams have it. */
  ghost function RunOf(a: Stream, b: Stream, start: nat, clock: seq<nat>): History
    requires a.tick <= |clock|
    reads a, b
  {
    History(start, clock[..a.tick], a.past + [a.bothAt], b.past + [b.bothAt],
            a.sawEnd && b.sink == a.source, Max(a.endAt, b.wroteAt),
            b.sawEnd && a.sink == b.source, Max(b.endAt, a.wroteAt))
  }

  /** The streams tell the relay's story. */
  lemma {:induction false} SameStory(relay: BidirectionalRelay, clock: seq<nat>)
    requires relay.Copying() && relay.Ticking() && |relay.polls| <= |clock| && relay.polls == clock[..|relay.polls|]
    ensures relay.a.tick == relay.b.tick == |relay.polls|
    ensures relay.aToB.buf.Length > 0 && relay.bToA.buf.Length > 0 ==>
              RunOf(relay.a, relay.b, relay.start, clock) == relay.Story()
    ensures forall k: nat :: RunOf(relay.a, relay.b, relay.start, clock).Credit(k) == relay.Story().Credit(k)
    ensures forall n: nat :: relay.Story().AliveUntil(n, relay.Times()) ==>
              RunOf(relay.a, relay.b, relay.start, clock).Busy(n, relay.idleTimeout)
  {
    hide BidirectionalRelay.Copying, Max, TimeOf;
    relay.Integrity();
  }

  /** copy_bidirectional_with_stats, polled at the times of `clock` and dropped if it is still
      pending after the last of them.  However it ends, each end has received a prefix of what
      the other sent, exactly that many bytes were billed, and a completed relay has delivered
      both streams whole. */
  method CopyBidirectional(a: Stream, b: Stream, idleTimeout: nat, uplinkOnly: nat, downlinkOnly: nat,
                           bufferSize: nat, billed: bool, start: nat, clock: seq<nat>)
    returns (outcome: Outcome, up: nat, down: nat)
    requires a != b
    requires NewStream(a) && NewStream(b)
    requires forall i :: 0 <= i < |clock| ==> start <= clock[i] && (i > 0 ==> clock[i - 1] <= clock[i])
    modifies a, b
    ensures b.sink <= a.source && a.sink <= b.source
    ensures if billed then up == |b.sink| && down == |a.sink| else up == 0 && down == 0
    ensures outcome.Returned? ==>
              && outcome.result.aToB == |b.sink|
              && outcome.result.bToA == |a.sink|
              && (bufferSize > 0 ==> outcome.result.clientEof == a.sawEnd && outcome.result.remoteEof == b.sawEnd)
    ensures outcome.Returned? && outcome.result.termination.Completed? && bufferSize > 0 ==>
              && a.sawEnd && b.sink == a.source
              && b.sawEnd && a.sink == b.source
    ensures a.closeCalled && bufferSize > 0 ==> b.sawEnd && a.sink == b.source
    ensures b.closeCalled && bufferSize > 0 ==> a.sawEnd && b.sink == a.source
    // it is polled in order until it ends, and a direction that is not complete has waited in every poll
    ensures a.tick == b.tick <= |clock| && (!outcome.Dropped? ==> a.tick > 0)
    ensures outcome.Dropped? ==> a.tick == |clock|
    ensures outcome.Dropped? && !b.closeDone ==> WaitsUp(a, b) >= old(WaitsUp(a, b)) + |clock|
    ensures outcome.Dropped? && !a.closeDone ==> WaitsUp(b, a) >= old(WaitsUp(b, a)) + |clock|
    // it fails exactly when a stream does
    ensures outcome.Errored? <==> a.readFaults > 0 || a.writeFaults > 0 || b.readFaults > 0 || b.writeFaults > 0
    // it completes exactly when both directions are closed
    ensures !outcome.Errored? ==>
              (outcome.Returned? && outcome.result.termination.Completed? <==> a.closeDone && b.closeDone)
    // every poll but the one that ends it is before all deadlines: the idle one, from the last poll in
    // which a direction both wrote and flushed, and the half-close window of a side delivered whole, from
    // the poll that did so or from the last credit; it times out only in a poll that is not
    ensures var run := RunOf(a, b, start, clock);
            && run.Busy(if outcome.Dropped? then a.tick else a.tick - 1, idleTimeout)
            && (outcome.Returned? && outcome.result.termination.IdleTimeout? ==>
                  clock[a.tick - 1] >= run.Credit(a.tick) + idleTimeout)
    ensures bufferSize > 0 ==>
              var run, limits := RunOf(a, b, start, clock), Limits(idleTimeout, downlinkOnly, uplinkOnly);
              && run.AliveUntil(if outcome.Dropped? then a.tick else a.tick - 1, limits)
              && (outcome.Returned? && outcome.result.termination.HalfCloseTimeout? ==> run.OverAt(a.tick, limits))
              && (outcome.Returned? && outcome.result.termination.IdleTimeout? ==> run.OpenAt(a.tick, limits))
    // a flush has been asked for once everything read is written
    ensures !outcome.Errored? && b.sink == a.source ==> b.flushTried == |b.sink|
    ensures !outcome.Errored? && a.sink == b.source ==> a.flushTried == |a.sink|
  {
    hide BidirectionalRelay.Copying, BidirectionalRelay.Suspended, BidirectionalRelay.Ticking, BidirectionalRelay.Timed,
         BidirectionalRelay.Deadlines, BidirectionalRelay.Story, TimeOf, Max, DirectionalBuffer.IsDrained,
         History.AliveUntil, History.OpenAt, History.OverAt, History.Credit, RunOf;
    var relay := new BidirectionalRelay(a, b, idleTimeout, uplinkOnly, downlinkOnly, bufferSize, billed, start);
    var r := relay.PollUntil(clock);
    relay.Integrity();
    SameStory(relay, clock);
    outcome, up, down := Conclude(relay, r);
  }

  /** The last report and the result; a relay that is dropped while pending reports nothing more. */
  method Conclude(relay: BidirectionalRelay, r: RelayPoll) returns (outcome: Outcome, up: nat, down: nat)
    requires relay.Copying() && (!r.Error? ==> relay.Settled())
    modifies relay`reportedUp, relay`reportedDown, relay`recordedUp, relay`recordedDown
    ensures relay.Copying()
    ensures if relay.billed then up == |relay.b.sink| && down == |relay.a.sink| else up == 0 && down == 0
    ensures outcome == if r.Pending? then Dropped else if r.Error? then Errored else
              Returned(CopyResult(|relay.b.sink|, |relay.a.sink|, r.termination, relay.aToB.readDone, relay.bToA.readDone))
  {
    hide BidirectionalRelay.Copying;
    relay.Integrity();
    outcome := Dropped;
    if !r.Pending? {
      relay.Report();
      relay.Integrity();
      outcome := Errored;
      if !r.Error? {
        outcome := Returned(CopyResult(relay.aToB.amt, relay.bToA.amt, r.termination, relay.aToB.readDone, relay.bToA.readDone));
      }
    }
    up, down := relay.recordedUp, relay.recordedDown;
  }

  /** One more credit is in order: a flush beyond those already credited has completed, and
      it covers every byte credited so far. */
  ghost predicate Confirmable(credits: seq<nat>, writer: Stream)
    reads writer`flushCount, writer`flushedLen
  {
    && |credits| < writer.flushCount
    && forall i :: 0 <= i < |credits| ==> credits[i] <= writer.flushedLen
  }

  lemma {:induction false} AddCredit(credits: seq<nat>, writer: Stream)
    requires Credited(credits, writer) && Confirmable(credits, writer)
    ensures Credited(credits + [|writer.sink|], writer)
  {
  }
}
