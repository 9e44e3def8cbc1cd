/** What becomes of one frame, as a function of the capacity and of the answers HTTP/2 has in
    store. */
module GrpcSending {
  import opened Bytes
  import opened H2
  import opened GrpcCodec

  const MAX_SEND_QUEUE_BYTES: nat := 128 * 1024

  datatype Progress = Done | Blocked | Broken

  datatype WriteResult = WritePending | Wrote(n: nat) | WriteFailed

  /** Outcome, bytes handed over, and what is left of capacity and answers. */
  datatype Sending = Sending(outcome: Progress, sent: nat, capacity: nat, script: seq<SendEvent>)

  function Later(n: nat, s: Sending): Sending {
    Sending(s.outcome, n + s.sent, s.capacity, s.script)
  }

  /** Sends `left` bytes: as much as the capacity allows, then asks for more. */
  function SendFrame(capacity: nat, script: seq<SendEvent>, left: nat): Sending
    decreases left, |script|
  {
    var c, s := CapacityNext(capacity, script), AfterCapacity(script);
    if left == 0 then Sending(Done, 0, capacity, script)
    else if c == 0 then
      match PollNext(s)
      case Ready(n) => SendFrame(n, s[1..], left)
      case Failed => Sending(Broken, 0, 0, s[1..])
      case Gone => Sending(Broken, 0, 0, s[1..])
      case Pending => Sending(Blocked, 0, 0, AfterPoll(s))
    else if RefusesData(s) then Sending(Broken, 0, c, s[1..])
    else
      var n := Min(left, c);
      if n == left then Sending(Done, n, c - n, s) else Later(n, SendFrame(c - n, s, left - n))
  }

  /** Nothing is handed over beyond the frame, and a frame is done exactly when all of it is. */
  lemma {:induction false} SentWithin(capacity: nat, script: seq<SendEvent>, left: nat)
    ensures SendFrame(capacity, script, left).sent <= left
    ensures SendFrame(capacity, script, left).outcome.Done? <==> SendFrame(capacity, script, left).sent == left
    ensures SendFrame(capacity, script, left).outcome.Blocked? ==> SendFrame(capacity, script, left).capacity == 0
    decreases left, |script|
  {
    var c, s := CapacityNext(capacity, script), AfterCapacity(script);
    if left > 0 && c == 0 && PollNext(s).Ready? {
      SentWithin(PollNext(s).n, s[1..], left);
    } else if left > 0 && c > 0 && !RefusesData(s) && left > c {
      SentWithin(0, s, left - c);
    }
  }

  /** Without answers the capacity is all there is. */
  lemma {:induction false} WithoutAnswers(capacity: nat, left: nat)
    ensures SendFrame(capacity, [], left) ==
            Sending(if left <= capacity then Done else Blocked, Min(left, capacity), capacity - Min(left, capacity), [])
  {
    if 0 < capacity < left {
      assert SendFrame(0, [], left - capacity) == Sending(Blocked, 0, 0, []);
    }
  }

  /** Capacity the answers hold. */
  function Grants(script: seq<SendEvent>): nat {
    if script == [] then 0
    else (if script[0].Granted? || script[0].CapacityNow? then script[0].n else 0) + Grants(script[1..])
  }

  /** Nothing goes out beyond the capacity there was and the capacity that was granted. */
  lemma {:induction false} Funded(capacity: nat, script: seq<SendEvent>, left: nat)
    ensures var r := SendFrame(capacity, script, left);
            r.sent + r.capacity + Grants(r.script) <= capacity + Grants(script)
    decreases left, |script|
  {
    var c, s := CapacityNext(capacity, script), AfterCapacity(script);
    if left > 0 && c == 0 && PollNext(s).Ready? {
      Funded(PollNext(s).n, s[1..], left);
    } else if left > 0 && c > 0 && !RefusesData(s) && left > c {
      Funded(0, s, left - c);
    }
  }

  // ---------------------------------------------------------------- failures

  predicate Failing(e: SendEvent) {
    e.CapacityError? || e.StreamGone? || e.DataRefused? || e.ResponseRefused? || e.TrailersRefused?
  }

  /** No answer is a failure. */
  predicate Clean(script: seq<SendEvent>) {
    forall e :: e in script ==> !Failing(e)
  }

  /** Only a failing answer breaks a stream. */
  lemma {:induction false} CleanNeverBreaks(capacity: nat, script: seq<SendEvent>, left: nat)
    requires Clean(script)
    ensures !SendFrame(capacity, script, left).outcome.Broken?
    ensures Clean(SendFrame(capacity, script, left).script)
    decreases left, |script|
  {
    var c, s := CapacityNext(capacity, script), AfterCapacity(script);
    assert Clean(s) && (s != [] ==> s[0] in s);
    if left > 0 && c == 0 && PollNext(s).Ready? {
      CleanNeverBreaks(PollNext(s).n, s[1..], left);
    } else if left > 0 && c > 0 && !RefusesData(s) && left > c {
      CleanNeverBreaks(0, s, left - c);
    }
  }

  /** No answer breaks a send: capacity and DATA are not refused. */
  predicate Smooth(script: seq<SendEvent>) {
    forall e :: e in script ==> !e.CapacityError? && !e.StreamGone? && !e.DataRefused?
  }

  /** Refusals of headers and trailers do not break a send that has begun; and no answer is invented. */
  lemma {:induction false} SmoothNeverBreaks(capacity: nat, script: seq<SendEvent>, left: nat)
    requires Smooth(script)
    ensures !SendFrame(capacity, script, left).outcome.Broken?
    ensures forall e :: e in SendFrame(capacity, script, left).script ==> e in script
    decreases left, |script|
  {
    var c, s := CapacityNext(capacity, script), AfterCapacity(script);
    assert Smooth(s) && (s != [] ==> s[0] in s);
    if left > 0 && c == 0 && PollNext(s).Ready? {
      SmoothNeverBreaks(PollNext(s).n, s[1..], left);
    } else if left > 0 && c > 0 && !RefusesData(s) && left > c {
      SmoothNeverBreaks(0, s, left - c);
    }
  }

  /** The first answers fail before any DATA can be accepted: it can be told from the capacity and
      the answers, whatever is to be sent. */
  predicate FailsFirst(capacity: nat, script: seq<SendEvent>)
    decreases |script|
  {
    var c, s := CapacityNext(capacity, script), AfterCapacity(script);
    if c > 0 then RefusesData(s)
    else PollNext(s).Failed? || PollNext(s).Gone? || (PollNext(s).Ready? && FailsFirst(PollNext(s).n, s[1..]))
  }

  /** A failing call has handed over nothing exactly when the first answers fail. */
  lemma {:induction false} BreaksCleanlyExactly(capacity: nat, script: seq<SendEvent>, left: nat)
    requires left > 0
    ensures FailsFirst(capacity, script) <==>
            SendFrame(capacity, script, left).outcome.Broken? && SendFrame(capacity, script, left).sent == 0
    decreases |script|
  {
    var c, s := CapacityNext(capacity, script), AfterCapacity(script);
    if c == 0 && PollNext(s).Ready? {
      BreaksCleanlyExactly(PollNext(s).n, s[1..], left);
    }
  }

  // ---------------------------------------------------------------- enough capacity

  /** Every answer grants more than `need`, and there is one, or that much capacity already. */
  predicate Rich(capacity: nat, script: seq<SendEvent>, need: nat) {
    && (forall e :: e in script ==> e.Granted? && e.n > need)
    && (script != [] || capacity > need)
  }

  /** With more capacity than the frame and `spare` bytes behind it, the frame goes out and enough
      is left for those. */
  lemma {:induction false} RichSends(capacity: nat, script: seq<SendEvent>, left: nat, spare: nat)
    requires Rich(capacity, script, left + spare)
    ensures SendFrame(capacity, script, left).outcome.Done?
    ensures Rich(SendFrame(capacity, script, left).capacity, SendFrame(capacity, script, left).script, spare)
    decreases left, |script|
  {
    if left > 0 {
      assert script != [] ==> script[0] in script;
      assert AfterCapacity(script) == script && CapacityNext(capacity, script) == capacity;
      if capacity == 0 {
        assert forall e :: e in script[1..] ==> e in script;
        RichSends(script[0].n, script[1..], left, spare);
      } else if left > capacity {
        RichSends(0, script, left - capacity, spare);
      }
    }
  }

  // ---------------------------------------------------------------- the queue

  /** One call of poll_send_current_frame with `left` bytes to send: the response headers, if they
      are still due, then the frame. */
  function Course(begun: bool, capacity: nat, script: seq<SendEvent>, left: nat): Sending {
    if !begun && RefusesResponse(script) then Sending(Broken, 0, capacity, script[1..])
    else SendFrame(capacity, script, left)
  }

  /** A failing call hands nothing over exactly when the headers are refused or the first answers
      fail. */
  predicate BreaksFirst(begun: bool, capacity: nat, script: seq<SendEvent>) {
    (!begun && RefusesResponse(script)) || FailsFirst(capacity, script)
  }

  /** The sending side in numbers: whether the response has begun and ended, capacity and answers of
      HTTP/2, the lengths of the frames in the queue, how far the first one is sent, and how many
      bytes are on the wire. */
  datatype Link = Link(started: bool, over: bool, capacity: nat, script: seq<SendEvent>,
                       frames: seq<nat>, offset: nat, sent: nat)

  function Total(frames: seq<nat>): nat {
    if frames == [] then 0 else frames[0] + Total(frames[1..])
  }

  lemma {:induction false} TotalSnoc(frames: seq<nat>, n: nat)
    ensures Total(frames + [n]) == Total(frames) + n
  {
    if frames == [] {
      assert frames + [n] == [n];
    } else {
      TotalSnoc(frames[1..], n);
      assert (frames + [n])[1..] == frames[1..] + [n];
    }
  }

  /** The first frame of the queue: out of it when done, partly sent when blocked, and as it was,
      whatever is on the wire, when broken. */
  function PumpOne(l: Link): (Progress, Link)
    requires l.frames != []
  {
    var left := if l.offset < l.frames[0] then l.frames[0] - l.offset else 0;
    var c := Course(l.started, l.capacity, l.script, left);
    var started := l.started || !RefusesResponse(l.script);
    match c.outcome
    case Done => (Done, Link(started, l.over, c.capacity, c.script, l.frames[1..], 0, l.sent + c.sent))
    case Blocked =>
      (Blocked, Link(started, l.over, c.capacity, c.script, l.frames, l.offset + c.sent, l.sent + c.sent))
    case Broken => (Broken, Link(started, l.over, c.capacity, c.script, l.frames, l.offset, l.sent + c.sent))
  }

  /** poll_send_queued: frame after frame, until one blocks or breaks. */
  function Pump(l: Link): (Progress, Link)
    decreases |l.frames|
  {
    if l.frames == [] then (Done, l)
    else
      var (p, next) := PumpOne(l);
      if p.Done? then Pump(next) else (p, next)
  }

  /** Bytes a message of n bytes takes as a frame. */
  function FrameLen(n: nat): nat {
    5 + ProtoLen(n)
  }

  /** poll_write of `len` bytes. */
  function WriteLink(l: Link, closed: bool, len: nat, size: nat): (r: (WriteResult, Link))
    ensures r.0.Wrote? ==> !closed && r.0.n == Min(len, size)
  {
    if closed then (WriteFailed, l)
    else
      var (p, l1) := Pump(l);
      if p.Broken? then (WriteFailed, l1)
      else if Total(l1.frames) >= MAX_SEND_QUEUE_BYTES then (WritePending, l1)
      else
        var n := Min(len, size);
        var (q, l2) := Pump(l1.(frames := l1.frames + [FrameLen(n)]));
        (if q.Broken? then WriteFailed else Wrote(n), l2)
  }

  /** The end of a response; errors of a peer that is gone do not count. */
  function EndLink(l: Link): (Progress, Link) {
    if if l.started then RefusesTrailers(l.script) else RefusesResponse(l.script)
    then (if l.script[0].benign then Done else Broken, l.(script := l.script[1..]))
    else (Done, l.(over := true))
  }

  /** poll_shutdown. */
  function ShutLink(l: Link, closed: bool): (Progress, Link) {
    if closed && l.frames == [] then (Done, l)
    else
      var (p, l1) := Pump(l);
      if p.Done? then EndLink(l1) else (p, l1)
  }

  // ---------------------------------------------------------------- refused ends

  /** The end of a response fails exactly when it is refused for another reason than that the peer is
      gone: its trailers, or the whole response if none has begun. */
  lemma {:induction false} EndExactly(l: Link)
    ensures var refused := if l.started then TrailersRefused(false) else ResponseRefused(false);
            EndLink(l).0 == if l.script != [] && l.script[0] == refused then Broken else Done
    ensures EndLink(l).1.over <==>
            l.over || !(l.script != [] && if l.started then l.script[0].TrailersRefused? else l.script[0].ResponseRefused?)
  {
  }

  /** All that fails is an end the peer is not there for any more: trailers, or a response nothing was
      ever written to. */
  predicate Mild(script: seq<SendEvent>, unwritten: bool) {
    forall e :: e in script && Failing(e) ==> e == TrailersRefused(true) || (unwritten && e == ResponseRefused(true))
  }

  lemma {:induction false} MildPump(l: Link)
    requires Mild(l.script, false)
    ensures !Pump(l).0.Broken? && Mild(Pump(l).1.script, false)
    decreases |l.frames|
  {
    hide SendFrame;
    if l.frames != [] {
      var left := if l.offset < l.frames[0] then l.frames[0] - l.offset else 0;
      assert l.script != [] ==> l.script[0] in l.script;
      SmoothNeverBreaks(l.capacity, l.script, left);
      if PumpOne(l).0.Done? {
        MildPump(PumpOne(l).1);
      }
    }
  }

  /** Such an end fails nothing. */
  lemma {:induction false} MildShut(l: Link, closed: bool)
    requires Mild(l.script, l.frames == [])
    ensures !ShutLink(l, closed).0.Broken?
  {
    hide PumpOne;
    if l.frames != [] {
      MildPump(l);
    }
    var l1 := Pump(l).1;
    assert l1.script != [] ==> l1.script[0] in l1.script;
  }

  lemma {:induction false} MildWrite(l: Link, closed: bool, len: nat, size: nat)
    requires Mild(l.script, false)
    ensures WriteLink(l, closed, len, size).0.WriteFailed? ==> closed
  {
    hide Pump, Mild, Total;
    MildPump(l);
    var l1 := Pump(l).1;
    MildPump(l1.(frames := l1.frames + [FrameLen(Min(len, size))]));
  }
}
