/** The HTTP/2 stream as the transport sees it.  Both halves follow a script of poll
    outcomes that stands for an arbitrary peer and connection; the preconditions of the
    calls are the rules HTTP/2 puts on the caller. */
module H2 {
  import opened Bytes

  /** Initial stream window advertised to the peer. */
  const INITIAL_WINDOW_SIZE: nat := 1024 * 1024

  datatype RecvEvent = Data(chunk: Bytes) | Idle | StreamError(normal: bool) | EndStream

  function DataIn(events: seq<RecvEvent>): Bytes {
    if events == [] then []
    else
      var e := events[|events| - 1];
      DataIn(events[..|events| - 1]) + if e.Data? then e.chunk else []
  }

  lemma {:induction false} DataInSnoc(events: seq<RecvEvent>, e: RecvEvent)
    ensures DataIn(events + [e]) == DataIn(events) + if e.Data? then e.chunk else []
  {
    assert (events + [e])[..|events|] == events;
  }

  lemma {:induction false} DataInGrows(first: seq<RecvEvent>, more: seq<RecvEvent>)
    ensures DataIn(first) <= DataIn(first + more)
    decreases |more|
  {
    if more == [] {
      assert first + more == first;
    } else {
      var n := |more| - 1;
      assert first + more == (first + more[..n]) + [more[n]];
      DataInSnoc(first + more[..n], more[n]);
      DataInGrows(first, more[..n]);
    }
  }

  /** Receive half (RFC 9113, sections 5.2 and 6.9): DATA counts against the window until
      it is released. */
  class RecvStream {
    var script: seq<RecvEvent>
    ghost var history: seq<RecvEvent>
    ghost var released: nat

    constructor ()
      ensures script == [] && history == [] && released == 0
    {
      script, history, released := [], [], 0;
    }

    ghost function Received(): Bytes
      reads this`history
    {
      DataIn(history)
    }

    /** Asking for more data must leave the peer some window to send it in. */
    method PollData() returns (e: RecvEvent)
      requires released <= |Received()| < released + INITIAL_WINDOW_SIZE
      modifies this`script, this`history
      ensures old(script) == [] ==> e == Idle && script == [] && history == old(history)
      ensures old(script) != [] ==> e == old(script)[0] && script == old(script)[1..] && history == old(history) + [e]
      ensures Received() == old(Received()) + if e.Data? then e.chunk else []
    {
      if script == [] {
        return Idle;
      }
      e := script[0];
      DataInSnoc(history, e);
      script, history := script[1..], history + [e];
    }

    /** Only received bytes can be released, each once. */
    method ReleaseCapacity(n: nat)
      requires released + n <= |Received()|
      modifies this`released
      ensures released == old(released) + n
    {
      released := released + n;
    }
  }

  datatype SendEvent =
    | CapacityNow(n: nat)      // what capacity() reports
    | Granted(n: nat)          // poll_capacity: Ready(Ok(n))
    | CapacityError            // poll_capacity: Ready(Err)
    | StreamGone               // poll_capacity: Ready(None)
    | NotYet                   // poll_capacity: Pending
    | DataRefused              // send_data: Err
    | ResponseRefused(benign: bool)
    | TrailersRefused(benign: bool)

  datatype CapacityPoll = Ready(n: nat) | Failed | Gone | Pending

  datatype Outcome = Accepted | Refused(benign: bool)

  datatype Sent = Headers | DataFrame(chunk: Bytes) | Trailers | TrailersOnly

  /** The DATA bytes of a response. */
  function WireBytes(trace: seq<Sent>): Bytes {
    if trace == [] then []
    else
      var e := trace[|trace| - 1];
      WireBytes(trace[..|trace| - 1]) + if e.DataFrame? then e.chunk else []
  }

  lemma {:induction false} WireBytesSnoc(trace: seq<Sent>, e: Sent)
    ensures WireBytes(trace + [e]) == WireBytes(trace) + if e.DataFrame? then e.chunk else []
  {
    assert (trace + [e])[..|trace|] == trace;
  }

  lemma {:induction false} WireBytesGrow(earlier: seq<Sent>, later: seq<Sent>)
    requires earlier <= later
    ensures WireBytes(earlier) <= WireBytes(later)
    decreases |later|
  {
    if |earlier| < |later| {
      var n := |later| - 1;
      assert later == later[..n] + [later[n]];
      WireBytesSnoc(later[..n], later[n]);
      WireBytesGrow(earlier, later[..n]);
    } else {
      assert earlier == later;
    }
  }

  /** A response, or a beginning of one: headers, data, trailers, or trailers only
      (RFC 9113, section 8.1). */
  ghost predicate Legal(trace: seq<Sent>) {
    || trace == []
    || trace == [TrailersOnly]
    || (&& trace[0] == Headers
        && forall i :: 0 < i < |trace| ==> trace[i].DataFrame? || (trace[i].Trailers? && i == |trace| - 1))
  }

  ghost predicate Started(trace: seq<Sent>) {
    trace != [] && trace[0] == Headers
  }

  ghost predicate Ended(trace: seq<Sent>) {
    trace != [] && (trace[|trace| - 1].Trailers? || trace[|trace| - 1].TrailersOnly?)
  }

  // The next answers of the script, and what is left behind them.

  /** What capacity() reports. */
  function CapacityNext(capacity: nat, script: seq<SendEvent>): nat {
    if script != [] && script[0].CapacityNow? then script[0].n else capacity
  }

  function AfterCapacity(script: seq<SendEvent>): seq<SendEvent> {
    if script != [] && script[0].CapacityNow? then script[1..] else script
  }

  /** What poll_capacity answers: pending unless the script says otherwise. */
  function PollNext(script: seq<SendEvent>): (r: CapacityPoll)
    ensures !r.Pending? ==> script != []
  {
    if script == [] then Pending
    else
      match script[0]
      case Granted(n) => Ready(n)
      case CapacityError => Failed
      case StreamGone => Gone
      case _ => Pending
  }

  function AfterPoll(script: seq<SendEvent>): seq<SendEvent> {
    if PollNext(script).Pending? && (script == [] || !script[0].NotYet?) then script else script[1..]
  }

  predicate RefusesData(script: seq<SendEvent>) {
    script != [] && script[0].DataRefused?
  }

  predicate RefusesResponse(script: seq<SendEvent>) {
    script != [] && script[0].ResponseRefused?
  }

  predicate RefusesTrailers(script: seq<SendEvent>) {
    script != [] && script[0].TrailersRefused?
  }

  /** Send half: response headers, flow-controlled data, trailers. */
  class SendStream {
    var script: seq<SendEvent>
    var capacity: nat
    var trace: seq<Sent>
    var endAttempts: nat

    constructor ()
      ensures script == [] && capacity == 0 && trace == [] && endAttempts == 0
    {
      script, capacity, trace, endAttempts := [], 0, [], 0;
    }

    ghost function Wire(): Bytes
      reads this`trace
    {
      WireBytes(trace)
    }

    method SendResponse(end: bool) returns (r: Outcome)
      requires trace == []
      modifies this`script, this`trace, this`endAttempts
      ensures trace == if r.Refused? then [] else if end then [TrailersOnly] else [Headers]
      ensures endAttempts == old(endAttempts) + if end then 1 else 0
      ensures r == if RefusesResponse(old(script)) then Refused(old(script)[0].benign) else Accepted
      ensures script == if r.Refused? then old(script)[1..] else old(script)
      ensures Wire() == []
    {
      if end {
        endAttempts := endAttempts + 1;
      }
      if RefusesResponse(script) {
        r := Refused(script[0].benign);
        script := script[1..];
        return;
      }
      trace := [if end then TrailersOnly else Headers];
      WireBytesSnoc([], trace[0]);
      assert [] + [trace[0]] == trace;
      r := Accepted;
    }

    method Capacity() returns (c: nat)
      modifies this`script, this`capacity
      ensures c == capacity == CapacityNext(old(capacity), old(script))
      ensures script == AfterCapacity(old(script))
    {
      c := CapacityNext(capacity, script);
      script := AfterCapacity(script);
      capacity := c;
    }

    method PollCapacity() returns (r: CapacityPoll)
      modifies this`script, this`capacity
      ensures r == PollNext(old(script)) && script == AfterPoll(old(script))
      ensures capacity == if r.Ready? then r.n else old(capacity)
    {
      r := PollNext(script);
      script := AfterPoll(script);
      if r.Ready? {
        capacity := r.n;
      }
    }

    /** DATA goes between headers and trailers, within the capacity. */
    method SendData(chunk: Bytes) returns (ok: bool)
      requires 0 < |chunk| <= capacity && Started(trace) && !Ended(trace) && Legal(trace)
      modifies this`script, this`capacity, this`trace
      ensures ok <==> !RefusesData(old(script))
      ensures script == if ok then old(script) else old(script)[1..]
      ensures trace == if ok then old(trace) + [DataFrame(chunk)] else old(trace)
      ensures capacity == if ok then old(capacity) - |chunk| else old(capacity)
      ensures Wire() == if ok then old(Wire()) + chunk else old(Wire())
      ensures Legal(trace) && Started(trace) && !Ended(trace)
    {
      if RefusesData(script) {
        script := script[1..];
        return false;
      }
      WireBytesSnoc(trace, DataFrame(chunk));
      capacity := capacity - |chunk|;
      trace := trace + [DataFrame(chunk)];
      ok := true;
    }

    method SendTrailers() returns (r: Outcome)
      requires Started(trace) && !Ended(trace) && Legal(trace)
      modifies this`script, this`trace, this`endAttempts
      ensures endAttempts == old(endAttempts) + 1
      ensures trace == if r.Accepted? then old(trace) + [Trailers] else old(trace)
      ensures r == if RefusesTrailers(old(script)) then Refused(old(script)[0].benign) else Accepted
      ensures script == if r.Refused? then old(script)[1..] else old(script)
      ensures Wire() == old(Wire()) && Legal(trace) && Started(trace)
    {
      endAttempts := endAttempts + 1;
      if RefusesTrailers(script) {
        r := Refused(script[0].benign);
        script := script[1..];
        return;
      }
      WireBytesSnoc(trace, Trailers);
      trace := trace + [Trailers];
      r := Accepted;
    }
  }
}
