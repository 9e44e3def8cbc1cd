/** The HTTP/2 heartbeat of a gRPC connection over every trace of ticks, PONGs, data and streams. */
module Heartbeat {

  const MAX_MISSED_PINGS: nat := 3

  /** What can happen to the heartbeat.  A tick says whether a PING could be sent, a PONG whether
      it was received without error. */
  datatype Event = Tick(sendOk: bool) | Pong(ok: bool) | Data | NewStream

  datatype State = Alive(waiting: bool, missed: nat, activity: bool) | TimedOut | PongError

  function Step(s: State, e: Event): State {
    if !s.Alive? then s
    else
      match e
      case Data => Alive(s.waiting, s.missed, true)
      case NewStream => Alive(s.waiting, 0, s.activity)
      case Pong(ok) =>
        if !s.waiting then s else if ok then Alive(false, 0, s.activity) else PongError
      case Tick(sendOk) =>
        if !s.waiting then Alive(sendOk, s.missed, false)
        else if s.activity then Alive(true, 0, false)
        else if s.missed + 1 >= MAX_MISSED_PINGS then TimedOut
        else Alive(true, s.missed + 1, false)
  }

  function After(trace: seq<Event>): State {
    if trace == [] then Alive(false, 0, false)
    else Step(After(trace[..|trace| - 1]), trace[|trace| - 1])
  }

  lemma {:induction false} AfterSnoc(trace: seq<Event>, e: Event)
    ensures After(trace + [e]) == Step(After(trace), e)
  {
    assert (trace + [e])[..|trace|] == trace;
  }

  lemma {:induction false} AfterNext(trace: seq<Event>, k: nat)
    requires k < |trace|
    ensures After(trace[..k + 1]) == Step(After(trace[..k]), trace[k])
  {
    assert trace[..k + 1][..k] == trace[..k];
  }

  class H2Heartbeat {
    var activity: bool
    var waitingPong: bool
    var missedPings: nat

    ghost var trace: seq<Event>

    constructor ()
      ensures Valid() && trace == []
    {
      activity, waitingPong, missedPings, trace := false, false, 0, [];
    }

    /** The connection is still up and the fields are what the trace makes of them. */
    ghost predicate Valid()
      reads this
    {
      After(trace) == Alive(waitingPong, missedPings, activity)
    }

    /** A new stream on the connection. */
    method OnActivity()
      requires Valid()
      modifies this
      ensures Valid() && trace == old(trace) + [NewStream]
    {
      hide After;
      AfterSnoc(trace, NewStream);
      missedPings, trace := 0, trace + [NewStream];
    }

    /** A stream transport reports data. */
    method OnData()
      requires Valid()
      modifies this
      ensures Valid() && trace == old(trace) + [Data]
    {
      hide After;
      AfterSnoc(trace, Data);
      activity, trace := true, trace + [Data];
    }

    method TakeActivity() returns (was: bool)
      modifies `activity
      ensures was == old(activity) && !activity
    {
      was, activity := activity, false;
    }

    /** The PONG arm, polled while a PING is outstanding. */
    method PollPong(ok: bool) returns (alive: bool)
      requires Valid() && waitingPong
      modifies this
      ensures trace == old(trace) + [Pong(ok)]
      ensures alive == ok
      ensures alive ==> Valid()
      ensures !alive ==> After(trace) == PongError
    {
      hide After;
      AfterSnoc(trace, Pong(ok));
      waitingPong, trace, alive := false, trace + [Pong(ok)], ok;
      if ok {
        missedPings := 0;
      }
    }

    /** One timer tick. */
    method PollTick(sendOk: bool) returns (alive: bool)
      requires Valid()
      modifies this
      ensures trace == old(trace) + [Tick(sendOk)]
      ensures alive ==> Valid()
      ensures alive <==> !(exists t0, t1, t2 :: ThreeMisses(trace, t0, t1, t2))
      ensures !alive ==> After(trace) == TimedOut
    {
      hide After;
      TimeoutExactly(trace, sendOk);
      AfterSnoc(trace, Tick(sendOk));
      trace, alive := trace + [Tick(sendOk)], true;
      var was := TakeActivity();
      if waitingPong {
        if was {
          missedPings := 0;
        } else {
          missedPings := missedPings + 1;
          alive := missedPings < MAX_MISSED_PINGS;
        }
      } else {
        waitingPong := sendOk;
      }
    }
  }

  // ---------------------------------------------------------------- what a timeout means

  /** No event of the kind strictly between i and j. */
  predicate NoTick(trace: seq<Event>, i: int, j: int) {
    forall k :: 0 <= k < |trace| && i < k < j ==> !trace[k].Tick?
  }

  predicate NoPong(trace: seq<Event>, i: int, j: int) {
    forall k :: 0 <= k < |trace| && i < k < j ==> !trace[k].Pong?
  }

  predicate NoData(trace: seq<Event>, i: int, j: int) {
    forall k :: 0 <= k < |trace| && i < k < j ==> !trace[k].Data?
  }

  predicate NoStream(trace: seq<Event>, i: int, j: int) {
    forall k :: 0 <= k < |trace| && i < k < j ==> !trace[k].NewStream?
  }

  /** A PING is outstanding after the trace: some tick sent it and no PONG came since. */
  ghost predicate Outstanding(trace: seq<Event>) {
    exists k :: 0 <= k < |trace| && trace[k] == Tick(true) && NoPong(trace, k, |trace|)
  }

  /** The last event is the third of three ticks in a row, t1, t2 and itself, that follow the tick
      t0 with the same PING outstanding throughout, no data in any of the three intervals and no
      new stream since t1. */
  ghost predicate ThreeMisses(trace: seq<Event>, t0: int, t1: int, t2: int) {
    var t3 := |trace| - 1;
    && 0 <= t0 < t1 < t2 < t3
    && trace[t0].Tick? && trace[t1].Tick? && trace[t2].Tick? && trace[t3].Tick?
    && NoTick(trace, t0, t1) && NoTick(trace, t1, t2) && NoTick(trace, t2, t3)
    && Outstanding(trace[..t0 + 1]) && NoPong(trace, t0, t3)
    && NoData(trace, t0, t3)
    && NoStream(trace, t1, t3)
  }

  // ---------------------------------------------------------------- invariants of every trace

  /** Without an outstanding PING nothing is missed; misses stay below the limit. */
  lemma {:induction false} MissedOnlyWhileWaiting(trace: seq<Event>)
    requires After(trace).Alive?
    ensures After(trace).missed > 0 ==> After(trace).waiting
    ensures After(trace).missed < MAX_MISSED_PINGS
  {
    if trace != [] {
      MissedOnlyWhileWaiting(trace[..|trace| - 1]);
    }
  }

  /** While the connection is up, the flag says whether a PING is outstanding. */
  lemma {:induction false} WaitingExactly(trace: seq<Event>)
    requires After(trace).Alive?
    ensures After(trace).waiting <==> Outstanding(trace)
  {
    if trace != [] {
      var n := |trace| - 1;
      var before := trace[..n];
      WaitingExactly(before);
      if Outstanding(before) && !trace[n].Pong? {
        var k :| 0 <= k < |before| && before[k] == Tick(true) && NoPong(before, k, |before|);
        assert trace[k] == Tick(true) && NoPong(trace, k, |trace|);
      }
      if Outstanding(trace) && trace[n] != Tick(true) {
        var k :| 0 <= k < |trace| && trace[k] == Tick(true) && NoPong(trace, k, |trace|);
        assert before[k] == Tick(true) && NoPong(before, k, |before|);
        assert !trace[n].Pong?;
      }
      if trace[n] == Tick(true) {
        assert NoPong(trace, n, |trace|);
      }
    }
  }

  /** The tick that counted the last miss. */
  lemma {:induction false} LastMiss(trace: seq<Event>) returns (t: nat)
    requires After(trace).Alive? && After(trace).missed > 0
    ensures t < |trace| && trace[t].Tick?
    ensures After(trace[..t]) == Alive(true, After(trace).missed - 1, false)
    ensures NoTick(trace, t, |trace|) && NoPong(trace, t, |trace|) && NoStream(trace, t, |trace|)
    ensures !After(trace).activity ==> NoData(trace, t, |trace|)
  {
    var n := |trace| - 1;
    var before := trace[..n];
    MissedOnlyWhileWaiting(before);
    if trace[n].Tick? {
      t := n;
    } else {
      t := LastMiss(before);
      assert before[..t] == trace[..t];
    }
  }

  /** The last tick before a moment with an outstanding PING. */
  lemma {:induction false} LastTick(trace: seq<Event>) returns (t: nat)
    requires After(trace).Alive? && After(trace).waiting
    ensures t < |trace| && trace[t].Tick?
    ensures After(trace[..t + 1]).Alive? && After(trace[..t + 1]).waiting
    ensures NoTick(trace, t, |trace|) && NoPong(trace, t, |trace|)
    ensures !After(trace).activity ==> NoData(trace, t, |trace|)
  {
    var n := |trace| - 1;
    var before := trace[..n];
    if trace[n].Tick? {
      t := n;
      assert trace[..n + 1] == trace;
    } else {
      t := LastTick(before);
      assert before[..t + 1] == trace[..t + 1];
    }
  }

  /** Ticks take the activity flag. */
  lemma {:induction false} TickClears(trace: seq<Event>, t: nat)
    requires t < |trace| && trace[t].Tick? && After(trace[..t + 1]).Alive?
    ensures !After(trace[..t + 1]).activity
  {
    AfterNext(trace, t);
  }

  /** Up to the next tick, PONG and data nothing changes but a reset by a new stream. */
  lemma {:induction false} QuietSpan(trace: seq<Event>, i: nat, j: nat)
    requires i < j <= |trace|
    requires NoTick(trace, i, j) && NoPong(trace, i, j) && NoData(trace, i, j)
    requires After(trace[..i + 1]).Alive?
    ensures var a, b := After(trace[..i + 1]), After(trace[..j]);
            && b.Alive? && b.waiting == a.waiting && b.activity == a.activity
            && (NoStream(trace, i, j) ==> b.missed == a.missed)
    decreases j - i
  {
    if j > i + 1 {
      QuietSpan(trace, i, j - 1);
      AfterNext(trace, j - 1);
    }
  }

  /** A dead connection stays dead. */
  lemma {:induction false} DeadStaysDead(trace: seq<Event>, k: nat)
    requires k <= |trace| && After(trace).Alive?
    ensures After(trace[..k]).Alive?
    decreases |trace|
  {
    if k == |trace| {
      assert trace[..k] == trace;
    } else {
      DeadStaysDead(trace[..|trace| - 1], k);
      assert trace[..|trace| - 1][..k] == trace[..k];
    }
  }

  /** A timeout has three misses behind it. */
  lemma {:induction false} TimeoutHasMisses(trace: seq<Event>, sendOk: bool)
    requires After(trace).Alive? && After(trace + [Tick(sendOk)]) == TimedOut
    ensures exists t0, t1, t2 :: ThreeMisses(trace + [Tick(sendOk)], t0, t1, t2)
  {
    var whole := trace + [Tick(sendOk)];
    AfterSnoc(trace, Tick(sendOk));
    MissedOnlyWhileWaiting(trace);
    var t2 := LastMiss(trace);
    var t1 := LastMiss(trace[..t2]);
    assert trace[..t2][..t1] == trace[..t1];
    var t0 := LastTick(trace[..t1]);
    assert trace[..t1][..t0 + 1] == trace[..t0 + 1] == whole[..t0 + 1];
    WaitingExactly(trace[..t0 + 1]);
    SpansJoin(trace, whole, t0, t1, t2);
    assert ThreeMisses(whole, t0, t1, t2);
  }

  /** Facts about the spans between the ticks, put together. */
  lemma {:induction false} SpansJoin(trace: seq<Event>, whole: seq<Event>, t0: int, t1: int, t2: int)
    requires 0 <= t0 < t1 < t2 < |trace| && trace <= whole
    requires trace[t1].Tick? && trace[t2].Tick?
    requires NoTick(trace[..t1], t0, t1) && NoTick(trace[..t2], t1, t2) && NoTick(trace, t2, |trace|)
    requires NoPong(trace[..t1], t0, t1) && NoPong(trace[..t2], t1, t2) && NoPong(trace, t2, |trace|)
    requires NoData(trace[..t1], t0, t1) && NoData(trace[..t2], t1, t2) && NoData(trace, t2, |trace|)
    requires NoStream(trace[..t2], t1, t2) && NoStream(trace, t2, |trace|)
    ensures NoTick(whole, t0, t1) && NoTick(whole, t1, t2) && NoTick(whole, t2, |trace|)
    ensures NoPong(whole, t0, |trace|) && NoData(whole, t0, |trace|) && NoStream(whole, t1, |trace|)
  {
    assert forall k :: 0 <= k < t1 ==> whole[k] == trace[..t1][k];
    assert forall k :: 0 <= k < t2 ==> whole[k] == trace[..t2][k];
    assert forall k :: 0 <= k < |trace| ==> whole[k] == trace[k];
  }

  /** Three misses are a timeout. */
  lemma {:induction false} MissesTimeOut(trace: seq<Event>, sendOk: bool, t0: int, t1: int, t2: int)
    requires After(trace).Alive? && ThreeMisses(trace + [Tick(sendOk)], t0, t1, t2)
    ensures After(trace + [Tick(sendOk)]) == TimedOut
  {
    var whole := trace + [Tick(sendOk)];
    assert whole[..|trace|] == trace;
    AfterSnoc(trace, Tick(sendOk));
    AliveAt(trace, sendOk, t0 + 1);
    WaitingExactly(whole[..t0 + 1]);
    TickClears(whole, t0);
    QuietSpan(whole, t0, t1);
    AfterNext(whole, t1);
    AliveAt(trace, sendOk, t1 + 1);
    QuietSpan(whole, t1, t2);
    AfterNext(whole, t2);
    AliveAt(trace, sendOk, t2 + 1);
    QuietSpan(whole, t2, |trace|);
  }

  lemma {:induction false} AliveAt(trace: seq<Event>, sendOk: bool, k: nat)
    requires After(trace).Alive? && k <= |trace|
    ensures After((trace + [Tick(sendOk)])[..k]).Alive?
  {
    DeadStaysDead(trace, k);
    assert (trace + [Tick(sendOk)])[..k] == trace[..k];
  }

  /** A tick on a live connection times out exactly on three misses. */
  lemma {:induction false} TimeoutExactly(trace: seq<Event>, sendOk: bool)
    requires After(trace).Alive?
    ensures After(trace + [Tick(sendOk)]) == TimedOut <==>
            exists t0, t1, t2 :: ThreeMisses(trace + [Tick(sendOk)], t0, t1, t2)
  {
    if After(trace + [Tick(sendOk)]) == TimedOut {
      TimeoutHasMisses(trace, sendOk);
    }
    if exists t0, t1, t2 :: ThreeMisses(trace + [Tick(sendOk)], t0, t1, t2) {
      var t0, t1, t2 :| ThreeMisses(trace + [Tick(sendOk)], t0, t1, t2);
      MissesTimeOut(trace, sendOk, t0, t1, t2);
    }
  }

  // ---------------------------------------------------------------- silent peers

  /** A peer that falls silent at any moment is declared dead by the fourth tick. */
  lemma {:induction false} SilentPeerIsDead(trace: seq<Event>)
    ensures !After(trace + [Tick(true)] + [Tick(true)] + [Tick(true)] + [Tick(true)]).Alive?
  {
    hide After;
    var one := trace + [Tick(true)];
    AfterSnoc(trace, Tick(true));
    AfterSnoc(one, Tick(true));
    AfterSnoc(one + [Tick(true)], Tick(true));
    AfterSnoc(one + [Tick(true)] + [Tick(true)], Tick(true));
  }

  /** Three ticks are enough exactly when a PING was outstanding and no data had come since the
      tick before. */
  lemma {:induction false} ThreeTicksExactly(trace: seq<Event>)
    requires After(trace).Alive?
    ensures !After(trace + [Tick(true)] + [Tick(true)] + [Tick(true)]).Alive? <==>
            Outstanding(trace) && !After(trace).activity
  {
    hide After, Outstanding;
    WaitingExactly(trace);
    MissedOnlyWhileWaiting(trace);
    var one := trace + [Tick(true)];
    AfterSnoc(trace, Tick(true));
    AfterSnoc(one, Tick(true));
    AfterSnoc(one + [Tick(true)], Tick(true));
  }

  /** If no PING can ever be sent, the heartbeat never gives up. */
  lemma {:induction false} UnsentNeverTimesOut(trace: seq<Event>)
    requires Tick(true) !in trace
    ensures After(trace).Alive? && !After(trace).waiting
  {
    if trace != [] {
      var before := trace[..|trace| - 1];
      assert forall e :: e in before ==> e in trace;
      UnsentNeverTimesOut(before);
      assert trace[|trace| - 1] in trace;
    }
  }
}
