/** Draining a gRPC connection that carries no stream: GOAWAY on the third idle tick, close on the
    fourth.  Ticks come every half idle timeout. */
module IdleDrain {

  /** What the connection loop sees, with the time it happens.  A probe is a request that is turned
      away; it never becomes a stream. */
  datatype Event = Accept(at: nat) | Probe(at: nat) | End(at: nat) | Tick(at: nat)

  datatype Action = Stay | GoAway | Close

  // ---------------------------------------------------------------- traces

  /** Streams alive after the trace. */
  function Live(trace: seq<Event>): int {
    if trace == [] then 0
    else
      var before := Live(trace[..|trace| - 1]);
      match trace[|trace| - 1]
      case Accept(_) => before + 1
      case End(_) => before - 1
      case _ => before
  }

  predicate Busy(e: Event) {
    e.Accept? || e.End?
  }

  /** When a stream last began or ended; the start of the connection if none did. */
  function BusyAt(trace: seq<Event>): nat {
    if trace == [] then 0
    else if Busy(trace[|trace| - 1]) then trace[|trace| - 1].at
    else BusyAt(trace[..|trace| - 1])
  }

  /** When a stream last ended; the start of the connection if none did. */
  function EndedAt(trace: seq<Event>): nat {
    if trace == [] then 0
    else if trace[|trace| - 1].End? then trace[|trace| - 1].at
    else EndedAt(trace[..|trace| - 1])
  }

  /** Ticks since the last beginning or end of a stream. */
  function TicksSinceBusy(trace: seq<Event>): nat {
    if trace == [] || Busy(trace[|trace| - 1]) then 0
    else TicksSinceBusy(trace[..|trace| - 1]) + (if trace[|trace| - 1].Tick? then 1 else 0)
  }

  function LastTickAt(trace: seq<Event>): nat {
    if trace == [] then 0
    else if trace[|trace| - 1].Tick? then trace[|trace| - 1].at
    else LastTickAt(trace[..|trace| - 1])
  }

  function Now(trace: seq<Event>): nat {
    if trace == [] then 0 else trace[|trace| - 1].at
  }

  /** Streams end only after they began; time does not run backwards; ticks come `half` apart,
      counted from the start, and nothing is later than the next tick. */
  predicate Timely(trace: seq<Event>, half: nat) {
    trace == [] ||
    var before, e := trace[..|trace| - 1], trace[|trace| - 1];
    && Timely(before, half)
    && Now(before) <= e.at <= LastTickAt(before) + half
    && (e.Tick? ==> e.at == LastTickAt(before) + half)
    && (e.End? ==> Live(before) > 0)
  }

  lemma {:induction false} Snoc(trace: seq<Event>, e: Event)
    ensures (trace + [e])[..|trace|] == trace
    ensures Live(trace + [e]) == Live(trace) + (if e.Accept? then 1 else if e.End? then -1 else 0)
    ensures TicksSinceBusy(trace + [e]) ==
            if Busy(e) then 0 else TicksSinceBusy(trace) + (if e.Tick? then 1 else 0)
  {
    assert (trace + [e])[..|trace|] == trace;
  }

  // ---------------------------------------------------------------- the loop

  class Connection {
    var activeStreams: nat
    var idleTicks: nat

    ghost var trace: seq<Event>

    constructor ()
      ensures Valid() && trace == []
    {
      activeStreams, idleTicks, trace := 0, 0, [];
    }

    /** With a stream alive no tick is idle; without one every tick since the last is. */
    ghost predicate Valid()
      reads this
    {
      && activeStreams == Live(trace)
      && idleTicks == if activeStreams > 0 then 0 else TicksSinceBusy(trace)
    }

    method OnAccept(at: nat)
      requires Valid()
      modifies this
      ensures Valid() && trace == old(trace) + [Accept(at)]
    {
      hide Live, TicksSinceBusy;
      Snoc(trace, Accept(at));
      idleTicks, activeStreams := 0, activeStreams + 1;
      trace := trace + [Accept(at)];
    }

    /** A request that is turned away does not count against idleness. */
    method OnProbe(at: nat)
      requires Valid()
      modifies this
      ensures Valid() && trace == old(trace) + [Probe(at)]
      ensures idleTicks == old(idleTicks)
    {
      hide Live, TicksSinceBusy;
      Snoc(trace, Probe(at));
      trace := trace + [Probe(at)];
    }

    method OnEnd(at: nat)
      requires Valid() && activeStreams > 0
      modifies this
      ensures Valid() && trace == old(trace) + [End(at)]
    {
      hide Live, TicksSinceBusy;
      Snoc(trace, End(at));
      activeStreams := activeStreams - 1;
      trace := trace + [End(at)];
    }

    method OnTick(at: nat) returns (action: Action)
      requires Valid()
      modifies this
      ensures Valid() && trace == old(trace) + [Tick(at)]
      ensures action == ActionAt(trace)
    {
      hide Live, TicksSinceBusy;
      Snoc(trace, Tick(at));
      action := Stay;
      trace := trace + [Tick(at)];
      if activeStreams == 0 {
        idleTicks := idleTicks + 1;
        if idleTicks == 3 {
          action := GoAway;
        } else if idleTicks > 3 {
          action := Close;
        }
      } else {
        idleTicks := 0;
      }
    }
  }

  /** What the loop does at the last event, read off the trace. */
  function ActionAt(trace: seq<Event>): Action {
    if trace == [] || !trace[|trace| - 1].Tick? || Live(trace) != 0 then Stay
    else if TicksSinceBusy(trace) < 3 then Stay
    else if TicksSinceBusy(trace) == 3 then GoAway
    else Close
  }

  /** What a tick does, by the ticks of the idle stretch it belongs to: from some point on no stream
      began or ended, and just before that one did, or the connection began. */
  lemma {:induction false} ActionExactly(trace: seq<Event>, from: nat)
    requires from < |trace| && trace[|trace| - 1].Tick?
    requires from > 0 ==> trace[from - 1].Accept? || trace[from - 1].End?
    requires forall k :: from <= k < |trace| ==> trace[k].Tick? || trace[k].Probe?
    ensures var n := Ticks(trace[from..]);
            ActionAt(trace) == if Live(trace) != 0 || n <= 2 then Stay else if n == 3 then GoAway else Close
  {
    TicksOfStretch(trace, from);
  }

  lemma {:induction false} TicksOfStretch(trace: seq<Event>, from: nat)
    requires from <= |trace|
    requires from > 0 ==> trace[from - 1].Accept? || trace[from - 1].End?
    requires forall k :: from <= k < |trace| ==> trace[k].Tick? || trace[k].Probe?
    ensures TicksSinceBusy(trace) == Ticks(trace[from..])
  {
    if from < |trace| {
      var before := trace[..|trace| - 1];
      TicksOfStretch(before, from);
      assert trace[from..][..|trace| - 1 - from] == before[from..];
    }
  }

  // ---------------------------------------------------------------- timing

  /** The ticks since the last stream tell the time that has passed: the first of them came within
      `half` of it and the others `half` apart. */
  lemma {:induction false} TicksTellTime(trace: seq<Event>, half: nat)
    requires Timely(trace, half)
    ensures Now(trace) <= LastTickAt(trace) + half && LastTickAt(trace) <= Now(trace)
    ensures var n := TicksSinceBusy(trace);
            && (n == 0 ==> LastTickAt(trace) <= BusyAt(trace) <= LastTickAt(trace) + half)
            && (n == 1 ==> BusyAt(trace) <= LastTickAt(trace) <= BusyAt(trace) + half)
            && (n == 2 ==> BusyAt(trace) + half <= LastTickAt(trace) <= BusyAt(trace) + 2 * half)
            && (n == 3 ==> BusyAt(trace) + 2 * half <= LastTickAt(trace) <= BusyAt(trace) + 3 * half)
            && (n >= 4 ==> BusyAt(trace) + 3 * half <= LastTickAt(trace))
  {
    if trace != [] {
      TicksTellTime(trace[..|trace| - 1], half);
    }
  }

  lemma {:induction false} NeverNegative(trace: seq<Event>, half: nat)
    requires Timely(trace, half)
    ensures Live(trace) >= 0
  {
    if trace != [] {
      NeverNegative(trace[..|trace| - 1], half);
    }
  }

  /** Without a stream, the last thing that happened to one is its end. */
  lemma {:induction false} IdleSinceAnEnd(trace: seq<Event>, half: nat)
    requires Timely(trace, half) && Live(trace) == 0
    ensures BusyAt(trace) == EndedAt(trace)
  {
    if trace != [] {
      NeverNegative(trace[..|trace| - 1], half);
      if !Busy(trace[|trace| - 1]) {
        IdleSinceAnEnd(trace[..|trace| - 1], half);
      }
    }
  }

  /** GOAWAY comes between one and one and a half idle timeouts after the last stream ended. */
  lemma {:induction false} GoAwayIsTimely(trace: seq<Event>, half: nat)
    requires Timely(trace, half) && ActionAt(trace) == GoAway
    ensures EndedAt(trace) + 2 * half <= Now(trace) <= EndedAt(trace) + 3 * half
  {
    TicksTellTime(trace, half);
    IdleSinceAnEnd(trace, half);
  }

  /** And it does come: once that time is over without a stream, some tick has sent it. */
  lemma {:induction false} GoAwayComes(trace: seq<Event>, half: nat) returns (k: nat)
    requires half > 0 && Timely(trace, half) && Live(trace) == 0
    requires LastTickAt(trace) >= EndedAt(trace) + 3 * half
    ensures k <= |trace| && ActionAt(trace[..k]) == GoAway
    ensures EndedAt(trace) + 2 * half <= Now(trace[..k]) <= EndedAt(trace) + 3 * half
  {
    IdleSinceAnEnd(trace, half);
    TicksTellTime(trace, half);
    k := ThirdTick(trace, half);
    IdleSinceAnEnd(trace[..k], half);
    GoAwayIsTimely(trace[..k], half);
  }

  lemma {:induction false} ThirdTick(trace: seq<Event>, half: nat) returns (k: nat)
    requires Timely(trace, half) && Live(trace) == 0 && TicksSinceBusy(trace) >= 3
    ensures k <= |trace| && ActionAt(trace[..k]) == GoAway
    ensures Timely(trace[..k], half) && BusyAt(trace[..k]) == BusyAt(trace)
  {
    var before := trace[..|trace| - 1];
    if trace[|trace| - 1].Tick? && TicksSinceBusy(trace) == 3 {
      k := |trace|;
      assert trace[..k] == trace;
    } else {
      k := ThirdTick(before, half);
      assert before[..k] == trace[..k];
    }
  }

  /** At a hard close the last four ticks, and everything between them, saw no stream. */
  lemma {:induction false} CloseMeansIdle(trace: seq<Event>) returns (from: nat)
    requires ActionAt(trace) == Close
    ensures from <= |trace| && Ticks(trace[from..]) >= 4
    ensures forall k :: from <= k <= |trace| ==> Live(trace[..k]) == 0
  {
    from := IdleStretch(trace);
  }

  function Ticks(trace: seq<Event>): nat {
    if trace == [] then 0
    else Ticks(trace[..|trace| - 1]) + (if trace[|trace| - 1].Tick? then 1 else 0)
  }

  /** The stretch since the last stream began or ended. */
  lemma {:induction false} IdleStretch(trace: seq<Event>) returns (from: nat)
    ensures from <= |trace| && Ticks(trace[from..]) == TicksSinceBusy(trace)
    ensures forall k :: from <= k <= |trace| ==> Live(trace[..k]) == Live(trace)
    ensures forall k :: from <= k < |trace| ==> !Busy(trace[k])
  {
    if trace == [] || Busy(trace[|trace| - 1]) {
      from := |trace|;
      assert trace[..|trace|] == trace;
    } else {
      var before := trace[..|trace| - 1];
      from := IdleStretch(before);
      assert trace[from..][..|trace| - 1 - from] == before[from..];
      assert trace[..|trace|] == trace;
      forall k | from <= k <= |trace|
        ensures Live(trace[..k]) == Live(trace)
      {
        if k < |trace| {
          assert trace[..k] == before[..k];
        }
      }
    }
  }

  /** And a close comes: two idle timeouts after the last stream ended, some tick has closed. */
  lemma {:induction false} CloseComes(trace: seq<Event>, half: nat) returns (k: nat)
    requires half > 0 && Timely(trace, half) && Live(trace) == 0
    requires LastTickAt(trace) >= EndedAt(trace) + 4 * half
    ensures k <= |trace| && ActionAt(trace[..k]) == Close
    ensures EndedAt(trace) + 3 * half <= Now(trace[..k]) <= EndedAt(trace) + 4 * half
  {
    IdleSinceAnEnd(trace, half);
    FourthTellsTime(trace, half);
    k := FourthTick(trace, half);
    IdleSinceAnEnd(trace[..k], half);
    FourthTellsTime(trace[..k], half);
  }

  lemma {:induction false} FourthTellsTime(trace: seq<Event>, half: nat)
    requires Timely(trace, half)
    ensures TicksSinceBusy(trace) <= 3 ==> LastTickAt(trace) <= BusyAt(trace) + 3 * half
    ensures TicksSinceBusy(trace) == 4 ==> BusyAt(trace) + 3 * half <= LastTickAt(trace) <= BusyAt(trace) + 4 * half
  {
    TicksTellTime(trace, half);
    if trace != [] {
      TicksTellTime(trace[..|trace| - 1], half);
      FourthTellsTime(trace[..|trace| - 1], half);
    }
  }

  lemma {:induction false} FourthTick(trace: seq<Event>, half: nat) returns (k: nat)
    requires Timely(trace, half) && Live(trace) == 0 && TicksSinceBusy(trace) >= 4
    ensures k <= |trace| && ActionAt(trace[..k]) == Close && TicksSinceBusy(trace[..k]) == 4
    ensures Timely(trace[..k], half) && BusyAt(trace[..k]) == BusyAt(trace) && k > 0 && trace[k - 1].Tick?
    ensures Live(trace[..k]) == 0 && EndedAt(trace[..k]) == EndedAt(trace)
  {
    var before := trace[..|trace| - 1];
    if trace[|trace| - 1].Tick? && TicksSinceBusy(trace) == 4 {
      k := |trace|;
      assert trace[..k] == trace;
    } else {
      k := FourthTick(before, half);
      assert before[..k] == trace[..k];
    }
  }

  /** A close always follows a GOAWAY in the same idle stretch. */
  lemma {:induction false} CloseFollowsGoAway(trace: seq<Event>, half: nat) returns (k: nat)
    requires Timely(trace, half) && ActionAt(trace) == Close
    ensures k < |trace| && ActionAt(trace[..k]) == GoAway && BusyAt(trace[..k]) == BusyAt(trace)
    ensures Now(trace) >= Now(trace[..k]) + half
  {
    var before := trace[..|trace| - 1];
    k := ThirdTick(before, half);
    assert before[..k] == trace[..k];
    TicksTellTime(trace, half);
    TicksTellTime(trace[..k], half);
    TickLater(before, k, half);
  }

  lemma {:induction false} TickLater(trace: seq<Event>, k: nat, half: nat)
    requires k <= |trace| && Timely(trace, half)
    ensures LastTickAt(trace[..k]) <= LastTickAt(trace)
  {
    if k == |trace| {
      assert trace[..k] == trace;
    } else {
      var before := trace[..|trace| - 1];
      TickLater(before, k, half);
      assert before[..k] == trace[..k];
      TicksTellTime(before, half);
    }
  }
}
