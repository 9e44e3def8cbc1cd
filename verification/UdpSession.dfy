/** One UDP ASSOCIATE session: packets are cut from the client's stream, routed, and sent over the
    one outbound association that is alive. */
module UdpSession {
  import opened Bytes
  import opened Trojan
  import opened UdpFraming

  const UDP_MAX_ROUTE_CACHE_ENTRIES: nat := 256
  const UDP_MAX_CONSECUTIVE_ERRORS: nat := 8

  lemma {:induction false} LimitsAre()
    ensures UDP_MAX_CONSECUTIVE_ERRORS == 8 && UDP_MAX_READ_BUFFER_SIZE == 65536
  {
  }

  // ---------------------------------------------------------------- routing

  /** An outbound handler, by identity. */
  type Handler = nat

  datatype Ip = V4(v4: Bytes) | V6(v6: Bytes)
  datatype Resolved = Resolved(v4: Option<Bytes>, v6: Option<Bytes>)

  datatype Outbound =
    | Reject
    | Direct(bound: Option<Handler>, resolved: Option<Resolved>)
    | Proxy(via: Handler, hijack: Option<Ip>)

  datatype Dest = Dest(host: Address, resolved: Option<Resolved>)
  datatype Route = Route(outbound: Outbound, sendAddr: Dest)

  function FromIp(ip: Ip, port: nat): Address {
    match ip
    case V4(octets) => IPv4(octets, port)
    case V6(octets) => IPv6(octets, port)
  }

  /** route_udp_target: the router's choice, with a hijacked destination applied. */
  function RouteTo(router: Address -> Outbound, target: Address): Route {
    var outbound := router(target);
    var sendAddr := match outbound {
      case Direct(_, resolved) => Dest(target, resolved)
      case Proxy(_, Some(ip)) => Dest(FromIp(ip, target.port), None)
      case Proxy(_, None) => Dest(target, None)
      case Reject => Dest(target, None)
    };
    Route(outbound, sendAddr)
  }

  /** A route is the router's choice, and its destination the one the choice names. */
  lemma {:induction false} RouteExactly(router: Address -> Outbound, target: Address)
    ensures RouteTo(router, target).outbound == router(target)
    ensures RouteTo(router, target).sendAddr ==
            match router(target)
            case Reject => Dest(target, None)
            case Direct(_, resolved) => Dest(target, resolved)
            case Proxy(_, None) => Dest(target, None)
            case Proxy(_, Some(V4(octets))) => Dest(IPv4(octets, target.port), None)
            case Proxy(_, Some(V6(octets))) => Dest(IPv6(octets, target.port), None)
  {
  }

  // ---------------------------------------------------------------- what happens to packets

  datatype Dialer = ByDirect | ByProxy(handler: Handler)
  datatype Conn = Conn(dialer: Dialer, serial: nat)

  datatype Fate =
    | Refused
    | NoUdp
    | DialFailed
    | Unconnected
    | Written(conn: Conn, dest: Dest, data: Bytes, n: nat)
    | WriteError(conn: Conn, dest: Dest, data: Bytes)

  datatype Entry = Entry(packet: Packet, fate: Fate)

  predicate Attempted(f: Fate) {
    f.Written? || f.WriteError?
  }

  /** What may have become of a packet, by the router's choice alone: a packet is sent, with its own
      payload, only to the destination the router gave, over an association of the outbound it named. */
  predicate Legit(router: Address -> Outbound, allowsUdp: Handler -> bool, e: Entry) {
    var target, f := e.packet.addr, e.fate;
    match router(target)
    case Reject => f == Refused
    case Direct(_, resolved) => f == DialFailed || SentTo(f, ByDirect, Dest(target, resolved), e.packet.payload)
    case Proxy(h, hijack) =>
      if !allowsUdp(h) then f == NoUdp
      else || f == DialFailed || f == Unconnected
           || match hijack
              case None => SentTo(f, ByProxy(h), Dest(target, None), e.packet.payload)
              case Some(V4(octets)) => SentTo(f, ByProxy(h), Dest(IPv4(octets, target.port), None), e.packet.payload)
              case Some(V6(octets)) => SentTo(f, ByProxy(h), Dest(IPv6(octets, target.port), None), e.packet.payload)
  }

  predicate SentTo(f: Fate, dialer: Dialer, dest: Dest, data: Bytes) {
    (f.Written? || f.WriteError?) && f.conn.dialer == dialer && f.dest == dest && f.data == data
  }

  /** The next answer to a dial, and the answers behind it. */
  predicate DialWorks(replies: seq<bool>) {
    replies != [] && replies[0]
  }

  function Behind<T>(replies: seq<T>): seq<T> {
    if replies == [] then [] else replies[1..]
  }

  /** The association there is and the handler it belongs to, and the answers dials and sends will get. */
  datatype Assoc = Assoc(handler: Option<Handler>, conn: Option<Conn>, dialed: nat, dials: seq<bool>,
                         writes: seq<Option<nat>>)

  /** A dial; what was up before is gone either way. */
  function Dialed(a: Assoc, dialer: Dialer): Assoc {
    a.(conn := if DialWorks(a.dials) then Some(Conn(dialer, a.dialed)) else None,
       dialed := a.dialed + 1, dials := Behind(a.dials))
  }

  /** A send over what is up. */
  function SentOver(a: Assoc, dest: Dest, data: Bytes): (Fate, Assoc) {
    match a.conn
    case None => (Unconnected, a)
    case Some(conn) =>
      (if a.writes != [] && a.writes[0].Some? then Written(conn, dest, data, a.writes[0].value)
       else WriteError(conn, dest, data),
       a.(writes := Behind(a.writes)))
  }

  /** A packet for the direct outbound: one association serves them all, unless a proxy's is up. */
  function TreatDirect(a: Assoc, dest: Dest, data: Bytes): (Fate, Assoc) {
    if a.conn.Some? && a.handler.None? then SentOver(a, dest, data)
    else
      var up := Dialed(a.(handler := None), ByDirect);
      if up.conn.None? then (DialFailed, up) else SentOver(up, dest, data)
  }

  /** A packet for a proxy: its handler becomes the current one only if the dial works. */
  function TreatProxy(a: Assoc, h: Handler, dest: Dest, data: Bytes): (Fate, Assoc) {
    if a.handler == Some(h) then SentOver(a, dest, data)
    else
      var up := Dialed(a, ByProxy(h));
      if up.conn.None? then (DialFailed, up) else SentOver(up.(handler := Some(h)), dest, data)
  }

  /** What becomes of one packet. */
  function Treat(router: Address -> Outbound, allowsUdp: Handler -> bool, a: Assoc, p: Packet): (Fate, Assoc) {
    var dest := RouteTo(router, p.addr).sendAddr;
    match router(p.addr)
    case Reject => (Refused, a)
    case Direct(_, _) => TreatDirect(a, dest, p.payload)
    case Proxy(h, _) => if allowsUdp(h) then TreatProxy(a, h, dest, p.payload) else (NoUdp, a)
  }

  /** What the packets of a history have made of the association. */
  function AssocAfter(router: Address -> Outbound, allowsUdp: Handler -> bool, a: Assoc, log: seq<Entry>): Assoc {
    if log == [] then a
    else Treat(router, allowsUdp, AssocAfter(router, allowsUdp, a, log[..|log| - 1]), log[|log| - 1].packet).1
  }

  /** Every packet of a history has met the fate the packets before it have left for it. */
  ghost predicate Consequent(router: Address -> Outbound, allowsUdp: Handler -> bool, a: Assoc, log: seq<Entry>) {
    forall k :: 0 <= k < |log| ==>
      log[k].fate == Treat(router, allowsUdp, AssocAfter(router, allowsUdp, a, log[..k]), log[k].packet).0
  }

  lemma {:induction false} ConsequentSnoc(router: Address -> Outbound, allowsUdp: Handler -> bool, a: Assoc,
                                          log: seq<Entry>, e: Entry)
    requires Consequent(router, allowsUdp, a, log)
    requires e.fate == Treat(router, allowsUdp, AssocAfter(router, allowsUdp, a, log), e.packet).0
    ensures Consequent(router, allowsUdp, a, log + [e])
    ensures AssocAfter(router, allowsUdp, a, log + [e]) ==
            Treat(router, allowsUdp, AssocAfter(router, allowsUdp, a, log), e.packet).1
  {
    hide Treat;
    var more := log + [e];
    assert more[..|log|] == log;
    forall k | 0 <= k < |more|
      ensures more[k].fate == Treat(router, allowsUdp, AssocAfter(router, allowsUdp, a, more[..k]), more[k].packet).0
    {
      if k < |log| {
        assert more[..k] == log[..k];
      }
    }
  }

  function PacketsOf(log: seq<Entry>): seq<Packet> {
    if log == [] then [] else PacketsOf(log[..|log| - 1]) + [log[|log| - 1].packet]
  }

  lemma {:induction false} PacketsOfSnoc(log: seq<Entry>, e: Entry)
    ensures PacketsOf(log + [e]) == PacketsOf(log) + [e.packet]
  {
    assert (log + [e])[..|log|] == log;
  }

  lemma {:induction false} NothingHandled(ps: seq<Packet>)
    ensures PacketsOf([]) + ps == ps
  {
  }

  /** The association after these fates: the last one used, unless a dial has failed since. */
  function ConnOf(log: seq<Entry>): Option<Conn> {
    if log == [] then None
    else
      match log[|log| - 1].fate
      case DialFailed => None
      case Written(conn, _, _, _) => Some(conn)
      case WriteError(conn, _, _) => Some(conn)
      case _ => ConnOf(log[..|log| - 1])
  }

  lemma {:induction false} ConnSnoc(log: seq<Entry>, e: Entry)
    ensures ConnOf(log + [e]) ==
            if e.fate.DialFailed? then None else if Attempted(e.fate) then Some(e.fate.conn) else ConnOf(log)
  {
    assert (log + [e])[..|log|] == log;
  }

  lemma {:induction false} AsManyPackets(log: seq<Entry>)
    ensures |PacketsOf(log)| == |log|
  {
    if log != [] {
      AsManyPackets(log[..|log| - 1]);
    }
  }

  /** Failed sends since the last one that worked. */
  function SendStreak(log: seq<Entry>): nat {
    if log == [] then 0
    else
      match log[|log| - 1].fate
      case WriteError(_, _, _) => SendStreak(log[..|log| - 1]) + 1
      case Written(_, _, _, _) => 0
      case _ => SendStreak(log[..|log| - 1])
  }

  /** Bytes the outbound took. */
  function BytesSent(log: seq<Entry>): nat {
    if log == [] then 0
    else
      BytesSent(log[..|log| - 1]) + (if log[|log| - 1].fate.Written? then log[|log| - 1].fate.n else 0)
  }

  lemma {:induction false} LogSnoc(log: seq<Entry>, e: Entry)
    ensures SendStreak(log + [e]) ==
            (if e.fate.WriteError? then SendStreak(log) + 1 else if e.fate.Written? then 0 else SendStreak(log))
    ensures BytesSent(log + [e]) == BytesSent(log) + (if e.fate.Written? then e.fate.n else 0)
  {
    assert (log + [e])[..|log|] == log;
  }

  /** Some packet got out. */
  predicate Forwarded(log: seq<Entry>) {
    exists e :: e in log && e.fate.Written?
  }

  lemma {:induction false} ForwardedSnoc(log: seq<Entry>, e: Entry)
    ensures Forwarded(log + [e]) <==> Forwarded(log) || e.fate.Written?
  {
    assert e in log + [e];
    assert forall x :: x in log ==> x in log + [e];
  }

  /** Some packet between two points of the history got out. */
  predicate SentBetween(log: seq<Entry>, from: nat, to: nat) {
    exists i :: from <= i < to && i < |log| && log[i].fate.Written?
  }

  lemma {:induction false} ForwardedSince(before: seq<Entry>, log: seq<Entry>)
    requires before <= log
    ensures Forwarded(log[|before|..]) <==> SentBetween(log, |before|, |log|)
  {
    if Forwarded(log[|before|..]) {
      var i :| 0 <= i < |log[|before|..]| && log[|before|..][i].fate.Written?;
      assert log[|before| + i].fate.Written?;
    }
    if SentBetween(log, |before|, |log|) {
      var i :| |before| <= i < |log| && log[i].fate.Written?;
      assert log[|before|..][i - |before|] == log[i];
      assert log[i] in log[|before|..];
    }
  }

  /** From some point on, every packet was handled after fewer failed sends than the limit. */
  ghost predicate Patient(start: nat, log: seq<Entry>) {
    forall k :: start <= k < |log| ==> SendStreak(log[..k]) < 8
  }

  lemma {:induction false} PatientHere(log: seq<Entry>)
    ensures Patient(|log|, log)
  {
  }

  lemma {:induction false} PatientSnoc(start: nat, log: seq<Entry>, e: Entry)
    requires Patient(start, log) && SendStreak(log) < UDP_MAX_CONSECUTIVE_ERRORS
    ensures Patient(start, log + [e])
  {
    hide SendStreak;
    forall k | start <= k < |log + [e]|
      ensures SendStreak((log + [e])[..k]) < UDP_MAX_CONSECUTIVE_ERRORS
    {
      assert (log + [e])[..k] == log[..k];
      assert log[..|log|] == log;
    }
  }

  lemma {:induction false} PatientMore(start: nat, before: seq<Entry>, log: seq<Entry>)
    requires Patient(start, before) && before <= log && Patient(|before|, log)
    ensures Patient(start, log)
  {
    hide SendStreak;
    forall k | start <= k < |log|
      ensures SendStreak(log[..k]) < UDP_MAX_CONSECUTIVE_ERRORS
    {
      if k < |before| {
        assert log[..k] == before[..k];
      }
    }
  }

  /** Likewise for receives. */
  ghost predicate Bearing(start: nat, arrivals: seq<bool>) {
    forall k :: start <= k < |arrivals| ==> RecvStreak(arrivals[..k]) < 8
  }

  lemma {:induction false} BearingMore(start: nat, arrivals: seq<bool>, more: seq<bool>)
    requires Bearing(start, arrivals) && RecvStreak(arrivals) < UDP_MAX_CONSECUTIVE_ERRORS && |more| <= 1
    ensures Bearing(start, arrivals + more)
  {
    hide RecvStreak;
    forall k | start <= k < |arrivals + more|
      ensures RecvStreak((arrivals + more)[..k]) < UDP_MAX_CONSECUTIVE_ERRORS
    {
      assert (arrivals + more)[..k] == arrivals[..k];
      assert arrivals[..|arrivals|] == arrivals;
    }
  }

  lemma {:induction false} NothingForwarded()
    ensures !Forwarded([])
  {
  }

  // ---------------------------------------------------------------- what the session is told

  /** A read of the client stream; a chunk without bytes is its end. */
  datatype ReadReply = Chunk(data: Bytes) | ReadFailed

  /** A reply written whole, or an error or timeout after some of its bytes. */
  datatype Delivery = Delivered | NotDelivered(part: nat) | Stalled(part: nat)

  function FirstBytes(s: Bytes, n: nat): Bytes {
    s[..Min(n, |s|)]
  }

  datatype Event =
    | ClientTurn
    | Datagram(from: Address, payload: Bytes, delivery: Delivery)
    | DatagramError
    | IdleTick
    | Kick

  datatype Exit =
    | ClientGone | ReadError | BufferLimit | GaveUp
    | ReplyFailed | ReplyStalled | RecvErrors | IdleTimeout | Kicked

  function DataOf(script: seq<ReadReply>): Bytes {
    if script == [] then []
    else (if script[0].Chunk? then script[0].data else []) + DataOf(script[1..])
  }

  lemma {:induction false} FirstRead(received: Bytes, script: seq<ReadReply>)
    requires script != []
    ensures var data := if script[0].Chunk? then script[0].data else [];
            received + DataOf(script) == (received + data) + DataOf(script[1..])
    ensures !script[0].Chunk? || script[0].data == [] ==> DataOf(script) == DataOf(script[1..])
  {
  }

  /** Exits in the client's read. */
  predicate ReadEnds(exit: Option<Exit>) {
    exit == Some(ClientGone) || exit == Some(ReadError)
  }

  /** The client is gone exactly at the end of its stream, and a read fails exactly on an error. */
  predicate Told(exit: Option<Exit>, reply: ReadReply) {
    && (exit == Some(ClientGone) <==> reply == Chunk([]))
    && (exit == Some(ReadError) <==> reply.ReadFailed?)
  }

  /** At most one reply is read. */
  predicate ReadStep(exit: Option<Exit>, before: seq<ReadReply>, left: seq<ReadReply>) {
    || (left == before && !ReadEnds(exit))
    || (before != [] && left == before[1..] && Told(exit, before[0]))
  }

  /** All replies read brought bytes, but for one that ends the session. */
  predicate Consumed(exit: Option<Exit>, left: seq<ReadReply>, script: seq<ReadReply>) {
    && Remains(left, script)
    && var taken := |script| - |left|;
    && (ReadEnds(exit) ==> taken > 0)
    && forall i :: 0 <= i < taken ==> Told(if i == taken - 1 then exit else None, script[i])
  }

  lemma {:induction false} ConsumedMore(exit: Option<Exit>, before: seq<ReadReply>, left: seq<ReadReply>, script: seq<ReadReply>)
    requires Consumed(None, before, script) && ReadStep(exit, before, left)
    ensures Consumed(exit, left, script)
  {
  }

  /** Chunks taken in c turns of the client, the first of which is for an initial payload. */
  function TakenBy(script: seq<ReadReply>, pending: bool, c: nat): nat {
    Min(|script|, LeftOf(c, if pending then 1 else 0))
  }

  /** Bytes received by then. */
  function BytesBy(bytes: Bytes, script: seq<ReadReply>, pending: bool, c: nat): Bytes {
    bytes + DataOf(script[..TakenBy(script, pending, c)])
  }

  /** Packets handled by then. */
  function HandledBy(bytes: Bytes, script: seq<ReadReply>, pending: bool, c: nat): nat {
    if pending && c == 0 then 0 else |Packets(BytesBy(bytes, script, pending, c))|
  }

  /** Before the k-th turn the history had marks[k] entries: the packets of the bytes taken by then. */
  ghost predicate Marked(marks: seq<nat>, events: seq<(Event, nat)>, bytes: Bytes, script: seq<ReadReply>, pending: bool,
                         log: seq<Entry>)
  {
    |marks| <= |events| &&
    forall k :: 0 <= k < |marks| ==>
      marks[k] <= |log| && marks[k] == HandledBy(bytes, script, pending, ClientTurns(events[..k]))
  }

  /** All replies of the first n turns, each by the association of its moment. */
  ghost function Replied(events: seq<(Event, nat)>, marks: seq<nat>, log: seq<Entry>, n: nat): seq<Packet>
    requires n <= |marks| <= |events| && forall k :: 0 <= k < |marks| ==> marks[k] <= |log|
  {
    if n == 0 then []
    else Replied(events, marks, log, n - 1) + Reply(events[n - 1].0, ConnOf(log[..marks[n - 1]]))
  }

  ghost function Arrived(events: seq<(Event, nat)>, marks: seq<nat>, log: seq<Entry>, n: nat): seq<bool>
    requires n <= |marks| <= |events| && forall k :: 0 <= k < |marks| ==> marks[k] <= |log|
  {
    if n == 0 then []
    else Arrived(events, marks, log, n - 1) + Arrival(events[n - 1].0, ConnOf(log[..marks[n - 1]]))
  }

  /** A longer history, and more marks, change nothing about earlier turns. */
  lemma {:induction false} RepliedStays(events: seq<(Event, nat)>, marks: seq<nat>, log: seq<Entry>,
                                        marks': seq<nat>, log': seq<Entry>, n: nat)
    requires n <= |marks| && marks <= marks' && log <= log' && |marks'| <= |events|
    requires forall k :: 0 <= k < |marks| ==> marks[k] <= |log|
    requires forall k :: 0 <= k < |marks'| ==> marks'[k] <= |log'|
    ensures Replied(events, marks', log', n) == Replied(events, marks, log, n)
    ensures Arrived(events, marks', log', n) == Arrived(events, marks, log, n)
  {
    hide ConnOf, Reply, Arrival;
    if n > 0 {
      RepliedStays(events, marks, log, marks', log', n - 1);
      assert log'[..marks'[n - 1]] == log[..marks[n - 1]];
    }
  }

  /** The turn just taken, with the association `conn` it found. */
  lemma {:induction false} OneMore(events: seq<(Event, nat)>, marks: seq<nat>, log: seq<Entry>, log': seq<Entry>, n: nat,
                                   conn: Option<Conn>)
    requires n == |marks| < |events| && log <= log' && conn == ConnOf(log)
    requires forall k :: 0 <= k < |marks| ==> marks[k] <= |log|
    ensures var marks' := marks + [|log|];
            && Replied(events, marks', log', n + 1) == Replied(events, marks, log, n) + Reply(events[n].0, conn)
            && Arrived(events, marks', log', n + 1) == Arrived(events, marks, log, n) + Arrival(events[n].0, conn)
            && log'[..marks'[n]] == log
            && forall k :: 0 <= k < n ==> log'[..marks'[k]] == log[..marks[k]]
  {
    hide ConnOf, Reply, Arrival;
    RepliedStays(events, marks, log, marks + [|log|], log', n);
    assert log'[..|log|] == log;
  }

  /** The session as a run begins. */
  datatype Start = Start(received: Bytes, script: seq<ReadReply>, pending: bool, log: seq<Entry>,
                         replies: seq<Packet>, arrivals: seq<bool>, lastActivity: nat, assoc: Assoc)

  function TodoAt(script: seq<ReadReply>, pending: bool): nat {
    |script| + if pending then 1 else 0
  }

  /** After n turns: the client's stream. */
  ghost predicate StreamAt(events: seq<(Event, nat)>, n: nat, exit: Option<Exit>, s0: Start,
                           received: Bytes, script: seq<ReadReply>, pending: bool)
    requires n <= |events|
  {
    && received + DataOf(script) == s0.received + DataOf(s0.script)
    && Consumed(exit, script, s0.script)
    && (exit.None? || (n > 0 && !events[n - 1].0.ClientTurn?) ==>
          TodoAt(script, pending) == LeftOf(TodoAt(s0.script, s0.pending), ClientTurns(events[..n])))
    && (exit.None? ==> (pending <==> s0.pending && ClientTurns(events[..n]) == 0))
  }

  lemma {:induction false} StreamStep(events: seq<(Event, nat)>, n: nat, s0: Start,
                                      received: Bytes, script: seq<ReadReply>, pending: bool,
                                      exit: Option<Exit>, received': Bytes, script': seq<ReadReply>, pending': bool)
    requires n < |events| && StreamAt(events, n, None, s0, received, script, pending)
    requires received' + DataOf(script') == received + DataOf(script)
    requires ReadStep(exit, script, script')
    requires exit.None? || !events[n].0.ClientTurn? ==>
               TodoAt(script', pending') == LeftOf(TodoAt(script, pending), if events[n].0.ClientTurn? then 1 else 0)
    requires pending' == (pending && !events[n].0.ClientTurn?)
    ensures StreamAt(events, n + 1, exit, s0, received', script', pending')
  {
    hide DataOf, ClientTurns, ReadStep;
    TurnsSnoc(events, n);
    ConsumedMore(exit, script, script', s0.script);
  }

  /** After n turns: history, replies and arrivals, and no fatal event passed over. */
  ghost predicate EffectsAt(events: seq<(Event, nat)>, n: nat, exit: Option<Exit>, s0: Start, marks: seq<nat>,
                            log: seq<Entry>, replies: seq<Packet>, arrivals: seq<bool>)
    requires n <= |events|
  {
    && s0.log <= log && |marks| == n && Marked(marks, events, s0.received, s0.script, s0.pending, log)
    && replies == s0.replies + Replied(events, marks, log, n)
    && arrivals == s0.arrivals + Arrived(events, marks, log, n)
    && Bearing(|s0.arrivals|, arrivals) && Patient(|s0.log|, log)
    && forall k :: 0 <= k < n && Fatal(events[k].0, ConnOf(log[..marks[k]])) ==> k == n - 1 && exit.Some?
  }

  lemma {:induction false} EffectsStep(events: seq<(Event, nat)>, n: nat, s0: Start, marks: seq<nat>,
                                       log: seq<Entry>, replies: seq<Packet>, arrivals: seq<bool>,
                                       exit: Option<Exit>, log': seq<Entry>, replies': seq<Packet>, arrivals': seq<bool>)
    requires n < |events|
    requires |log| == HandledBy(s0.received, s0.script, s0.pending, ClientTurns(events[..n]))
    requires log <= log' && replies' == replies + Reply(events[n].0, ConnOf(log))
    requires arrivals' == arrivals + Arrival(events[n].0, ConnOf(log))
    requires RecvStreak(arrivals) < UDP_MAX_CONSECUTIVE_ERRORS && Patient(|log|, log')
    requires Fatal(events[n].0, ConnOf(log)) ==> exit.Some?
    requires EffectsAt(events, n, None, s0, marks, log, replies, arrivals)
    ensures EffectsAt(events, n + 1, exit, s0, marks + [|log|], log', replies', arrivals')
  {
    hide ConnOf, HandledBy, Reply, Fatal, ClientTurns, Replied, Arrived, SendStreak, RecvStreak, Patient, Bearing;
    OneMore(events, marks, log, log', n, ConnOf(log));
    BearingMore(|s0.arrivals|, arrivals, Arrival(events[n].0, ConnOf(log)));
    PatientMore(|s0.log|, log, log');
  }

  /** Where the k-th turn left the history. */
  function TurnEnd(marks: seq<nat>, log: seq<Entry>, k: nat): nat {
    if k + 1 < |marks| then marks[k + 1] else |log|
  }

  /** Time of the last turn, of the first n, that forwarded or delivered a packet. */
  ghost function LastActive(events: seq<(Event, nat)>, marks: seq<nat>, log: seq<Entry>, n: nat, was: nat): nat
    requires n <= |marks| <= |events| && forall k :: 0 <= k < |marks| ==> marks[k] <= |log|
  {
    if n == 0 then was
    else if || SentBetween(log, marks[n - 1], TurnEnd(marks, log, n - 1))
            || Reply(events[n - 1].0, ConnOf(log[..marks[n - 1]])) != []
    then events[n - 1].1
    else LastActive(events, marks, log, n - 1, was)
  }

  lemma {:induction false} LastActiveStays(events: seq<(Event, nat)>, marks: seq<nat>, log: seq<Entry>, log': seq<Entry>,
                                           n: nat, was: nat)
    requires n <= |marks| < |events| && log <= log' && forall k :: 0 <= k < |marks| ==> marks[k] <= |log|
    ensures LastActive(events, marks + [|log|], log', n, was) == LastActive(events, marks, log, n, was)
  {
    hide ConnOf, Reply;
    if n > 0 {
      LastActiveStays(events, marks, log, log', n - 1, was);
      var marks' := marks + [|log|];
      assert log'[..marks'[n - 1]] == log[..marks[n - 1]];
      assert TurnEnd(marks', log', n - 1) == TurnEnd(marks, log, n - 1);
      SameSent(log, log', marks[n - 1], TurnEnd(marks, log, n - 1));
    }
  }

  lemma {:induction false} SameSent(log: seq<Entry>, log': seq<Entry>, from: nat, to: nat)
    requires log <= log' && to <= |log|
    ensures SentBetween(log', from, to) <==> SentBetween(log, from, to)
  {
    assert forall i :: 0 <= i < |log| ==> log'[i] == log[i];
  }

  /** After n turns: the time of the last activity, and an idle tick ends the session exactly when that
      is the timeout ago. */
  ghost predicate IdleAt(events: seq<(Event, nat)>, n: nat, exit: Option<Exit>, s0: Start, timeout: nat,
                         marks: seq<nat>, log: seq<Entry>, lastActivity: nat)
    requires n <= |events|
  {
    && |marks| == n && (forall k :: 0 <= k < n ==> marks[k] <= |log|)
    && lastActivity == LastActive(events, marks, log, n, s0.lastActivity)
    && (forall k :: 0 <= k < n && events[k].0.IdleTick? ==>
          (events[k].1 >= LastActive(events, marks, log, k, s0.lastActivity) + timeout || timeout == 0 <==>
           k == n - 1 && exit == Some(IdleTimeout)))
  }

  lemma {:induction false} IdleStep(events: seq<(Event, nat)>, n: nat, s0: Start, timeout: nat, marks: seq<nat>,
                                    log: seq<Entry>, lastActivity: nat,
                                    exit: Option<Exit>, log': seq<Entry>, lastActivity': nat)
    requires n < |events| && IdleAt(events, n, None, s0, timeout, marks, log, lastActivity)
    requires log <= log'
    requires lastActivity' ==
             if Forwarded(log'[|log|..]) || Reply(events[n].0, ConnOf(log)) != [] then events[n].1 else lastActivity
    requires exit == Some(IdleTimeout) <==> events[n].0.IdleTick? && IdleFor(events[n].1, lastActivity) >= timeout
    ensures IdleAt(events, n + 1, exit, s0, timeout, marks + [|log|], log', lastActivity')
  {
    hide Forwarded, SentBetween, ConnOf, Reply;
    var marks' := marks + [|log|];
    forall k | 0 <= k <= n
      ensures LastActive(events, marks', log', k, s0.lastActivity) == LastActive(events, marks, log, k, s0.lastActivity)
    {
      LastActiveStays(events, marks, log, log', k, s0.lastActivity);
    }
    ForwardedSince(log, log');
    assert log'[..marks'[n]] == log;
  }

  lemma {:induction false} LimitStep(events: seq<(Event, nat)>, n: nat, s0: Start, received: Bytes, pending: bool, exit: Option<Exit>)
    requires n < |events| && LimitAt(events, n, None, s0)
    requires !pending ==> received == BytesBy(s0.received, s0.script, s0.pending, ClientTurns(events[..n]))
    requires pending <==> s0.pending && ClientTurns(events[..n]) == 0
    requires exit == Some(BufferLimit) <==>
               events[n].0.ClientTurn? && !pending && |Leftover(received)| >= UDP_MAX_READ_BUFFER_SIZE
    ensures LimitAt(events, n + 1, exit, s0)
  {
    hide Leftover, BytesBy, ClientTurns;
  }

  /** After n turns: the buffer limit ends the session exactly when a client's turn finds it reached. */
  ghost predicate LimitAt(events: seq<(Event, nat)>, n: nat, exit: Option<Exit>, s0: Start)
    requires n <= |events|
  {
    forall k :: 0 <= k < n && events[k].0.ClientTurn? && !(s0.pending && ClientTurns(events[..k]) == 0) ==>
      (|Leftover(BytesBy(s0.received, s0.script, s0.pending, ClientTurns(events[..k])))| >= 65536 <==>
       k == n - 1 && exit == Some(BufferLimit))
  }

  /** What is left of a script. */
  predicate Remains(left: seq<ReadReply>, script: seq<ReadReply>) {
    |left| <= |script| && left == script[|script| - |left|..]
  }

  function LeftOf(n: nat, taken: nat): nat {
    if n > taken then n - taken else 0
  }

  lemma {:induction false} DataOfSplit(script: seq<ReadReply>, k: nat)
    requires k <= |script|
    ensures DataOf(script) == DataOf(script[..k]) + DataOf(script[k..])
  {
    if k > 0 {
      DataOfSplit(script[1..], k - 1);
      assert script[1..][..k - 1] == script[..k][1..] && script[1..][k - 1..] == script[k..];
    } else {
      assert script[..0] == [] && script[0..] == script;
    }
  }

  /** Of two ways to cut the same stream, what is not left is what was taken. */
  lemma {:induction false} DataTaken(received: Bytes, bytes: Bytes, left: seq<ReadReply>, script: seq<ReadReply>)
    requires Remains(left, script) && received + DataOf(left) == bytes + DataOf(script)
    ensures received == bytes + DataOf(script[..|script| - |left|])
  {
    hide DataOf;
    var k := |script| - |left|;
    DataOfSplit(script, k);
    var whole := received + DataOf(left);
    assert whole == (bytes + DataOf(script[..k])) + DataOf(left);
    assert received == whole[..|whole| - |DataOf(left)|];
    assert bytes + DataOf(script[..k]) == whole[..|whole| - |DataOf(left)|];
  }

  /** Seconds without activity. */
  function IdleFor(now: nat, lastActivity: nat): nat {
    if now >= lastActivity then now - lastActivity else 0
  }

  function ClientTurns(events: seq<(Event, nat)>): nat {
    if events == [] then 0
    else ClientTurns(events[..|events| - 1]) + (if events[|events| - 1].0.ClientTurn? then 1 else 0)
  }

  lemma {:induction false} TurnsSnoc(events: seq<(Event, nat)>, i: nat)
    requires i < |events|
    ensures ClientTurns(events[..i + 1]) == ClientTurns(events[..i]) + (if events[i].0.ClientTurn? then 1 else 0)
  {
    assert events[..i + 1][..i] == events[..i];
  }

  /** Failed receives since the last delivery. */
  function RecvStreak(arrivals: seq<bool>): nat {
    if arrivals == [] || arrivals[|arrivals| - 1] then 0 else RecvStreak(arrivals[..|arrivals| - 1]) + 1
  }

  lemma {:induction false} RecvStreakSnoc(arrivals: seq<bool>, delivered: bool)
    ensures RecvStreak(arrivals + [delivered]) == if delivered then 0 else RecvStreak(arrivals) + 1
  {
    assert (arrivals + [delivered])[..|arrivals|] == arrivals;
  }

  /** What a datagram adds to the replies: nothing without an association to receive it from. */
  function Reply(event: Event, conn: Option<Conn>): seq<Packet> {
    if event.Datagram? && event.delivery.Delivered? && conn.Some? then [Packet(event.from, event.payload)] else []
  }

  /** What a receive adds to the arrivals. */
  function Arrival(event: Event, conn: Option<Conn>): seq<bool> {
    if conn.None? then []
    else if event.Datagram? && event.delivery.Delivered? then [true]
    else if event.DatagramError? then [false]
    else []
  }

  /** The event ends the session at once, given the association. */
  predicate Fatal(event: Event, conn: Option<Conn>) {
    event.Kick? || (event.Datagram? && !event.delivery.Delivered? && conn.Some?)
  }

  /** The event that can end the session this way. */
  predicate Caused(exit: Exit, event: Event) {
    match exit
    case ClientGone => event.ClientTurn?
    case ReadError => event.ClientTurn?
    case BufferLimit => event.ClientTurn?
    case GaveUp => event.ClientTurn?
    case ReplyFailed => event.Datagram? && event.delivery.NotDelivered?
    case ReplyStalled => event.Datagram? && event.delivery.Stalled?
    case RecvErrors => event.DatagramError?
    case IdleTimeout => event.IdleTick?
    case Kicked => event.Kick?
  }

  /** Bytes of payload in a list of packets. */
  function PayloadBytes(ps: seq<Packet>): nat {
    if ps == [] then 0 else PayloadBytes(ps[..|ps| - 1]) + |ps[|ps| - 1].payload|
  }

  lemma {:induction false} PayloadSnoc(ps: seq<Packet>, p: Packet)
    ensures PayloadBytes(ps + [p]) == PayloadBytes(ps) + |p.payload|
  {
    assert (ps + [p])[..|ps|] == ps;
  }

  // ---------------------------------------------------------------- the session

  class Session {
    const router: Address -> Outbound
    const allowsUdp: Handler -> bool

    var readBuf: Bytes
    var routeCache: map<Address, Route>
    var udpConn: Option<Conn>
    var currentHandler: Option<Handler>
    var sendErrors: nat
    var uploaded: nat
    var lastActivity: nat

    var pendingBuffered: bool
    var recvErrors: nat
    var downloaded: nat
    const idleTimeout: nat

    /** What the client stream has in store. */
    var clientReads: seq<ReadReply>

    /** Answers of the outbounds to dial and send attempts; none left means failure. */
    var dialReplies: seq<bool>
    var writeReplies: seq<Option<nat>>
    var dialed: nat

    ghost var received: Bytes
    ghost var log: seq<Entry>
    ghost var replies: seq<Packet>
    ghost var toClient: Bytes
    ghost var cut: Bytes        // bytes of a reply that was not delivered
    ghost var arrivals: seq<bool>

    constructor (router: Address -> Outbound, allowsUdp: Handler -> bool, idleTimeout: nat, initialPayload: Bytes,
                 clientReads: seq<ReadReply>, dialReplies: seq<bool>, writeReplies: seq<Option<nat>>)
      ensures this.router == router && this.allowsUdp == allowsUdp && this.idleTimeout == idleTimeout
      ensures Inv() && Resting() && Counted()
      ensures received == readBuf == initialPayload && log == [] && replies == [] && cut == []
      ensures udpConn == None && currentHandler == None
      ensures this.clientReads == clientReads
      ensures this.dialReplies == dialReplies && this.writeReplies == writeReplies
    {
      this.router, this.allowsUdp, this.idleTimeout := router, allowsUdp, idleTimeout;
      readBuf, received, log := initialPayload, initialPayload, [];
      routeCache, udpConn, currentHandler := map[], None, None;
      sendErrors, uploaded, lastActivity := 0, 0, 0;
      recvErrors, downloaded, replies, toClient, cut, arrivals := 0, 0, [], [], [], [];
      pendingBuffered := initialPayload != [];
      this.clientReads := clientReads;
      this.dialReplies, this.writeReplies, dialed := dialReplies, writeReplies, 0;
      new;
      hide Packets, Leftover, OutOfSync, DecodePacket, RouteTo, Legit;
      EmptyDrains();
      NothingHandled([]);
    }

    /** The live association belongs to the current handler, or is direct if there is none. */
    ghost predicate Associated()
      reads `udpConn, `currentHandler, `dialed
    {
      udpConn.Some? ==>
        && udpConn.value.serial < dialed
        && udpConn.value.dialer == (if currentHandler.Some? then ByProxy(currentHandler.value) else ByDirect)
    }

    /** Every cached route is the route, and the cache is bounded. */
    ghost predicate Cached()
      reads `routeCache
    {
      && |routeCache| <= UDP_MAX_ROUTE_CACHE_ENTRIES
      && forall a :: a in routeCache ==> routeCache[a] == RouteTo(router, a)
    }

    /** Everything that has happened to packets so far was right, and is counted. */
    ghost predicate Logged()
      reads `log, `sendErrors, `uploaded
    {
      && (forall e :: e in log ==> Legit(router, allowsUdp, e))
      && sendErrors == SendStreak(log)
      && uploaded == BytesSent(log)
    }

    /** A replaced association is never used again: sends go to younger and younger ones. */
    ghost predicate Succession()
      reads `log, `udpConn, `dialed
    {
      && (forall i, j :: 0 <= i < j < |log| && Attempted(log[i].fate) && Attempted(log[j].fate) ==>
            log[i].fate.conn.serial <= log[j].fate.conn.serial)
      && (forall i :: 0 <= i < |log| && Attempted(log[i].fate) ==> log[i].fate.conn.serial < dialed)
      && (forall i :: 0 <= i < |log| && Attempted(log[i].fate) && udpConn.Some? ==>
            log[i].fate.conn.serial <= udpConn.value.serial)
    }

    /** The association is the one the history has left. */
    ghost predicate Tracked()
      reads `udpConn, `log
    {
      udpConn == ConnOf(log)
    }

    ghost predicate Inv()
      reads `udpConn, `currentHandler, `dialed, `routeCache, `log, `sendErrors, `uploaded
    {
      Associated() && Cached() && Logged() && Succession() && Tracked()
    }

    ghost function Now(): Assoc
      reads `udpConn, `currentHandler, `dialed, `dialReplies, `writeReplies
    {
      Assoc(currentHandler, udpConn, dialed, dialReplies, writeReplies)
    }

    /** Since the history `start` and the association `a`, every packet has met its due fate. */
    ghost predicate Followed(start: seq<Entry>, a: Assoc)
      reads `log, `udpConn, `currentHandler, `dialed, `dialReplies, `writeReplies
    {
      && start <= log && Consequent(router, allowsUdp, a, log[|start|..])
      && Now() == AssocAfter(router, allowsUdp, a, log[|start|..])
    }

    /** The packets handled and those still in the buffer are the packets of the bytes received. */
    ghost predicate Framed()
      reads `readBuf, `received, `log
    {
      && Packets(received) == PacketsOf(log) + Packets(readBuf)
      && Leftover(received) == Leftover(readBuf)
    }

    /** The cached route of a target, or a fresh one. */
    method Lookup(target: Address) returns (route: Route)
      requires Cached()
      modifies `routeCache
      ensures Cached() && route == RouteTo(router, target)
      ensures target in routeCache && |routeCache| <= 256
      ensures routeCache == if target in old(routeCache) then old(routeCache)
                            else if |old(routeCache)| >= 256 then map[target := route]
                            else old(routeCache)[target := route]
    {
      if target in routeCache {
        route := routeCache[target];
      } else {
        route := RouteTo(router, target);
        if |routeCache| >= UDP_MAX_ROUTE_CACHE_ENTRIES {
          routeCache := map[];
        }
        routeCache := routeCache[target := route];
      }
    }

    /** Dials; a dropped association is gone whether or not this works. */
    method Dial(dialer: Dialer) returns (ok: bool)
      requires Succession()
      modifies `udpConn, `dialReplies, `dialed
      ensures Succession()
      ensures dialed == old(dialed) + 1
      ensures udpConn == if ok then Some(Conn(dialer, old(dialed))) else None
      ensures ok == DialWorks(old(dialReplies)) && dialReplies == Behind(old(dialReplies))
      ensures Now() == Dialed(old(Now()), dialer)
    {
      udpConn := None;
      ok := DialWorks(dialReplies);
      dialReplies := Behind(dialReplies);
      if ok {
        udpConn := Some(Conn(dialer, dialed));
      }
      dialed := dialed + 1;
    }

    /** One direct association serves all direct targets; it is redialed after a proxy one. */
    method ConnectDirect() returns (ok: bool)
      requires Associated() && Succession()
      modifies `udpConn, `currentHandler, `dialReplies, `dialed
      ensures Associated() && Succession()
      ensures ok <==> udpConn.Some?
      ensures currentHandler == None
      ensures old(udpConn).Some? && old(currentHandler).None? ==>
                udpConn == old(udpConn) && dialReplies == old(dialReplies)
      ensures old(udpConn).None? || old(currentHandler).Some? ==>
                ok == DialWorks(old(dialReplies)) && dialReplies == Behind(old(dialReplies))
      ensures Now() == if old(udpConn).Some? && old(currentHandler).None? then old(Now())
                       else Dialed(old(Now()).(handler := None), ByDirect)
    {
      ok := true;
      if udpConn.None? || currentHandler.Some? {
        currentHandler := None;
        ok := Dial(ByDirect);
      }
    }

    /** A proxy association is redialed when the handler changes; if that fails, the old handler
        stays current although its association is gone. */
    method ConnectProxy(h: Handler) returns (ok: bool)
      requires Associated() && Succession()
      modifies `udpConn, `currentHandler, `dialReplies, `dialed
      ensures Associated() && Succession()
      ensures old(currentHandler) == Some(h) ==> ok && udpConn == old(udpConn) && dialReplies == old(dialReplies)
      ensures old(currentHandler) != Some(h) ==>
                (ok <==> udpConn.Some?) && ok == DialWorks(old(dialReplies)) && dialReplies == Behind(old(dialReplies))
      ensures currentHandler == if ok then Some(h) else old(currentHandler)
      ensures Now() == if old(currentHandler) == Some(h) then old(Now())
                       else Dialed(old(Now()), ByProxy(h)).(handler := currentHandler)
    {
      ok := true;
      if currentHandler != Some(h) {
        ok := Dial(ByProxy(h));
        if ok {
          currentHandler := Some(h);
        }
      }
    }

    /** Sends over the live association, if there is one. */
    method Send(packet: Packet, dest: Dest, now: nat) returns (giveUp: bool, ghost fate: Fate)
      requires Associated()
      modifies `sendErrors, `uploaded, `lastActivity, `writeReplies
      ensures (fate, Now()) == SentOver(old(Now()), dest, packet.payload)
      ensures udpConn.None? ==> fate.Unconnected?
      ensures udpConn.Some? ==> Attempted(fate) && fate.conn == udpConn.value && fate.dest == dest && fate.data == packet.payload
      ensures Attempted(fate) ==> (fate.Written? <==> old(writeReplies) != [] && old(writeReplies)[0].Some?)
      ensures fate.Written? ==> old(writeReplies)[0] == Some(fate.n)
      ensures sendErrors == (if fate.WriteError? then old(sendErrors) + 1 else if fate.Written? then 0 else old(sendErrors))
      ensures uploaded == old(uploaded) + (if fate.Written? then fate.n else 0)
      ensures lastActivity == if fate.Written? then now else old(lastActivity)
      ensures giveUp <==> fate.WriteError? && sendErrors >= UDP_MAX_CONSECUTIVE_ERRORS
    {
      giveUp, fate := false, Unconnected;
      if udpConn.Some? {
        var reply := if writeReplies == [] then None else writeReplies[0];
        writeReplies := if writeReplies == [] then [] else writeReplies[1..];
        if reply.Some? {
          lastActivity, sendErrors, uploaded := now, 0, uploaded + reply.value;
          fate := Written(udpConn.value, dest, packet.payload, reply.value);
        } else {
          sendErrors := sendErrors + 1;
          giveUp := sendErrors >= UDP_MAX_CONSECUTIVE_ERRORS;
          fate := WriteError(udpConn.value, dest, packet.payload);
        }
      }
    }

    /** The packet's outbound is not the one whose association is up. */
    predicate Redials(target: Address, handler: Option<Handler>, conn: Option<Conn>) {
      match router(target)
      case Reject => false
      case Direct(_, _) => conn.None? || handler.Some?
      case Proxy(h, _) => allowsUdp(h) && handler != Some(h)
    }

    /** The fate of a packet and the association behind it, from the association, the dial answers
        and the send answers there were. */
    ghost predicate Treated(target: Address, fate: Fate, handler: Option<Handler>, conn: Option<Conn>,
                            dials: seq<bool>, writes: seq<Option<nat>>)
      reads `udpConn, `currentHandler, `dialReplies
    {
      && (fate.Unconnected? <==> Orphaned(target, handler, conn))
      && (if Redials(target, handler, conn)
          then (fate.DialFailed? <==> !DialWorks(dials)) && dialReplies == Behind(dials)
          else !fate.DialFailed? && dialReplies == dials && udpConn == conn && currentHandler == handler)
      && (fate.DialFailed? ==> udpConn.None? && currentHandler == if router(target).Proxy? then handler else None)
      && (Attempted(fate) ==>
            && currentHandler == (if router(target).Proxy? then Some(router(target).via) else None)
            && (fate.Written? <==> writes != [] && writes[0].Some?))
    }

    /** Error count, traffic and activity after a fate, from what they were. */
    ghost predicate Tallied(fate: Fate, now: nat, giveUp: bool, errors: nat, sent: nat, active: nat)
      reads `sendErrors, `uploaded, `lastActivity
    {
      && sendErrors == (if fate.WriteError? then errors + 1 else if fate.Written? then 0 else errors)
      && uploaded == sent + (if fate.Written? then fate.n else 0)
      && lastActivity == (if fate.Written? then now else active)
      && (giveUp <==> fate.WriteError? && sendErrors >= UDP_MAX_CONSECUTIVE_ERRORS)
    }

    method DeliverDirect(packet: Packet, dest: Dest, now: nat) returns (giveUp: bool, ghost fate: Fate)
      requires Associated() && Succession()
      modifies `udpConn, `currentHandler, `dialReplies, `dialed, `sendErrors, `uploaded, `lastActivity, `writeReplies
      ensures Associated() && Succession()
      ensures (fate, Now()) == TreatDirect(old(Now()), dest, packet.payload)
      ensures Tallied(fate, now, giveUp, old(sendErrors), old(uploaded), old(lastActivity))
    {
      hide Session.Succession;
      giveUp, fate := false, DialFailed;
      var ok := ConnectDirect();
      if ok {
        giveUp, fate := Send(packet, dest, now);
      }
    }

    method DeliverProxy(packet: Packet, h: Handler, dest: Dest, now: nat) returns (giveUp: bool, ghost fate: Fate)
      requires Associated() && Succession()
      modifies `udpConn, `currentHandler, `dialReplies, `dialed, `sendErrors, `uploaded, `lastActivity, `writeReplies
      ensures Associated() && Succession()
      ensures (fate, Now()) == TreatProxy(old(Now()), h, dest, packet.payload)
      ensures Tallied(fate, now, giveUp, old(sendErrors), old(uploaded), old(lastActivity))
    {
      hide Session.Succession;
      giveUp, fate := false, DialFailed;
      var ok := ConnectProxy(h);
      if ok {
        giveUp, fate := Send(packet, dest, now);
      }
    }

    /** Routes one packet, brings up its association and sends it. */
    method Deliver(packet: Packet, now: nat) returns (giveUp: bool, ghost fate: Fate)
      requires Associated() && Cached() && Succession()
      modifies `routeCache, `udpConn, `currentHandler, `dialReplies, `dialed,
               `sendErrors, `uploaded, `lastActivity, `writeReplies
      ensures Associated() && Cached() && Succession()
      ensures Legit(router, allowsUdp, Entry(packet, fate))
      ensures Attempted(fate) ==> udpConn == Some(fate.conn)
      ensures Tallied(fate, now, giveUp, old(sendErrors), old(uploaded), old(lastActivity))
      ensures Treated(packet.addr, fate, old(currentHandler), old(udpConn), old(dialReplies), old(writeReplies))
      ensures (fate, Now()) == Treat(router, allowsUdp, old(Now()), packet)
    {
      hide Session.Cached, Session.Succession, Session.Treated, Legit, TreatDirect, TreatProxy, Attempted;
      giveUp := false;
      ghost var was := Now();
      var route := Lookup(packet.addr);
      match route.outbound {
        case Reject =>
          fate := Refused;
        case Direct(_, _) =>
          giveUp, fate := DeliverDirect(packet, route.sendAddr, now);
        case Proxy(h, _) =>
          if allowsUdp(h) {
            giveUp, fate := DeliverProxy(packet, h, route.sendAddr, now);
          } else {
            fate := NoUdp;
          }
      }
      TreatMeans(packet, fate, was);
    }

    /** What the pure treatment of a packet means. */
    lemma {:induction false} TreatMeans(packet: Packet, fate: Fate, was: Assoc)
      requires (fate, Now()) == Treat(router, allowsUdp, was, packet)
      requires was.conn.Some? ==>
                 was.conn.value.dialer == if was.handler.Some? then ByProxy(was.handler.value) else ByDirect
      ensures Legit(router, allowsUdp, Entry(packet, fate))
      ensures Treated(packet.addr, fate, was.handler, was.conn, was.dials, was.writes)
      ensures Attempted(fate) ==> udpConn == Some(fate.conn)
    {
    }

    /** The target belongs to the current proxy handler, whose association is gone. */
    predicate Orphaned(target: Address, handler: Option<Handler>, conn: Option<Conn>) {
      && router(target).Proxy? && allowsUdp(router(target).via)
      && handler == Some(router(target).via) && conn.None?
    }

    /** Without an attempt or a failed dial the association is the one there was. */
    lemma {:induction false} Untouched(packet: Packet, fate: Fate, handler: Option<Handler>, conn: Option<Conn>,
                                       dials: seq<bool>, writes: seq<Option<nat>>)
      requires Treated(packet.addr, fate, handler, conn, dials, writes) && Legit(router, allowsUdp, Entry(packet, fate))
      ensures fate.DialFailed? ==> udpConn.None?
      ensures !fate.DialFailed? && !Attempted(fate) ==> udpConn == conn
    {
    }

    /** One packet and its entry in the history.  It is dropped without a dial exactly when the
        association of its own handler was lost to a failed dial for another one. */
    method Forward(packet: Packet, now: nat) returns (giveUp: bool, ghost fate: Fate)
      requires Inv()
      modifies `routeCache, `udpConn, `currentHandler, `dialReplies, `dialed,
               `sendErrors, `uploaded, `lastActivity, `writeReplies, `log
      ensures Inv()
      ensures log == old(log) + [Entry(packet, fate)] && Legit(router, allowsUdp, Entry(packet, fate))
      ensures giveUp <==> fate.WriteError? && sendErrors >= UDP_MAX_CONSECUTIVE_ERRORS
      ensures sendErrors >= UDP_MAX_CONSECUTIVE_ERRORS && !giveUp ==> old(sendErrors) >= UDP_MAX_CONSECUTIVE_ERRORS
      ensures lastActivity == if fate.Written? then now else old(lastActivity)
      ensures Treated(packet.addr, fate, old(currentHandler), old(udpConn), old(dialReplies), old(writeReplies))
      ensures (fate, Now()) == Treat(router, allowsUdp, old(Now()), packet)
    {
      hide Session.Cached, Legit, RouteTo, Session.Treated, SendStreak, BytesSent, ConnOf;
      ghost var conn, handler, dials, writes := udpConn, currentHandler, dialReplies, writeReplies;
      giveUp, fate := Deliver(packet, now);
      ghost var e := Entry(packet, fate);
      Untouched(packet, fate, handler, conn, dials, writes);
      ConnSnoc(log, e);
      LogSnoc(log, e);
      log := log + [e];
    }

    lemma {:induction false} AllLegit()
      requires Inv()
      ensures forall e :: e in log ==> Legit(router, allowsUdp, e)
    {
    }

    lemma {:induction false} Streak()
      requires Inv()
      ensures sendErrors == SendStreak(log)
    {
    }

    lemma {:induction false} SoFar(s0: Start)
      requires Followed(s0.log, s0.assoc)
      ensures s0.log <= log && Consequent(router, allowsUdp, s0.assoc, log[|s0.log|..])
      ensures Now() == AssocAfter(router, allowsUdp, s0.assoc, log[|s0.log|..])
    {
    }

    /** One packet more, after the history `before` and the association `a`. */
    lemma {:induction false} FollowsOn(s0: Start, before: seq<Entry>, a: Assoc, e: Entry)
      requires s0.log <= before && Consequent(router, allowsUdp, s0.assoc, before[|s0.log|..])
      requires a == AssocAfter(router, allowsUdp, s0.assoc, before[|s0.log|..])
      requires log == before + [e] && (e.fate, Now()) == Treat(router, allowsUdp, a, e.packet)
      ensures Followed(s0.log, s0.assoc)
    {
      hide Treat, Consequent;
      ConsequentSnoc(router, allowsUdp, s0.assoc, before[|s0.log|..], e);
      assert log[|s0.log|..] == before[|s0.log|..] + [e];
    }

    /** What has happened since the history `start`: due fates, activity as of now if a packet got out,
        and no packet after too many failures. */
    ghost predicate Draining(start: seq<Entry>, active: nat, now: nat, s0: Start)
      reads `log, `udpConn, `currentHandler, `dialed, `dialReplies, `writeReplies, `lastActivity
    {
      && start <= log && Patient(|start|, log) && Followed(s0.log, s0.assoc)
      && lastActivity == if Forwarded(log[|start|..]) then now else active
    }

    lemma {:induction false} DrainBegins(now: nat, s0: Start)
      requires Followed(s0.log, s0.assoc)
      ensures Draining(log, lastActivity, now, s0)
    {
      hide Session.Followed, Forwarded;
      PatientHere(log);
      NothingForwarded();
      assert log[|log|..] == [];
    }

    /** One packet off the front of the buffer. */
    method Handle(packet: Packet, now: nat, ghost start: seq<Entry>, ghost active: nat, ghost s0: Start) returns (giveUp: bool)
      requires Inv() && sendErrors < UDP_MAX_CONSECUTIVE_ERRORS && Draining(start, active, now, s0)
      modifies `routeCache, `udpConn, `currentHandler, `dialReplies, `dialed,
               `sendErrors, `uploaded, `lastActivity, `writeReplies, `log
      ensures Inv() && Draining(start, active, now, s0)
      ensures PacketsOf(log) == old(PacketsOf(log)) + [packet]
      ensures giveUp <==> sendErrors >= UDP_MAX_CONSECUTIVE_ERRORS
    {
      hide Session.Followed, Treat, Consequent, AssocAfter, RouteTo, Legit, SendStreak, PacketsOf, Patient, Forwarded;
      hide Session.Associated, Session.Cached, Session.Logged, Session.Succession, Session.Tracked, Session.Inv;
      ghost var before, a := log, Now();
      Streak();
      SoFar(s0);
      ghost var fate;
      giveUp, fate := Forward(packet, now);
      ghost var e := Entry(packet, fate);
      FollowsOn(s0, before, a, e);
      PacketsOfSnoc(before, e);
      PatientSnoc(|start|, before, e);
      ForwardedSnoc(before[|start|..], e);
      assert log[|start|..] == before[|start|..] + [e];
    }

    /** The decode loop over the read buffer. */
    method DrainBuffer(now: nat, ghost s0: Start) returns (giveUp: bool)
      requires Inv() && Framed() && sendErrors < UDP_MAX_CONSECUTIVE_ERRORS && Followed(s0.log, s0.assoc)
      modifies `readBuf, `routeCache, `udpConn, `currentHandler, `dialReplies, `dialed,
               `sendErrors, `uploaded, `lastActivity, `writeReplies, `log
      ensures Inv() && Framed() && Draining(old(log), old(lastActivity), now, s0)
      ensures sendErrors < UDP_MAX_CONSECUTIVE_ERRORS ==>
                PacketsOf(log) == Packets(received) && readBuf == Leftover(received)
      ensures giveUp <==> sendErrors >= UDP_MAX_CONSECUTIVE_ERRORS || OutOfSync(received)
    {
      hide Session.Followed, Session.Draining, Session.Inv, Packets, Leftover, DecodePacket, PacketsOf;
      giveUp := false;
      Drained(readBuf);
      DrainBegins(now, s0);
      while readBuf != []
        invariant Inv() && Framed() && Draining(old(log), old(lastActivity), now, s0)
        invariant !giveUp && sendErrors < UDP_MAX_CONSECUTIVE_ERRORS
        invariant readBuf == [] ==> Packets(readBuf) == [] && readBuf == Leftover(readBuf) && !OutOfSync(readBuf)
        decreases |readBuf|
      {
        Drained(readBuf);
        ghost var handled := PacketsOf(log);
        var d, rest := DecodePacketInPlace(readBuf);
        match d {
          case Ok(packet, _) =>
            readBuf := rest;
            giveUp := Handle(packet, now, old(log), old(lastActivity), s0);
            assert handled + ([packet] + Packets(rest)) == handled + [packet] + Packets(rest);
            Drained(rest);
            if giveUp {
              return;
            }
          case NeedMoreData =>
            return;
          case Invalid(_) =>
            giveUp := true;
            return;
        }
      }
    }

    /** Between two turns everything received has been handled, but for an initial payload whose
        turn has not come. */
    ghost predicate Resting()
      reads `readBuf, `received, `log, `pendingBuffered, `sendErrors
    {
      && sendErrors < UDP_MAX_CONSECUTIVE_ERRORS
      && if pendingBuffered then log == [] && readBuf == received
         else PacketsOf(log) == Packets(received) && readBuf == Leftover(received) && !OutOfSync(received)
    }

    /** How the client's side stands when the loop ends with `exit`, or goes on without one. */
    ghost predicate Standing(exit: Option<Exit>)
      reads `readBuf, `received, `log, `pendingBuffered, `sendErrors
    {
      && (exit != Some(GaveUp) ==> Resting())
      && (exit == Some(GaveUp) ==>
            && Framed() && !pendingBuffered
            && (sendErrors >= UDP_MAX_CONSECUTIVE_ERRORS || (OutOfSync(received) && PacketsOf(log) == Packets(received))))
      && (exit == Some(BufferLimit) ==> |Leftover(received)| >= UDP_MAX_READ_BUFFER_SIZE)
    }

    /** The client was sent exactly the replies, but for one cut short at the end, and their payload
        is counted. */
    ghost predicate Counted()
      reads `replies, `toClient, `cut, `downloaded, `arrivals, `recvErrors
    {
      && toClient == Stream(replies) + cut
      && downloaded == PayloadBytes(replies)
      && recvErrors == RecvStreak(arrivals)
    }

    /** Turns the client's side still has to take. */
    ghost function Todo(): nat
      reads `clientReads, `pendingBuffered
    {
      |clientReads| + if pendingBuffered then 1 else 0
    }

    /** Waits for the client's bytes, unless an initial payload is still to be handled: then nothing
        is read. */
    method Fetch() returns (ready: bool, exit: Option<Exit>)
      requires Resting()
      modifies `pendingBuffered, `clientReads, `received, `readBuf
      ensures received + DataOf(clientReads) == old(received + DataOf(clientReads))
      ensures old(pendingBuffered) ==> ready && clientReads == old(clientReads)
      ensures ready ==> exit.None? && Framed() && !pendingBuffered
      ensures !ready ==> Resting() && !pendingBuffered && received == old(received)
      ensures exit.Some? ==> exit.value.ClientGone? || exit.value.ReadError? || exit.value.BufferLimit?
      ensures ReadStep(exit, old(clientReads), clientReads)
      ensures exit.None? ==> Todo() == if old(Todo()) > 0 then old(Todo()) - 1 else 0
      ensures exit == Some(BufferLimit) <==> !old(pendingBuffered) && |Leftover(old(received))| >= UDP_MAX_READ_BUFFER_SIZE
    {
      hide Packets, Leftover, OutOfSync, DecodePacket, DataOf, PacketsOf;
      ready, exit := false, None;
      if pendingBuffered {
        pendingBuffered, ready := false, true;
        NothingHandled(Packets(readBuf));
      } else if |readBuf| >= UDP_MAX_READ_BUFFER_SIZE {
        exit := Some(BufferLimit);
      } else if clientReads != [] {
        FirstRead(received, clientReads);
        var reply := clientReads[0];
        clientReads := clientReads[1..];
        if reply.ReadFailed? {
          exit := Some(ReadError);
        } else if reply.data == [] {
          exit := Some(ClientGone);
        } else {
          DrainAppend(received, reply.data);
          readBuf, received, ready := readBuf + reply.data, received + reply.data, true;
        }
      }
    }

    /** The client's arm of the loop. */
    method ClientArm(now: nat, ghost s0: Start) returns (exit: Option<Exit>)
      requires Inv() && Resting() && Counted() && Followed(s0.log, s0.assoc)
      modifies `pendingBuffered, `clientReads, `received, `readBuf, `routeCache, `udpConn, `currentHandler, `dialReplies,
               `dialed, `sendErrors, `uploaded, `lastActivity, `writeReplies, `log
      ensures Inv() && Counted() && Followed(s0.log, s0.assoc)
      ensures received + DataOf(clientReads) == old(received + DataOf(clientReads))
      ensures old(pendingBuffered) ==> clientReads == old(clientReads)
      ensures exit.None? ==> Todo() == if old(Todo()) > 0 then old(Todo()) - 1 else 0
      ensures !pendingBuffered && old(log) <= log
      ensures Standing(exit) && ReadStep(exit, old(clientReads), clientReads)
      ensures exit == Some(BufferLimit) <==> !old(pendingBuffered) && |Leftover(old(received))| >= UDP_MAX_READ_BUFFER_SIZE
      ensures Patient(|old(log)|, log)
      ensures exit.Some? ==>
                exit.value.ClientGone? || exit.value.ReadError? || exit.value.BufferLimit? || exit.value.GaveUp?
      ensures lastActivity == if Forwarded(log[|old(log)|..]) then now else old(lastActivity)
    {
      hide Packets, Leftover, OutOfSync, DecodePacket, PacketsOf, DataOf;
      hide Session.Associated, Session.Cached, Session.Logged, Session.Succession, Session.Tracked, Session.Framed;
      hide Session.Counted, Session.Inv, Session.Followed;
      var ready;
      ready, exit := Fetch();
      if ready {
        var giveUp := DrainBuffer(now, s0);
        if giveUp {
          exit := Some(GaveUp);
        }
      }
    }

    /** A reply that reached the client. */
    method Respond(p: Packet)
      requires Counted() && cut == []
      modifies `recvErrors, `downloaded, `replies, `toClient, `arrivals
      ensures Counted() && replies == old(replies) + [p] && recvErrors == 0 && arrivals == old(arrivals) + [true]
    {
      hide PacketBytes, Stream, PayloadBytes, RecvStreak;
      assert toClient == Stream(replies);
      StreamSnoc(replies, p);
      PayloadSnoc(replies, p);
      RecvStreakSnoc(arrivals, true);
      replies, toClient, arrivals := replies + [p], toClient + PacketBytes(p), arrivals + [true];
      recvErrors, downloaded := 0, downloaded + |p.payload|;
      assert toClient == Stream(replies);
    }

    /** A receive that failed. */
    method MissOne()
      requires Counted()
      modifies `recvErrors, `arrivals
      ensures Counted() && recvErrors == old(recvErrors) + 1 && arrivals == old(arrivals) + [false]
    {
      hide PacketBytes, Stream, PayloadBytes, RecvStreak;
      RecvStreakSnoc(arrivals, false);
      recvErrors, arrivals := recvErrors + 1, arrivals + [false];
    }

    /** A reply of which the client got no more than `part` bytes. */
    ghost method Abandon(p: Packet, part: nat)
      requires Counted() && cut == []
      modifies `toClient, `cut
      ensures Counted() && cut == FirstBytes(PacketBytes(p), part)
    {
      hide PacketBytes, Stream, PayloadBytes, RecvStreak;
      assert toClient == Stream(replies);
      cut := FirstBytes(PacketBytes(p), part);
      toClient := toClient + cut;
    }

    /** Only an undelivered reply is cut short, and it ends the session. */
    ghost predicate CutShort(exit: Option<Exit>, event: Event)
      reads `cut
    {
      if exit == Some(ReplyFailed) || exit == Some(ReplyStalled)
      then
        && event.Datagram? && !event.delivery.Delivered?
        && cut == FirstBytes(PacketBytes(Packet(event.from, event.payload)), event.delivery.part)
      else cut == []
    }

    /** The outbound's arm: a datagram goes back to the client, or an error is counted. */
    method OutboundArm(event: Event, now: nat) returns (exit: Option<Exit>)
      requires Counted() && recvErrors < UDP_MAX_CONSECUTIVE_ERRORS && cut == []
      requires event.Datagram? || event.DatagramError?
      modifies `recvErrors, `downloaded, `replies, `toClient, `cut, `arrivals, `lastActivity
      ensures Counted()
      ensures event.Datagram? && event.delivery.Delivered? ==>
                replies == old(replies) + [Packet(event.from, event.payload)] && lastActivity == now && recvErrors == 0
      ensures !(event.Datagram? && event.delivery.Delivered?) ==>
                replies == old(replies) && lastActivity == old(lastActivity)
      ensures exit.None? ==> recvErrors < UDP_MAX_CONSECUTIVE_ERRORS
      ensures exit.Some? ==> exit.value.ReplyFailed? || exit.value.ReplyStalled? || exit.value.RecvErrors?
      ensures exit.Some? ==> Caused(exit.value, event)
      ensures exit == Some(RecvErrors) <==> recvErrors >= UDP_MAX_CONSECUTIVE_ERRORS
      ensures event.Datagram? ==> (exit.None? <==> event.delivery.Delivered?)
      ensures arrivals == old(arrivals) + (if event.DatagramError? then [false] else if exit.None? then [true] else [])
      ensures CutShort(exit, event)
    {
      hide PacketBytes, Stream, Session.Counted;
      exit := None;
      match event {
        case Datagram(from, payload, Delivered) =>
          Respond(Packet(from, payload));
          lastActivity := now;
        case Datagram(from, payload, NotDelivered(part)) =>
          exit := Some(ReplyFailed);
          Abandon(Packet(from, payload), part);
        case Datagram(from, payload, Stalled(part)) =>
          exit := Some(ReplyStalled);
          Abandon(Packet(from, payload), part);
        case DatagramError =>
          MissOne();
          if recvErrors >= UDP_MAX_CONSECUTIVE_ERRORS {
            exit := Some(RecvErrors);
          }
      }
    }

    /** All arms but the client's.  Without an association the outbound's arm never fires. */
    method OtherArm(event: Event, now: nat) returns (exit: Option<Exit>)
      requires Inv() && Resting() && Counted() && recvErrors < UDP_MAX_CONSECUTIVE_ERRORS && cut == []
      requires !event.ClientTurn?
      modifies `recvErrors, `downloaded, `replies, `toClient, `cut, `arrivals, `lastActivity
      ensures Inv() && Counted() && Standing(exit) && CutShort(exit, event)
      ensures replies == old(replies) + Reply(event, old(udpConn)) && Todo() == old(Todo())
      ensures arrivals == old(arrivals) + Arrival(event, old(udpConn))
      ensures Fatal(event, old(udpConn)) ==> exit.Some?
      ensures (event.Datagram? || event.DatagramError?) && old(udpConn).None? ==>
                exit.None? && replies == old(replies) && recvErrors == old(recvErrors) && toClient == old(toClient)
      ensures event.Datagram? && event.delivery.Delivered? && old(udpConn).Some? ==>
                replies == old(replies) + [Packet(event.from, event.payload)] && recvErrors == 0
      ensures exit.Some? ==> Caused(exit.value, event)
      ensures ReadStep(exit, old(clientReads), clientReads) && exit != Some(BufferLimit) && (exit.None? ==> cut == [])
      ensures event.IdleTick? ==> lastActivity == old(lastActivity)
      ensures exit.None? ==> recvErrors < UDP_MAX_CONSECUTIVE_ERRORS
      ensures exit == Some(RecvErrors) ==> recvErrors >= UDP_MAX_CONSECUTIVE_ERRORS
      ensures exit == Some(IdleTimeout) <==> event.IdleTick? && IdleFor(now, old(lastActivity)) >= idleTimeout
      ensures event.Kick? <==> exit == Some(Kicked)
      ensures lastActivity == if replies != old(replies) then now else old(lastActivity)
    {
      hide Session.Inv, Session.Resting, Session.Standing, Session.Counted;
      exit := None;
      if event.Datagram? || event.DatagramError? {
        if udpConn.Some? {
          exit := OutboundArm(event, now);
        }
      } else if event.Kick? {
        exit := Some(Kicked);
      } else if IdleFor(now, lastActivity) >= idleTimeout {
        exit := Some(IdleTimeout);
      }
      StillStanding(exit);
    }

    /** One turn of the loop. */
    method Turn(event: Event, now: nat, ghost s0: Start) returns (exit: Option<Exit>)
      requires Inv() && Resting() && Counted() && recvErrors < UDP_MAX_CONSECUTIVE_ERRORS && cut == []
      requires Followed(s0.log, s0.assoc)
      modifies this
      ensures Inv() && Counted() && Standing(exit) && CutShort(exit, event) && Followed(s0.log, s0.assoc)
      ensures exit.Some? ==> Caused(exit.value, event)
      ensures ReadStep(exit, old(clientReads), clientReads)
      ensures received + DataOf(clientReads) == old(received + DataOf(clientReads))
      ensures exit.None? || !event.ClientTurn? ==>
                Todo() == if event.ClientTurn? && old(Todo()) > 0 then old(Todo()) - 1 else old(Todo())
      ensures old(log) <= log && replies == old(replies) + Reply(event, old(udpConn))
      ensures arrivals == old(arrivals) + Arrival(event, old(udpConn))
      ensures Fatal(event, old(udpConn)) ==> exit.Some?
      ensures pendingBuffered == (old(pendingBuffered) && !event.ClientTurn?)
      ensures exit.None? ==> recvErrors < UDP_MAX_CONSECUTIVE_ERRORS
      ensures exit == Some(RecvErrors) ==> recvErrors >= UDP_MAX_CONSECUTIVE_ERRORS
      ensures exit == Some(IdleTimeout) <==> event.IdleTick? && IdleFor(now, old(lastActivity)) >= idleTimeout
      ensures lastActivity ==
              if Forwarded(log[|old(log)|..]) || replies != old(replies) then now else old(lastActivity)
      ensures event.Kick? ==> exit == Some(Kicked)
      ensures event.IdleTick? ==> lastActivity == old(lastActivity)
      ensures exit == Some(BufferLimit) <==>
                event.ClientTurn? && !old(pendingBuffered) && |Leftover(old(received))| >= UDP_MAX_READ_BUFFER_SIZE
      ensures Patient(|old(log)|, log)
      ensures exit.None? ==> cut == []
    {
      hide *;
      PatientHere(log);
      NothingForwarded();
      assert log[|log|..] == [];
      exit := None;
      if event.ClientTurn? {
        exit := ClientArm(now, s0);
        ClientEnds(exit, event);
      } else {
        exit := OtherArm(event, now);
      }
    }

    /** The client's turn brings no reply. */
    lemma {:induction false} ClientEnds(exit: Option<Exit>, event: Event)
      requires event.ClientTurn? && cut == []
      requires exit.Some? ==>
                 exit.value.ClientGone? || exit.value.ReadError? || exit.value.BufferLimit? || exit.value.GaveUp?
      ensures CutShort(exit, event) && (exit.Some? ==> Caused(exit.value, event))
      ensures forall c :: Reply(event, c) == [] && Arrival(event, c) == [] && !Fatal(event, c)
    {
    }

    /** The whole loop, for every order of events.  `ps` is any list of packets: if the bytes that
        arrived are the beginning of its encoding, cut anywhere, the packets handled are the
        beginning of the list, and neither framing error nor the buffer limit ends the session. */
    method Run(events: seq<(Event, nat)>, ghost ps: seq<Packet>)
      returns (exit: Option<Exit>, turns: nat, ghost marks: seq<nat>)
      requires Inv() && Resting() && Counted() && recvErrors < UDP_MAX_CONSECUTIVE_ERRORS && cut == []
      modifies this
      ensures Inv() && Counted()
      // the events are taken one by one until one of them ends the session
      ensures turns <= |events| && (exit.None? ==> turns == |events|)
      ensures exit.Some? ==> turns > 0 && Caused(exit.value, events[turns - 1].0)
      ensures exit.None? ==> recvErrors < 8 && cut == []
      ensures exit == Some(RecvErrors) ==> recvErrors >= 8
      // one chunk is taken for each of the client's turns, and none is passed over
      ensures StreamAt(events, turns, exit, old(Begins()), received, clientReads, pendingBuffered)
      // replies, failed receives and fatal events take effect, by the association of their moment
      ensures EffectsAt(events, turns, exit, old(Begins()), marks, log, replies, arrivals)
      // the client's turns end it at the buffer limit
      ensures LimitAt(events, turns, exit, old(Begins()))
      // and idle ticks after the timeout
      ensures IdleAt(events, turns, exit, old(Begins()), idleTimeout, marks, log, lastActivity)
      // every packet was treated as the router says
      ensures forall e :: e in log ==> Legit(router, allowsUdp, e)
      // and met the fate that the packets before it and the answers to dials and sends have left for it
      ensures old(log) <= log && Consequent(router, allowsUdp, old(Now()), log[|old(log)|..])
      // the packets handled are those of the bytes received
      ensures PacketsOf(log) <= Packets(received)
      ensures exit != Some(GaveUp) && !pendingBuffered ==>
                PacketsOf(log) == Packets(received) && readBuf == Leftover(received) && !OutOfSync(received)
      ensures exit == Some(GaveUp) ==>
                sendErrors >= 8 || (OutOfSync(received) && PacketsOf(log) == Packets(received))
      ensures exit == Some(BufferLimit) ==> |Leftover(received)| >= 65536
      ensures InOrder(ps) && received <= Stream(ps) ==>
                && PacketsOf(log) <= ps
                && exit != Some(BufferLimit)
                && (exit == Some(GaveUp) ==> sendErrors >= 8)
                && (received == Stream(ps) && exit != Some(GaveUp) && !pendingBuffered ==> PacketsOf(log) == ps)
    {
      hide *;
      LimitsAre();
      exit, turns, marks := None, 0, [];
      ghost var s0 := Begins();
      StartedFrom();
      Nothing(events, s0);
      while turns < |events| && exit.None?
        invariant turns <= |events| && TakenTurns(events, turns, exit, s0, marks)
        decreases |events| - turns
      {
        exit, marks := TakeTurn(events, turns, s0, marks);
        turns := turns + 1;
      }
      AtTheEnd(events, turns, exit, s0, marks);
      AllLegit();
      SoFar(s0);
      Handled(exit);
      if InOrder(ps) && received <= Stream(ps) {
        ReceivedInOrder(ps, received);
        OnlySome(exit, ps);
      }
    }

    ghost function Begins(): Start
      reads `received, `clientReads, `pendingBuffered, `log, `replies, `arrivals, `lastActivity
      reads `udpConn, `currentHandler, `dialed, `dialReplies, `writeReplies
    {
      Start(received, clientReads, pendingBuffered, log, replies, arrivals, lastActivity, Now())
    }

    lemma {:induction false} StartedFrom()
      ensures Begins().log == log && Begins().assoc == Now()
    {
    }

    /** The session after n turns of a run. */
    ghost predicate TakenTurns(events: seq<(Event, nat)>, n: nat, exit: Option<Exit>, s0: Start, marks: seq<nat>)
      requires n <= |events|
      reads this
    {
      && Inv() && Counted() && Standing(exit) && Followed(s0.log, s0.assoc)
      && (exit.None? ==> recvErrors < UDP_MAX_CONSECUTIVE_ERRORS && cut == [])
      && (exit == Some(RecvErrors) ==> recvErrors >= UDP_MAX_CONSECUTIVE_ERRORS)
      && (exit.Some? ==> n > 0 && Caused(exit.value, events[n - 1].0))
      && StreamAt(events, n, exit, s0, received, clientReads, pendingBuffered)
      && EffectsAt(events, n, exit, s0, marks, log, replies, arrivals)
      && IdleAt(events, n, exit, s0, idleTimeout, marks, log, lastActivity) && LimitAt(events, n, exit, s0)
    }

    lemma {:induction false} Nothing(events: seq<(Event, nat)>, s0: Start)
      requires Inv() && Resting() && Counted() && recvErrors < UDP_MAX_CONSECUTIVE_ERRORS && cut == []
      requires s0 == Begins()
      ensures TakenTurns(events, 0, None, s0, [])
    {
      hide Packets, Leftover, OutOfSync, DecodePacket, PacketsOf, DataOf, Forwarded, ConnOf;
      hide Session.Inv, Session.Counted, Session.Resting, Session.Framed;
      assert events[..0] == [];
      NothingForwarded();
      assert log[|log|..] == [];
    }

    /** One turn, added to the run so far. */
    method TakeTurn(events: seq<(Event, nat)>, n: nat, ghost s0: Start, ghost marks: seq<nat>)
      returns (exit: Option<Exit>, ghost marks': seq<nat>)
      requires n < |events| && TakenTurns(events, n, None, s0, marks)
      modifies this
      ensures TakenTurns(events, n + 1, exit, s0, marks')
    {
      hide Packets, Leftover, OutOfSync, DecodePacket, PacketsOf, DataOf, Forwarded, ConnOf, ClientTurns, IdleFor;
      hide Session.Inv, Session.Counted, Session.Resting, Session.Standing, Session.Framed, Session.CutShort;
      hide StreamAt, EffectsAt, IdleAt, LimitAt, Caused, ReadStep, Reply, Arrival, Fatal, HandledBy, BytesBy, Patient,
           RecvStreak,
           SendStreak;
      GoesOn();
      MarkNow(events, n, s0);
      ghost var was := Begins();
      exit := Turn(events[n].0, events[n].1, s0);
      marks' := marks + [|was.log|];
      StreamStep(events, n, s0, was.received, was.script, was.pending, exit, received, clientReads, pendingBuffered);
      EffectsStep(events, n, s0, marks, was.log, was.replies, was.arrivals, exit, log, replies, arrivals);
      IdleStep(events, n, s0, idleTimeout, marks, was.log, was.lastActivity, exit, log, lastActivity);
      LimitStep(events, n, s0, was.received, was.pending, exit);
    }

    /** What the turns taken amount to. */
    lemma {:induction false} AtTheEnd(events: seq<(Event, nat)>, n: nat, exit: Option<Exit>, s0: Start, marks: seq<nat>)
      requires n <= |events| && TakenTurns(events, n, exit, s0, marks)
      ensures Inv() && Counted() && Standing(exit) && Followed(s0.log, s0.assoc)
      ensures exit.None? ==> recvErrors < UDP_MAX_CONSECUTIVE_ERRORS && cut == []
      ensures exit == Some(RecvErrors) ==> recvErrors >= UDP_MAX_CONSECUTIVE_ERRORS
      ensures exit.Some? ==> n > 0 && Caused(exit.value, events[n - 1].0)
      ensures StreamAt(events, n, exit, s0, received, clientReads, pendingBuffered)
      ensures EffectsAt(events, n, exit, s0, marks, log, replies, arrivals)
      ensures IdleAt(events, n, exit, s0, idleTimeout, marks, log, lastActivity) && LimitAt(events, n, exit, s0)
    {
    }

    /** Packets in order: none is misread, and the buffer never fills up. */
    lemma {:induction false} OnlySome(exit: Option<Exit>, ps: seq<Packet>)
      requires Standing(exit)
      requires Packets(received) <= ps && !OutOfSync(received) && |Leftover(received)| < UDP_MAX_READ_BUFFER_SIZE
      requires received == Stream(ps) ==> Packets(received) == ps
      ensures PacketsOf(log) <= ps && exit != Some(BufferLimit)
      ensures exit == Some(GaveUp) ==> sendErrors >= UDP_MAX_CONSECUTIVE_ERRORS
      ensures received == Stream(ps) && exit != Some(GaveUp) && !pendingBuffered ==> PacketsOf(log) == ps
    {
      hide Packets, Leftover, OutOfSync, PacketsOf, Stream;
      NothingHandled(Packets(received));
    }

    /** The history as a turn begins. */
    lemma {:induction false} MarkNow(events: seq<(Event, nat)>, n: nat, s0: Start)
      requires n < |events| && Resting() && Inv()
      requires StreamAt(events, n, None, s0, received, clientReads, pendingBuffered)
      ensures |log| == HandledBy(s0.received, s0.script, s0.pending, ClientTurns(events[..n]))
      ensures udpConn == ConnOf(log)
      ensures Todo() == TodoAt(clientReads, pendingBuffered)
      ensures sendErrors == SendStreak(log) && (Counted() ==> recvErrors == RecvStreak(arrivals))
      ensures !pendingBuffered ==> received == BytesBy(s0.received, s0.script, s0.pending, ClientTurns(events[..n]))
      ensures pendingBuffered <==> s0.pending && ClientTurns(events[..n]) == 0
    {
      hide Packets, Leftover, OutOfSync, DecodePacket, ConnOf, DataOf, ClientTurns, PacketsOf;
      hide Session.Associated, Session.Cached, Session.Logged, Session.Succession;
      DataTaken(received, s0.received, clientReads, s0.script);
      AsManyPackets(log);
      Streak();
    }

    lemma {:induction false} StillStanding(exit: Option<Exit>)
      requires Resting() && exit != Some(GaveUp) && exit != Some(BufferLimit)
      ensures Standing(exit)
    {
    }

    lemma {:induction false} GoesOn()
      requires Standing(None)
      ensures Resting()
    {
    }

    /** The packets handled are always the first ones of the stream. */
    lemma {:induction false} Handled(exit: Option<Exit>)
      requires Standing(exit)
      ensures PacketsOf(log) <= Packets(received)
      ensures exit != Some(GaveUp) && !pendingBuffered ==>
                PacketsOf(log) == Packets(received) && readBuf == Leftover(received) && !OutOfSync(received)
      ensures exit == Some(GaveUp) ==>
                sendErrors >= UDP_MAX_CONSECUTIVE_ERRORS || (OutOfSync(received) && PacketsOf(log) == Packets(received))
      ensures exit == Some(BufferLimit) ==> |Leftover(received)| >= UDP_MAX_READ_BUFFER_SIZE
    {
      hide Packets, Leftover, OutOfSync, PacketsOf;
      NothingHandled(Packets(received));
    }
  }

  /** Packets a client may send: well formed, from 11 to 65536 bytes on the wire. */
  predicate InOrder(ps: seq<Packet>) {
    && AllWellFormed(ps)
    && forall p :: p in ps ==> 11 <= |PacketBytes(p)| <= 65536
  }

  /** Part of such a stream holds some of its packets and never too much of one. */
  lemma {:induction false} ReceivedInOrder(ps: seq<Packet>, received: Bytes)
    requires InOrder(ps) && received <= Stream(ps)
    ensures Packets(received) <= ps && !OutOfSync(received)
    ensures |Leftover(received)| < UDP_MAX_READ_BUFFER_SIZE
    ensures received == Stream(ps) ==> Packets(received) == ps
  {
    hide Packets, Leftover, OutOfSync, DecodePacket, Stream, PacketBytes, WellFormedPacket;
    var k := |received|;
    assert received == Stream(ps)[..k];
    PartOfStream(ps, k);
    if received == Stream(ps) {
      EmittedExactly(ps);
    }
  }

  lemma {:induction false} StreamSnoc(ps: seq<Packet>, p: Packet)
    ensures Stream(ps + [p]) == Stream(ps) + PacketBytes(p)
    decreases |ps|
  {
    hide PacketBytes;
    if ps == [] {
      assert ps + [p] == [p];
      assert Stream([p]) == PacketBytes(p) + Stream([]);
    } else {
      StreamSnoc(ps[1..], p);
      assert (ps + [p])[1..] == ps[1..] + [p];
    }
  }

  /** One step of draining. */
  lemma {:induction false} Drained(s: Bytes)
    ensures DecodePacket(s).Ok? ==>
              && Packets(s) == [DecodePacket(s).value] + Packets(s[DecodePacket(s).consumed..])
              && Leftover(s) == Leftover(s[DecodePacket(s).consumed..])
    ensures !DecodePacket(s).Ok? ==> Packets(s) == [] && Leftover(s) == s
    ensures s == [] ==> DecodePacket(s).NeedMoreData?
  {
  }

  /** A failed dial for one proxy loses the association of another: its next packet is dropped
      without a new attempt, although a dial would have succeeded. */
  method LostAssociation(h1: Handler, h2: Handler, a: Address, b: Address, payload: Bytes)
    returns (dialsLeft: seq<bool>, ghost fates: seq<Fate>)
    requires h1 != h2 && a != b
    ensures dialsLeft == [true]
    ensures |fates| == 3 && fates[0].Written? && fates[1].DialFailed? && fates[2].Unconnected?
  {
    hide Session.Inv, Session.Associated, Session.Cached, Session.Logged, Session.Succession;
    hide Session.Resting, Session.Counted;
    var router := (target: Address) => if target == a then Proxy(h1, None) else Proxy(h2, None);
    var s := new Session(router, _ => true, 300, [], [], [true, false, true], [Some(|payload|), Some(|payload|)]);
    var gaveUp;
    ghost var f0, f1, f2;
    gaveUp, f0 := s.Forward(Packet(a, payload), 0);
    assert s.currentHandler == Some(h1) && s.dialReplies == [false, true];
    gaveUp, f1 := s.Forward(Packet(b, payload), 0);
    assert s.currentHandler == Some(h1) && s.dialReplies == [true];
    gaveUp, f2 := s.Forward(Packet(a, payload), 0);
    dialsLeft, fates := s.dialReplies, [f0, f1, f2];
  }
}
