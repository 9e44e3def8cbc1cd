/** The registry's locks: each concurrent map is split into shards, each with its own lock.
    Every operation takes one lock at a time, except a kick, which visits connections while it
    keeps the lock of the user's shard. */
module RegistryLocks {
  import R = Registry

  datatype Lock = ConnShard(k: nat) | UserShard(k: nat)

  datatype Maybe = NoLock | Wants(lock: Lock)

  /** A thread inside the registry, by the locks it holds or waits for. */
  datatype Pc =
    | Outside
    | WantConn(c: nat, u: nat)                     // register, unregister: connection map
    | HoldConn(c: nat, u: nat)
    | WantOnly(c: nat)                             // unregister of an unknown id
    | HoldOnly(c: nat)
    | WantUser(u: nat)                             // ... then user map
    | HoldUser(u: nat)
    | KickWantUser(u: nat, visits: seq<nat>)       // kick: user map, kept while visiting
    | KickHold(u: nat, visits: seq<nat>)
    | KickWantConn(u: nat, c: nat, visits: seq<nat>)
    | KickHoldBoth(u: nat, c: nat, visits: seq<nat>)
    | AllWantConn(visits: seq<nat>)                // cancel_all: one shard after the other
    | AllHoldConn(c: nat, visits: seq<nat>)

  function Holds(pc: Pc): set<Lock> {
    match pc
    case HoldConn(c, _) => {ConnShard(c)}
    case HoldOnly(c) => {ConnShard(c)}
    case HoldUser(u) => {UserShard(u)}
    case KickHold(u, _) => {UserShard(u)}
    case KickWantConn(u, _, _) => {UserShard(u)}
    case KickHoldBoth(u, c, _) => {UserShard(u), ConnShard(c)}
    case AllHoldConn(c, _) => {ConnShard(c)}
    case _ => {}
  }

  function Wanted(pc: Pc): Maybe {
    match pc
    case WantConn(c, _) => Wants(ConnShard(c))
    case WantOnly(c) => Wants(ConnShard(c))
    case WantUser(u) => Wants(UserShard(u))
    case KickWantUser(u, _) => Wants(UserShard(u))
    case KickWantConn(_, c, _) => Wants(ConnShard(c))
    case AllWantConn(visits) => if visits == [] then NoLock else Wants(ConnShard(visits[0]))
    case _ => NoLock
  }

  /** What the thread becomes after its next step. */
  function After(pc: Pc): Pc
    requires !pc.Outside?
  {
    match pc
    case WantConn(c, u) => HoldConn(c, u)
    case HoldConn(_, u) => WantUser(u)
    case WantOnly(c) => HoldOnly(c)
    case HoldOnly(_) => Outside
    case WantUser(u) => HoldUser(u)
    case HoldUser(_) => Outside
    case KickWantUser(u, visits) => KickHold(u, visits)
    case KickHold(u, visits) => if visits == [] then Outside else KickWantConn(u, visits[0], visits[1..])
    case KickWantConn(u, c, visits) => KickHoldBoth(u, c, visits)
    case KickHoldBoth(u, _, visits) => KickHold(u, visits)
    case AllWantConn(visits) => if visits == [] then Outside else AllHoldConn(visits[0], visits[1..])
    case AllHoldConn(_, visits) => AllWantConn(visits)
  }

  /** The thread can certainly move: it waits for nothing, or for a lock nobody holds. */
  predicate Free(threads: seq<Pc>, t: nat) {
    && t < |threads| && !threads[t].Outside?
    && (Wanted(threads[t]).NoLock? || forall i :: 0 <= i < |threads| ==> Wanted(threads[t]).lock !in Holds(threads[i]))
  }

  /** Only a kick holds a lock while it waits, and then it holds a user shard and waits for a
      connection shard. */
  lemma {:induction false} LockOrder(pc: Pc)
    ensures Wanted(pc).Wants? && Holds(pc) != {} ==> Wanted(pc).lock.ConnShard? && forall l :: l in Holds(pc) ==> l.UserShard?
  {
  }

  /** A step takes exactly the lock that was waited for, and otherwise none. */
  lemma {:induction false} TakesWhatItWants(pc: Pc)
    requires !pc.Outside?
    ensures Wanted(pc).Wants? ==> Wanted(pc).lock !in Holds(pc) && Holds(After(pc)) == Holds(pc) + {Wanted(pc).lock}
    ensures Wanted(pc).NoLock? ==> Holds(After(pc)) <= Holds(pc)
    ensures After(pc).Outside? ==> Holds(After(pc)) == {}
  {
  }

  ghost predicate HoldsConn(pc: Pc) {
    pc.HoldConn? || pc.HoldOnly? || pc.KickHoldBoth? || pc.AllHoldConn?
  }

  ghost predicate HoldsUser(pc: Pc) {
    pc.HoldUser? || pc.KickHold? || pc.KickWantConn?
  }

  /** Whatever the threads are doing, one of them can move. */
  lemma {:induction false} NoDeadlock(threads: seq<Pc>)
    requires exists t :: 0 <= t < |threads| && !threads[t].Outside?
    ensures exists t: nat :: Free(threads, t)
  {
    if t :| 0 <= t < |threads| && HoldsConn(threads[t]) {
      assert Free(threads, t);
    } else if t :| 0 <= t < |threads| && HoldsUser(threads[t]) {
      assert Free(threads, t);
    } else {
      var t :| 0 <= t < |threads| && !threads[t].Outside?;
      assert Free(threads, t);
    }
  }

  function Work(pc: Pc): nat {
    match pc
    case Outside => 0
    case WantConn(_, _) => 4
    case HoldConn(_, _) => 3
    case WantOnly(_) => 2
    case HoldOnly(_) => 1
    case WantUser(_) => 2
    case HoldUser(_) => 1
    case KickWantUser(_, visits) => 2 + 3 * |visits|
    case KickHold(_, visits) => 1 + 3 * |visits|
    case KickWantConn(_, _, visits) => 3 + 3 * |visits|
    case KickHoldBoth(_, _, visits) => 2 + 3 * |visits|
    case AllWantConn(visits) => 1 + 2 * |visits|
    case AllHoldConn(_, visits) => 2 + 2 * |visits|
  }

  function TotalWork(threads: seq<Pc>): nat {
    if threads == [] then 0 else Work(threads[0]) + TotalWork(threads[1..])
  }

  lemma {:induction false} StepDoesWork(threads: seq<Pc>, t: nat)
    requires t < |threads| && !threads[t].Outside?
    ensures TotalWork(threads[t := After(threads[t])]) < TotalWork(threads)
  {
    var later := threads[t := After(threads[t])];
    if t == 0 {
      assert later[1..] == threads[1..];
    } else {
      assert later[1..] == threads[1..][t - 1 := After(threads[t])];
      StepDoesWork(threads[1..], t - 1);
    }
  }

  /** A schedule: each entry names a thread that can certainly move. */
  ghost predicate Runs(threads: seq<Pc>, schedule: seq<nat>)
    decreases |schedule|
  {
    schedule != [] ==> Free(threads, schedule[0]) && Runs(threads[schedule[0] := After(threads[schedule[0]])], schedule[1..])
  }

  function Final(threads: seq<Pc>, schedule: seq<nat>): seq<Pc>
    requires Runs(threads, schedule)
    decreases |schedule|
  {
    if schedule == [] then threads else Final(threads[schedule[0] := After(threads[schedule[0]])], schedule[1..])
  }

  /** From any state every thread can be brought out of the registry without ever contending. */
  lemma {:induction false} EveryoneGetsOut(threads: seq<Pc>) returns (schedule: seq<nat>)
    ensures Runs(threads, schedule)
    ensures |Final(threads, schedule)| == |threads|
    ensures forall pc :: pc in Final(threads, schedule) ==> pc.Outside?
    decreases TotalWork(threads)
  {
    hide Free, After, Work, TotalWork;
    if exists t :: 0 <= t < |threads| && !threads[t].Outside? {
      NoDeadlock(threads);
      var t: nat :| Free(threads, t);
      FreeIsInside(threads, t);
      StepDoesWork(threads, t);
      var later := threads[t := After(threads[t])];
      var rest := EveryoneGetsOut(later);
      schedule := [t] + rest;
      assert schedule[1..] == rest;
    } else {
      schedule := [];
    }
  }

  lemma {:induction false} FreeIsInside(threads: seq<Pc>, t: nat)
    requires Free(threads, t)
    ensures t < |threads| && !threads[t].Outside?
  {
  }

  // ---------------------------------------------------------------- the same threads

  /** The shards of some connections, in the order they are visited. */
  function Shards(order: seq<R.ConnId>, conn: R.ConnId -> nat): (shards: seq<nat>)
    ensures |shards| == |order|
  {
    if order == [] then [] else [conn(order[0])] + Shards(order[1..], conn)
  }

  /** A registry thread between two map operations, seen by its locks: a kick keeps its user's
      shard, all others hold nothing.  `order` is what it has still to visit. */
  function Between(pc: R.Pc, order: seq<R.ConnId>, conn: R.ConnId -> nat, user: R.UserId -> nat): Pc {
    match pc
    case Idle => Outside
    case RegFetched(id, u) => WantConn(conn(id), user(u))
    case RegInserted(_, u) => WantUser(user(u))
    case UnregRemoved(_, u) => WantUser(user(u))
    case Kicking(u, _, _, _, _) => KickHold(user(u), Shards(order, conn))
    case Cancelling(_, _, _, _) => AllWantConn(Shards(order, conn))
  }

  /** The thread as its next map operation begins. */
  function Beginning(s: R.State, t: nat, step: R.Step, order: seq<R.ConnId>,
                     conn: R.ConnId -> nat, user: R.UserId -> nat): Pc
    requires R.Enabled(s, t, step)
  {
    match step
    case RemoveConn(id) =>
      if id in s.conns then WantConn(conn(id), user(s.conns[id])) else WantOnly(conn(id))
    case OpenUser(u) => if u in s.users then KickWantUser(user(u), Shards(order, conn)) else WantUser(user(u))
    case VisitConn(id) => KickHold(user(s.threads[t].user), [conn(id)] + Shards(order, conn))
    case VisitAny(id) => AllWantConn([conn(id)] + Shards(order, conn))
    case OpenAll => AllWantConn(Shards(order, conn))
    case FetchId(u) => WantConn(conn(s.next), user(u))
    case _ => Between(s.threads[t], order, conn, user)
  }

  /** Some lock steps lead from one place to the other. */
  ghost predicate Leads(from: Pc, n: nat, to: Pc)
    decreases n
  {
    if n == 0 then from == to else !from.Outside? && Leads(After(from), n - 1, to)
  }

  /** Lock steps each operation of the registry takes. */
  function StepsOf(s: R.State, t: nat, step: R.Step): nat
    requires R.Enabled(s, t, step)
  {
    match step
    case FetchId(_) => 0
    case OpenAll => 0
    case CloseUser => 1
    case CloseAll => 1
    case OpenUser(u) => if u in s.users then 1 else 2
    case VisitConn(_) => 3
    case _ => 2
  }

  /** Every step of a registry thread is a run of its lock steps, for any shard maps, from where
      its last step has left it: the two models are about the same threads. */
  lemma {:induction false} StepIsLockSteps(s: R.State, t: nat, step: R.Step, order: seq<R.ConnId>,
                                           conn: R.ConnId -> nat, user: R.UserId -> nat)
    requires R.Enabled(s, t, step)
    requires step.CloseUser? || step.CloseAll? ==> order == []
    ensures Leads(Beginning(s, t, step, order, conn, user), StepsOf(s, t, step),
                  Between(R.Apply(s, t, step).threads[t], order, conn, user))
    ensures !s.threads[t].Idle? ==>
              Beginning(s, t, step, order, conn, user) ==
              Between(s.threads[t], (if step.VisitConn? || step.VisitAny? then [step.id] else []) + order, conn, user)
  {
    var from, to := Beginning(s, t, step, order, conn, user), Between(R.Apply(s, t, step).threads[t], order, conn, user);
    var rest := Shards(order, conn);
    if step.VisitConn? {
      assert ([step.id] + order)[1..] == order && ([conn(step.id)] + rest)[1..] == rest;
      assert Leads(After(After(After(from))), 0, to);
      assert Leads(After(After(from)), 1, to);
    } else if step.VisitAny? {
      assert ([step.id] + order)[1..] == order && ([conn(step.id)] + rest)[1..] == rest;
      assert Leads(After(After(from)), 0, to);
    } else {
      assert [] + order == order;
      if StepsOf(s, t, step) == 2 {
        assert Leads(After(After(from)), 0, to);
      }
    }
  }

  /** The shards of the map entries a step reads or writes. */
  function Touches(s: R.State, t: nat, step: R.Step, conn: R.ConnId -> nat, user: R.UserId -> nat): set<Lock>
    requires R.Enabled(s, t, step)
  {
    match step
    case InsertConn => {ConnShard(conn(s.threads[t].id))}
    case InsertUser => {UserShard(user(s.threads[t].user))}
    case RemoveConn(id) => {ConnShard(conn(id))}
    case RemoveUser => {UserShard(user(s.threads[t].user))}
    case OpenUser(u) => {UserShard(user(u))}
    case VisitConn(id) => {UserShard(user(s.threads[t].user)), ConnShard(conn(id))}
    case VisitAny(id) => {ConnShard(conn(id))}
    case _ => {}
  }

  /** The thread after n lock steps. */
  function Nth(pc: Pc, n: nat): Pc
    decreases n
  {
    if n == 0 || pc.Outside? then pc else Nth(After(pc), n - 1)
  }

  /** Every step of a registry thread touches the maps while it holds the shards concerned, a visit of
      a kick both of them. */
  lemma {:induction false} TouchesUnderLock(s: R.State, t: nat, step: R.Step, order: seq<R.ConnId>,
                                            conn: R.ConnId -> nat, user: R.UserId -> nat)
    requires R.Enabled(s, t, step)
    ensures exists n: nat :: n <= StepsOf(s, t, step) &&
              Touches(s, t, step, conn, user) <= Holds(Nth(Beginning(s, t, step, order, conn, user), n))
  {
    var from := Beginning(s, t, step, order, conn, user);
    var n := if step.VisitConn? then 2 else if Touches(s, t, step, conn, user) == {} then 0 else 1;
    assert Nth(from, 1) == Nth(After(from), 0) || from.Outside?;
    if step.VisitConn? {
      assert Nth(from, 2) == After(After(from));
    }
    assert Touches(s, t, step, conn, user) <= Holds(Nth(from, n));
  }

  /** A writer that finds the user's shard free is one the registry lets in: whoever kicks the user
      holds that shard. */
  lemma {:induction false} EntryIsLocked(s: R.State, u: R.UserId, orders: seq<seq<R.ConnId>>,
                                         conn: R.ConnId -> nat, user: R.UserId -> nat)
    requires |orders| == |s.threads|
    requires forall t :: 0 <= t < |s.threads| ==>
               UserShard(user(u)) !in Holds(Between(s.threads[t], orders[t], conn, user))
    ensures R.Writable(s, u)
  {
    forall t | 0 <= t < |s.threads|
      ensures !(s.threads[t].Kicking? && s.threads[t].user == u)
    {
      assert UserShard(user(u)) !in Holds(Between(s.threads[t], orders[t], conn, user));
    }
  }
}
