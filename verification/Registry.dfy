/** The connection registry under concurrency: any number of threads, one step per operation
    on a concurrent map, every interleaving. */
module Registry {

  type ConnId = nat
  type UserId = int

  /** Where a thread stands between two map operations. */
  datatype Pc =
    | Idle
    | RegFetched(id: ConnId, user: UserId)    // id drawn, in no map yet
    | RegInserted(id: ConnId, user: UserId)   // in `conns`, not yet in the user's set
    | UnregRemoved(id: ConnId, user: UserId)  // out of `conns`, still in the user's set
    | Kicking(user: UserId, ids: set<ConnId>, todo: set<ConnId>, hit: set<ConnId>, count: nat)
    | Cancelling(ids: set<ConnId>, todo: set<ConnId>, hit: set<ConnId>, count: nat)

  datatype State = State(
    next: ConnId,
    conns: map<ConnId, UserId>,
    users: map<UserId, set<ConnId>>,
    cancelled: set<ConnId>,
    inserted: set<ConnId>,                    // ids that have been in `conns`
    returned: set<ConnId>,                    // ids handed to a caller by a finished register
    threads: seq<Pc>)

  datatype Step =
    | FetchId(user: UserId)
    | InsertConn
    | InsertUser
    | RemoveConn(id: ConnId)
    | RemoveUser
    | OpenUser(user: UserId)                  // kick takes the user's entry and keeps it
    | VisitConn(id: ConnId)
    | CloseUser
    | OpenAll                                 // cancel_all begins
    | VisitAny(id: ConnId)                    // an entry there from the start, or a newer one
    | CloseAll

  predicate Init(s: State) {
    && s.next == 1 && s.conns == map[] && s.users == map[]
    && s.cancelled == {} && s.inserted == {} && s.returned == {}
    && forall t :: 0 <= t < |s.threads| ==> s.threads[t] == Idle
  }

  function AddId(users: map<UserId, set<ConnId>>, user: UserId, id: ConnId): map<UserId, set<ConnId>> {
    users[user := (if user in users then users[user] else {}) + {id}]
  }

  /** remove_if_mut: drop the id and, in the same operation, an entry left empty. */
  function DropId(users: map<UserId, set<ConnId>>, user: UserId, id: ConnId): map<UserId, set<ConnId>> {
    if user !in users then users
    else
      var rest := users[user] - {id};
      if rest == {} then users - {user} else users[user := rest]
  }

  /** No kick is holding this user's entry, so it can be written. */
  predicate Writable(s: State, user: UserId) {
    forall t :: 0 <= t < |s.threads| ==> !(s.threads[t].Kicking? && s.threads[t].user == user)
  }

  predicate Enabled(s: State, t: nat, step: Step) {
    && t < |s.threads|
    && var pc := s.threads[t];
    match step
    case FetchId(_) => pc.Idle?
    case InsertConn => pc.RegFetched?
    case InsertUser => pc.RegInserted? && Writable(s, pc.user)
    case RemoveConn(id) => pc.Idle? && id in s.returned
    case RemoveUser => pc.UnregRemoved? && Writable(s, pc.user)
    case OpenUser(_) => pc.Idle?
    case VisitConn(id) => pc.Kicking? && id in pc.todo
    case CloseUser => pc.Kicking? && pc.todo == {}
    case OpenAll => pc.Idle?
    case VisitAny(id) => pc.Cancelling? && (id in pc.todo || (id in s.conns && id !in pc.ids))
    case CloseAll => pc.Cancelling? && pc.todo == {}
  }

  function Apply(s: State, t: nat, step: Step): State
    requires Enabled(s, t, step)
  {
    var pc := s.threads[t];
    match step
    case FetchId(user) => s.(next := s.next + 1, threads := s.threads[t := RegFetched(s.next, user)])
    case InsertConn =>
      s.(conns := s.conns[pc.id := pc.user], inserted := s.inserted + {pc.id},
         threads := s.threads[t := RegInserted(pc.id, pc.user)])
    case InsertUser =>
      s.(users := AddId(s.users, pc.user, pc.id), returned := s.returned + {pc.id}, threads := s.threads[t := Idle])
    case RemoveConn(id) =>
      if id in s.conns then
        s.(conns := s.conns - {id}, threads := s.threads[t := UnregRemoved(id, s.conns[id])])
      else s
    case RemoveUser => s.(users := DropId(s.users, pc.user, pc.id), threads := s.threads[t := Idle])
    case OpenUser(user) =>
      if user in s.users then s.(threads := s.threads[t := Kicking(user, s.users[user], s.users[user], {}, 0)]) else s
    case VisitConn(id) =>
      if id in s.conns then
        s.(cancelled := s.cancelled + {id},
           threads := s.threads[t := Kicking(pc.user, pc.ids, pc.todo - {id}, pc.hit + {id}, pc.count + 1)])
      else s.(threads := s.threads[t := Kicking(pc.user, pc.ids, pc.todo - {id}, pc.hit, pc.count)])
    case CloseUser => s.(threads := s.threads[t := Idle])
    case OpenAll => s.(threads := s.threads[t := Cancelling(s.conns.Keys, s.conns.Keys, {}, 0)])
    case VisitAny(id) =>
      if id in s.conns then
        s.(cancelled := s.cancelled + {id},
           threads := s.threads[t := Cancelling(pc.ids + {id}, pc.todo - {id}, pc.hit + {id}, pc.count + 1)])
      else s.(threads := s.threads[t := Cancelling(pc.ids, pc.todo - {id}, pc.hit, pc.count)])
    case CloseAll => s.(threads := s.threads[t := Idle])
  }

  // ---------------------------------------------------------------- invariant

  ghost predicate InUsers(s: State, id: ConnId, user: UserId) {
    user in s.users && id in s.users[user]
  }

  ghost predicate At(s: State, pc: Pc) {
    exists t :: 0 <= t < |s.threads| && s.threads[t] == pc
  }

  /** What a thread between two operations knows about its connection. */
  ghost predicate ThreadOk(s: State, pc: Pc) {
    match pc
    case Idle => true
    case RegFetched(id, _) => id < s.next && id !in s.inserted && id !in s.returned
    case RegInserted(id, user) =>
      && id in s.conns && s.conns[id] == user && id !in s.returned
      && forall u :: u in s.users ==> id !in s.users[u]
    case UnregRemoved(id, user) => id !in s.conns && id in s.returned && InUsers(s, id, user)
    case Kicking(user, ids, todo, hit, count) =>
      user in s.users && s.users[user] == ids && Covered(s, ids, todo, hit) && count == |hit|
    case Cancelling(ids, todo, hit, count) => Covered(s, ids, todo, hit) && count == |hit|
  }

  /** Of the ids to visit, those visited were cancelled or had left for good. */
  ghost predicate Covered(s: State, ids: set<ConnId>, todo: set<ConnId>, hit: set<ConnId>) {
    && todo <= ids <= s.inserted
    && hit <= ids - todo
    && hit <= s.cancelled
    && forall id :: id in ids && id !in todo && id !in hit ==> id !in s.conns
  }

  /** No two threads work on the same connection. */
  ghost predicate Distinct(s: State) {
    forall t1, t2 :: 0 <= t1 < t2 < |s.threads| && Owns(s.threads[t1]) && Owns(s.threads[t2])
      ==> s.threads[t1].id != s.threads[t2].id
  }

  predicate Owns(pc: Pc) {
    pc.RegFetched? || pc.RegInserted? || pc.UnregRemoved?
  }

  /** Every id is new, every thread's knowledge is right, and no user entry is empty. */
  ghost predicate Local(s: State) {
    && (forall id :: id in s.inserted || id in s.returned ==> id < s.next)
    && s.conns.Keys <= s.inserted
    && s.returned <= s.inserted
    && (forall u, id :: u in s.users && id in s.users[u] ==> id in s.returned)
    && (forall u :: u in s.users ==> s.users[u] != {})
    && (forall t :: 0 <= t < |s.threads| ==> ThreadOk(s, s.threads[t]))
    && Distinct(s)
  }

  /** The two maps agree but for connections some thread is in the middle of. */
  ghost predicate Linked(s: State) {
    && (forall id :: id in s.conns ==> InUsers(s, id, s.conns[id]) || At(s, RegInserted(id, s.conns[id])))
    && (forall u, id :: u in s.users && id in s.users[u] ==>
          (id in s.conns && s.conns[id] == u) || At(s, UnregRemoved(id, u)))
  }

  ghost predicate Inv(s: State) {
    Local(s) && Linked(s)
  }

  lemma {:induction false} InvInit(s: State)
    requires Init(s)
    ensures Inv(s)
  {
  }

  lemma {:induction false} AtKept(s: State, t: nat, now: Pc)
    requires t < |s.threads|
    ensures forall pc :: At(s, pc) && pc != s.threads[t] ==> At(s.(threads := s.threads[t := now]), pc)
    ensures At(s.(threads := s.threads[t := now]), now)
  {
    var s' := s.(threads := s.threads[t := now]);
    assert s'.threads[t] == now;
    forall pc | At(s, pc) && pc != s.threads[t] ensures At(s', pc) {
      var t1 :| 0 <= t1 < |s.threads| && s.threads[t1] == pc;
      assert s'.threads[t1] == pc;
    }
  }

  lemma {:induction false} LocalFetchId(s: State, t: nat, step: Step)
    requires Inv(s) && Enabled(s, t, step) && (step.FetchId?)
    ensures Local(Apply(s, t, step))
  {
  }

  lemma {:induction false} LocalInsertConn(s: State, t: nat, step: Step)
    requires Inv(s) && Enabled(s, t, step) && (step.InsertConn?)
    ensures Local(Apply(s, t, step))
  {
  }

  lemma {:induction false} LocalInsertUser(s: State, t: nat, step: Step)
    requires Inv(s) && Enabled(s, t, step) && (step.InsertUser?)
    ensures Local(Apply(s, t, step))
  {
  }

  lemma {:induction false} LocalRemoveConn(s: State, t: nat, step: Step)
    requires Inv(s) && Enabled(s, t, step) && (step.RemoveConn?)
    ensures Local(Apply(s, t, step))
  {
  }

  lemma {:induction false} DropIdExactly(users: map<UserId, set<ConnId>>, user: UserId, id: ConnId)
    ensures var users' := DropId(users, user, id);
            forall u, i :: u in users' && i in users'[u] <==> u in users && i in users[u] && (u, i) != (user, id)
  {
    var users' := DropId(users, user, id);
    if user in users {
      forall i | i in users[user] && i != id ensures user in users' && i in users'[user] {
        assert i in users[user] - {id};
      }
    }
  }

  lemma {:induction false} LocalRemoveUser(s: State, t: nat, step: Step)
    requires Inv(s) && Enabled(s, t, step) && step.RemoveUser?
    ensures Local(Apply(s, t, step))
  {
    var s', pc := Apply(s, t, step), s.threads[t];
    DropIdExactly(s.users, pc.user, pc.id);
    forall t1 | 0 <= t1 < |s.threads| && t1 != t ensures ThreadOk(s', s'.threads[t1]) {
      assert ThreadOk(s, s.threads[t1]);
      if t1 < t {
        assert Owns(s.threads[t1]) ==> s.threads[t1].id != pc.id;
      } else {
        assert Owns(s.threads[t1]) ==> s.threads[t1].id != pc.id;
      }
    }
  }

  lemma {:induction false} ThreadIsOk(s: State, t: nat)
    requires Local(s) && t < |s.threads|
    ensures ThreadOk(s, s.threads[t]) && s.conns.Keys <= s.inserted
    ensures forall u :: u in s.users ==> s.users[u] <= s.inserted
  {
  }

  /** Cancelling more tokens and moving one thread along disturbs nobody else. */
  lemma {:induction false} OthersKept(s: State, s': State, t: nat)
    requires Local(s) && t < |s.threads| && |s'.threads| == |s.threads|
    requires s' == s.(cancelled := s'.cancelled, threads := s.threads[t := s'.threads[t]])
    requires s.cancelled <= s'.cancelled && !Owns(s'.threads[t]) && ThreadOk(s', s'.threads[t])
    ensures Local(s')
  {
    forall t1 | 0 <= t1 < |s.threads| && t1 != t ensures ThreadOk(s', s'.threads[t1]) {
      assert ThreadOk(s, s.threads[t1]);
    }
  }

  lemma {:induction false} VisitCovers(s: State, s': State, ids: set<ConnId>, todo: set<ConnId>, hit: set<ConnId>, id: ConnId)
    requires Covered(s, ids, todo, hit) && id in todo
    requires s'.conns == s.conns && s'.inserted == s.inserted
    requires s'.cancelled == s.cancelled + if id in s.conns then {id} else {}
    ensures Covered(s', ids, todo - {id}, if id in s.conns then hit + {id} else hit)
    ensures |hit + {id}| == |hit| + 1
  {
    assert id !in hit;
  }

  /** A visit to a connection that was not there at the start. */
  lemma {:induction false} NewVisitCovers(s: State, s': State, ids: set<ConnId>, todo: set<ConnId>, hit: set<ConnId>, id: ConnId)
    requires Covered(s, ids, todo, hit) && s.conns.Keys <= s.inserted
    requires id in s.conns && id !in ids
    requires s'.conns == s.conns && s'.inserted == s.inserted && s'.cancelled == s.cancelled + {id}
    ensures Covered(s', ids + {id}, todo - {id}, hit + {id})
    ensures |hit + {id}| == |hit| + 1
  {
    assert id in s.conns.Keys && id !in hit;
  }

  /** A step of a round through connections, or of its beginning or end. */
  predicate RoundStep(step: Step) {
    || step.OpenUser? || step.VisitConn? || step.CloseUser?
    || step.OpenAll? || step.VisitAny? || step.CloseAll?
  }

  lemma {:induction false} RoundShape(s: State, t: nat, step: Step)
    requires Enabled(s, t, step) && RoundStep(step)
    ensures var s' := Apply(s, t, step);
            && |s'.threads| == |s.threads|
            && s' == s.(cancelled := s'.cancelled, threads := s.threads[t := s'.threads[t]])
            && s.cancelled <= s'.cancelled && !Owns(s'.threads[t])
  {
  }

  lemma {:induction false} KickThreadOk(s: State, t: nat, step: Step)
    requires Local(s) && Enabled(s, t, step) && (step.OpenUser? || step.VisitConn? || step.CloseUser?)
    ensures ThreadOk(Apply(s, t, step), Apply(s, t, step).threads[t])
  {
    hide Local;
    var s', pc := Apply(s, t, step), s.threads[t];
    ThreadIsOk(s, t);
    if step.VisitConn? {
      VisitCovers(s, s', pc.ids, pc.todo, pc.hit, step.id);
    }
  }

  lemma {:induction false} CancelVisitOk(s: State, t: nat, id: ConnId)
    requires Local(s) && Enabled(s, t, VisitAny(id))
    ensures ThreadOk(Apply(s, t, VisitAny(id)), Apply(s, t, VisitAny(id)).threads[t])
  {
    hide Local, Covered;
    var s', pc := Apply(s, t, VisitAny(id)), s.threads[t];
    ThreadIsOk(s, t);
    if id in pc.todo {
      VisitCovers(s, s', pc.ids, pc.todo, pc.hit, id);
      CoveredWithin(s, pc.ids, pc.todo, pc.hit);
      assert pc.ids + {id} == pc.ids;
    } else {
      NewVisitCovers(s, s', pc.ids, pc.todo, pc.hit, id);
    }
  }

  lemma {:induction false} CoveredWithin(s: State, ids: set<ConnId>, todo: set<ConnId>, hit: set<ConnId>)
    requires Covered(s, ids, todo, hit)
    ensures todo <= ids
  {
  }

  lemma {:induction false} CancelThreadOk(s: State, t: nat, step: Step)
    requires Local(s) && Enabled(s, t, step) && (step.OpenAll? || step.VisitAny? || step.CloseAll?)
    ensures ThreadOk(Apply(s, t, step), Apply(s, t, step).threads[t])
  {
    if step.VisitAny? {
      hide *;
      CancelVisitOk(s, t, step.id);
    } else {
      hide Local;
      ThreadIsOk(s, t);
    }
  }

  lemma {:induction false} LocalRound(s: State, t: nat, step: Step)
    requires Inv(s) && Enabled(s, t, step) && RoundStep(step)
    ensures Local(Apply(s, t, step))
  {
    hide Local, Linked, Apply, ThreadOk;
    RoundShape(s, t, step);
    if step.OpenUser? || step.VisitConn? || step.CloseUser? {
      KickThreadOk(s, t, step);
    } else {
      CancelThreadOk(s, t, step);
    }
    OthersKept(s, Apply(s, t, step), t);
  }

  lemma {:induction false} LocalStep(s: State, t: nat, step: Step)
    requires Inv(s) && Enabled(s, t, step)
    ensures Local(Apply(s, t, step))
  {
    hide Local, Apply;
    match step {
      case FetchId(_) => LocalFetchId(s, t, step);
      case InsertConn => LocalInsertConn(s, t, step);
      case InsertUser => LocalInsertUser(s, t, step);
      case RemoveConn(_) => LocalRemoveConn(s, t, step);
      case RemoveUser => LocalRemoveUser(s, t, step);
      case OpenUser(_) => LocalRound(s, t, step);
      case VisitConn(_) => LocalRound(s, t, step);
      case CloseUser => LocalRound(s, t, step);
      case OpenAll => LocalRound(s, t, step);
      case VisitAny(_) => LocalRound(s, t, step);
      case CloseAll => LocalRound(s, t, step);
    }
  }

  /** The threads other than the one that moves are where they were. */
  lemma {:induction false} OthersStay(s: State, t: nat, step: Step)
    requires Enabled(s, t, step)
    ensures forall p :: At(s, p) && p != s.threads[t] ==> At(Apply(s, t, step), p)
    ensures At(Apply(s, t, step), Apply(s, t, step).threads[t])
  {
    var s' := Apply(s, t, step);
    AtKept(s, t, s'.threads[t]);
    forall p | At(s, p) && p != s.threads[t] ensures At(s', p) {
      assert At(s.(threads := s'.threads), p);
    }
  }

  lemma {:induction false} ConnsStayLinked(s: State, t: nat, step: Step)
    requires Inv(s) && Enabled(s, t, step)
    ensures var s' := Apply(s, t, step);
            forall id :: id in s'.conns ==> InUsers(s', id, s'.conns[id]) || At(s', RegInserted(id, s'.conns[id]))
  {
    hide Distinct, At;
    var s', pc := Apply(s, t, step), s.threads[t];
    assert ThreadOk(s, pc);
    OthersStay(s, t, step);
    if step.RemoveUser? {
      DropIdExactly(s.users, pc.user, pc.id);
    }
    forall id | id in s'.conns ensures InUsers(s', id, s'.conns[id]) || At(s', RegInserted(id, s'.conns[id])) {
      if id in s.conns && InUsers(s, id, s.conns[id]) {
        assert pc.UnregRemoved? ==> pc.id != id;
        assert InUsers(s', id, s'.conns[id]);
      }
    }
  }

  lemma {:induction false} UsersStayLinked(s: State, t: nat, step: Step)
    requires Inv(s) && Enabled(s, t, step)
    ensures var s' := Apply(s, t, step);
            forall u, id :: u in s'.users && id in s'.users[u] ==>
              (id in s'.conns && s'.conns[id] == u) || At(s', UnregRemoved(id, u))
  {
    hide Distinct, At;
    var s', pc := Apply(s, t, step), s.threads[t];
    assert ThreadOk(s, pc);
    OthersStay(s, t, step);
    if step.RemoveUser? {
      DropIdExactly(s.users, pc.user, pc.id);
    }
  }

  lemma {:induction false} LinkedStep(s: State, t: nat, step: Step)
    requires Inv(s) && Enabled(s, t, step)
    ensures Linked(Apply(s, t, step))
  {
    hide Inv, Apply, Enabled, InUsers, At;
    ConnsStayLinked(s, t, step);
    UsersStayLinked(s, t, step);
  }

  lemma {:induction false} InvStep(s: State, t: nat, step: Step)
    requires Inv(s) && Enabled(s, t, step)
    ensures Inv(Apply(s, t, step))
  {
    hide Local, Linked, Apply;
    LocalStep(s, t, step);
    LinkedStep(s, t, step);
  }

  // ---------------------------------------------------------------- runs

  /** A finite run: an initial state, then any enabled steps of any threads. */
  ghost predicate IsRun(states: seq<State>, moves: seq<(nat, Step)>) {
    && |states| == |moves| + 1
    && Init(states[0])
    && forall i :: 0 <= i < |moves| ==>
         Enabled(states[i], moves[i].0, moves[i].1) && states[i + 1] == Apply(states[i], moves[i].0, moves[i].1)
  }

  lemma {:induction false} InvAlways(states: seq<State>, moves: seq<(nat, Step)>, i: nat)
    requires IsRun(states, moves) && i < |states|
    ensures Inv(states[i])
  {
    hide Inv, Init, Apply, Enabled;
    if i == 0 {
      InvInit(states[0]);
    } else {
      InvAlways(states, moves, i - 1);
      InvStep(states[i - 1], moves[i - 1].0, moves[i - 1].1);
    }
  }

  /** An id is in exactly one of the two maps exactly while its own register or unregister is
      between its two operations. */
  lemma {:induction false} OneMapOnly(s: State, id: ConnId)
    requires Inv(s)
    ensures (id in s.conns) != (exists u :: InUsers(s, id, u)) <==>
            (exists u :: At(s, RegInserted(id, u)) || At(s, UnregRemoved(id, u)))
  {
    forall u | At(s, RegInserted(id, u)) ensures id in s.conns && !(exists u1 :: InUsers(s, id, u1)) {
      var t :| 0 <= t < |s.threads| && s.threads[t] == RegInserted(id, u);
      assert ThreadOk(s, s.threads[t]);
    }
    forall u | At(s, UnregRemoved(id, u)) ensures id !in s.conns && InUsers(s, id, u) {
      var t :| 0 <= t < |s.threads| && s.threads[t] == UnregRemoved(id, u);
      assert ThreadOk(s, s.threads[t]);
    }
  }

  ghost predicate Quiet(s: State) {
    forall t :: 0 <= t < |s.threads| ==> !s.threads[t].RegInserted? && !s.threads[t].UnregRemoved?
  }

  /** With no register or unregister under way the user map is the inverse of the connection
      map, and both are empty together. */
  lemma {:induction false} Quiescent(s: State)
    requires Inv(s) && Quiet(s)
    ensures s.users == map u | u in s.conns.Values :: set id | id in s.conns && s.conns[id] == u
    ensures s.conns == map[] <==> s.users == map[]
  {
    var inverse := map u | u in s.conns.Values :: set id | id in s.conns && s.conns[id] == u;
    forall u ensures u in s.users <==> u in inverse {
      if u in s.users {
        var id :| id in s.users[u];
        assert s.conns[id] == u;
      }
      if u in s.conns.Values {
        var id :| id in s.conns && s.conns[id] == u;
        assert InUsers(s, id, u);
      }
    }
    forall u | u in s.users ensures s.users[u] == inverse[u] {
      forall id ensures id in s.users[u] <==> id in inverse[u] {
      }
    }
    if s.conns != map[] {
      var id :| id in s.conns;
      assert InUsers(s, id, s.conns[id]);
    }
  }

  // ---------------------------------------------------------------- kicking

  /** A kick cancels tokens of its own user only. */
  lemma {:induction false} KickTouchesOwnUser(s: State, t: nat, step: Step)
    requires Inv(s) && Enabled(s, t, step) && step.VisitConn?
    ensures Apply(s, t, step).cancelled == s.cancelled + (if step.id in s.conns then {step.id} else {})
    ensures step.id in s.conns ==> s.conns[step.id] == s.threads[t].user
  {
    var pc := s.threads[t];
    assert ThreadOk(s, pc);
  }

  /** When a kick is through, it has counted exactly the tokens it cancelled, and every
      connection of the user that is still there is cancelled, unless its register has yet to
      do its second operation. */
  lemma {:induction false} KickResult(s: State, t: nat)
    requires Inv(s) && t < |s.threads| && s.threads[t].Kicking? && s.threads[t].todo == {}
    ensures var pc := s.threads[t];
            && pc.count == |pc.hit| && pc.hit <= pc.ids * s.cancelled
            && (forall id :: id in pc.ids ==> id in pc.hit || id !in s.conns)
    ensures forall id :: id in s.conns && s.conns[id] == s.threads[t].user ==>
              id in s.cancelled || At(s, RegInserted(id, s.threads[t].user))
  {
    assert ThreadOk(s, s.threads[t]);
  }

  /** cancel_all: every connection there at the start has been cancelled or has left. */
  lemma {:induction false} CancelAllResult(s: State, t: nat)
    requires Inv(s) && t < |s.threads| && s.threads[t].Cancelling? && s.threads[t].todo == {}
    ensures var pc := s.threads[t];
            && pc.count == |pc.hit| && pc.hit <= s.cancelled
            && forall id :: id in pc.ids ==> id in s.cancelled || id !in s.conns
  {
    assert ThreadOk(s, s.threads[t]);
  }

  /** While a thread is kicking, the entry it took does not change under it. */
  lemma {:induction false} KickHoldsEntry(states: seq<State>, moves: seq<(nat, Step)>, i: nat, j: nat, t: nat)
    requires IsRun(states, moves) && i <= j < |states| && t < |states[i].threads|
    requires forall k :: i <= k <= j ==> t < |states[k].threads| && states[k].threads[t].Kicking?
    ensures states[j].threads[t].user == states[i].threads[t].user
    ensures states[j].threads[t].ids == states[i].threads[t].ids
    decreases j
  {
    if i < j {
      KickHoldsEntry(states, moves, i, j - 1, t);
      assert Enabled(states[j - 1], moves[j - 1].0, moves[j - 1].1);
    }
  }

  /** Tokens stay cancelled. */
  lemma {:induction false} CancelledGrows(states: seq<State>, moves: seq<(nat, Step)>, i: nat, j: nat)
    requires IsRun(states, moves) && i <= j < |states|
    ensures states[i].cancelled <= states[j].cancelled
    decreases j
  {
    if i < j {
      CancelledGrows(states, moves, i, j - 1);
      assert Enabled(states[j - 1], moves[j - 1].0, moves[j - 1].1);
    }
  }

  /** The thread is on its round through connections in all states from i to j. */
  ghost predicate OnRound(states: seq<State>, i: nat, j: nat, t: nat)
    requires i <= j < |states|
  {
    || (forall k :: i <= k <= j ==> t < |states[k].threads| && states[k].threads[t].Kicking?)
    || (forall k :: i <= k <= j ==> t < |states[k].threads| && states[k].threads[t].Cancelling?)
  }

  predicate Visits(step: Step, id: ConnId) {
    step == VisitConn(id) || step == VisitAny(id)
  }

  /** What a thread had to visit and has no longer, it has visited; if the connection was there at
      that moment, it was cancelled and counted. */
  lemma {:induction false} Visited(states: seq<State>, moves: seq<(nat, Step)>, i: nat, j: nat, t: nat, id: ConnId)
    returns (k: nat)
    requires IsRun(states, moves) && i <= j < |states| && OnRound(states, i, j, t)
    requires id in states[i].threads[t].todo && id !in states[j].threads[t].todo
    ensures i <= k < j && moves[k].0 == t && Visits(moves[k].1, id)
    ensures id in states[k].conns ==> id in states[j].cancelled && id in states[j].threads[t].hit
    decreases j
  {
    var n := j - 1;
    assert Enabled(states[n], moves[n].0, moves[n].1) && states[j] == Apply(states[n], moves[n].0, moves[n].1);
    if id in states[n].threads[t].todo {
      k := n;
    } else {
      k := Visited(states, moves, i, n, t, id);
    }
  }

  /** A thread on a round stays on it until it is idle again. */
  lemma {:induction false} RoundGoesOn(states: seq<State>, moves: seq<(nat, Step)>, i: nat, j: nat, t: nat)
    requires IsRun(states, moves) && i <= j < |states|
    requires forall k :: i <= k <= j ==> t < |states[k].threads| && !states[k].threads[t].Idle?
    ensures states[i].threads[t].Kicking? ==> forall k :: i <= k <= j ==> states[k].threads[t].Kicking?
    ensures states[i].threads[t].Cancelling? ==> forall k :: i <= k <= j ==> states[k].threads[t].Cancelling?
    decreases j
  {
    if i < j {
      RoundGoesOn(states, moves, i, j - 1, t);
      assert Enabled(states[j - 1], moves[j - 1].0, moves[j - 1].1);
    }
  }

  /** The thread is on a round and has done with the connection. */
  ghost predicate Past(s: State, t: nat, id: ConnId) {
    && t < |s.threads| && (s.threads[t].Kicking? || s.threads[t].Cancelling?)
    && id in s.threads[t].ids && id !in s.threads[t].todo
  }

  lemma {:induction false} PastStep(s: State, t1: nat, step: Step, t: nat, id: ConnId)
    requires Enabled(s, t1, step) && Past(s, t, id)
    ensures t1 != t || !Visits(step, id)
    ensures var s' := Apply(s, t1, step);
            t < |s'.threads| && (s'.threads[t].Kicking? || s'.threads[t].Cancelling?) ==>
              Past(s', t, id) && (id in s'.threads[t].hit <==> id in s.threads[t].hit)
  {
  }

  /** What has been visited is not visited again, and whether it was counted is settled. */
  lemma {:induction false} VisitedOnce(states: seq<State>, moves: seq<(nat, Step)>, i: nat, j: nat, t: nat, id: ConnId)
    requires IsRun(states, moves) && i <= j < |states| && OnRound(states, i, j, t) && Past(states[i], t, id)
    ensures Past(states[j], t, id)
    ensures id in states[j].threads[t].hit <==> id in states[i].threads[t].hit
    ensures forall k :: i <= k < j ==> moves[k].0 != t || !Visits(moves[k].1, id)
    decreases j
  {
    hide Apply, Enabled, Visits, Init;
    if i < j {
      VisitedOnce(states, moves, i, j - 1, t, id);
      PastStep(states[j - 1], moves[j - 1].0, moves[j - 1].1, t, id);
    }
  }

  /** A round's visit: its connection is struck off, and counted exactly if it is there. */
  lemma {:induction false} OneVisit(states: seq<State>, moves: seq<(nat, Step)>, k: nat, t: nat, id: ConnId)
    requires IsRun(states, moves) && k < |moves| && moves[k].0 == t && Visits(moves[k].1, id)
    ensures t < |states[k].threads| && (states[k].threads[t].Kicking? || states[k].threads[t].Cancelling?)
    ensures t < |states[k + 1].threads|
    ensures states[k + 1].threads[t].Kicking? == states[k].threads[t].Kicking?
    ensures states[k + 1].threads[t].Cancelling? == states[k].threads[t].Cancelling?
    ensures id in states[k + 1].threads[t].ids && id !in states[k + 1].threads[t].todo
    ensures id in states[k + 1].threads[t].hit <==> id in states[k].conns
  {
    assert Enabled(states[k], moves[k].0, moves[k].1) && states[k + 1] == Apply(states[k], moves[k].0, moves[k].1);
    InvAlways(states, moves, k);
    assert ThreadOk(states[k], states[k].threads[t]);
  }

  /** All of a round from state i to its last move j: everything to be visited at its start is visited,
      once, and counted exactly if it is there then. */
  ghost predicate Rounded(states: seq<State>, moves: seq<(nat, Step)>, i: nat, j: nat, t: nat, ids: set<ConnId>)
    requires i <= j < |moves| < |states|
  {
    && t < |states[j].threads| && (states[j].threads[t].Kicking? || states[j].threads[t].Cancelling?)
    && var hit := states[j].threads[t].hit;
    && states[j].threads[t].count == |hit| && hit <= states[j].cancelled
    && (forall id :: id in ids ==> exists k :: i <= k < j && moves[k].0 == t && Visits(moves[k].1, id))
    && (forall k, id :: i <= k < j && moves[k].0 == t && Visits(moves[k].1, id) ==>
          (id in hit <==> id in states[k].conns))
    && (forall k1, k2 :: i <= k1 < k2 < j && moves[k1].0 == t && moves[k2].0 == t ==> moves[k1].1 != moves[k2].1)
    && (forall k :: i <= k < j && moves[k].0 == t ==> moves[k].1.VisitConn? || moves[k].1.VisitAny?)
  }

  lemma {:induction false} WholeRound(states: seq<State>, moves: seq<(nat, Step)>, i: nat, j: nat, t: nat)
    requires IsRun(states, moves) && i <= j < |moves| && t < |states[j + 1].threads| && states[j + 1].threads[t].Idle?
    requires forall k :: i <= k <= j ==> t < |states[k].threads| && !states[k].threads[t].Idle?
    requires states[i].threads[t].Kicking? || states[i].threads[t].Cancelling?
    ensures Rounded(states, moves, i, j, t, states[i].threads[t].todo)
    ensures states[i].threads[t].Kicking? == states[j].threads[t].Kicking? && OnRound(states, i, j, t)
  {
    hide Inv, Init;
    RoundGoesOn(states, moves, i, j, t);
    assert Enabled(states[j], moves[j].0, moves[j].1) && states[j + 1] == Apply(states[j], moves[j].0, moves[j].1);
    assert states[j].threads[t].todo == {};
    CountIsHits(states, moves, j, t);
    hide Apply, Enabled, IsRun;
    forall id | id in states[i].threads[t].todo
      ensures exists k :: i <= k < j && moves[k].0 == t && Visits(moves[k].1, id)
    {
      var k := Visited(states, moves, i, j, t, id);
    }
    forall k, id | i <= k < j && moves[k].0 == t && Visits(moves[k].1, id)
      ensures id in states[j].threads[t].hit <==> id in states[k].conns
    {
      Settled(states, moves, k, j, t, id);
    }
    forall k | i <= k < j && moves[k].0 == t
      ensures moves[k].1.VisitConn? || moves[k].1.VisitAny?
    {
      OnlyVisits(states, moves, k, t);
    }
    forall k1, k2 | i <= k1 < k2 < j && moves[k1].0 == t && moves[k2].0 == t
      ensures moves[k1].1 != moves[k2].1
    {
      assert moves[k1].1.VisitConn? || moves[k1].1.VisitAny?;
      assert Visits(moves[k1].1, moves[k1].1.id);
      Settled(states, moves, k1, j, t, moves[k1].1.id);
      assert !Visits(moves[k2].1, moves[k1].1.id);
    }
  }

  /** After its visit a connection is done with. */
  lemma {:induction false} Settled(states: seq<State>, moves: seq<(nat, Step)>, k: nat, j: nat, t: nat, id: ConnId)
    requires IsRun(states, moves) && k < j < |states| && OnRound(states, k, j, t)
    requires moves[k].0 == t && Visits(moves[k].1, id)
    ensures id in states[j].threads[t].hit <==> id in states[k].conns
    ensures forall k2 :: k < k2 < j && moves[k2].0 == t ==> !Visits(moves[k2].1, id)
  {
    hide Apply, Enabled, Inv, Init;
    OneVisit(states, moves, k, t, id);
    VisitedOnce(states, moves, k + 1, j, t, id);
  }

  lemma {:induction false} CountIsHits(states: seq<State>, moves: seq<(nat, Step)>, j: nat, t: nat)
    requires IsRun(states, moves) && j < |states| && t < |states[j].threads|
    requires states[j].threads[t].Kicking? || states[j].threads[t].Cancelling?
    ensures states[j].threads[t].count == |states[j].threads[t].hit| && states[j].threads[t].hit <= states[j].cancelled
  {
    InvAlways(states, moves, j);
    assert ThreadOk(states[j], states[j].threads[t]);
  }

  lemma {:induction false} OnlyVisits(states: seq<State>, moves: seq<(nat, Step)>, k: nat, t: nat)
    requires IsRun(states, moves) && k < |moves| && moves[k].0 == t
    requires t < |states[k].threads| && t < |states[k + 1].threads|
    requires states[k].threads[t].Kicking? || states[k].threads[t].Cancelling?
    requires !states[k + 1].threads[t].Idle?
    ensures moves[k].1.VisitConn? || moves[k].1.VisitAny?
  {
    assert Enabled(states[k], moves[k].0, moves[k].1) && states[k + 1] == Apply(states[k], moves[k].0, moves[k].1);
  }

  /** A whole kick, from taking the entry (move i) to giving it back (move j), whatever the other
      threads do in between: every connection registered for the user when the entry was taken is
      visited, once, and cancelled and counted exactly if it is present then; nothing else is counted. */
  lemma {:induction false} KickCovers(states: seq<State>, moves: seq<(nat, Step)>, i: nat, j: nat, t: nat, user: UserId)
    requires IsRun(states, moves) && i <= j < |moves|
    requires moves[i] == (t, OpenUser(user)) && user in states[i].users
    requires forall k :: i < k <= j ==> t < |states[k].threads| && !states[k].threads[t].Idle?
    requires t < |states[j + 1].threads| && states[j + 1].threads[t].Idle?
    ensures i < j && Rounded(states, moves, i + 1, j, t, states[i].users[user])
    ensures states[j].threads[t].hit <= states[i].users[user]
  {
    hide Inv, Init;
    assert Enabled(states[i], t, OpenUser(user)) && states[i + 1] == Apply(states[i], t, OpenUser(user));
    WholeRound(states, moves, i + 1, j, t);
    KickHoldsEntry(states, moves, i + 1, j, t);
    HitsWithin(states, moves, j, t);
  }

  lemma {:induction false} HitsWithin(states: seq<State>, moves: seq<(nat, Step)>, j: nat, t: nat)
    requires IsRun(states, moves) && j < |states| && t < |states[j].threads| && states[j].threads[t].Kicking?
    ensures states[j].threads[t].hit <= states[j].threads[t].ids
  {
    InvAlways(states, moves, j);
    assert ThreadOk(states[j], states[j].threads[t]);
  }

  /** The same for cancel_all and every connection there when it began; newer ones may be visited
      too. */
  lemma {:induction false} CancelAllCovers(states: seq<State>, moves: seq<(nat, Step)>, i: nat, j: nat, t: nat)
    requires IsRun(states, moves) && i <= j < |moves|
    requires moves[i] == (t, OpenAll)
    requires forall k :: i < k <= j ==> t < |states[k].threads| && !states[k].threads[t].Idle?
    requires t < |states[j + 1].threads| && states[j + 1].threads[t].Idle?
    ensures i < j && Rounded(states, moves, i + 1, j, t, states[i].conns.Keys)
  {
    hide Inv, Init;
    assert Enabled(states[i], t, OpenAll) && states[i + 1] == Apply(states[i], t, OpenAll);
    WholeRound(states, moves, i + 1, j, t);
  }

  // ---------------------------------------------------------------- progress

  /** An idle thread may begin any operation: a register or a kick for any user, an unregister of any
      id that was handed out, and a cancel-all. */
  lemma {:induction false} AnyoneMayBegin(s: State, t: nat)
    requires t < |s.threads| && s.threads[t] == Idle
    ensures forall user :: Enabled(s, t, FetchId(user)) && Enabled(s, t, OpenUser(user))
    ensures forall id :: id in s.returned ==> Enabled(s, t, RemoveConn(id))
    ensures Enabled(s, t, OpenAll)
  {
  }

  /** In no state of any run do the threads block each other: as long as one is inside an
      operation, one of those inside can take its next step. */
  lemma {:induction false} SomeoneCanMove(s: State)
    requires exists t :: 0 <= t < |s.threads| && !s.threads[t].Idle?
    ensures exists t: nat, step :: t < |s.threads| && !s.threads[t].Idle? && Enabled(s, t, step)
  {
    if t: nat :| t < |s.threads| && (s.threads[t].Kicking? || s.threads[t].Cancelling?) {
      var step := NextVisit(s, t);
      assert Enabled(s, t, step);
    } else {
      var t: nat :| t < |s.threads| && !s.threads[t].Idle?;
      var pc := s.threads[t];
      var step := if pc.RegFetched? then InsertConn else if pc.RegInserted? then InsertUser else RemoveUser;
      assert Enabled(s, t, step);
    }
  }

  lemma {:induction false} NextVisit(s: State, t: nat) returns (step: Step)
    requires t < |s.threads| && (s.threads[t].Kicking? || s.threads[t].Cancelling?)
    ensures Enabled(s, t, step)
  {
    var pc := s.threads[t];
    if pc.todo == {} {
      step := if pc.Kicking? then CloseUser else CloseAll;
    } else {
      var id :| id in pc.todo;
      step := if pc.Kicking? then VisitConn(id) else VisitAny(id);
    }
  }
}
