/** What a whole register or unregister has done, over every run of the registry: from its first
    map operation to the moment its thread is idle again, and ever after. */
module RegistryRuns {
  import opened Registry

  lemma {:induction false} MoveTaken(states: seq<State>, moves: seq<(nat, Step)>, i: nat)
    requires IsRun(states, moves) && i < |moves|
    ensures Enabled(states[i], moves[i].0, moves[i].1) && states[i + 1] == Apply(states[i], moves[i].0, moves[i].1)
    ensures Inv(states[i]) && Inv(states[i + 1]) && |states[i + 1].threads| == |states[i].threads|
  {
    hide Inv, Init;
    InvAlways(states, moves, i);
    InvAlways(states, moves, i + 1);
  }

  lemma {:induction false} SameThreads(states: seq<State>, moves: seq<(nat, Step)>, i: nat, j: nat)
    requires IsRun(states, moves) && i <= j < |states|
    ensures |states[j].threads| == |states[i].threads|
    decreases j
  {
    hide Inv, Init, Apply, Enabled;
    if i < j {
      SameThreads(states, moves, i, j - 1);
      MoveTaken(states, moves, j - 1);
    }
  }

  // ---------------------------------------------------------------- register

  /** Where a register that drew `id` stands: on its way, or done and its connection in place. */
  ghost predicate Registering(s: State, t: nat, id: ConnId, user: UserId) {
    && t < |s.threads|
    && (|| s.threads[t] == RegFetched(id, user) || s.threads[t] == RegInserted(id, user)
        || InPlace(s, id, user))
  }

  ghost predicate InPlace(s: State, id: ConnId, user: UserId) {
    id in s.conns && s.conns[id] == user && InUsers(s, id, user) && id in s.returned
  }

  /** Nobody moves a connection that is in place but its own unregister. */
  lemma {:induction false} InPlaceStep(s: State, t: nat, step: Step, id: ConnId, user: UserId)
    requires Inv(s) && Enabled(s, t, step) && InPlace(s, id, user) && step != RemoveConn(id)
    ensures InPlace(Apply(s, t, step), id, user)
  {
    hide Linked, Distinct;
    var pc := s.threads[t];
    assert ThreadOk(s, pc);
    if step.RemoveUser? {
      DropIdExactly(s.users, pc.user, pc.id);
    }
  }

  lemma {:induction false} RegisteringStep(s: State, t1: nat, step: Step, t: nat, id: ConnId, user: UserId)
    requires Inv(s) && Enabled(s, t1, step) && Registering(s, t, id, user) && step != RemoveConn(id)
    ensures Registering(Apply(s, t1, step), t, id, user)
  {
    if InPlace(s, id, user) {
      InPlaceStep(s, t1, step, id, user);
    } else {
      assert ThreadOk(s, s.threads[t]);
    }
  }

  /** A finished register has put its connection, under a new id, into both maps, where it stays until
      it is unregistered, whatever other threads do. */
  lemma {:induction false} Registered(states: seq<State>, moves: seq<(nat, Step)>, i: nat, k: nat, j: nat, t: nat, user: UserId)
    requires IsRun(states, moves) && i < k <= j < |states| && moves[i] == (t, FetchId(user))
    requires t < |states[k].threads| && states[k].threads[t].Idle?
    requires forall m :: i < m < j ==> moves[m].1 != RemoveConn(states[i].next)
    ensures states[i].next !in states[i].inserted && states[i].next !in states[i].conns
    ensures var id := states[i].next;
            && id in states[j].conns && states[j].conns[id] == user
            && user in states[j].users && id in states[j].users[user]
            && id in states[j].returned
  {
    hide Init;
    var id := states[i].next;
    MoveTaken(states, moves, i);
    StillRegistering(states, moves, i + 1, k, t, id, user);
    StaysInPlace(states, moves, k, j, t, id, user);
  }

  lemma {:induction false} StillRegistering(states: seq<State>, moves: seq<(nat, Step)>, i: nat, j: nat, t: nat,
                                            id: ConnId, user: UserId)
    requires IsRun(states, moves) && i <= j < |states| && Registering(states[i], t, id, user)
    requires forall m :: i <= m < j ==> moves[m].1 != RemoveConn(id)
    ensures Registering(states[j], t, id, user)
    decreases j
  {
    hide Inv, Init, Apply, Enabled, Registering;
    if i < j {
      StillRegistering(states, moves, i, j - 1, t, id, user);
      MoveTaken(states, moves, j - 1);
      RegisteringStep(states[j - 1], moves[j - 1].0, moves[j - 1].1, t, id, user);
    }
  }

  lemma {:induction false} StaysInPlace(states: seq<State>, moves: seq<(nat, Step)>, k: nat, j: nat, t: nat,
                                        id: ConnId, user: UserId)
    requires IsRun(states, moves) && k <= j < |states| && InPlace(states[k], id, user)
    requires forall m :: k <= m < j ==> moves[m].1 != RemoveConn(id)
    ensures InPlace(states[j], id, user)
    decreases j
  {
    hide Inv, Init, Apply, Enabled, InPlace;
    if k < j {
      StaysInPlace(states, moves, k, j - 1, t, id, user);
      MoveTaken(states, moves, j - 1);
      InPlaceStep(states[j - 1], moves[j - 1].0, moves[j - 1].1, id, user);
    }
  }

  // ---------------------------------------------------------------- unregister

  /** An id that has left the connection map never comes back. */
  lemma {:induction false} OutStep(s: State, t: nat, step: Step, id: ConnId)
    requires Inv(s) && Enabled(s, t, step) && id in s.returned && id !in s.conns
    ensures id in Apply(s, t, step).returned && id !in Apply(s, t, step).conns
  {
    assert ThreadOk(s, s.threads[t]);
  }

  /** An unregister takes its connection out of the connection map for good. */
  lemma {:induction false} Unregistered(states: seq<State>, moves: seq<(nat, Step)>, i: nat, j: nat, t: nat, id: ConnId)
    requires IsRun(states, moves) && i < j < |states| && moves[i] == (t, RemoveConn(id))
    ensures id !in states[j].conns && id in states[j].returned
    decreases j
  {
    hide Init, Inv;
    MoveTaken(states, moves, j - 1);
    if i + 1 < j {
      hide Apply, Enabled;
      Unregistered(states, moves, i, j - 1, t, id);
      OutStep(states[j - 1], moves[j - 1].0, moves[j - 1].1, id);
    }
  }

  /** As long as a user still has the id, its unregister is between its two operations. */
  ghost predicate Leaving(s: State, t: nat, id: ConnId) {
    && t < |s.threads| && id !in s.conns && id in s.returned
    && forall u :: InUsers(s, id, u) ==> s.threads[t] == UnregRemoved(id, u)
  }

  lemma {:induction false} LeavingStep(s: State, t1: nat, step: Step, t: nat, id: ConnId)
    requires Inv(s) && Enabled(s, t1, step) && Leaving(s, t, id)
    ensures Leaving(Apply(s, t1, step), t, id)
    ensures forall u :: InUsers(Apply(s, t1, step), id, u) ==> InUsers(s, id, u)
  {
    OutStep(s, t1, step, id);
    var s', pc := Apply(s, t1, step), s.threads[t1];
    assert ThreadOk(s, pc);
    if step.RemoveUser? {
      DropIdExactly(s.users, pc.user, pc.id);
    }
    forall u | InUsers(s', id, u) ensures InUsers(s, id, u) && s'.threads[t] == UnregRemoved(id, u) {
      assert InUsers(s, id, u);
    }
  }

  /** Once an unregister is finished, no user has its connection again. */
  lemma {:induction false} LeftForGood(states: seq<State>, moves: seq<(nat, Step)>, i: nat, k: nat, j: nat, t: nat, id: ConnId)
    requires IsRun(states, moves) && i < k <= j < |states| && moves[i] == (t, RemoveConn(id)) && id in states[i].conns
    requires t < |states[k].threads| && states[k].threads[t].Idle?
    ensures forall u :: u in states[j].users ==> id !in states[j].users[u]
  {
    hide Init;
    MoveTaken(states, moves, i);
    LeavingBegins(states[i], t, id);
    StillLeaving(states, moves, i + 1, k, t, id);
    StillLeaving(states, moves, k, j, t, id);
    forall u | u in states[j].users ensures id !in states[j].users[u] {
      assert !InUsers(states[j], id, u);
    }
  }

  lemma {:induction false} LeavingBegins(s: State, t: nat, id: ConnId)
    requires Inv(s) && Enabled(s, t, RemoveConn(id)) && id in s.conns
    ensures Leaving(Apply(s, t, RemoveConn(id)), t, id)
  {
  }

  lemma {:induction false} StillLeaving(states: seq<State>, moves: seq<(nat, Step)>, i: nat, j: nat, t: nat, id: ConnId)
    requires IsRun(states, moves) && i <= j < |states| && Leaving(states[i], t, id)
    ensures Leaving(states[j], t, id)
    ensures forall u :: InUsers(states[j], id, u) ==> InUsers(states[i], id, u)
    decreases j
  {
    hide Inv, Init, Apply, Enabled, Leaving, InUsers;
    if i < j {
      StillLeaving(states, moves, i, j - 1, t, id);
      MoveTaken(states, moves, j - 1);
      LeavingStep(states[j - 1], moves[j - 1].0, moves[j - 1].1, t, id);
    }
  }

  /** Unregistering an id that is not there, and kicking a user who has no connection, change
      nothing. */
  lemma {:induction false} NothingThere(states: seq<State>, moves: seq<(nat, Step)>, i: nat)
    requires IsRun(states, moves) && i < |moves|
    requires || (moves[i].1.RemoveConn? && moves[i].1.id !in states[i].conns)
             || (moves[i].1.OpenUser? && moves[i].1.user !in states[i].users)
    ensures states[i + 1] == states[i]
  {
    hide Inv;
    MoveTaken(states, moves, i);
  }

  /** With every id handed out unregistered again and no thread inside, both maps are empty. */
  lemma {:induction false} EmptyInTheEnd(states: seq<State>, moves: seq<(nat, Step)>, j: nat)
    requires IsRun(states, moves) && j < |states|
    requires forall t :: 0 <= t < |states[j].threads| ==> states[j].threads[t].Idle?
    requires forall id :: id in states[j].returned ==> exists i :: 0 <= i < j && moves[i].1 == RemoveConn(id)
    ensures states[j].conns == map[] && states[j].users == map[]
  {
    hide Init;
    var s := states[j];
    InvAlways(states, moves, j);
    if id :| id in s.conns {
      assert InUsers(s, id, s.conns[id]);
      assert id in s.returned;
      var i :| 0 <= i < j && moves[i].1 == RemoveConn(id);
      Unregistered(states, moves, i, j, moves[i].0, id);
    }
    Quiescent(s);
  }
}
