/** The registry as an object used by one caller at a time: the same map operations as the
    concurrent model, run to the end of each call. */
module ConnectionManager {
  import opened Registry

  class ConnectionManager {
    var nextConnId: ConnId
    var connections: map<ConnId, UserId>
    var userConnections: map<UserId, set<ConnId>>
    var cancelled: set<ConnId>

    constructor ()
      ensures Consistent() && connections == map[] && userConnections == map[] && nextConnId == 1 && cancelled == {}
    {
      nextConnId, connections, userConnections, cancelled := 1, map[], map[], {};
    }

    /** The user map is the inverse of the connection map, without empty entries; ids are new. */
    ghost predicate Consistent()
      reads this
    {
      && (forall id :: id in connections ==> id < nextConnId)
      && (forall u, id :: u in userConnections && id in userConnections[u] <==> id in connections && connections[id] == u)
      && (forall u :: u in userConnections ==> userConnections[u] != {})
    }

    ghost function ConnectionsOf(user: UserId): set<ConnId>
      reads this`connections
    {
      set id | id in connections && connections[id] == user
    }

    method Register(user: UserId) returns (id: ConnId)
      requires Consistent()
      modifies this`nextConnId, this`connections, this`userConnections
      ensures Consistent()
      ensures id !in old(connections) && connections == old(connections)[id := user]
      ensures id == old(nextConnId) && nextConnId == id + 1
    {
      id := nextConnId;
      nextConnId := nextConnId + 1;
      connections := connections[id := user];
      userConnections := AddId(userConnections, user, id);
    }

    method Unregister(id: ConnId)
      requires Consistent()
      modifies this`connections, this`userConnections
      ensures Consistent() && connections == old(connections) - {id}
    {
      if id in connections {
        var user := connections[id];
        connections := connections - {id};
        DropIdExactly(userConnections, user, id);
        userConnections := DropId(userConnections, user, id);
      }
    }

    /** kick_user: cancels the user's tokens, no others, and counts them. */
    method KickUser(user: UserId) returns (kicked: nat)
      requires Consistent()
      modifies this`cancelled
      ensures cancelled == old(cancelled) + ConnectionsOf(user)
      ensures kicked == |ConnectionsOf(user)|
    {
      kicked := 0;
      ghost var done: set<ConnId> := {};
      if user in userConnections {
        var todo := userConnections[user];
        assert todo == ConnectionsOf(user);
        while todo != {}
          invariant todo !! done && todo + done == ConnectionsOf(user)
          invariant cancelled == old(cancelled) + done && kicked == |done|
          decreases |todo|
        {
          var id :| id in todo;
          if id in connections {
            cancelled := cancelled + {id};
            kicked := kicked + 1;
          }
          todo, done := todo - {id}, done + {id};
        }
      }
      assert done == ConnectionsOf(user);
    }

    /** cancel_all: cancels every token there is, and counts them. */
    method CancelAll() returns (count: nat)
      modifies this`cancelled
      ensures cancelled == old(cancelled) + connections.Keys
      ensures count == |connections|
    {
      count := 0;
      var todo := connections.Keys;
      ghost var done: set<ConnId> := {};
      while todo != {}
        invariant todo !! done && todo + done == connections.Keys
        invariant cancelled == old(cancelled) + done && count == |done|
        decreases |todo|
      {
        var id :| id in todo;
        cancelled := cancelled + {id};
        count := count + 1;
        todo, done := todo - {id}, done + {id};
      }
      assert done == connections.Keys;
    }
  }
}
