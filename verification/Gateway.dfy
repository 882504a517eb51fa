/** The bid gateway's socket handlers, step by step on the sockets and on Redis. */
module Gateway {
  import opened Wrappers
  import opened Presence

  /** The part of Redis that knows who watches what. */
  class RoomStore {
    var active: set<int>
    var participants: map<int, map<nat, int>>
    var socketAuction: map<UserSocket, int>

    constructor ()
      ensures active == {} && participants == map[] && socketAuction == map[]
    {
      active, participants, socketAuction := {}, map[], map[];
    }

    function RoomHash(a: int): map<nat, int>
      reads this`participants
    {
      if a in participants then participants[a] else map[]
    }

    method IsAuctionActive(a: int) returns (yes: bool)
      ensures yes <==> a in active
    {
      yes := a in active;
    }

    method AddUserToAuctionRoom(a: int, socket: nat, user: int)
      modifies this`participants
      ensures participants == old(participants)[a := old(RoomHash(a))[socket := user]]
    {
      participants := participants[a := RoomHash(a)[socket := user]];
    }

    method RemoveUserFromAuctionRoom(a: int, socket: nat)
      modifies this`participants
      ensures participants == old(participants)[a := old(RoomHash(a)) - {socket}]
    {
      participants := participants[a := RoomHash(a) - {socket}];
    }

    method SetSocketAuction(user: int, socket: nat, a: int)
      modifies this`socketAuction
      ensures socketAuction == old(socketAuction)[UserSocket(user, socket) := a]
    {
      socketAuction := socketAuction[UserSocket(user, socket) := a];
    }

    method DeleteSocketAuction(user: int, socket: nat)
      modifies this`socketAuction
      ensures socketAuction == old(socketAuction) - {UserSocket(user, socket)}
    {
      socketAuction := socketAuction - {UserSocket(user, socket)};
    }

    method GetSocketAuction(user: int, socket: nat) returns (a: Option<int>)
      ensures a.Some? <==> UserSocket(user, socket) in socketAuction
      ensures a.Some? ==> a.value == socketAuction[UserSocket(user, socket)]
    {
      var key := UserSocket(user, socket);
      a := if key in socketAuction then Some(socketAuction[key]) else None;
    }

    /** The number of sockets in the hash, however many belong to one user. */
    method GetAuctionParticipantsCount(a: int) returns (count: nat)
      ensures count == |RoomHash(a)|
    {
      count := |RoomHash(a)|;
    }

    /** Collects the users found in the hash, each once. */
    method GetUniqueParticipantsCount(a: int) returns (count: nat)
      ensures count == |RoomHash(a).Values|
    {
      var sockets, users := RoomHash(a).Keys, {};
      while sockets != {}
        invariant sockets <= RoomHash(a).Keys
        invariant users == set k | k in RoomHash(a) && k !in sockets :: RoomHash(a)[k]
        decreases |sockets|
      {
        var k :| k in sockets;
        ghost var others := sockets;
        sockets := sockets - {k};
        users := users + {RoomHash(a)[k]};
        assert forall l :: l in RoomHash(a) && l !in sockets <==> l == k || (l in RoomHash(a) && l !in others);
      }
      assert users == RoomHash(a).Values;
      count := |users|;
    }
  }

  class BidGateway {
    const redis: RoomStore
    var clients: map<nat, Client>
    var sent: seq<Update>

    constructor (redis: RoomStore)
      ensures this.redis == redis && clients == map[] && sent == []
    {
      this.redis, clients, sent := redis, map[], [];
    }

    function Snapshot(): State
      reads this, redis
    {
      State(clients, redis.active, redis.participants, redis.socketAuction, sent)
    }

    method EmitPresenceUpdate(a: int)
      modifies this`sent
      ensures Snapshot() == Announce(old(Snapshot()), a)
    {
      var count := redis.GetUniqueParticipantsCount(a);
      sent := sent + [Update(a, count)];
    }

    method OnClientConnect(socket: nat, identity: Option<int>)
      requires socket !in clients
      modifies this`clients
      ensures Snapshot() == Next(old(Snapshot()), Connect(socket, identity))
    {
      clients := clients[socket := Client(identity, None, {}, identity)];
    }

    method OnClientDisconnect(socket: nat)
      requires socket in clients
      modifies this, redis
      ensures Snapshot() == Next(old(Snapshot()), Disconnect(socket))
    {
      var client := clients[socket];
      clients := clients - {socket};
      if client.auctionId.None? || client.user.None? { return; }
      redis.RemoveUserFromAuctionRoom(client.auctionId.value, socket);
      redis.DeleteSocketAuction(client.user.value, socket);
      EmitPresenceUpdate(client.auctionId.value);
    }

    method LeavePrevious(socket: nat, a: int)
      requires socket in clients
      modifies this, redis
      ensures Snapshot() == LeftPrevious(old(Snapshot()), socket, a)
    {
      var client := clients[socket];
      if client.auctionId.Some? && client.auctionId.value != a {
        var previous := client.auctionId.value;
        clients := clients[socket := OutOf(client, previous)];
        if client.user.Some? {
          redis.RemoveUserFromAuctionRoom(previous, socket);
          redis.DeleteSocketAuction(client.user.value, socket);
        }
        EmitPresenceUpdate(previous);
      }
    }

    method Enter(socket: nat, a: int)
      requires socket in clients
      modifies this, redis
      ensures Snapshot() == Entered(old(Snapshot()), socket, a)
    {
      var client := clients[socket];
      clients := clients[socket := client.(rooms := client.rooms + {a}, auctionId := Some(a))];
      if client.user.None? { return; }
      redis.AddUserToAuctionRoom(a, socket, client.user.value);
      redis.SetSocketAuction(client.user.value, socket, a);
      EmitPresenceUpdate(a);
    }

    method HandleJoinAuction(socket: nat, a: int) returns (joined: bool)
      requires socket in clients
      modifies this, redis
      ensures Snapshot() == Next(old(Snapshot()), Join(socket, a))
      ensures joined <==> a in old(redis.active)
    {
      joined := redis.IsAuctionActive(a);
      if joined {
        LeavePrevious(socket, a);
        Enter(socket, a);
      }
    }

    method HandleLeaveAuction(socket: nat, a: int)
      requires socket in clients
      modifies this, redis
      ensures Snapshot() == Next(old(Snapshot()), Leave(socket, a))
    {
      var client := clients[socket];
      clients := clients[socket := OutOf(client, a).(auctionId := None)];
      if client.user.None? { return; }
      redis.RemoveUserFromAuctionRoom(a, socket);
      redis.DeleteSocketAuction(client.user.value, socket);
      EmitPresenceUpdate(a);
    }

    method HandleRejoinAuction(socket: nat, a: int, identity: Option<int>) returns (rejoined: bool)
      requires socket in clients
      modifies this, redis
      ensures Snapshot() == Next(old(Snapshot()), Rejoin(socket, a, identity))
      ensures rejoined <==> a in old(redis.active)
    {
      rejoined := redis.IsAuctionActive(a);
      if rejoined {
        clients := clients[socket := clients[socket].(user := identity)];
        Enter(socket, a);
      }
    }

    /** The auction a bid of this socket goes to, once its token and its room have been checked. */
    method AuthorizeBid(socket: nat, identity: Option<int>) returns (target: Option<int>)
      requires socket in clients
      modifies this, redis
      ensures (Snapshot(), target) == Revalidated(old(Snapshot()), socket, identity)
    {
      target := None;
      var client := clients[socket];
      if client.user.None? && identity.None? { return; }
      clients := clients[socket := client.(user := identity)];
      if identity.None? {
        OnClientDisconnect(socket);
        return;
      }
      if client.auctionId.None? { return; }
      var redisAuctionId := redis.GetSocketAuction(identity.value, socket);
      if redisAuctionId == client.auctionId { target := client.auctionId; }
    }

    /** The count in the answer to a request for the current state, if the socket is in a room. */
    method HandleRequestCurrentState(socket: nat) returns (participantsCount: Option<nat>)
      requires socket in clients
      ensures participantsCount == CurrentCount(Snapshot(), socket)
    {
      var auctionId := clients[socket].auctionId.GetOr(0);
      if auctionId == 0 { return None; }
      var count := redis.GetAuctionParticipantsCount(auctionId);
      return Some(count);
    }
  }
}
