/** Who watches which auction: the gateway's sockets, the Redis participant hashes and the socket-to-auction keys. */
module Presence {
  import opened Wrappers

  /**
   A connected socket: its user, the auction it watches, the auction rooms it is in, and the user whose
   personal room, where a winner is told, it joined when it connected.
   */
  datatype Client = Client(user: Option<int>, auctionId: Option<int>, rooms: set<int>, userRoom: Option<int>)

  datatype UserSocket = UserSocket(user: int, socket: nat)

  /** One presence update sent to an auction's room. */
  datatype Update = Update(auctionId: int, count: nat)

  /** `participants` maps an auction to its hash from socket to user; `sent` is the history of updates. */
  datatype State = State(
    clients: map<nat, Client>,
    active: set<int>,
    participants: map<int, map<nat, int>>,
    socketAuction: map<UserSocket, int>,
    sent: seq<Update>)

  const EMPTY := State(map[], {}, map[], map[], [])

  /** `identity` is whom the socket's token identifies at that moment, if anybody. */
  datatype Event =
    | Connect(socket: nat, identity: Option<int>)
    | Disconnect(socket: nat)
    | Join(socket: nat, auctionId: int)
    | Leave(socket: nat, auctionId: int)
    | Rejoin(socket: nat, auctionId: int, identity: Option<int>)
    | TryBid(socket: nat, identity: Option<int>)
    | SetActive(active: set<int>)
    | CleanUp(auctionId: int)
    | ExpireMapping(key: UserSocket)

  // --- Redis ---

  function Hash(s: State, a: int): map<nat, int> {
    if a in s.participants then s.participants[a] else map[]
  }

  predicate Seated(s: State, a: int, socket: nat) {
    socket in Hash(s, a)
  }

  /** The distinct users in the hash. */
  function Participants(s: State, a: int): nat {
    |Hash(s, a).Values|
  }

  function Seat(s: State, a: int, socket: nat, user: int): State {
    s.(participants := s.participants[a := Hash(s, a)[socket := user]],
       socketAuction := s.socketAuction[UserSocket(user, socket) := a])
  }

  function Unseat(s: State, a: int, socket: nat, user: int): State {
    s.(participants := s.participants[a := Hash(s, a) - {socket}],
       socketAuction := s.socketAuction - {UserSocket(user, socket)})
  }

  function Announce(s: State, a: int): State {
    s.(sent := s.sent + [Update(a, Participants(s, a))])
  }

  // --- Events ---

  function SetClient(s: State, socket: nat, client: Client): State {
    s.(clients := s.clients[socket := client])
  }

  function Disconnected(s: State, socket: nat): State
    requires socket in s.clients
  {
    var client := s.clients[socket];
    var gone := s.(clients := s.clients - {socket});
    if client.auctionId.None? || client.user.None? then gone
    else Announce(Unseat(gone, client.auctionId.value, socket, client.user.value), client.auctionId.value)
  }

  /** Socket `socket`, now as `client` describes it, is taken off the hash of a room when it has a user. */
  function MovedOut(s: State, socket: nat, client: Client, a: int): (t: State)
    ensures t.clients == s.clients[socket := client] && t.sent == s.sent && t.active == s.active
    ensures t.participants == if client.user.Some? then s.participants[a := Hash(s, a) - {socket}] else s.participants
    ensures t.socketAuction ==
            if client.user.Some? then s.socketAuction - {UserSocket(client.user.value, socket)} else s.socketAuction
  {
    var left := SetClient(s, socket, client);
    if client.user.Some? then Unseat(left, a, socket, client.user.value) else left
  }

  function OutOf(client: Client, a: int): Client {
    client.(rooms := set r | r in client.rooms && r != a)
  }

  /** Out of the previous room, when joining another one. */
  function LeftPrevious(s: State, socket: nat, a: int): State
    requires socket in s.clients
  {
    var client := s.clients[socket];
    var previous := client.auctionId;
    if previous.None? || previous.value == a then s
    else Announce(MovedOut(s, socket, OutOf(client, previous.value), previous.value), previous.value)
  }

  function Entered(s: State, socket: nat, a: int): State
    requires socket in s.clients
  {
    var client := s.clients[socket];
    var entered := SetClient(s, socket, client.(rooms := client.rooms + {a}, auctionId := Some(a)));
    if client.user.None? then entered
    else Announce(Seat(entered, a, socket, client.user.value), a)
  }

  function Left(s: State, socket: nat, a: int): State
    requires socket in s.clients
  {
    var client := s.clients[socket];
    var left := MovedOut(s, socket, OutOf(client, a).(auctionId := None), a);
    if client.user.None? then left else Announce(left, a)
  }

  /** The checks before a bid: the token again, then the room as the socket and as Redis know it. */
  function Revalidated(s: State, socket: nat, identity: Option<int>): (State, Option<int>)
    requires socket in s.clients
  {
    var client := s.clients[socket];
    if identity.None? then
      // A guest is turned away; a user whose token no longer holds is forgotten and disconnected.
      if client.user.None? then (s, None)
      else (Disconnected(SetClient(s, socket, client.(user := None)), socket), None)
    else
      var known := SetClient(s, socket, client.(user := identity));
      var key := UserSocket(identity.value, socket);
      if client.auctionId.Some? && key in s.socketAuction && s.socketAuction[key] == client.auctionId.value
      then (known, client.auctionId)
      else (known, None)
  }

  function Next(s: State, event: Event): State {
    match event
    case Connect(k, identity) => if k in s.clients then s else SetClient(s, k, Client(identity, None, {}, identity))
    case Disconnect(k) => if k in s.clients then Disconnected(s, k) else s
    case Join(k, a) => if k in s.clients && a in s.active then Entered(LeftPrevious(s, k, a), k, a) else s
    case Leave(k, a) => if k in s.clients then Left(s, k, a) else s
    case Rejoin(k, a, identity) =>
      if k in s.clients && a in s.active then Entered(SetClient(s, k, s.clients[k].(user := identity)), k, a) else s
    case TryBid(k, identity) => if k in s.clients then Revalidated(s, k, identity).0 else s
    case SetActive(active) => s.(active := active)
    case CleanUp(a) => s.(participants := s.participants - {a}, active := s.active - {a})
    case ExpireMapping(key) => s.(socketAuction := s.socketAuction - {key})
  }

  function Run(s: State, events: seq<Event>): State
    decreases |events|
  {
    if events == [] then s else Run(Next(s, events[0]), events[1..])
  }

  // --- One seat for each socket ---

  /**
   The client behaves: it leaves the room it is in, rejoins that room or comes in first, and its
   token, once it identified a user, keeps identifying that user.
   */
  predicate WellBehaved(s: State, event: Event) {
    match event
    case Leave(k, a) => k in s.clients && s.clients[k].auctionId.Some? ==> s.clients[k].auctionId.value == a
    case Rejoin(k, a, identity) =>
      k in s.clients && a in s.active ==>
        && (s.clients[k].auctionId.Some? ==> s.clients[k].auctionId.value == a)
        && (s.clients[k].user.Some? ==> identity == s.clients[k].user)
    case TryBid(k, identity) => k in s.clients && s.clients[k].user.Some? ==> identity == s.clients[k].user
    case _ => true
  }

  predicate WellBehavedRun(s: State, events: seq<Event>)
    decreases |events|
  {
    events == [] || (WellBehaved(s, events[0]) && WellBehavedRun(Next(s, events[0]), events[1..]))
  }

  predicate SeatOk(s: State, a: int, k: nat) {
    Seated(s, a, k) ==>
      k in s.clients && s.clients[k].auctionId == Some(a) && s.clients[k].user == Some(Hash(s, a)[k])
  }

  predicate MappingOk(s: State, key: UserSocket) {
    key in s.socketAuction ==>
      && key.socket in s.clients
      && s.clients[key.socket].user == Some(key.user)
      && s.clients[key.socket].auctionId == Some(s.socketAuction[key])
  }

  predicate RoomsOk(client: Client) {
    && client.rooms == (if client.auctionId.Some? then {client.auctionId.value} else {})
    && (client.userRoom.Some? ==> client.user == client.userRoom)
  }

  /** Sockets, hashes and mapping keys tell one story. */
  ghost predicate InStep(s: State) {
    && (forall a, k :: SeatOk(s, a, k))
    && (forall key :: MappingOk(s, key))
    && (forall k :: k in s.clients ==> RoomsOk(s.clients[k]))
  }

  /** Only `sent` may differ. */
  predicate SameButSent(s: State, t: State) {
    t.(sent := s.sent) == s
  }

  lemma InStepIgnoresSent(s: State, t: State)
    requires InStep(s) && SameButSent(s, t)
    ensures InStep(t)
  {
    forall a, k ensures SeatOk(t, a, k) {
      assert SeatOk(s, a, k);
    }
    forall key ensures MappingOk(t, key) {
      assert MappingOk(s, key);
    }
  }

  lemma HashAfter(s: State, a: int, k: nat, user: int, b: int)
    ensures Hash(Seat(s, a, k, user), b) == if b == a then Hash(s, a)[k := user] else Hash(s, b)
    ensures Hash(Unseat(s, a, k, user), b) == if b == a then Hash(s, a) - {k} else Hash(s, b)
  {
  }

  /** A socket that holds no seat can simply go. */
  lemma InStepGone(s: State, k: nat)
    requires InStep(s) && k in s.clients && (s.clients[k].auctionId.None? || s.clients[k].user.None?)
    ensures InStep(s.(clients := s.clients - {k}))
  {
    var gone := s.(clients := s.clients - {k});
    forall b, l ensures SeatOk(gone, b, l) { assert SeatOk(s, b, l); }
    forall key ensures MappingOk(gone, key) { assert MappingOk(s, key); }
  }

  lemma InStepDisconnected(s: State, k: nat)
    requires InStep(s) && k in s.clients
    ensures InStep(Disconnected(s, k))
  {
    var client := s.clients[k];
    if client.auctionId.Some? && client.user.Some? {
      var t := Unseat(s.(clients := s.clients - {k}), client.auctionId.value, k, client.user.value);
      InStepUnseated(s, t, k, client.auctionId.value, client.user.value);
      InStepIgnoresSent(t, Disconnected(s, k));
    } else {
      InStepGone(s, k);
    }
  }

  lemma InStepUnseated(s: State, t: State, k: nat, a: int, user: int)
    requires InStep(s) && k in s.clients && s.clients[k].user == Some(user)
    requires s.clients[k].auctionId.Some? ==> s.clients[k].auctionId.value == a
    requires t.participants == s.participants[a := Hash(s, a) - {k}]
    requires t.socketAuction == s.socketAuction - {UserSocket(user, k)}
    requires forall l :: l != k ==> (l in t.clients <==> l in s.clients) && (l in s.clients ==> t.clients[l] == s.clients[l])
    requires k in t.clients ==> RoomsOk(t.clients[k])
    ensures InStep(t)
  {
    forall b, l ensures SeatOk(t, b, l) {
      assert SeatOk(s, b, l);
      assert Hash(t, b) == if b == a then Hash(s, a) - {k} else Hash(s, b);
    }
    forall key ensures MappingOk(t, key) {
      assert MappingOk(s, key);
    }
  }

  lemma OutOfTheRoom(client: Client, a: int)
    requires RoomsOk(client) && (client.auctionId.Some? ==> client.auctionId.value == a)
    ensures RoomsOk(OutOf(client, a).(auctionId := None))
  {
    assert OutOf(client, a).rooms == {};
  }

  lemma InStepGuestLeft(s: State, k: nat, client: Client)
    requires InStep(s) && k in s.clients && s.clients[k].user.None? && client.user.None? && RoomsOk(client)
    ensures InStep(SetClient(s, k, client))
  {
    var t := SetClient(s, k, client);
    forall b, l ensures SeatOk(t, b, l) { assert SeatOk(s, b, l); }
    forall key ensures MappingOk(t, key) { assert MappingOk(s, key); }
  }

  lemma InStepLeft(s: State, k: nat, a: int)
    requires InStep(s) && k in s.clients
    requires s.clients[k].auctionId.Some? ==> s.clients[k].auctionId.value == a
    ensures InStep(Left(s, k, a))
  {
    var client := s.clients[k];
    var outside := OutOf(client, a).(auctionId := None);
    OutOfTheRoom(client, a);
    if client.user.Some? {
      var left := MovedOut(s, k, outside, a);
      InStepUnseated(s, left, k, a, client.user.value);
      InStepIgnoresSent(left, Left(s, k, a));
    } else {
      InStepGuestLeft(s, k, outside);
    }
  }

  lemma InStepEntered(s: State, k: nat, a: int)
    requires InStep(s) && k in s.clients
    requires s.clients[k].auctionId.Some? ==> s.clients[k].auctionId.value == a
    ensures InStep(Entered(s, k, a))
  {
    var client := s.clients[k];
    var entered := SetClient(s, k, client.(rooms := client.rooms + {a}, auctionId := Some(a)));
    assert RoomsOk(client) && RoomsOk(entered.clients[k]);
    forall b, l ensures SeatOk(entered, b, l) { assert SeatOk(s, b, l); }
    forall key ensures MappingOk(entered, key) { assert MappingOk(s, key); }
    if client.user.Some? {
      InStepSeated(entered, k, a, client.user.value);
      InStepIgnoresSent(Seat(entered, a, k, client.user.value), Entered(s, k, a));
    }
  }

  lemma InStepSeated(s: State, k: nat, a: int, user: int)
    requires InStep(s) && k in s.clients && s.clients[k].user == Some(user) && s.clients[k].auctionId == Some(a)
    ensures InStep(Seat(s, a, k, user))
  {
    var t := Seat(s, a, k, user);
    forall b, l ensures SeatOk(t, b, l) {
      assert SeatOk(s, b, l);
      HashAfter(s, a, k, user, b);
    }
    forall key ensures MappingOk(t, key) {
      assert MappingOk(s, key);
    }
  }

  /** Joining another room is leaving the previous one and coming in fresh. */
  lemma InStepJoin(s: State, k: nat, a: int)
    requires InStep(s) && k in s.clients
    ensures InStep(Entered(LeftPrevious(s, k, a), k, a))
  {
    var client := s.clients[k];
    if client.auctionId.None? || client.auctionId.value == a {
      InStepEntered(s, k, a);
    } else {
      var previous := client.auctionId.value;
      var left, moved := Left(s, k, previous), LeftPrevious(s, k, a);
      InStepLeft(s, k, previous);
      InStepEntered(left, k, a);
      LeavingTwice(s, k, previous, a);
      SameEntrance(left, moved, k, a);
      InStepIgnoresSent(Entered(left, k, a), Entered(moved, k, a));
    }
  }

  /** Apart from the auction the socket has in mind, moving out of a room is leaving it. */
  lemma LeavingTwice(s: State, k: nat, previous: int, a: int)
    requires k in s.clients && s.clients[k].auctionId == Some(previous) && previous != a
    ensures var left, moved := Left(s, k, previous), LeftPrevious(s, k, a);
            && k in left.clients && k in moved.clients
            && left.clients == moved.clients[k := moved.clients[k].(auctionId := None)]
            && left.participants == moved.participants && left.socketAuction == moved.socketAuction
            && left.active == moved.active
  {
    var moved := OutOf(s.clients[k], previous);
    assert s.clients[k := moved.(auctionId := None)] == s.clients[k := moved][k := moved.(auctionId := None)];
  }

  lemma SameEntrance(s: State, t: State, k: nat, a: int)
    requires k in s.clients && k in t.clients
    requires s.clients == t.clients[k := t.clients[k].(auctionId := None)]
    requires s.participants == t.participants && s.socketAuction == t.socketAuction && s.active == t.active
    ensures SameButSent(Entered(s, k, a), Entered(t, k, a))
  {
    var entered := t.clients[k].(rooms := t.clients[k].rooms + {a}, auctionId := Some(a));
    assert s.clients[k := entered] == t.clients[k := entered];
  }

  /** A token that now identifies a guest's user leaves everything else as it is. */
  lemma InStepIdentified(s: State, k: nat, identity: Option<int>)
    requires InStep(s) && k in s.clients
    requires s.clients[k].user.Some? ==> identity == s.clients[k].user
    ensures InStep(SetClient(s, k, s.clients[k].(user := identity)))
  {
    var t := SetClient(s, k, s.clients[k].(user := identity));
    forall b, l ensures SeatOk(t, b, l) {
      assert SeatOk(s, b, l);
    }
    forall key ensures MappingOk(t, key) {
      assert MappingOk(s, key);
    }
  }

  lemma InStepElsewhere(s: State, event: Event)
    requires InStep(s) && (event.Connect? || event.SetActive? || event.CleanUp? || event.ExpireMapping?)
    ensures InStep(Next(s, event))
  {
    var t := Next(s, event);
    forall b, l ensures SeatOk(t, b, l) {
      assert SeatOk(s, b, l);
    }
    forall key ensures MappingOk(t, key) {
      assert MappingOk(s, key);
    }
  }

  lemma InStepNext(s: State, event: Event)
    requires InStep(s) && WellBehaved(s, event)
    ensures InStep(Next(s, event))
  {
    match event
    case Disconnect(k) =>
      if k in s.clients { InStepDisconnected(s, k); }
    case Join(k, a) =>
      if k in s.clients && a in s.active { InStepJoin(s, k, a); }
    case Leave(k, a) =>
      if k in s.clients { InStepLeft(s, k, a); }
    case Rejoin(k, a, identity) =>
      if k in s.clients && a in s.active {
        InStepIdentified(s, k, identity);
        InStepEntered(SetClient(s, k, s.clients[k].(user := identity)), k, a);
      }
    case TryBid(k, identity) =>
      if k in s.clients && identity.Some? { InStepIdentified(s, k, identity); }
    case _ =>
      InStepElsewhere(s, event);
  }

  lemma {:induction false} InStepAlways(s: State, events: seq<Event>)
    requires InStep(s) && WellBehavedRun(s, events)
    ensures InStep(Run(s, events))
    decreases |events|
  {
    if events == [] {
    } else {
      InStepNext(s, events[0]);
      InStepAlways(Next(s, events[0]), events[1..]);
    }
  }

  /**
   A seat in a participants hash belongs to a connected socket of that user, which itself and, unless
   it expired, its key in Redis name that auction; no socket has two seats.
   */
  lemma OneSeatEach(events: seq<Event>, a: int, k: nat)
    requires WellBehavedRun(EMPTY, events)
    requires Seated(Run(EMPTY, events), a, k)
    ensures var s := Run(EMPTY, events);
            && k in s.clients
            && s.clients[k].auctionId == Some(a) && s.clients[k].user == Some(Hash(s, a)[k])
            && (var key := UserSocket(Hash(s, a)[k], k); key in s.socketAuction ==> s.socketAuction[key] == a)
            && forall b :: Seated(s, b, k) ==> b == a
  {
    InStepAlways(EMPTY, events);
    var s := Run(EMPTY, events);
    assert SeatOk(s, a, k);
    assert MappingOk(s, UserSocket(Hash(s, a)[k], k));
    forall b | Seated(s, b, k) ensures b == a {
      assert SeatOk(s, b, k);
    }
  }

  /** A bid passes the room checks exactly when the socket's key is still there, and then goes to the watched auction. */
  lemma BidsReachTheWatchedAuction(events: seq<Event>, k: nat, user: int)
    requires WellBehavedRun(EMPTY, events)
    requires var s := Run(EMPTY, events); k in s.clients && (s.clients[k].user.Some? ==> s.clients[k].user == Some(user))
    ensures var s := Run(EMPTY, events);
            var target := Revalidated(s, k, Some(user)).1;
            && (target.Some? <==> UserSocket(user, k) in s.socketAuction)
            && (target.Some? ==> target == s.clients[k].auctionId)
  {
    InStepAlways(EMPTY, events);
    assert MappingOk(Run(EMPTY, events), UserSocket(user, k));
  }

  // --- Where behaving matters ---

  /** Rejoining keeps a seated socket at one seat exactly when it names the auction it watches. */
  lemma RejoinKeepsOneSeatExactly(s: State, a: int, k: nat, b: int)
    requires InStep(s) && k in s.clients && Seated(s, a, k) && b in s.active
    ensures var t := Next(s, Rejoin(k, b, s.clients[k].user));
            (forall x, y :: Seated(t, x, k) && Seated(t, y, k) ==> x == y) <==> a == b
  {
    assert SeatOk(s, a, k);
    var t := Next(s, Rejoin(k, b, s.clients[k].user));
    assert Seated(t, a, k) && Seated(t, b, k);
    if a == b {
      forall x | Seated(t, x, k) ensures x == a {
        assert SeatOk(s, x, k);
      }
    }
  }

  /** Disconnecting frees the seat exactly when the socket still knows its user. */
  lemma DisconnectFreesExactly(s: State, a: int, k: nat, user: Option<int>)
    requires InStep(s) && Seated(s, a, k)
    ensures k in s.clients
    ensures var t := Disconnected(SetClient(s, k, s.clients[k].(user := user)), k);
            (forall b :: !Seated(t, b, k)) <==> user.Some?
  {
    assert SeatOk(s, a, k);
    var t := Disconnected(SetClient(s, k, s.clients[k].(user := user)), k);
    forall b | b != a ensures !Seated(t, b, k) {
      assert SeatOk(s, b, k);
    }
    assert Seated(t, a, k) <==> user.None?;
  }

  /** So a bid whose token no longer holds leaves the seat behind, with nobody on it. */
  lemma ExpiredTokenLeavesTheSeat(s: State, a: int, k: nat)
    requires InStep(s) && Seated(s, a, k)
    ensures var t := Next(s, TryBid(k, None)); Seated(t, a, k) && k !in t.clients
  {
    assert SeatOk(s, a, k);
  }

  /** As long as it is connected, the socket is in this user's personal room, or in none. */
  predicate InPersonalRoom(s: State, k: nat, room: Option<int>) {
    k in s.clients ==> s.clients[k].userRoom == room
  }

  lemma PersonalRoomEntered(s: State, socket: nat, a: int, k: nat, room: Option<int>)
    requires socket in s.clients && InPersonalRoom(s, k, room)
    ensures InPersonalRoom(Entered(s, socket, a), k, room)
  {
  }

  lemma PersonalRoomLeft(s: State, socket: nat, a: int, k: nat, room: Option<int>)
    requires socket in s.clients && InPersonalRoom(s, k, room)
    ensures InPersonalRoom(LeftPrevious(s, socket, a), k, room) && InPersonalRoom(Left(s, socket, a), k, room)
  {
  }

  lemma PersonalRoomNext(s: State, event: Event, k: nat, room: Option<int>)
    requires InPersonalRoom(s, k, room) && !(event.Connect? && event.socket == k)
    ensures InPersonalRoom(Next(s, event), k, room)
  {
    match event
    case Join(l, a) =>
      if l in s.clients && a in s.active {
        PersonalRoomLeft(s, l, a, k, room);
        PersonalRoomEntered(LeftPrevious(s, l, a), l, a, k, room);
      }
    case Leave(l, a) =>
      if l in s.clients { PersonalRoomLeft(s, l, a, k, room); }
    case Rejoin(l, a, identity) =>
      if l in s.clients && a in s.active {
        PersonalRoomEntered(SetClient(s, l, s.clients[l].(user := identity)), l, a, k, room);
      }
    case _ =>
  }

  lemma {:induction false} PersonalRoomAlways(s: State, events: seq<Event>, k: nat, room: Option<int>)
    requires InPersonalRoom(s, k, room)
    requires forall i :: 0 <= i < |events| ==> !(events[i].Connect? && events[i].socket == k)
    ensures InPersonalRoom(Run(s, events), k, room)
    decreases |events|
  {
    if events == [] {
    } else {
      PersonalRoomNext(s, events[0], k, room);
      PersonalRoomAlways(Next(s, events[0]), events[1..], k, room);
    }
  }

  /**
   Among well-behaved clients a socket that has a user is in that user's personal room exactly if it
   connected as a user: one that connected as a guest misses it even once its user is known.
   */
  lemma LateUsersMissTheirRoom(before: seq<Event>, k: nat, identity: Option<int>, after: seq<Event>)
    requires WellBehavedRun(EMPTY, before) && k !in Run(EMPTY, before).clients
    requires WellBehavedRun(Next(Run(EMPTY, before), Connect(k, identity)), after)
    requires forall i :: 0 <= i < |after| ==> !(after[i].Connect? && after[i].socket == k)
    ensures var t := Run(Next(Run(EMPTY, before), Connect(k, identity)), after);
            k in t.clients && t.clients[k].user.Some? ==>
              && (t.clients[k].userRoom == t.clients[k].user <==> identity.Some?)
              && (identity.Some? ==> identity == t.clients[k].user)
  {
    var s := Run(EMPTY, before);
    InStepAlways(EMPTY, before);
    InStepNext(s, Connect(k, identity));
    InStepAlways(Next(s, Connect(k, identity)), after);
    PersonalRoomAlways(Next(s, Connect(k, identity)), after, k, identity);
  }

  // --- The number that is broadcast ---

  /** The count last announced to an auction's room; nobody at first. */
  function LastCount(sent: seq<Update>, a: int): nat {
    if sent == [] then 0
    else
      var last := sent[|sent| - 1];
      if last.auctionId == a then last.count else LastCount(sent[..|sent| - 1], a)
  }

  ghost predicate Announced(s: State) {
    forall a :: LastCount(s.sent, a) == Participants(s, a)
  }

  lemma AnnouncedAfter(s: State, t: State, a: int)
    requires Announced(s) && t.sent == s.sent
    requires forall b :: b != a ==> Hash(t, b) == Hash(s, b)
    ensures Announced(Announce(t, a))
  {
    var u := Announce(t, a);
    forall b ensures LastCount(u.sent, b) == Participants(u, b) {
      assert u.sent[..|u.sent| - 1] == s.sent;
      assert LastCount(s.sent, b) == Participants(s, b);
    }
  }

  lemma AnnouncedSame(s: State, t: State)
    requires Announced(s) && t.sent == s.sent && t.participants == s.participants
    ensures Announced(t)
  {
    forall a ensures LastCount(t.sent, a) == Participants(t, a) {
      assert LastCount(s.sent, a) == Participants(s, a);
    }
  }

  lemma AnnouncedEntered(s: State, k: nat, a: int)
    requires k in s.clients && Announced(s)
    ensures Announced(Entered(s, k, a))
  {
    var client := s.clients[k];
    var entered := SetClient(s, k, client.(rooms := client.rooms + {a}, auctionId := Some(a)));
    if client.user.None? { AnnouncedSame(s, entered); } else { AnnouncedAfter(s, Seat(entered, a, k, client.user.value), a); }
  }

  lemma AnnouncedLeftPrevious(s: State, k: nat, a: int)
    requires k in s.clients && Announced(s)
    ensures Announced(LeftPrevious(s, k, a))
  {
    var previous := s.clients[k].auctionId;
    if previous.Some? && previous.value != a {
      var t := MovedOut(s, k, OutOf(s.clients[k], previous.value), previous.value);
      forall b | b != previous.value ensures Hash(t, b) == Hash(s, b) { }
      AnnouncedAfter(s, t, previous.value);
    }
  }

  lemma AnnouncedDisconnected(s: State, k: nat)
    requires k in s.clients && Announced(s)
    ensures Announced(Disconnected(s, k))
  {
    var client := s.clients[k];
    var gone := s.(clients := s.clients - {k});
    if client.auctionId.None? || client.user.None? {
      AnnouncedSame(s, gone);
    } else {
      AnnouncedAfter(s, Unseat(gone, client.auctionId.value, k, client.user.value), client.auctionId.value);
    }
  }

  lemma AnnouncedLeft(s: State, k: nat, a: int)
    requires k in s.clients && Announced(s)
    ensures Announced(Left(s, k, a))
  {
    var client := s.clients[k];
    var left := MovedOut(s, k, OutOf(client, a).(auctionId := None), a);
    if client.user.None? { AnnouncedSame(s, left); } else { AnnouncedAfter(s, left, a); }
  }

  lemma AnnouncedJoin(s: State, k: nat, a: int)
    requires k in s.clients && Announced(s)
    ensures Announced(Entered(LeftPrevious(s, k, a), k, a))
  {
    AnnouncedLeftPrevious(s, k, a);
    AnnouncedEntered(LeftPrevious(s, k, a), k, a);
  }

  lemma AnnouncedRejoin(s: State, k: nat, a: int, identity: Option<int>)
    requires k in s.clients && Announced(s)
    ensures Announced(Entered(SetClient(s, k, s.clients[k].(user := identity)), k, a))
  {
    var known := SetClient(s, k, s.clients[k].(user := identity));
    AnnouncedSame(s, known);
    AnnouncedEntered(known, k, a);
  }

  lemma AnnouncedTryBid(s: State, k: nat, identity: Option<int>)
    requires k in s.clients && Announced(s)
    ensures Announced(Revalidated(s, k, identity).0)
  {
    var known := SetClient(s, k, s.clients[k].(user := identity));
    AnnouncedSame(s, known);
    if identity.None? { AnnouncedDisconnected(known, k); }
  }

  lemma AnnouncedNext(s: State, event: Event)
    requires Announced(s) && !event.CleanUp?
    ensures Announced(Next(s, event))
  {
    match event
    case Disconnect(k) => if k in s.clients { AnnouncedDisconnected(s, k); }
    case Join(k, a) => if k in s.clients && a in s.active { AnnouncedJoin(s, k, a); }
    case Leave(k, a) => if k in s.clients { AnnouncedLeft(s, k, a); }
    case Rejoin(k, a, identity) => if k in s.clients && a in s.active { AnnouncedRejoin(s, k, a, identity); }
    case TryBid(k, identity) => if k in s.clients { AnnouncedTryBid(s, k, identity); }
    case _ => AnnouncedSame(s, Next(s, event));
  }

  predicate NoCleanUp(events: seq<Event>) {
    forall i :: 0 <= i < |events| ==> !events[i].CleanUp?
  }

  /** Until an auction is cleaned up, its room has always been told how many distinct users it holds. */
  lemma {:induction false} AnnouncedAlways(s: State, events: seq<Event>)
    requires Announced(s) && NoCleanUp(events)
    ensures Announced(Run(s, events))
    decreases |events|
  {
    if events == [] {
    } else {
      AnnouncedNext(s, events[0]);
      AnnouncedAlways(Next(s, events[0]), events[1..]);
    }
  }

  predicate Injective(hash: map<nat, int>) {
    forall k, l :: k in hash && l in hash && hash[k] == hash[l] ==> k == l
  }

  /** No more distinct users than sockets, and as many exactly when no user has two sockets there. */
  lemma {:induction false} UsersAtMostSockets(hash: map<nat, int>)
    ensures |hash.Values| <= |hash|
    ensures |hash.Values| == |hash| <==> Injective(hash)
    decreases |hash|
  {
    if hash == map[] {
    } else {
      var k :| k in hash;
      var rest := hash - {k};
      UsersAtMostSockets(rest);
      assert hash == rest[k := hash[k]] && hash.Keys == rest.Keys + {k};
      assert hash.Values == rest.Values + {hash[k]} by {
        forall v | v in hash.Values ensures v in rest.Values + {hash[k]} {
          var l :| l in hash && hash[l] == v;
          assert l == k || (l in rest && rest[l] == v);
        }
        assert forall l :: l in rest ==> rest[l] == hash[l] && l in hash;
      }
      if hash[k] in rest.Values {
        var l :| l in rest && rest[l] == hash[k];
        assert l != k && hash[l] == hash[k];
      } else {
        assert Injective(hash) <==> Injective(rest);
      }
    }
  }

  /** How many are there, as a socket that asks for the current state is told: sockets, not users. */
  function CurrentCount(s: State, k: nat): Option<nat>
    requires k in s.clients
  {
    var a := s.clients[k].auctionId.GetOr(0);
    if a == 0 then None else Some(|Hash(s, a)|)
  }

  /** Until a cleanup that is at least the count last announced to the room, and equal exactly when no user has two sockets there. */
  lemma AskedMatchesAnnouncedExactly(events: seq<Event>, k: nat, a: int)
    requires NoCleanUp(events)
    requires var s := Run(EMPTY, events); k in s.clients && s.clients[k].auctionId == Some(a) && a != 0
    ensures var s := Run(EMPTY, events);
            && CurrentCount(s, k).Some? && LastCount(s.sent, a) <= CurrentCount(s, k).value
            && (LastCount(s.sent, a) == CurrentCount(s, k).value <==> Injective(Hash(s, a)))
  {
    AnnouncedAlways(EMPTY, events);
    UsersAtMostSockets(Hash(Run(EMPTY, events), a));
  }

  // --- What each event comes to ---

  /** The socket watches auction `a` from its room, seated there and known to Redis if it has a user, and told of nothing else. */
  predicate Watches(s: State, k: nat, a: int, user: Option<int>) {
    && k in s.clients && s.clients[k].auctionId == Some(a) && a in s.clients[k].rooms && s.clients[k].user == user
    && (user.Some? ==>
          && Seated(s, a, k) && Hash(s, a)[k] == user.value
          && UserSocket(user.value, k) in s.socketAuction && s.socketAuction[UserSocket(user.value, k)] == a)
  }

  /** Nothing of the socket is left at auction `a`. */
  predicate Away(s: State, k: nat, a: int) {
    !Seated(s, a, k) && (k in s.clients ==> a !in s.clients[k].rooms)
  }

  /** Nothing of any other socket changes. */
  ghost predicate OthersAlone(s: State, t: State, k: nat) {
    && t.clients - {k} == s.clients - {k}
    && (forall a :: SeatsAlone(s, t, k, a))
    && t.active == s.active
  }

  predicate SeatsAlone(s: State, t: State, k: nat, a: int) {
    Hash(t, a) - {k} == Hash(s, a) - {k}
  }

  lemma AloneThrough(s: State, t: State, u: State, k: nat)
    requires OthersAlone(s, t, k) && OthersAlone(t, u, k)
    ensures OthersAlone(s, u, k)
  {
    forall a ensures SeatsAlone(s, u, k, a) {
      assert SeatsAlone(s, t, k, a) && SeatsAlone(t, u, k, a);
    }
  }

  lemma AloneMovedOut(s: State, k: nat, client: Client, a: int)
    ensures OthersAlone(s, MovedOut(s, k, client, a), k)
    ensures client.user.Some? ==> !Seated(MovedOut(s, k, client, a), a, k)
  {
    var t := MovedOut(s, k, client, a);
    assert t.clients - {k} == s.clients - {k};
    forall b ensures SeatsAlone(s, t, k, b) {
      if b == a && client.user.Some? { assert Hash(t, a) == Hash(s, a) - {k}; }
    }
  }

  lemma AloneSeated(s: State, k: nat, a: int, user: int)
    ensures var t := Seat(s, a, k, user);
            OthersAlone(s, t, k) && Seated(t, a, k) && Hash(t, a)[k] == user && forall b :: b != a ==> Hash(t, b) == Hash(s, b)
  {
    var t := Seat(s, a, k, user);
    forall b ensures SeatsAlone(s, t, k, b) {
      if b == a { assert Hash(t, a) == Hash(s, a)[k := user]; }
    }
  }

  lemma AloneSet(s: State, k: nat, client: Client)
    ensures OthersAlone(s, SetClient(s, k, client), k)
  {
    var t := SetClient(s, k, client);
    assert t.clients - {k} == s.clients - {k};
    forall b ensures SeatsAlone(s, t, k, b) { }
  }

  lemma AloneEntered(s: State, k: nat, a: int)
    requires k in s.clients
    ensures OthersAlone(s, Entered(s, k, a), k)
    ensures Watches(Entered(s, k, a), k, a, s.clients[k].user)
    ensures Entered(s, k, a).clients == s.clients[k := s.clients[k].(rooms := s.clients[k].rooms + {a}, auctionId := Some(a))]
    ensures forall b :: b != a ==> Hash(Entered(s, k, a), b) == Hash(s, b)
  {
    var client := s.clients[k];
    var entered := SetClient(s, k, client.(rooms := client.rooms + {a}, auctionId := Some(a)));
    AloneSet(s, k, client.(rooms := client.rooms + {a}, auctionId := Some(a)));
    if client.user.Some? {
      var seated := Seat(entered, a, k, client.user.value);
      AloneSeated(entered, k, a, client.user.value);
      AloneThrough(s, entered, seated, k);
      AloneAnnounced(s, seated, k, a);
    }
  }

  lemma AloneAnnounced(s: State, t: State, k: nat, a: int)
    requires OthersAlone(s, t, k)
    ensures OthersAlone(s, Announce(t, a), k)
  {
    forall b ensures SeatsAlone(s, Announce(t, a), k, b) { assert SeatsAlone(s, t, k, b); }
  }

  lemma AloneUnseated(s: State, k: nat, a: int, user: int)
    ensures OthersAlone(s, Unseat(s, a, k, user), k) && !Seated(Unseat(s, a, k, user), a, k)
  {
    var t := Unseat(s, a, k, user);
    forall b ensures SeatsAlone(s, t, k, b) {
      if b == a { assert Hash(t, a) == Hash(s, a) - {k}; }
    }
  }

  lemma AloneLeftPrevious(s: State, k: nat, a: int)
    requires k in s.clients
    ensures var t, previous := LeftPrevious(s, k, a), s.clients[k].auctionId;
            && OthersAlone(s, t, k) && k in t.clients && t.clients[k].user == s.clients[k].user
            && (previous.Some? && previous.value != a ==>
                  && previous.value !in t.clients[k].rooms
                  && (s.clients[k].user.Some? ==> !Seated(t, previous.value, k)))
  {
    var client := s.clients[k];
    var previous := client.auctionId;
    if previous.Some? && previous.value != a {
      AloneMovedOut(s, k, OutOf(client, previous.value), previous.value);
      AloneAnnounced(s, MovedOut(s, k, OutOf(client, previous.value), previous.value), k, previous.value);
    }
  }

  /** A socket that connects has its token's user, whose personal room it is in, and watches nothing. */
  lemma ConnectedExactly(s: State, k: nat, identity: Option<int>)
    requires k !in s.clients
    ensures var t := Next(s, Connect(k, identity));
            && k in t.clients && t.clients[k].user == identity && t.clients[k].userRoom == identity
            && t.clients[k].auctionId.None? && t.clients[k].rooms == {}
            && OthersAlone(s, t, k) && t.participants == s.participants && t.socketAuction == s.socketAuction
  {
  }

  /** Whoever joins an active auction, guests included, watches it from then on, and is gone from the one watched before. */
  lemma JoinedExactly(s: State, k: nat, a: int)
    requires k in s.clients
    ensures var t, previous := Next(s, Join(k, a)), s.clients[k].auctionId;
            && (a !in s.active ==> t == s)
            && (a in s.active ==> Watches(t, k, a, s.clients[k].user) && OthersAlone(s, t, k))
            && (a in s.active && previous.Some? && previous.value != a ==>
                  && previous.value !in t.clients[k].rooms
                  && (s.clients[k].user.Some? ==> Away(t, k, previous.value)))
  {
    if a in s.active {
      var left := LeftPrevious(s, k, a);
      AloneLeftPrevious(s, k, a);
      AloneEntered(left, k, a);
      AloneThrough(s, left, Entered(left, k, a), k);
    }
  }

  /** Rejoining an active auction, the socket watches it as the user its token identifies now. */
  lemma RejoinedExactly(s: State, k: nat, a: int, identity: Option<int>)
    requires k in s.clients
    ensures var t := Next(s, Rejoin(k, a, identity));
            && (a !in s.active ==> t == s)
            && (a in s.active ==> Watches(t, k, a, identity) && OthersAlone(s, t, k))
  {
    if a in s.active {
      var known := SetClient(s, k, s.clients[k].(user := identity));
      AloneSet(s, k, s.clients[k].(user := identity));
      AloneEntered(known, k, a);
      AloneThrough(s, known, Entered(known, k, a), k);
    }
  }

  /** Leaving, a socket watches nothing and a user is gone from the room named and from Redis. */
  lemma LeftExactly(s: State, k: nat, a: int)
    requires k in s.clients
    ensures var t := Next(s, Leave(k, a));
            && k in t.clients && t.clients[k].auctionId.None? && a !in t.clients[k].rooms
            && t.clients[k].user == s.clients[k].user && OthersAlone(s, t, k)
            && (s.clients[k].user.Some? ==> Away(t, k, a) && UserSocket(s.clients[k].user.value, k) !in t.socketAuction)
  {
    var client := OutOf(s.clients[k], a).(auctionId := None);
    AloneMovedOut(s, k, client, a);
    AloneAnnounced(s, MovedOut(s, k, client, a), k, a);
  }

  lemma AloneGone(s: State, k: nat)
    ensures OthersAlone(s, s.(clients := s.clients - {k}), k)
  {
    assert s.clients - {k} - {k} == s.clients - {k};
    assert forall a :: SeatsAlone(s, s.(clients := s.clients - {k}), k, a);
  }

  lemma AloneDisconnected(s: State, k: nat)
    requires k in s.clients
    ensures OthersAlone(s, Disconnected(s, k), k)
  {
    var client, gone := s.clients[k], s.(clients := s.clients - {k});
    AloneGone(s, k);
    if client.user.Some? && client.auctionId.Some? {
      var a := client.auctionId.value;
      var unseated := Unseat(gone, a, k, client.user.value);
      AloneUnseated(gone, k, a, client.user.value);
      AloneThrough(s, gone, unseated, k);
      AloneAnnounced(s, unseated, k, a);
    }
  }

  /** A socket that disconnects is gone, and so are its seat and its key in Redis if it has a user and an auction. */
  lemma DisconnectedExactly(s: State, k: nat)
    requires k in s.clients
    ensures var t, client := Next(s, Disconnect(k)), s.clients[k];
            && k !in t.clients && OthersAlone(s, t, k)
            && (client.user.Some? && client.auctionId.Some? ==>
                  !Seated(t, client.auctionId.value, k) && UserSocket(client.user.value, k) !in t.socketAuction)
            && (client.user.None? || client.auctionId.None? ==> t.participants == s.participants && t.socketAuction == s.socketAuction)
  {
    AloneDisconnected(s, k);
  }

  /** A bid is let through exactly to the auction the socket watches, when Redis says so too for the user its token identifies. */
  lemma LetThroughExactly(s: State, k: nat, identity: Option<int>, a: int)
    requires k in s.clients
    ensures Revalidated(s, k, identity).1 == Some(a) <==>
              && identity.Some? && s.clients[k].auctionId == Some(a)
              && UserSocket(identity.value, k) in s.socketAuction && s.socketAuction[UserSocket(identity.value, k)] == a
  {
  }

  /**
   Checking a token before a bid: a guest without one stays, whoever has one is from then on its user,
   and a user whose token no longer holds is disconnected with the seat left behind.
   */
  lemma RevalidatedExactly(s: State, k: nat, identity: Option<int>)
    requires k in s.clients
    ensures var t, client := Next(s, TryBid(k, identity)), s.clients[k];
            && t.participants == s.participants && t.socketAuction == s.socketAuction && t.sent == s.sent
            && (identity.None? && client.user.None? ==> t == s)
            && (identity.None? && client.user.Some? ==> t == s.(clients := s.clients - {k}))
            && (identity.Some? ==> t == s.(clients := s.clients[k := client.(user := identity)]))
  {
    if identity.None? && s.clients[k].user.Some? {
      assert s.clients[k := s.clients[k].(user := None)] - {k} == s.clients - {k};
    }
  }

  /** A cleanup empties the room of its auction, which is not active any more, and touches no other. */
  lemma CleanedUpExactly(s: State, a: int, b: int)
    ensures var t := Next(s, CleanUp(a));
            && t.clients == s.clients && t.socketAuction == s.socketAuction && t.sent == s.sent
            && Hash(t, b) == (if b == a then map[] else Hash(s, b))
            && (b in t.active <==> b in s.active && b != a)
  {
  }

  /** A key that expires is gone, and it alone. */
  lemma ExpiredExactly(s: State, key: UserSocket, other: UserSocket)
    ensures var t := Next(s, ExpireMapping(key));
            && t == s.(socketAuction := t.socketAuction)
            && (other in t.socketAuction <==> other in s.socketAuction && other != key)
            && (other in t.socketAuction ==> t.socketAuction[other] == s.socketAuction[other])
  {
  }

  /** What is announced to a room when a user leaves it, rejoins it or disconnects from it; guests do so unannounced. */
  lemma AnnouncesExactly(s: State, k: nat, a: int, identity: Option<int>)
    requires k in s.clients
    ensures var left := Next(s, Leave(k, a));
            left.sent == s.sent + if s.clients[k].user.Some? then [Update(a, Participants(left, a))] else []
    ensures a in s.active ==>
              var t := Next(s, Rejoin(k, a, identity));
              t.sent == s.sent + if identity.Some? then [Update(a, Participants(t, a))] else []
    ensures var gone, client := Next(s, Disconnect(k)), s.clients[k];
            gone.sent == s.sent
              + if client.user.Some? && client.auctionId.Some?
                then [Update(client.auctionId.value, Participants(gone, client.auctionId.value))] else []
  {
    if a in s.active { EnteredAnnounces(SetClient(s, k, s.clients[k].(user := identity)), k, a); }
  }

  lemma EnteredAnnounces(s: State, k: nat, a: int)
    requires k in s.clients
    ensures var t := Entered(s, k, a);
            t.sent == s.sent + if s.clients[k].user.Some? then [Update(a, Participants(t, a))] else []
  {
  }

  /** And when a socket joins: to the room it leaves for it, and, unless it is a guest, to the one it joins. */
  lemma JoinAnnounces(s: State, k: nat, a: int)
    requires k in s.clients && a in s.active
    ensures var client, joined := s.clients[k], Next(s, Join(k, a));
            var moves := client.auctionId.Some? && client.auctionId.value != a;
            joined.sent == s.sent
              + (if moves then [Update(client.auctionId.value, Participants(joined, client.auctionId.value))] else [])
              + (if client.user.Some? then [Update(a, Participants(joined, a))] else [])
  {
    var left := LeftPrevious(s, k, a);
    AloneLeftPrevious(s, k, a);
    AloneEntered(left, k, a);
    EnteredAnnounces(left, k, a);
  }

  /** Quiet as far as this socket is concerned: it is heard of only in bids as its user, and its key does not expire. */
  predicate LeavesAlone(event: Event, k: nat, user: int) {
    match event
    case Connect(l, _) => l != k
    case Disconnect(l) => l != k
    case Join(l, _) => l != k
    case Leave(l, _) => l != k
    case Rejoin(l, _, _) => l != k
    case TryBid(l, identity) => l == k ==> identity == Some(user)
    case ExpireMapping(key) => key != UserSocket(user, k)
    case _ => true
  }

  predicate Admitted(s: State, k: nat, a: int, user: int) {
    && k in s.clients && s.clients[k].auctionId == Some(a) && s.clients[k].user == Some(user)
    && UserSocket(user, k) in s.socketAuction && s.socketAuction[UserSocket(user, k)] == a
  }

  lemma AdmittedNext(s: State, event: Event, k: nat, a: int, user: int)
    requires Admitted(s, k, a, user) && LeavesAlone(event, k, user)
    ensures Admitted(Next(s, event), k, a, user)
  {
  }

  lemma {:induction false} AdmittedAlways(s: State, events: seq<Event>, k: nat, a: int, user: int)
    requires Admitted(s, k, a, user) && forall i :: 0 <= i < |events| ==> LeavesAlone(events[i], k, user)
    ensures Admitted(Run(s, events), k, a, user)
    decreases |events|
  {
    if events == [] {
    } else {
      assert LeavesAlone(events[0], k, user);
      AdmittedNext(s, events[0], k, a, user);
      AdmittedAlways(Next(s, events[0]), events[1..], k, a, user);
    }
  }

  /**
   From any state: a user's socket that joins or rejoins an active auction gets its bids through to that
   auction until it moves or its key expires, whatever all other sockets do meanwhile.
   */
  lemma JoinedUsersCanBid(s: State, k: nat, a: int, user: int, rejoin: bool, events: seq<Event>)
    requires k in s.clients && a in s.active && (rejoin || s.clients[k].user == Some(user))
    requires forall i :: 0 <= i < |events| ==> LeavesAlone(events[i], k, user)
    ensures var t := Run(Next(s, if rejoin then Rejoin(k, a, Some(user)) else Join(k, a)), events);
            k in t.clients && Revalidated(t, k, Some(user)).1 == Some(a)
  {
    if rejoin { RejoinedExactly(s, k, a, Some(user)); } else { JoinedExactly(s, k, a); }
    var t := Next(s, if rejoin then Rejoin(k, a, Some(user)) else Join(k, a));
    AdmittedAlways(t, events, k, a, user);
    LetThroughExactly(Run(t, events), k, Some(user), a);
  }
}
