/**
 The room table and the per-connection records, and what the
 `connection`, `message` and `close` handlers do to them, as functions of
 the state before the event.
 */
module Rooms {
  import opened Protocol
  import opened Delivery

  /**
   One entry of `rooms`: the client set (in insertion order), the two
   player slots and the last accepted state.
   */
  datatype Room = Room(clients: seq<ConnId>, player1: Option<ConnId>, player2: Option<ConnId>, gameState: Option<GameState>)

  /**
   `ws.room` and `ws.playerId` of one connection: both null until the
   first message, then the joined room and the role (1, 2 or 0 for a
   spectator).
   */
  datatype Conn = Unjoined | Joined(room: RoomId, playerId: nat)

  /** The table of rooms together with every live connection's record. */
  datatype Registry = Registry(rooms: map<RoomId, Room>, conns: map<ConnId, Conn>)

  /** What the handler's event produced: the new registry and the sends, in order. */
  datatype Outcome = Outcome(registry: Registry, sends: seq<Send>)

  /** A freshly created room: no clients, both slots null, no state. */
  const EMPTY_ROOM := Room([], None, None, None)

  /** The registry when the server starts. */
  const INITIAL := Registry(map[], map[])

  /** `Set.add`: appends `c` unless it is already a member. */
  function AddClient(clients: seq<ConnId>, c: ConnId): (r: seq<ConnId>)
    ensures forall x :: x in r <==> x in clients || x == c
    ensures NoDup(clients) ==> NoDup(r)
    ensures clients <= r && |r| == |clients| + (if c in clients then 0 else 1)
  {
    if c in clients then clients else clients + [c]
  }

  /** `Set.delete`: drops `c`, keeping the order of the others. */
  function RemoveClient(clients: seq<ConnId>, c: ConnId): (r: seq<ConnId>)
    ensures forall x :: x in r <==> x in clients && x != c
    ensures |r| <= |clients|
  {
    if clients == [] then []
    else if clients[0] == c then RemoveClient(clients[1..], c)
    else [clients[0]] + RemoveClient(clients[1..], c)
  }

  /** Deleting a connection that is not a member leaves the clients as they were. */
  lemma {:induction false} RemoveAbsentClient(clients: seq<ConnId>, c: ConnId)
    requires c !in clients
    ensures RemoveClient(clients, c) == clients
  {
    if clients != [] {
      assert clients[1..] + [] == clients[1..];
      RemoveAbsentClient(clients[1..], c);
      assert clients == [clients[0]] + clients[1..];
    }
  }

  /**
   Deleting the member at position `k` keeps every other member in its
   place: the insertion order later fan-outs follow is preserved.
   */
  lemma {:induction false} RemoveClientKeepsOrder(clients: seq<ConnId>, c: ConnId, k: nat)
    requires k < |clients| && clients[k] == c && c !in clients[..k] && c !in clients[k + 1..]
    ensures RemoveClient(clients, c) == clients[..k] + clients[k + 1..]
  {
    if k == 0 {
      RemoveAbsentClient(clients[1..], c);
    } else {
      var tail := clients[1..];
      assert tail[..k - 1] == clients[1..k];
      assert tail[k..] == clients[k + 1..];
      assert c !in tail[..k - 1];
      RemoveClientKeepsOrder(tail, c, k - 1);
      assert clients[..k] == [clients[0]] + clients[1..k];
    }
  }

  /** The room `r` as the message handler sees it after `if (!rooms[room])` has run. */
  function RoomOrEmpty(g: Registry, r: RoomId): (room: Room)
  {
    if r in g.rooms then g.rooms[r] else EMPTY_ROOM
  }

  /** The role the join block gives the next connection of `room`. */
  function NextRole(room: Room): (role: nat)
  {
    if room.player1.None? then 1 else if room.player2.None? then 2 else 0
  }

  /** `room` after connection `c` has joined it with role NextRole(room). */
  function Admit(room: Room, c: ConnId): (joined: Room)
  {
    var role := NextRole(room);
    Room(AddClient(room.clients, c),
         if role == 1 then Some(c) else room.player1,
         if role == 2 then Some(c) else room.player2,
         room.gameState)
  }

  /** The `role` message, then the room's state when it has one. */
  function Greeting(room: Room, c: ConnId): (sends: seq<Send>)
  {
    [Send(c, RoleMsg(NextRole(room)))]
      + (if room.gameState.Some? then [Send(c, StateMsg(room.gameState.value))] else [])
  }

  /** The `connection` handler: a new connection with no room and no role. */
  function ConnectStep(g: Registry, c: ConnId): (g': Registry)
  {
    Registry(g.rooms, g.conns[c := Unjoined])
  }

  /** The `message` handler for a message that arrives on connection `c`. */
  function MessageStep(g: Registry, c: ConnId, raw: Raw, open: set<ConnId>): (o: Outcome)
    requires c in g.conns
  {
    if raw.Unparsable? || !RoomGiven(raw.message.room) then Outcome(g, [])
    else
      var m := raw.message;
      var r := m.room.value;
      var room := RoomOrEmpty(g, r);
      var rooms := g.rooms[r := room];
      match g.conns[c]
      case Unjoined =>
        Outcome(Registry(rooms[r := Admit(room, c)], g.conns[c := Joined(r, NextRole(room))]),
                Greeting(room, c))
      case Joined(_, pid) =>
        if m.kind == StateKind then
          StateStep(Registry(rooms, g.conns), c, pid, r, m.state, open)
        else if m.kind == ChatKind then
          Outcome(Registry(rooms, g.conns), Fanout(room.clients, open, ChatMsg(m.msg, pid)))
        else
          Outcome(Registry(rooms, g.conns), [])
  }

  /** The `state` branch, for sender `c` of role `pid` writing to room `r`. */
  function StateStep(g: Registry, c: ConnId, pid: nat, r: RoomId, incoming: Option<GameState>, open: set<ConnId>): (o: Outcome)
    requires r in g.rooms
  {
    if incoming.None? || !incoming.value.currentPlayerIsNumber then Outcome(g, [])
    else if incoming.value.lastMover != Some(pid) then Outcome(g, [Send(c, ErrorMsg(NOT_YOUR_TURN))])
    else
      var room := g.rooms[r];
      Outcome(Registry(g.rooms[r := room.(gameState := incoming)], g.conns),
              Fanout(room.clients, open, StateMsg(incoming.value)))
  }

  /** The room `r` after connection `c` has left it. */
  function Release(room: Room, c: ConnId): (left: Room)
  {
    Room(RemoveClient(room.clients, c),
         if room.player1 == Some(c) then None else room.player1,
         if room.player2 == Some(c) then None else room.player2,
         room.gameState)
  }

  /**
   The `close` handler. The connection's record is dropped, since nothing
   can arrive on it any more.
   */
  function CloseStep(g: Registry, c: ConnId): (g': Registry)
    requires c in g.conns
  {
    var conns := g.conns - {c};
    match g.conns[c]
    case Unjoined => Registry(g.rooms, conns)
    case Joined(r, _) =>
      if r !in g.rooms then Registry(g.rooms, conns)
      else
        var room := Release(g.rooms[r], c);
        if |room.clients| == 0 then Registry(g.rooms - {r}, conns)
        else Registry(g.rooms[r := room], conns)
  }

  // ---------------- membership invariant ----------------

  /** Room `r`'s clients are distinct, joined to `r`, and its slot holders hold that role. */
  predicate RoomValid(g: Registry, r: RoomId)
    requires r in g.rooms
  {
    var room := g.rooms[r];
    && NoDup(room.clients)
    && (forall x :: x in room.clients ==> x in g.conns && g.conns[x].Joined? && g.conns[x].room == r)
    && (room.player1.Some? ==> room.player1.value in g.conns && g.conns[room.player1.value] == Joined(r, 1))
    && (room.player2.Some? ==> room.player2.value in g.conns && g.conns[room.player2.value] == Joined(r, 2))
  }

  /** A joined connection is a client of its room, and a player holds its slot. */
  predicate ConnValid(g: Registry, c: ConnId)
    requires c in g.conns
  {
    match g.conns[c]
    case Unjoined => true
    case Joined(r, p) =>
      && r in g.rooms
      && c in g.rooms[r].clients
      && p <= 2
      && (p == 1 ==> g.rooms[r].player1 == Some(c))
      && (p == 2 ==> g.rooms[r].player2 == Some(c))
  }

  /** The membership invariant every handler preserves. */
  predicate Valid(g: Registry)
  {
    && (forall r :: r in g.rooms ==> RoomValid(g, r))
    && (forall c :: c in g.conns ==> ConnValid(g, c))
  }
}
