/**
 What the router promises: the membership invariant is kept by every
 handler, joins take the lowest free slot exactly once, state writes obey
 the turn check, fan-out reaches every open client exactly once, and
 close releases only what the closing connection held.
 */
module RoomsProperties {
  import opened Protocol
  import opened Delivery
  import opened Rooms

  /** Some live connection holds role `k` in room `r`. */
  predicate SlotTaken(g: Registry, r: RoomId, k: nat)
  {
    exists x :: x in g.conns && g.conns[x] == Joined(r, k)
  }

  // ---------------- the invariant ----------------

  lemma InitialValid()
    ensures Valid(INITIAL)
  {
  }

  /** A new connection, with an id no live connection has, keeps the invariant. */
  lemma ConnectPreservesValid(g: Registry, c: ConnId)
    requires Valid(g) && c !in g.conns
    ensures Valid(ConnectStep(g, c))
  {
    var g' := ConnectStep(g, c);
    forall r | r in g'.rooms ensures RoomValid(g', r) {
      assert RoomValid(g, r);
    }
    forall x | x in g'.conns ensures ConnValid(g', x) {
      if x != c { assert ConnValid(g, x); }
    }
  }

  /** Creating a missing room (with no clients) keeps the invariant. */
  lemma CreatePreservesValid(g: Registry, r: RoomId)
    requires Valid(g)
    ensures Valid(Registry(g.rooms[r := RoomOrEmpty(g, r)], g.conns))
  {
    var g' := Registry(g.rooms[r := RoomOrEmpty(g, r)], g.conns);
    forall r' | r' in g'.rooms ensures RoomValid(g', r') {
      if r' in g.rooms { assert RoomValid(g, r'); }
    }
    forall x | x in g'.conns ensures ConnValid(g', x) {
      assert ConnValid(g, x);
    }
  }

  /** Admitting an unjoined connection to an existing room keeps the invariant. */
  lemma AdmitPreservesValid(g: Registry, c: ConnId, r: RoomId)
    requires Valid(g) && c in g.conns && g.conns[c] == Unjoined && r in g.rooms
    ensures Valid(Registry(g.rooms[r := Admit(g.rooms[r], c)], g.conns[c := Joined(r, NextRole(g.rooms[r]))]))
  {
    var room := g.rooms[r];
    var p := NextRole(room);
    var g' := Registry(g.rooms[r := Admit(room, c)], g.conns[c := Joined(r, p)]);
    assert RoomValid(g, r);
    assert c !in room.clients;
    forall r' | r' in g'.rooms ensures RoomValid(g', r') {
      assert RoomValid(g, r');
      var old' := g.rooms[r'];
      forall x | x in old'.clients ensures x != c {
      }
      if r' == r {
        assert g'.rooms[r'].clients == room.clients + [c];
      }
    }
    forall x | x in g'.conns ensures ConnValid(g', x) {
      if x != c {
        assert ConnValid(g, x);
        match g.conns[x]
        case Unjoined =>
        case Joined(rx, px) =>
          if rx == r {
            assert px == 1 ==> room.player1 == Some(x);
            assert px == 2 ==> room.player2 == Some(x);
          }
      }
    }
  }

  /** Replacing a room's game state keeps the invariant. */
  lemma SetStatePreservesValid(g: Registry, r: RoomId, st: Option<GameState>)
    requires Valid(g) && r in g.rooms
    ensures Valid(Registry(g.rooms[r := g.rooms[r].(gameState := st)], g.conns))
  {
    var g' := Registry(g.rooms[r := g.rooms[r].(gameState := st)], g.conns);
    forall r' | r' in g'.rooms ensures RoomValid(g', r') {
      assert RoomValid(g, r');
    }
    forall x | x in g'.conns ensures ConnValid(g', x) {
      assert ConnValid(g, x);
    }
  }

  /** The message handler keeps the invariant. */
  lemma MessagePreservesValid(g: Registry, c: ConnId, raw: Raw, open: set<ConnId>)
    requires Valid(g) && c in g.conns
    ensures Valid(MessageStep(g, c, raw, open).registry)
  {
    if !(raw.Unparsable? || !RoomGiven(raw.message.room)) {
      var m := raw.message;
      var r := m.room.value;
      var g1 := Registry(g.rooms[r := RoomOrEmpty(g, r)], g.conns);
      CreatePreservesValid(g, r);
      match g.conns[c]
      case Unjoined =>
        AdmitPreservesValid(g1, c, r);
      case Joined(_, pid) =>
        if m.kind == StateKind && m.state.Some? {
          SetStatePreservesValid(g1, r, m.state);
        }
    }
  }

  lemma RemoveClientNoDup(clients: seq<ConnId>, c: ConnId)
    requires NoDup(clients)
    ensures NoDup(RemoveClient(clients, c))
  {
    if clients != [] {
      assert NoDup(clients[1..]) by {
        forall i, j | 0 <= i < j < |clients[1..]| ensures clients[1..][i] != clients[1..][j] {
          assert clients[1..][i] == clients[i + 1] && clients[1..][j] == clients[j + 1];
        }
      }
      RemoveClientNoDup(clients[1..], c);
      if clients[0] != c {
        var rest := RemoveClient(clients[1..], c);
        assert clients[0] !in clients[1..] by {
          forall k | 0 <= k < |clients[1..]| ensures clients[1..][k] != clients[0] {
            assert clients[1..][k] == clients[k + 1];
          }
        }
        assert clients[0] !in rest;
        var s := [clients[0]] + rest;
        forall i, j | 0 <= i < j < |s| ensures s[i] != s[j] {
          if i == 0 { assert s[j] == rest[j - 1]; assert s[j] in rest; }
          else { assert s[i] == rest[i - 1] && s[j] == rest[j - 1]; }
        }
      }
    }
  }

  /** The close handler keeps the invariant. */
  lemma ClosePreservesValid(g: Registry, c: ConnId)
    requires Valid(g) && c in g.conns
    ensures Valid(CloseStep(g, c))
  {
    var g' := CloseStep(g, c);
    assert ConnValid(g, c);
    match g.conns[c]
    case Unjoined =>
      forall r | r in g'.rooms ensures RoomValid(g', r) {
        assert RoomValid(g, r);
        forall x | x in g.rooms[r].clients ensures x != c { }
      }
      forall x | x in g'.conns ensures ConnValid(g', x) {
        assert ConnValid(g, x);
      }
    case Joined(r, _) =>
      var room := Release(g.rooms[r], c);
      assert RoomValid(g, r);
      RemoveClientNoDup(g.rooms[r].clients, c);
      forall r' | r' in g'.rooms ensures RoomValid(g', r') {
        assert RoomValid(g, r');
        forall x | x in g.rooms[r'].clients && r' != r ensures x != c { }
      }
      forall x | x in g'.conns ensures ConnValid(g', x) {
        assert ConnValid(g, x);
        match g.conns[x]
        case Unjoined =>
        case Joined(rx, px) =>
          if rx == r {
            assert x in room.clients;
          }
      }
  }

  /** At most one live connection holds a given slot of a given room. */
  lemma SlotHolderUnique(g: Registry, r: RoomId, k: nat, c1: ConnId, c2: ConnId)
    requires Valid(g) && (k == 1 || k == 2)
    requires c1 in g.conns && g.conns[c1] == Joined(r, k)
    requires c2 in g.conns && g.conns[c2] == Joined(r, k)
    ensures c1 == c2
  {
    assert ConnValid(g, c1) && ConnValid(g, c2);
  }

  /** Under the invariant, a slot field is set exactly when a live connection holds that role. */
  lemma SlotFieldMeansTaken(g: Registry, r: RoomId)
    requires Valid(g)
    ensures RoomOrEmpty(g, r).player1.Some? <==> SlotTaken(g, r, 1)
    ensures RoomOrEmpty(g, r).player2.Some? <==> SlotTaken(g, r, 2)
  {
    if r in g.rooms {
      assert RoomValid(g, r);
      var room := g.rooms[r];
      if room.player1.Some? { assert g.conns[room.player1.value] == Joined(r, 1); }
      if room.player2.Some? { assert g.conns[room.player2.value] == Joined(r, 2); }
    }
    forall x | x in g.conns && g.conns[x].Joined? && g.conns[x].room == r
      ensures g.conns[x].playerId == 1 ==> RoomOrEmpty(g, r).player1 == Some(x)
      ensures g.conns[x].playerId == 2 ==> RoomOrEmpty(g, r).player2 == Some(x)
    {
      assert ConnValid(g, x);
    }
  }

  // ---------------- the message handler ----------------

  /** A frame that did not parse, or has no room id, changes nothing and sends nothing. */
  lemma NoRoomIsNoop(g: Registry, c: ConnId, raw: Raw, open: set<ConnId>)
    requires c in g.conns
    requires raw.Unparsable? || !RoomGiven(raw.message.room)
    ensures MessageStep(g, c, raw, open) == Outcome(g, [])
  {
  }

  /**
   The first message on a connection joins the room it names, whatever its
   type, and does nothing else: the connection takes slot 1 if no
   connection holds it, else slot 2 if free, else becomes a spectator; it
   is added to the room's clients; it is told its role, then the room's
   state if the room has one.
   */
  lemma JoinTakesLowestFreeSlot(g: Registry, c: ConnId, m: Message, open: set<ConnId>)
    requires Valid(g) && c in g.conns && g.conns[c] == Unjoined && RoomGiven(m.room)
    ensures var o := MessageStep(g, c, Parsed(m), open);
      var r := m.room.value;
      && r in o.registry.rooms
      && c in o.registry.conns && o.registry.conns[c].Joined?
      && var p := o.registry.conns[c].playerId;
      && o.registry.conns[c].room == r
      && (p == 1 <==> !SlotTaken(g, r, 1))
      && (p == 2 <==> SlotTaken(g, r, 1) && !SlotTaken(g, r, 2))
      && (p == 0 <==> SlotTaken(g, r, 1) && SlotTaken(g, r, 2))
      && o.registry.rooms[r].clients == RoomOrEmpty(g, r).clients + [c]
      && o.registry.rooms[r].gameState == RoomOrEmpty(g, r).gameState
      && |o.sends| == (if RoomOrEmpty(g, r).gameState.Some? then 2 else 1)
      && o.sends[0] == Send(c, RoleMsg(p))
      && (|o.sends| == 2 ==> o.sends[1] == Send(c, StateMsg(RoomOrEmpty(g, r).gameState.value)))
  {
    var r := m.room.value;
    SlotFieldMeansTaken(g, r);
    if r in g.rooms {
      assert RoomValid(g, r);
      assert c !in g.rooms[r].clients;
    }
  }

  /**
   A truthy room value whose property key is the empty string (such as
   `[]`) is a room id like any other: a first frame naming it joins room "".
   */
  lemma EmptyKeyRoomIsJoined(g: Registry, c: ConnId, m: Message, open: set<ConnId>)
    requires c in g.conns && g.conns[c] == Unjoined && m.room == Some("") && "" !in g.rooms
    ensures var o := MessageStep(g, c, Parsed(m), open);
      && o.registry.conns[c] == Joined("", 1)
      && o.registry.rooms[""] == Room([c], Some(c), None, None)
      && o.sends == [Send(c, RoleMsg(1))]
  {
  }

  /** Once joined, a connection's room and role never change, nor do any other connection's. */
  lemma JoinedConnectionKeepsRecord(g: Registry, c: ConnId, raw: Raw, open: set<ConnId>)
    requires c in g.conns && g.conns[c].Joined?
    ensures MessageStep(g, c, raw, open).registry.conns == g.conns
  {
  }

  /** A message never changes the record of a connection other than its sender. */
  lemma MessageKeepsOtherConnections(g: Registry, c: ConnId, raw: Raw, open: set<ConnId>)
    requires c in g.conns
    ensures var conns' := MessageStep(g, c, raw, open).registry.conns;
      && conns'.Keys == g.conns.Keys
      && forall x :: x in g.conns && x != c ==> conns'[x] == g.conns[x]
  {
  }

  /** A message touches only the room it names: every other room is as it was. */
  lemma MessageTouchesOneRoom(g: Registry, c: ConnId, raw: Raw, open: set<ConnId>, r': RoomId)
    requires c in g.conns
    requires raw.Unparsable? || !RoomGiven(raw.message.room) || raw.message.room.value != r'
    ensures var rooms' := MessageStep(g, c, raw, open).registry.rooms;
      && (r' in rooms' <==> r' in g.rooms)
      && (r' in g.rooms ==> rooms'[r'] == g.rooms[r'])
  {
  }

  /**
   A message naming an unseen room creates it with no clients, no slot
   holders and no state; if the message is the sender's first, the sender
   is then joined to it as player 1; otherwise the room's state is set only
   by an accepted state write.
   */
  lemma UnseenRoomIsCreated(g: Registry, c: ConnId, m: Message, open: set<ConnId>)
    requires c in g.conns && RoomGiven(m.room) && m.room.value !in g.rooms
    ensures var o := MessageStep(g, c, Parsed(m), open);
      var r := m.room.value;
      && r in o.registry.rooms
      && (g.conns[c] == Unjoined ==> o.registry.rooms[r] == Room([c], Some(c), None, None))
      && (g.conns[c].Joined? ==>
            && o.registry.rooms[r].clients == []
            && o.registry.rooms[r].player1 == None
            && o.registry.rooms[r].player2 == None
            && o.registry.rooms[r].gameState
               == if m.kind == StateKind && m.state.Some? && m.state.value.currentPlayerIsNumber
                     && m.state.value.lastMover == Some(g.conns[c].playerId)
                  then m.state else None)
  {
  }

  /**
   A state message with no state or a non-numeric `currentPlayer` is
   dropped; one whose `lastMover` is not the sender's role earns the sender
   alone an error. Either way the room's state is unchanged.
   */
  lemma RejectedStateChangesNothing(g: Registry, c: ConnId, m: Message, open: set<ConnId>)
    requires c in g.conns && g.conns[c].Joined? && RoomGiven(m.room) && m.kind == StateKind
    requires m.state.None? || !m.state.value.currentPlayerIsNumber || m.state.value.lastMover != Some(g.conns[c].playerId)
    ensures var o := MessageStep(g, c, Parsed(m), open);
      var r := m.room.value;
      && o.registry == Registry(g.rooms[r := RoomOrEmpty(g, r)], g.conns)
      && o.sends == if m.state.None? || !m.state.value.currentPlayerIsNumber then []
                    else [Send(c, ErrorMsg(NOT_YOUR_TURN))]
  {
  }

  /**
   An accepted state replaces the room's state wholesale, and exactly that
   state is sent once to every open client of the room and to nobody else.
   */
  lemma AcceptedStateIsBroadcast(g: Registry, c: ConnId, m: Message, open: set<ConnId>)
    requires Valid(g) && c in g.conns && g.conns[c].Joined? && RoomGiven(m.room) && m.kind == StateKind
    requires m.state.Some? && m.state.value.currentPlayerIsNumber && m.state.value.lastMover == Some(g.conns[c].playerId)
    ensures var o := MessageStep(g, c, Parsed(m), open);
      var r := m.room.value;
      var clients := RoomOrEmpty(g, r).clients;
      && o.registry.conns == g.conns
      && o.registry.rooms == g.rooms[r := RoomOrEmpty(g, r).(gameState := m.state)]
      && (forall s :: s in o.sends <==> s.to in clients && s.to in open && s.out == StateMsg(m.state.value))
      && (forall x :: SendsTo(o.sends, x) == if x in clients && x in open then 1 else 0)
  {
    var r := m.room.value;
    var clients := RoomOrEmpty(g, r).clients;
    if r in g.rooms { assert RoomValid(g, r); }
    FanoutDelivers(clients, open, StateMsg(m.state.value));
    forall x ensures SendsTo(MessageStep(g, c, Parsed(m), open).sends, x) == if x in clients && x in open then 1 else 0 {
      FanoutOnce(clients, open, StateMsg(m.state.value), x);
    }
  }

  /** The sender of an accepted state to its own room receives it too, when its socket is open. */
  lemma SenderSeesOwnState(g: Registry, c: ConnId, m: Message, open: set<ConnId>)
    requires Valid(g) && c in g.conns && g.conns[c].Joined? && c in open
    requires m.room == Some(g.conns[c].room) && RoomGiven(m.room) && m.kind == StateKind
    requires m.state.Some? && m.state.value.currentPlayerIsNumber && m.state.value.lastMover == Some(g.conns[c].playerId)
    ensures Send(c, StateMsg(m.state.value)) in MessageStep(g, c, Parsed(m), open).sends
  {
    assert ConnValid(g, c);
    AcceptedStateIsBroadcast(g, c, m, open);
  }

  /** A spectator (role 0) passes the turn check when `lastMover` is 0. */
  lemma SpectatorMayWriteState(g: Registry, c: ConnId, m: Message, open: set<ConnId>)
    requires c in g.conns && g.conns[c].Joined? && g.conns[c].playerId == 0
    requires RoomGiven(m.room) && m.kind == StateKind
    requires m.state.Some? && m.state.value.currentPlayerIsNumber && m.state.value.lastMover == Some(0)
    ensures MessageStep(g, c, Parsed(m), open).registry.rooms[m.room.value].gameState == m.state
  {
  }

  /**
   A joined connection may write the state of a room it never joined: the
   handler looks the room up by the message's room id, not the sender's.
   */
  lemma CrossRoomWrite(g: Registry, c: ConnId, m: Message, open: set<ConnId>)
    requires Valid(g) && c in g.conns && g.conns[c].Joined?
    requires RoomGiven(m.room) && m.room.value != g.conns[c].room && m.kind == StateKind
    requires m.state.Some? && m.state.value.currentPlayerIsNumber && m.state.value.lastMover == Some(g.conns[c].playerId)
    ensures var g' := MessageStep(g, c, Parsed(m), open).registry;
      && g'.rooms[m.room.value].gameState == m.state
      && c !in g'.rooms[m.room.value].clients
      && g'.conns[c] == g.conns[c]
  {
    var r := m.room.value;
    if r in g.rooms {
      assert RoomValid(g, r);
    }
  }

  /**
   Chat sends `{msg, role}` with the sender's role once to every open client
   of the room, to nobody else, and changes no room state.
   */
  lemma ChatIsRelayed(g: Registry, c: ConnId, m: Message, open: set<ConnId>)
    requires Valid(g) && c in g.conns && g.conns[c].Joined? && RoomGiven(m.room) && m.kind == ChatKind
    ensures var o := MessageStep(g, c, Parsed(m), open);
      var r := m.room.value;
      var clients := RoomOrEmpty(g, r).clients;
      var out := ChatMsg(m.msg, g.conns[c].playerId);
      && o.registry == Registry(g.rooms[r := RoomOrEmpty(g, r)], g.conns)
      && (forall s :: s in o.sends <==> s.to in clients && s.to in open && s.out == out)
      && (forall x :: SendsTo(o.sends, x) == if x in clients && x in open then 1 else 0)
  {
    var r := m.room.value;
    var clients := RoomOrEmpty(g, r).clients;
    var out := ChatMsg(m.msg, g.conns[c].playerId);
    if r in g.rooms { assert RoomValid(g, r); }
    FanoutDelivers(clients, open, out);
    forall x ensures SendsTo(MessageStep(g, c, Parsed(m), open).sends, x) == if x in clients && x in open then 1 else 0 {
      FanoutOnce(clients, open, out, x);
    }
  }

  /** A later message of any other type only creates the room it names. */
  lemma OtherKindOnlyCreates(g: Registry, c: ConnId, m: Message, open: set<ConnId>)
    requires c in g.conns && g.conns[c].Joined? && RoomGiven(m.room) && m.kind == OtherKind
    ensures MessageStep(g, c, Parsed(m), open)
            == Outcome(Registry(g.rooms[m.room.value := RoomOrEmpty(g, m.room.value)], g.conns), [])
  {
  }

  // ---------------- the close handler ----------------

  /** Closing a connection that never joined leaves every room as it was. */
  lemma CloseUnjoinedIsNoop(g: Registry, c: ConnId)
    requires c in g.conns && g.conns[c] == Unjoined
    ensures CloseStep(g, c) == Registry(g.rooms, g.conns - {c})
  {
  }

  /**
   Closing a joined connection removes it from its room's clients, frees
   exactly the slot it held, leaves every other connection's record and
   every other room alone, and deletes its room exactly when no other
   client remains.
   */
  lemma CloseReleasesOnlyOwnHoldings(g: Registry, c: ConnId)
    requires Valid(g) && c in g.conns && g.conns[c].Joined?
    ensures var g' := CloseStep(g, c);
      var r := g.conns[c].room;
      var p := g.conns[c].playerId;
      && g'.conns == g.conns - {c}
      && (r in g'.rooms <==> exists x :: x in g.rooms[r].clients && x != c)
      && (r in g'.rooms ==>
            && (forall x :: x in g'.rooms[r].clients <==> x in g.rooms[r].clients && x != c)
            && (g'.rooms[r].player1 == if p == 1 then None else g.rooms[r].player1)
            && (g'.rooms[r].player2 == if p == 2 then None else g.rooms[r].player2)
            && g'.rooms[r].gameState == g.rooms[r].gameState)
      && (forall r' :: r' != r ==> (r' in g'.rooms <==> r' in g.rooms))
      && (forall r' :: r' != r && r' in g.rooms ==> g'.rooms[r'] == g.rooms[r'])
  {
    var r := g.conns[c].room;
    assert ConnValid(g, c) && RoomValid(g, r);
    var room := g.rooms[r];
    var left := RemoveClient(room.clients, c);
    if |left| != 0 {
      assert left[0] in room.clients && left[0] != c;
    }
    if room.player1 == Some(c) {
      assert g.conns[c] == Joined(r, 1);
    }
    if room.player2 == Some(c) {
      assert g.conns[c] == Joined(r, 2);
    }
  }

  /**
   A room with no clients (one created by a joined connection's message
   naming another room) is never deleted: close only reaps the closing
   connection's own room, and that room holds the closing connection.
   */
  lemma EmptyRoomIsNeverReaped(g: Registry, c: ConnId, r: RoomId)
    requires Valid(g) && c in g.conns && r in g.rooms && g.rooms[r].clients == []
    ensures r in CloseStep(g, c).rooms && CloseStep(g, c).rooms[r] == g.rooms[r]
  {
    assert ConnValid(g, c);
  }

  // ---------------- a scenario ----------------

  /** Two connections joining room "A" one after the other are told roles 1 and 2. */
  lemma TwoJoinersGetSlotsInOrder(open: set<ConnId>)
    ensures var hello := Parsed(Message(OtherKind, Some("A"), None, None));
      var g1 := ConnectStep(ConnectStep(INITIAL, 1), 2);
      var o1 := MessageStep(g1, 1, hello, open);
      var o2 := MessageStep(o1.registry, 2, hello, open);
      && o1.sends == [Send(1, RoleMsg(1))]
      && o2.sends == [Send(2, RoleMsg(2))]
  {
  }
}
