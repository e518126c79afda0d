/**
 The relay process: the room table and the per-connection records as
 mutable fields, updated in place by the `connection`, `message` and
 `close` handlers.
 */
module Server {
  import opened Protocol
  import opened Delivery
  import opened Rooms
  import RoomsProperties

  class Relay {
    /** `rooms`: room id to room record. */
    var rooms: map<RoomId, Room>
    /** `ws.room` / `ws.playerId` of every live connection. */
    var conns: map<ConnId, Conn>

    /** The current state as a value. */
    function Snapshot(): Registry
      reads this
    {
      Registry(rooms, conns)
    }

    /** The membership invariant. */
    predicate Valid()
      reads this
    {
      Rooms.Valid(Snapshot())
    }

    constructor ()
      ensures Valid() && Snapshot() == INITIAL
    {
      rooms := map[];
      conns := map[];
    }

    /** A new connection: no room, no role yet. */
    method OnConnection(c: ConnId)
      requires Valid() && c !in conns
      modifies this
      ensures Valid()
      ensures Snapshot() == ConnectStep(old(Snapshot()), c)
    {
      RoomsProperties.ConnectPreservesValid(Snapshot(), c);
      conns := conns[c := Unjoined];
    }

    /**
     A frame arrives on connection `c`; `open` is the set of connections
     whose socket is open at that moment. Returns the sends, in order.
     */
    method OnMessage(c: ConnId, raw: Raw, open: set<ConnId>) returns (sends: seq<Send>)
      requires Valid() && c in conns
      modifies this
      ensures Valid()
      ensures Outcome(Snapshot(), sends) == MessageStep(old(Snapshot()), c, raw, open)
    {
      RoomsProperties.MessagePreservesValid(Snapshot(), c, raw, open);
      sends := Dispatch(c, raw, open);
    }

    /** The body of the `message` handler, which needs no invariant. */
    method Dispatch(c: ConnId, raw: Raw, open: set<ConnId>) returns (sends: seq<Send>)
      requires c in conns
      modifies this
      ensures Outcome(Snapshot(), sends) == MessageStep(old(Snapshot()), c, raw, open)
    {
      sends := [];
      if raw.Unparsable? {
        return;
      }
      var m := raw.message;
      if !RoomGiven(m.room) {
        return;
      }
      var r := m.room.value;
      if r !in rooms {
        rooms := rooms[r := EMPTY_ROOM];
      }
      var roomObj := rooms[r];
      match conns[c]
      case Unjoined =>
        var p1, p2 := roomObj.player1, roomObj.player2;
        var role := 0;
        if p1.None? {
          p1, role := Some(c), 1;
        } else if p2.None? {
          p2, role := Some(c), 2;
        }
        rooms := rooms[r := Room(AddClient(roomObj.clients, c), p1, p2, roomObj.gameState)];
        conns := conns[c := Joined(r, role)];
        sends := [Send(c, RoleMsg(role))];
        if roomObj.gameState.Some? {
          sends := sends + [Send(c, StateMsg(roomObj.gameState.value))];
        }
      case Joined(_, pid) =>
        if m.kind == StateKind {
          var incoming := m.state;
          if incoming.None? || !incoming.value.currentPlayerIsNumber {
            return;
          }
          if incoming.value.lastMover != Some(pid) {
            sends := [Send(c, ErrorMsg(NOT_YOUR_TURN))];
            return;
          }
          rooms := rooms[r := roomObj.(gameState := incoming)];
          sends := Broadcast(roomObj.clients, open, StateMsg(incoming.value));
        } else if m.kind == ChatKind {
          sends := Broadcast(roomObj.clients, open, ChatMsg(m.msg, pid));
        }
    }

    /** Connection `c` closed: leave its room, free its slot, reap an empty room. */
    method OnClose(c: ConnId)
      requires Valid() && c in conns
      modifies this
      ensures Valid()
      ensures Snapshot() == CloseStep(old(Snapshot()), c)
    {
      RoomsProperties.ClosePreservesValid(Snapshot(), c);
      var ws := conns[c];
      conns := conns - {c};
      if ws.Unjoined? || ws.room !in rooms {
        return;
      }
      var r := ws.room;
      var roomObj := rooms[r];
      var clients := RemoveClient(roomObj.clients, c);
      var p1, p2 := roomObj.player1, roomObj.player2;
      if p1 == Some(c) {
        p1 := None;
      }
      if p2 == Some(c) {
        p2 := None;
      }
      if |clients| == 0 {
        rooms := rooms - {r};
      } else {
        rooms := rooms[r := Room(clients, p1, p2, roomObj.gameState)];
      }
    }
  }
}
