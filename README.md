# Room registry and message router of the ticktack-nuke relay

This project models the WebSocket relay in `server.js`, and proves properties of that model. The relay keeps a table of rooms. Each room holds a set of client connections, two player slots (1 and 2) and an opaque game state supplied by a client. Each connection records the room it joined and its role: 1, 2, or 0 for a spectator. The relay reacts to three events:

- `connection`: a new connection with no room and no role.
- `message`: a parsed frame on a connection. A frame naming an unseen room creates that room. A connection's first frame joins that room and does nothing else. Later frames either write the state of the room they name, guarded by a turn check, or relay chat.
- `close`: the connection leaves its room and frees any slot it held. The room is deleted once its client set is empty.

The model's layout:

- `protocol.dfy` (module `Protocol`): inbound and outbound messages as datatypes. Connections are ids. A room id is a string. The game state is an opaque record; the relay reads only `currentPlayer` (is it a number?) and `lastMover`.
- `delivery.dfy` (module `Delivery`): the `forEach` fan-out. `Fanout` is the reference definition. `Broadcast` is the loop, proved equal to `Fanout`. Lemmas show that each open client is reached exactly once and nobody else is.
- `rooms.dfy` (module `Rooms`): the state as a value (`Registry`), the three handlers as functions of the previous state (`ConnectStep`, `MessageStep`, `CloseStep`), and the membership invariant `Valid`.
- `rooms_properties.dfy` (module `RoomsProperties`): the invariant is kept by every handler, plus the properties of each handler.
- `server.dfy` (module `Server`): class `Relay`, whose fields `rooms` and `conns` the handler methods update in place. Each method's `ensures` ties the new state and the sends to the step functions.

Outputs are a sequence of `Send(connection, payload)` values, in the order the source calls `send`. The `readyState === OPEN` test becomes a set `open` of open connections, passed to the message handler. A JavaScript `Set` iterates in insertion order, so a room's clients are a duplicate-free sequence. `add` appends only if the connection is absent; `delete` removes it.

The source's quirks are modelled as written:

- The first frame on a connection joins the room it names, whatever its `type`.
- Later frames act on the room named by the frame, not the room the sender joined. So a joined connection can create another room and write its state (`CrossRoomWrite`). Such a room has no clients, and it is never deleted while it has none (`UnseenRoomIsCreated`, `EmptyRoomIsNeverReaped`). A later connection whose first frame names it can still join it, and the room is deleted when that connection closes.
- A spectator passes the turn check when `lastMover` is 0 (`SpectatorMayWriteState`).

`server.js` holds no game rules: the relay passes the game state through untouched and sends only `role`, `state`, `error` and `chat` messages. The model follows the code.

## Model

| member | source | states |
|---|---|---|
| Delivery.Fanout | server.js:107-114 | the broadcast sends at most one message per client, and every message it sends is the payload |
| Delivery.FanoutDelivers | server.js:121-129 | a send is in the fan-out iff its target is a client of the room, its socket is open, and it carries the payload |
| Delivery.FanoutOnce | server.js:107-114 | when the clients are distinct, each open client receives the payload exactly once and every other connection receives nothing |
| Delivery.Broadcast | server.js:107-114 | the `forEach` loop produces exactly the reference fan-out, in client order |
| Rooms.AddClient | server.js:57 | `Set.add`: the members afterwards are the old members plus the new one, with no duplicates created; the old members keep their order and a new member goes at the end |
| Rooms.RemoveClient | server.js:138 | `Set.delete`: the members afterwards are the old members except the closed connection |
| Rooms.RemoveAbsentClient | server.js:138 | deleting a connection that is not a member leaves the client set as it was |
| Rooms.RemoveClientKeepsOrder | server.js:138 | deleting the member at position k leaves every other member in its insertion order |
| RoomsProperties.InitialValid | server.js:17 | the empty room table satisfies the membership invariant |
| RoomsProperties.ConnectPreservesValid | server.js:25-28 | a new connection with no room and no role keeps the membership invariant |
| RoomsProperties.CreatePreservesValid | server.js:44-50 | creating a room with no clients, both slots null and no state keeps the invariant |
| RoomsProperties.AdmitPreservesValid | server.js:55-68 | joining an unjoined connection to a room keeps the invariant: clients stay distinct and each slot has at most one holder |
| RoomsProperties.SetStatePreservesValid | server.js:104 | replacing a room's state keeps the invariant |
| RoomsProperties.MessagePreservesValid | server.js:32-131 | every outcome of the message handler keeps the membership invariant |
| RoomsProperties.RemoveClientNoDup | server.js:138 | deleting a client keeps the client set free of duplicates |
| RoomsProperties.ClosePreservesValid | server.js:133-147 | the close handler keeps the membership invariant, including when it deletes the room |
| RoomsProperties.SlotHolderUnique | server.js:60-68 | at most one live connection holds slot 1 (or slot 2) of a room |
| RoomsProperties.SlotFieldMeansTaken | server.js:60-68 | a room's slot field is set iff some live connection holds that role in the room |
| RoomsProperties.NoRoomIsNoop | server.js:33-41 | an unparsable frame, or one without a room id, changes nothing and sends nothing |
| RoomsProperties.JoinTakesLowestFreeSlot | server.js:55-85 | the first frame joins the named room. The role is 1 iff no one holds slot 1, 2 iff slot 1 is held and slot 2 free, 0 iff both are held. The connection is appended to the clients and the state is unchanged. The joiner is sent its role, then the room's state only if the room has one |
| RoomsProperties.JoinedConnectionKeepsRecord | server.js:55-57 | once a connection has joined, no later frame changes any connection's room or role |
| RoomsProperties.MessageKeepsOtherConnections | server.js:32-131 | a frame never changes the record of a connection other than its sender |
| RoomsProperties.MessageTouchesOneRoom | server.js:44-52 | a frame leaves every room other than the one it names as it was, present or absent |
| RoomsProperties.UnseenRoomIsCreated | server.js:44-52 | a frame naming an unseen room creates it with no clients, no slot holders and no state. The sender's first frame then adds the sender, as player 1; a joined sender's frame leaves the state unset unless it is an accepted state write |
| RoomsProperties.EmptyKeyRoomIsJoined | server.js:41-73 | a truthy room value whose key is the empty string passes the room check: a first frame naming it creates room "" and joins it as player 1 |
| RoomsProperties.RejectedStateChangesNothing | server.js:90-101 | a missing state or a non-numeric `currentPlayer` is dropped silently; a `lastMover` other than the sender's role earns the sender alone "Not your turn"; either way the only change is the room's creation |
| RoomsProperties.AcceptedStateIsBroadcast | server.js:103-116 | an accepted state replaces the room's state wholesale. Every open client of the room receives exactly that state exactly once, and no one else receives anything |
| RoomsProperties.SenderSeesOwnState | server.js:106-114 | the sender of an accepted state to its own room receives it too, when its socket is open |
| RoomsProperties.SpectatorMayWriteState | server.js:95 | a spectator's state is accepted when `lastMover` is 0 |
| RoomsProperties.CrossRoomWrite | server.js:52 | a joined connection can write the state of a room it is not a client of, without its own room or role changing |
| RoomsProperties.ChatIsRelayed | server.js:119-130 | chat sends `{msg, role}` with the sender's role exactly once to every open client of the named room, and changes no room state |
| RoomsProperties.OtherKindOnlyCreates | server.js:87-130 | a later frame of any other type only creates the room it names, and sends nothing |
| RoomsProperties.CloseUnjoinedIsNoop | server.js:134-135 | closing a connection that never joined leaves every room as it was |
| RoomsProperties.CloseReleasesOnlyOwnHoldings | server.js:133-147 | close removes the connection from its room's clients and frees exactly the slot it held. Other slot holders, other connections and other rooms are untouched. The room is deleted iff no other client remains |
| RoomsProperties.EmptyRoomIsNeverReaped | server.js:143-144 | a room with no clients is never deleted by any close |
| RoomsProperties.TwoJoinersGetSlotsInOrder | server.js:60-73 | two connections joining room "A" in turn are told roles 1 and 2 |
| Server.Relay.constructor | server.js:17 | the relay starts with an empty room table and no connections, satisfying the invariant |
| Server.Relay.OnConnection | server.js:25-28 | the new state is `ConnectStep` of the old one, and the invariant is kept |
| Server.Relay.OnMessage | server.js:32-131 | the new state and the sends are `MessageStep` of the old state, and the invariant is kept |
| Server.Relay.Dispatch | server.js:32-131 | the in-place updates of the room table and connection records produce exactly `MessageStep`'s state and sends |
| Server.Relay.OnClose | server.js:133-147 | the new state is `CloseStep` of the old one, and the invariant is kept |

## Left out

- WebSocket server setup, the port, logging and the transport behind `send` (server.js:1-6, 83, 145) are I/O. Sends are an output sequence, and the socket's ready state is a parameter.
- `JSON.parse` is not modelled: a frame arrives already parsed, or as `Unparsable`, which is a no-op. A frame that parses to `null` makes the destructuring at server.js:40 throw. That is not modelled either; the model treats such a frame like one without a room id.
- Heartbeat and liveness sweep (server.js:19-22, 30, 150-157): these are timer- and network-driven. A terminated connection emits `close`, which is `OnClose`.
- Room ids are strings. A falsy room value (including the empty string) is modelled as absent. Any truthy value is modelled by the property key JavaScript derives from it, which is `""` for `[]`, `[""]` or `[null]`. Keys inherited from `Object.prototype` (such as `"__proto__"`) would make `rooms[room]` truthy without a room; that is not modelled.
- Values other than the game state's `currentPlayer` type and `lastMover` are opaque. A `lastMover` that is not a number never equals a role.
- A room object and a `ws` object are records held in maps keyed by id. No aliasing is needed: the source reaches a room only through the table and a connection only through its id.
- A closed connection's record is removed from the connection map, because no event can arrive on it afterwards.
- Concurrency: Node runs each handler to completion, so handlers are modelled as atomic steps.
