/**
 The messages a client and the relay exchange, after JSON parsing.

 Connections are abstracted as ids, room ids as strings, and the
 client-supplied game state as an opaque record of which the relay only
 looks at two fields (`currentPlayer` and `lastMover`).
 */
module Protocol {

  datatype Option<+T> = None | Some(value: T)

  /** Identifies one WebSocket connection. */
  type ConnId = nat

  /** The key of a room in the room table. */
  type RoomId = string

  /**
   A truthy `state` object sent by a client.
   `currentPlayerIsNumber` records whether `typeof currentPlayer` is
   "number"; `lastMover` is `Some(n)` when the field is a number equal to
   the integer n, and `None` for anything else (absent, a string, ...);
   `body` stands for all the other fields, which the relay never reads.
   */
  datatype GameState = GameState(currentPlayerIsNumber: bool, lastMover: Option<int>, body: string)

  /** The `type` field of an inbound message, as far as the relay cares. */
  datatype Kind = StateKind | ChatKind | OtherKind

  /**
   A parsed inbound message. `room` is `None` when the field's value is
   falsy (absent, null, false, 0, NaN or the empty string), and otherwise
   `Some` of the property key JavaScript derives from the value: the string
   itself, "5" for the number 5, and "" for `[]`, `[""]` or `[null]`.
   `state` is `None` when the `state` field is falsy.
   `msg` is the chat text, `None` when absent; it is relayed untouched.
   */
  datatype Message = Message(kind: Kind, room: Option<RoomId>, state: Option<GameState>, msg: Option<string>)

  /** What the `message` event delivers: a frame that did or did not parse. */
  datatype Raw = Unparsable | Parsed(message: Message)

  /** The messages the relay sends. */
  datatype Outbound =
    | RoleMsg(playerId: nat)
    | StateMsg(state: GameState)
    | ErrorMsg(text: string)
    | ChatMsg(msg: Option<string>, role: nat)

  /** One send: the payload `out` written to connection `to`. */
  datatype Send = Send(to: ConnId, out: Outbound)

  /** The error text sent to a client that writes state out of turn. */
  const NOT_YOUR_TURN := "Not your turn"

  /** `if (!room) return;` lets every truthy room value through. */
  predicate RoomGiven(room: Option<RoomId>)
  {
    room.Some?
  }
}
