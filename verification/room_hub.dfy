/**
 * The room hub: two process-wide tables (the set of room codes and the
 * session of every connection) plus the broadcast groups the transport keeps
 * per room code. Each hub operation is a pure transition from one `Hub` to the
 * next that also returns the operation's reply and the transport calls it
 * makes, in order.
 */
module RoomHub {
  import opened Options
  import opened RoomCode

  /** The transport's identifier of one live connection. */
  type ConnectionId = string

  /** What the hub remembers about a connection: its room and, once chosen, its name. */
  datatype Session = Session(roomCode: string, name: Option<string>)

  /** One connection's membership of the broadcast group named after a room code. */
  datatype Membership = Membership(conn: ConnectionId, group: string)

  /** A call the hub makes on the transport. */
  datatype Effect =
    | AddToGroup(conn: ConnectionId, group: string)
    | SendToGroup(group: string, target: string, text: string)

  /**
   * The hub's state: the codes of the rooms created so far, the session of
   * every connection that created or joined a room, and the group memberships
   * the hub has asked the transport for.
   */
  datatype Hub = Hub(rooms: set<string>, users: map<ConnectionId, Session>, groups: set<Membership>)

  /** The outcome of one operation: the next state, the reply to the caller, the transport calls. */
  datatype Step<T> = Step(hub: Hub, result: T, effects: seq<Effect>)

  /** The client method every announcement is sent to (its spelling is part of the wire contract). */
  const ReceiveMessage: string := "RecieveMessage"

  /** The announcement that `name` has joined: it starts with the name itself. */
  function JoinedText(name: string): (text: string)
    ensures |text| > |name| && text[..|name|] == name
  {
    name + " has joined the room."
  }

  /** The announcement that `name` has left: it starts with the name itself. */
  function LeftText(name: string): (text: string)
    ensures |text| > |name| && text[..|name|] == name
  {
    name + " has left the room."
  }

  /** The state of a freshly started process. */
  const Empty: Hub := Hub({}, map[], {})

  /**
   * The hub's invariant: every session names a room that exists, and its
   * connection has been added to that room's group.
   */
  predicate Valid(h: Hub)
  {
    forall c | c in h.users ::
      && h.users[c].roomCode in h.rooms
      && Membership(c, h.users[c].roomCode) in h.groups
  }

  /** The two session tables agree on every connection other than `conn`. */
  predicate SameExcept(m: map<ConnectionId, Session>, m': map<ConnectionId, Session>, conn: ConnectionId)
  {
    m - {conn} == m' - {conn}
  }

  /**
   * CreateRoom: derives the code from the generated text. A new code is
   * registered, the caller gets a nameless session in it and joins its group.
   * A code that is already taken changes nothing, yet is still returned.
   */
  function CreateRoom(h: Hub, conn: ConnectionId, candidate: string): (r: Step<string>)
    requires |candidate| >= CodeLength
    ensures r.result == RoomCodeOf(candidate)
    ensures r.result !in h.rooms ==>
              && r.hub.rooms == h.rooms + {r.result}
              && conn in r.hub.users && r.hub.users[conn] == Session(r.result, None)
              && SameExcept(h.users, r.hub.users, conn)
              && r.hub.groups == h.groups + {Membership(conn, r.result)}
              && r.effects == [AddToGroup(conn, r.result)]
    ensures r.result in h.rooms ==> r.hub == h && r.effects == []
  {
    var code := RoomCodeOf(candidate);
    if code !in h.rooms then
      Step(Hub(h.rooms + {code}, h.users[conn := Session(code, None)], h.groups + {Membership(conn, code)}),
           code, [AddToGroup(conn, code)])
    else
      Step(h, code, [])
  }

  /**
   * JoinRoom: fails with `false` for an unknown code and changes nothing.
   * Otherwise the caller's session becomes a nameless one in that room,
   * replacing any earlier session, the caller joins the room's group and the
   * reply is `true`.
   */
  function JoinRoom(h: Hub, conn: ConnectionId, code: string): (r: Step<bool>)
    ensures r.result <==> code in h.rooms
    ensures !r.result ==> r.hub == h && r.effects == []
    ensures r.result ==>
              && r.hub.rooms == h.rooms
              && conn in r.hub.users && r.hub.users[conn] == Session(code, None)
              && SameExcept(h.users, r.hub.users, conn)
              && r.hub.groups == h.groups + {Membership(conn, code)}
              && r.effects == [AddToGroup(conn, code)]
  {
    if code !in h.rooms then
      Step(h, false, [])
    else
      Step(Hub(h.rooms, h.users[conn := Session(code, None)], h.groups + {Membership(conn, code)}),
           true, [AddToGroup(conn, code)])
  }

  /**
   * ChooseName: a caller with a session keeps its room, gets the name, and
   * the room is told once that the name has joined. A caller without a
   * session changes nothing and nothing is sent.
   */
  function ChooseName(h: Hub, conn: ConnectionId, name: string): (r: Step<()>)
    ensures conn !in h.users ==> r.hub == h && r.effects == []
    ensures conn in h.users ==>
              && r.hub.rooms == h.rooms && r.hub.groups == h.groups
              && conn in r.hub.users
              && r.hub.users[conn] == Session(h.users[conn].roomCode, Some(name))
              && SameExcept(h.users, r.hub.users, conn)
              && r.effects == [SendToGroup(h.users[conn].roomCode, ReceiveMessage, JoinedText(name))]
  {
    if conn in h.users then
      var user := h.users[conn];
      Step(h.(users := h.users[conn := Session(user.roomCode, Some(name))]), (),
           [SendToGroup(user.roomCode, ReceiveMessage, JoinedText(name))])
    else
      Step(h, (), [])
  }

  /**
   * Disconnect: the caller's session, if any, is removed; when it carried a
   * name the room is told once that the name has left. Rooms and groups are
   * left as they are.
   */
  function Disconnect(h: Hub, conn: ConnectionId): (r: Step<()>)
    ensures r.hub.rooms == h.rooms && r.hub.groups == h.groups
    ensures conn !in r.hub.users && SameExcept(h.users, r.hub.users, conn)
    ensures |r.effects| <= 1
    ensures r.effects != [] <==> conn in h.users && h.users[conn].name.Some?
    ensures r.effects != [] ==>
              r.effects[0] == SendToGroup(h.users[conn].roomCode, ReceiveMessage,
                                          LeftText(h.users[conn].name.value))
  {
    if conn in h.users then
      var user := h.users[conn];
      var h' := h.(users := h.users - {conn});
      if user.name.Some? then
        Step(h', (), [SendToGroup(user.roomCode, ReceiveMessage, LeftText(user.name.value))])
      else
        Step(h', (), [])
    else
      Step(h, (), [])
  }
}
