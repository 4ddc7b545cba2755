/** Vocabulary shared by the two servers: connection ids, roster entries,
    and the outbound-event records every server handler returns instead of
    calling socket.io. */
module Common {

  datatype Option<+T> = None | Some(value: T)

  /** A socket.io connection id, as the transport assigns it. */
  type ConnId = string

  /** One entry of a room roster as server.js keeps it and sends it in `all-users`. */
  datatype Entry = Entry(id: string, name: string)

  /** Where a server emission goes: one connection (`io.to(id).emit`, `socket.emit`),
      or every connection in a room except the sending socket (`socket.to(room).emit`). */
  datatype Target = ToConn(conn: ConnId) | ToRoomExcept(room: string, sender: ConnId)

  /** Arguments of an emitted event. Relayed signalling payloads stay opaque. */
  datatype Arg = Str(text: string) | Flag(on: bool) | Roster(users: seq<Entry>) | Opaque(payload: string)

  /** One emission: a target, an event name and its arguments. */
  datatype Emit = Emit(to: Target, event: string, args: seq<Arg>)

  /** Whether an emission aimed at `t` can arrive at connection `c`, under the
      model's reading of the targets. `ToConn(id)` is read as the one connection
      `id`; a room broadcast reaches no socket but the sender's room-mates, and
      never the sender. Which sockets are in a socket.io room is kept by the
      library, so for broadcasts this is an upper bound. */
  predicate MayReach(t: Target, c: ConnId) {
    match t
    case ToConn(id) => c == id
    case ToRoomExcept(_, sender) => c != sender
  }
}
