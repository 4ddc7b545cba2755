/** The socket.io handlers of server/socket.js: a table of rooms, each holding its
    users keyed by connection id and a bounded chat log, plus the two fields the
    join handler stores on each socket. Every handler returns the emissions it
    makes. */
module SocketServer {
  import opened Common
  import opened History

  datatype User = User(id: ConnId, username: string)
  datatype ChatEntry = ChatEntry(senderId: ConnId, sender: string, message: string, timestamp: int)
  datatype Room = Room(users: map<ConnId, User>, messages: seq<ChatEntry>)

  /** `socket.roomId` and `socket.username`, as the last join-room on that socket set them. */
  datatype Session = Session(roomId: string, username: string)

  /** The name announced for a leaver whose entry is missing or has an empty name. */
  const UnknownName := "Unknown"

  /** The name `rooms[roomId].users[socket.id]?.username || 'Unknown'` yields. */
  function LeaverName(users: map<ConnId, User>, sid: ConnId): (name: string)
    ensures name != ""
    ensures sid in users && users[sid].username != "" ==> name == users[sid].username
    ensures sid !in users ==> name == UnknownName
    ensures sid in users && users[sid].username == "" ==> name == UnknownName
  {
    if sid in users && users[sid].username != "" then users[sid].username else UnknownName
  }

  /** A room as the handlers keep it: at least one user, each stored under its own
      connection id, and at most 100 stored messages. */
  ghost predicate GoodRoom(room: Room) {
    && |room.users| > 0
    && |room.messages| <= MaxMessages
    && forall c :: c in room.users ==> room.users[c].id == c
  }

  /** The replay of one stored message to a joiner. */
  function Replayed(sid: ConnId, m: ChatEntry): Emit {
    Emit(ToConn(sid), "chat-message", [Str(m.message), Str(m.sender), Str(m.senderId)])
  }

  /** The `forEach` that replays the stored log to the joining socket: one
      `chat-message` per stored message, in stored order, to that socket only. */
  method Replay(sid: ConnId, messages: seq<ChatEntry>) returns (outs: seq<Emit>)
    ensures |outs| == |messages|
    ensures forall i :: 0 <= i < |messages| ==> outs[i] == Replayed(sid, messages[i])
    ensures forall i, c :: 0 <= i < |outs| && MayReach(outs[i].to, c) ==> c == sid
  {
    outs := [];
    for i := 0 to |messages|
      invariant |outs| == i
      invariant forall k :: 0 <= k < i ==> outs[k] == Replayed(sid, messages[k])
    {
      outs := outs + [Replayed(sid, messages[i])];
    }
  }

  /** The socket.io server of server/socket.js, with its `rooms` table. */
  class Server {
    /** The HTML-escaping filter handed to the module (`module.exports = (io, xss)`). */
    const xss: string -> string
    var rooms: map<string, Room>
    var sockets: map<ConnId, Session>

    /** Every room that exists has at least one user, each user is stored under its
        own connection id, and no chat log holds more than 100 messages. */
    ghost predicate Valid()
      reads this
    {
      forall r :: r in rooms ==> GoodRoom(rooms[r])
    }

    constructor (xss: string -> string)
      ensures Valid() && this.xss == xss && rooms == map[] && sockets == map[]
    {
      this.xss := xss;
      rooms := map[];
      sockets := map[];
    }

    /** `socket.roomId` when it is truthy: unset before any join, and "" is falsy. */
    function JoinedRoom(sid: ConnId): (r: Option<string>)
      reads this
      ensures r.Some? <==> sid in sockets && sockets[sid].roomId != ""
      ensures r.Some? ==> r.value == sockets[sid].roomId
    {
      if sid in sockets && sockets[sid].roomId != "" then Some(sockets[sid].roomId) else None
    }

    /** The emission of a state-change handler: one event to the others in the
        sender's room when the socket has one, nothing otherwise. */
    function Rebroadcast(sid: ConnId, event: string, args: seq<Arg>): (outs: seq<Emit>)
      reads this
      ensures |outs| == if JoinedRoom(sid).Some? then 1 else 0
      ensures forall i :: 0 <= i < |outs| ==>
        outs[i] == Emit(ToRoomExcept(JoinedRoom(sid).value, sid), event, args)
      ensures forall i :: 0 <= i < |outs| ==> !MayReach(outs[i].to, sid)
    {
      match JoinedRoom(sid)
      case None => []
      case Some(r) => [Emit(ToRoomExcept(r, sid), event, args)]
    }

    /** join-room: creates the room if absent, stores the (sanitised) user under
        the socket's id, keeps the stored log, points the socket at the room, tells
        the others in the room and replays the log to the joiner alone. A room the
        socket joined earlier keeps its entry for this socket. */
    method JoinRoom(sid: ConnId, roomId: string, username: string) returns (outs: seq<Emit>)
      requires Valid()
      modifies this
      ensures Valid()
      ensures var r, u := xss(roomId), xss(username);
        var before := if r in old(rooms) then old(rooms)[r] else Room(map[], []);
        && rooms == old(rooms)[r := before.(users := before.users[sid := User(sid, u)])]
        && sockets == old(sockets)[sid := Session(r, u)]
        && |outs| == 1 + |before.messages|
        && outs[0] == Emit(ToRoomExcept(r, sid), "user-connected", [Str(sid), Str(u)])
        && forall i :: 0 <= i < |before.messages| ==> outs[i + 1] == Replayed(sid, before.messages[i])
      ensures !MayReach(outs[0].to, sid)
      ensures forall i :: 1 <= i < |outs| ==> outs[i].to == ToConn(sid) && outs[i].event == "chat-message"
    {
      var r := xss(roomId);
      var u := xss(username);
      var room := if r in rooms then rooms[r] else Room(map[], []);
      var joinedRoom := room.(users := room.users[sid := User(sid, u)]);
      assert GoodRoom(joinedRoom) by {
        assert sid in joinedRoom.users;
      }
      rooms := rooms[r := joinedRoom];
      sockets := sockets[sid := Session(r, u)];
      var replay := Replay(sid, room.messages);
      outs := [Emit(ToRoomExcept(r, sid), "user-connected", [Str(sid), Str(u)])] + replay;
    }

    /** signal: relays the payload, unchanged and unsanitised, to the addressed
        connection only, tagged with the sender's id. */
    method Signal(sid: ConnId, userId: ConnId, signal: string) returns (outs: seq<Emit>)
      ensures |outs| == 1
      ensures outs[0].event == "signal" && outs[0].args == [Str(sid), Opaque(signal)]
      ensures forall c :: MayReach(outs[0].to, c) <==> c == userId
    {
      outs := [Emit(ToConn(userId), "signal", [Str(sid), Opaque(signal)])];
    }

    /** chat-message: nothing for a socket without a (truthy) room; otherwise
        appends the sanitised message to the room's log when the room exists and
        sends it to the others in the room, whether or not the room exists. */
    method ChatMessage(sid: ConnId, message: string, sender: string, now: int) returns (outs: seq<Emit>)
      requires Valid()
      modifies this
      ensures Valid()
      ensures sockets == old(sockets)
      ensures JoinedRoom(sid).None? ==> rooms == old(rooms) && outs == []
      ensures JoinedRoom(sid).Some? ==>
        var r, m, s := JoinedRoom(sid).value, xss(message), xss(sender);
        && outs == [Emit(ToRoomExcept(r, sid), "chat-message", [Str(m), Str(s), Str(sid)])]
        && rooms == (if r in old(rooms)
                     then old(rooms)[r := old(rooms)[r].(messages := Push(old(rooms)[r].messages, ChatEntry(sid, s, m, now)))]
                     else old(rooms))
      ensures forall i :: 0 <= i < |outs| ==> !MayReach(outs[i].to, sid)
    {
      var joined := JoinedRoom(sid);
      if joined.None? {
        return [];
      }
      var r := joined.value;
      var m := xss(message);
      var s := xss(sender);
      if r in rooms {
        var room := rooms[r];
        var log := room.messages + [ChatEntry(sid, s, m, now)];
        if |log| > MaxMessages {
          log := log[1..];
        }
        rooms := rooms[r := room.(messages := log)];
      }
      outs := [Emit(ToRoomExcept(r, sid), "chat-message", [Str(m), Str(s), Str(sid)])];
    }

    /** video-state-change, rebroadcast as user-video-state-change. */
    method VideoStateChange(sid: ConnId, isEnabled: bool) returns (outs: seq<Emit>)
      ensures outs == Rebroadcast(sid, "user-video-state-change", [Str(sid), Flag(isEnabled)])
    {
      var joined := JoinedRoom(sid);
      outs := [];
      if joined.Some? {
        outs := [Emit(ToRoomExcept(joined.value, sid), "user-video-state-change", [Str(sid), Flag(isEnabled)])];
      }
    }

    /** audio-state-change, rebroadcast as user-audio-state-change. */
    method AudioStateChange(sid: ConnId, isEnabled: bool) returns (outs: seq<Emit>)
      ensures outs == Rebroadcast(sid, "user-audio-state-change", [Str(sid), Flag(isEnabled)])
    {
      var joined := JoinedRoom(sid);
      outs := [];
      if joined.Some? {
        outs := [Emit(ToRoomExcept(joined.value, sid), "user-audio-state-change", [Str(sid), Flag(isEnabled)])];
      }
    }

    /** screen-share-started, rebroadcast as user-screen-share-started. */
    method ScreenShareStarted(sid: ConnId) returns (outs: seq<Emit>)
      ensures outs == Rebroadcast(sid, "user-screen-share-started", [Str(sid)])
    {
      var joined := JoinedRoom(sid);
      outs := [];
      if joined.Some? {
        outs := [Emit(ToRoomExcept(joined.value, sid), "user-screen-share-started", [Str(sid)])];
      }
    }

    /** screen-share-stopped, rebroadcast as user-screen-share-stopped. */
    method ScreenShareStopped(sid: ConnId) returns (outs: seq<Emit>)
      ensures outs == Rebroadcast(sid, "user-screen-share-stopped", [Str(sid)])
    {
      var joined := JoinedRoom(sid);
      outs := [];
      if joined.Some? {
        outs := [Emit(ToRoomExcept(joined.value, sid), "user-screen-share-stopped", [Str(sid)])];
      }
    }

    /** disconnect: when the socket's room exists, removes the socket's user, tells
        the others with the stored name (or 'Unknown'), and deletes the room
        exactly when no user is left. The socket's own fields are not cleared. */
    method Disconnect(sid: ConnId) returns (outs: seq<Emit>)
      requires Valid()
      modifies this
      ensures Valid()
      ensures sockets == old(sockets)
      ensures JoinedRoom(sid).None? || JoinedRoom(sid).value !in old(rooms) ==>
        rooms == old(rooms) && outs == []
      ensures JoinedRoom(sid).Some? && JoinedRoom(sid).value in old(rooms) ==>
        var r := JoinedRoom(sid).value;
        var room := old(rooms)[r];
        var rest := room.users - {sid};
        && outs == [Emit(ToRoomExcept(r, sid), "user-disconnected", [Str(sid), Str(LeaverName(room.users, sid))])]
        && rooms == (if |rest| == 0 then old(rooms) - {r} else old(rooms)[r := room.(users := rest)])
        && (r in rooms <==> exists c :: c in room.users && c != sid)
      ensures forall i :: 0 <= i < |outs| ==> !MayReach(outs[i].to, sid)
    {
      var joined := JoinedRoom(sid);
      if joined.None? || joined.value !in rooms {
        return [];
      }
      var r := joined.value;
      var room := rooms[r];
      var name := if sid in room.users && room.users[sid].username != "" then room.users[sid].username else UnknownName;
      var rest := room.users - {sid};
      outs := [Emit(ToRoomExcept(r, sid), "user-disconnected", [Str(sid), Str(name)])];
      if |rest| == 0 {
        assert rest.Keys == {};
        rooms := rooms - {r};
      } else {
        var c :| c in rest;
        assert c in room.users && c != sid;
        assert GoodRoom(room.(users := rest));
        rooms := rooms[r := room.(users := rest)];
      }
    }
  }
}
