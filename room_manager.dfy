/** The standalone room registry of server/utils/roomManager.js: a table of rooms,
    each with its users, a bounded message log and a creation time. Unlike the
    socket handlers, this registry creates rooms before anyone joins, so empty
    rooms exist here; cleanupInactiveRooms sweeps the old ones. */
module RoomManager {
  import opened Common
  import opened History

  datatype User = User(id: string, username: string, joinedAt: int)
  datatype Message = Message(id: string, userId: string, username: string, content: string, timestamp: int)
  datatype Room = Room(id: string, users: map<string, User>, messages: seq<Message>, createdAt: int)

  /** The default `maxAge` of cleanupInactiveRooms: one day, in milliseconds. */
  const DefaultMaxAge: int := 24 * 60 * 60 * 1000

  /** JavaScript truthiness of the optional room-id argument: a missing id and "" are falsy. */
  predicate Supplied(roomId: Option<string>) {
    roomId.Some? && roomId.value != ""
  }

  /** The room is older than `maxAge` at time `now` and has no users. */
  predicate Inactive(room: Room, maxAge: int, now: int) {
    now - room.createdAt > maxAge && |room.users| == 0
  }

  /** A fresh room as createOrGetRoom builds it. */
  function NewRoom(id: string, now: int): Room {
    Room(id, map[], [], now)
  }

  /** The room table, `activeRooms`. */
  class Registry {
    var activeRooms: map<string, Room>

    /** Each room is stored under its own id, each user under its own id, and no
        log holds more than 100 messages. */
    ghost predicate Valid()
      reads this
    {
      forall r :: r in activeRooms ==>
        && activeRooms[r].id == r
        && |activeRooms[r].messages| <= MaxMessages
        && forall u :: u in activeRooms[r].users ==> activeRooms[r].users[u].id == u
    }

    constructor ()
      ensures Valid() && activeRooms == map[]
    {
      activeRooms := map[];
    }

    /** createOrGetRoom: `generated` stands for generateRoomId(), used only when no
        id is supplied. An existing room is returned untouched. */
    method CreateOrGetRoom(roomId: Option<string>, generated: string, now: int) returns (id: string)
      requires Valid()
      modifies this
      ensures Valid()
      ensures id == if Supplied(roomId) then roomId.value else generated
      ensures id in activeRooms
      ensures id in old(activeRooms) ==> activeRooms == old(activeRooms)
      ensures id !in old(activeRooms) ==> activeRooms == old(activeRooms)[id := NewRoom(id, now)]
    {
      id := if Supplied(roomId) then roomId.value else generated;
      if id !in activeRooms {
        activeRooms := activeRooms[id := NewRoom(id, now)];
      }
    }

    /** addUserToRoom: fails on an absent room; otherwise sets (or overwrites) the user. */
    method AddUserToRoom(roomId: string, userId: string, username: string, now: int) returns (ok: bool)
      requires Valid()
      modifies this
      ensures Valid()
      ensures ok <==> roomId in old(activeRooms)
      ensures !ok ==> activeRooms == old(activeRooms)
      ensures ok ==>
        var room := old(activeRooms)[roomId];
        activeRooms == old(activeRooms)[roomId := room.(users := room.users[userId := User(userId, username, now)])]
      ensures ok ==> GetRoomUsers(roomId).Keys == old(GetRoomUsers(roomId)).Keys + {userId}
    {
      if roomId !in activeRooms {
        return false;
      }
      var room := activeRooms[roomId];
      activeRooms := activeRooms[roomId := room.(users := room.users[userId := User(userId, username, now)])];
      ok := true;
    }

    /** removeUserFromRoom: fails, changing nothing, unless both room and user exist;
        otherwise removes the user and deletes the room exactly when it is left empty. */
    method RemoveUserFromRoom(roomId: string, userId: string) returns (ok: bool)
      requires Valid()
      modifies this
      ensures Valid()
      ensures ok <==> roomId in old(activeRooms) && userId in old(activeRooms)[roomId].users
      ensures !ok ==> activeRooms == old(activeRooms)
      ensures ok ==>
        var room := old(activeRooms)[roomId];
        var rest := room.users - {userId};
        activeRooms == if |rest| == 0 then old(activeRooms) - {roomId}
                       else old(activeRooms)[roomId := room.(users := rest)]
      ensures ok ==> (roomId !in activeRooms <==> old(activeRooms)[roomId].users.Keys == {userId})
      ensures ok ==> userId !in GetRoomUsers(roomId)
      ensures forall r :: r != roomId ==> (r in activeRooms <==> r in old(activeRooms))
      ensures forall r :: r in activeRooms && r != roomId ==> activeRooms[r] == old(activeRooms)[r]
    {
      if roomId !in activeRooms || userId !in activeRooms[roomId].users {
        return false;
      }
      var room := activeRooms[roomId];
      activeRooms := activeRooms[roomId := room.(users := room.users - {userId})];
      if |activeRooms[roomId].users| == 0 {
        assert activeRooms[roomId].users.Keys == {} && room.users.Keys == {userId};
        activeRooms := activeRooms - {roomId};
      } else {
        assert exists u :: u in room.users && u != userId;
      }
      ok := true;
    }

    /** addMessageToRoom: `messageId` stands for uuidv4(). Appends to the log of an
        existing room, dropping only the oldest message once there are more than 100. */
    method AddMessageToRoom(roomId: string, userId: string, username: string, content: string,
                            messageId: string, now: int) returns (ok: bool)
      requires Valid()
      modifies this
      ensures Valid()
      ensures ok <==> roomId in old(activeRooms)
      ensures !ok ==> activeRooms == old(activeRooms)
      ensures ok ==>
        var room := old(activeRooms)[roomId];
        var m := Message(messageId, userId, username, content, now);
        && activeRooms == old(activeRooms)[roomId := room.(messages := Push(room.messages, m))]
        && GetRoomMessages(roomId) == Recent(room.messages + [m], MaxMessages)
    {
      if roomId !in activeRooms {
        return false;
      }
      var room := activeRooms[roomId];
      var log := room.messages + [Message(messageId, userId, username, content, now)];
      if |log| > MaxMessages {
        log := log[1..];
      }
      activeRooms := activeRooms[roomId := room.(messages := log)];
      ok := true;
    }

    /** getRoomMessages: the room's log, or [] for an absent room. */
    function GetRoomMessages(roomId: string): (r: seq<Message>)
      reads this
      ensures roomId !in activeRooms ==> r == []
      ensures roomId in activeRooms ==> r == activeRooms[roomId].messages
      ensures Valid() ==> |r| <= MaxMessages
    {
      if roomId in activeRooms then activeRooms[roomId].messages else []
    }

    /** getRoomUsers: the room's users, or {} for an absent room. */
    function GetRoomUsers(roomId: string): (r: map<string, User>)
      reads this
      ensures roomId !in activeRooms ==> r == map[]
      ensures roomId in activeRooms ==> r == activeRooms[roomId].users
      ensures Valid() ==> forall u :: u in r ==> r[u].id == u
    {
      if roomId in activeRooms then activeRooms[roomId].users else map[]
    }

    /** roomExists: true exactly when the id is a key of the table; for a room
        that does not exist the getters give no users and no messages. */
    predicate RoomExists(roomId: string)
      reads this
      ensures RoomExists(roomId) <==> roomId in activeRooms
      ensures !RoomExists(roomId) ==> GetRoomUsers(roomId) == map[] && GetRoomMessages(roomId) == []
    {
      roomId in activeRooms
    }

    /** cleanupInactiveRooms: deletes exactly the rooms older than `maxAge` that
        have no users; every other room is left as it was. */
    method CleanupInactiveRooms(now: int, maxAge: int := DefaultMaxAge)
      requires Valid()
      modifies this
      ensures Valid()
      ensures forall r :: r in activeRooms <==> r in old(activeRooms) && !Inactive(old(activeRooms)[r], maxAge, now)
      ensures forall r :: r in activeRooms ==> activeRooms[r] == old(activeRooms)[r]
    {
      var keys := activeRooms.Keys;
      while keys != {}
        invariant keys <= old(activeRooms).Keys
        invariant forall r :: r in activeRooms <==>
          r in old(activeRooms) && (r in keys || !Inactive(old(activeRooms)[r], maxAge, now))
        invariant forall r :: r in activeRooms ==> activeRooms[r] == old(activeRooms)[r]
        decreases keys
      {
        var r :| r in keys;
        var room := activeRooms[r];
        if now - room.createdAt > maxAge && |room.users| == 0 {
          activeRooms := activeRooms - {r};
        }
        keys := keys - {r};
      }
    }
  }
}
