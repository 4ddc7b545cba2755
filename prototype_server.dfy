/** The earlier server of server.js: each room is an ordered roster of
    {id, name} entries. Every `join-room` call registers its own disconnect and
    relay handlers on the socket, closing over that call's room, user id and
    name; the model keeps those captured values as one binding per call, and a
    later event runs once per binding, in registration order. */
module PrototypeServer {
  import opened Common

  /** The sender name an offer carries when the sender is not on the roster. */
  const UnknownSender := "Inconnu"

  /** The values one `join-room` call's handlers close over. */
  datatype Binding = Binding(roomId: string, userId: string, username: string)

  /** `list.find(user => user.id === id)`: the first entry with that id, if any. */
  function Find(list: seq<Entry>, id: string): (r: Option<Entry>)
    ensures r.None? <==> forall k :: 0 <= k < |list| ==> list[k].id != id
    ensures r.Some? ==> r.value in list && r.value.id == id
    ensures r.Some? ==> exists k :: 0 <= k < |list| && list[k] == r.value && forall j :: 0 <= j < k ==> list[j].id != id
  {
    if list == [] then None
    else if list[0].id == id then Some(list[0])
    else
      var r := Find(list[1..], id);
      assert r.Some? ==> exists k :: 0 <= k < |list| && list[k] == r.value && forall j :: 0 <= j < k ==> list[j].id != id by {
        if r.Some? {
          var k :| 0 <= k < |list[1..]| && list[1..][k] == r.value && forall j :: 0 <= j < k ==> list[1..][j].id != id;
          assert list[k + 1] == r.value;
          assert forall j :: 0 <= j < k + 1 ==> list[j].id != id by {
            forall j | 0 <= j < k + 1 ensures list[j].id != id {
              if j > 0 { assert list[j] == list[1..][j - 1]; }
            }
          }
        }
      }
      r
  }

  /** `list.filter(user => user.id !== id)`: exactly the entries with another id. */
  function Without(list: seq<Entry>, id: string): (r: seq<Entry>)
    ensures forall e :: e in r <==> e in list && e.id != id
    ensures |r| <= |list|
    ensures (forall k :: 0 <= k < |list| ==> list[k].id != id) ==> r == list
  {
    if list == [] then []
    else (if list[0].id != id then [list[0]] else []) + Without(list[1..], id)
  }

  /** Filtering keeps the survivors in their original order: it distributes over
      concatenation. */
  lemma {:induction false} WithoutAppend(a: seq<Entry>, b: seq<Entry>, id: string)
    ensures Without(a + b, id) == Without(a, id) + Without(b, id)
  {
    if a == [] {
      assert a + b == b;
    } else {
      var head := if a[0].id != id then [a[0]] else [];
      assert Without(a + b, id) == head + Without(a[1..] + b, id) by {
        assert (a + b)[0] == a[0] && (a + b)[1..] == a[1..] + b;
      }
      assert Without(a[1..] + b, id) == Without(a[1..], id) + Without(b, id) by {
        WithoutAppend(a[1..], b, id);
      }
      assert head + (Without(a[1..], id) + Without(b, id)) == (head + Without(a[1..], id)) + Without(b, id);
    }
  }

  /** No two entries of the roster share an id. */
  ghost predicate UniqueIds(list: seq<Entry>) {
    forall i, j :: 0 <= i < j < |list| ==> list[i].id != list[j].id
  }

  /** Filtering a roster without duplicate ids cannot create one. */
  lemma {:induction false} WithoutKeepsUnique(list: seq<Entry>, id: string)
    requires UniqueIds(list)
    ensures UniqueIds(Without(list, id))
  {
    if list != [] {
      var tail := list[1..];
      assert UniqueIds(tail) by {
        forall i, j | 0 <= i < j < |tail| ensures tail[i].id != tail[j].id {
          assert tail[i] == list[i + 1] && tail[j] == list[j + 1];
        }
      }
      WithoutKeepsUnique(tail, id);
      var rest := Without(tail, id);
      if list[0].id != id {
        forall e | e in rest ensures e.id != list[0].id {
          assert e in tail;
          var k :| 0 <= k < |tail| && tail[k] == e;
          assert list[k + 1] == e;
        }
        var r := [list[0]] + rest;
        forall i, j | 0 <= i < j < |r| ensures r[i].id != r[j].id {
          if i == 0 {
            assert r[j] == rest[j - 1] && r[j] in rest;
          } else {
            assert r[i] == rest[i - 1] && r[j] == rest[j - 1];
          }
        }
      } else {
        assert Without(list, id) == rest;
      }
    }
  }

  /** The rooms table is well formed: every listed room has at least one entry
      and no duplicate ids. */
  ghost predicate WellFormed(rooms: map<string, seq<Entry>>) {
    forall r :: r in rooms ==> |rooms[r]| > 0 && UniqueIds(rooms[r])
  }

  /** `rooms[roomId]?.find(user => user.id === senderId)?.name || 'Inconnu'`. */
  function SenderName(rooms: map<string, seq<Entry>>, roomId: string, senderId: string): (name: string)
    ensures name != ""
    ensures roomId in rooms && Find(rooms[roomId], senderId).Some? && Find(rooms[roomId], senderId).value.name != "" ==>
      name == Find(rooms[roomId], senderId).value.name
    ensures (roomId !in rooms || Find(rooms[roomId], senderId).None?) ==> name == UnknownSender
    ensures roomId in rooms && Find(rooms[roomId], senderId).Some? && Find(rooms[roomId], senderId).value.name == "" ==>
      name == UnknownSender
  {
    if roomId in rooms && Find(rooms[roomId], senderId).Some? && Find(rooms[roomId], senderId).value.name != ""
    then Find(rooms[roomId], senderId).value.name
    else UnknownSender
  }

  /** The roster after one join: the joiner is appended unless an entry with
      that id is already there, in which case the roster is unchanged. */
  function Joined(before: seq<Entry>, userId: string, username: string): (list: seq<Entry>)
    ensures Find(before, userId).Some? ==> list == before
    ensures Find(before, userId).None? ==> list == before + [Entry(userId, username)]
    ensures Find(list, userId).Some?
    ensures UniqueIds(before) ==> UniqueIds(list)
  {
    if Find(before, userId).Some? then before
    else
      var list := before + [Entry(userId, username)];
      assert list[|before|].id == userId;
      list
  }

  /** One registered disconnect handler: when its room still exists, removes
      every entry with its user id, tells the others in the room, and deletes
      the room exactly when the roster is left empty. Other rooms are untouched. */
  function Leave(rooms: map<string, seq<Entry>>, sid: ConnId, b: Binding): (res: (map<string, seq<Entry>>, seq<Emit>))
    ensures b.roomId !in rooms ==> res == (rooms, [])
    ensures b.roomId in rooms ==>
      var rest := Without(rooms[b.roomId], b.userId);
      && res.1 == [Emit(ToRoomExcept(b.roomId, sid), "user-disconnected", [Str(b.userId)])]
      && (b.roomId in res.0 <==> rest != [])
      && (rest != [] ==> res.0[b.roomId] == rest)
    ensures forall r :: r != b.roomId ==> (r in res.0 <==> r in rooms)
    ensures forall r :: r != b.roomId && r in rooms ==> res.0[r] == rooms[r]
  {
    if b.roomId !in rooms then (rooms, [])
    else
      var rest := Without(rooms[b.roomId], b.userId);
      var outs := [Emit(ToRoomExcept(b.roomId, sid), "user-disconnected", [Str(b.userId)])];
      if rest == [] then (rooms - {b.roomId}, outs) else (rooms[b.roomId := rest], outs)
  }

  /** One disconnect handler keeps the table well formed. */
  lemma LeaveKeepsWellFormed(rooms: map<string, seq<Entry>>, sid: ConnId, b: Binding)
    requires WellFormed(rooms)
    ensures WellFormed(Leave(rooms, sid, b).0)
  {
    if b.roomId in rooms {
      WithoutKeepsUnique(rooms[b.roomId], b.userId);
    }
  }

  /** One join keeps the table well formed. */
  lemma JoinKeepsWellFormed(rooms: map<string, seq<Entry>>, roomId: string, userId: string, username: string)
    requires WellFormed(rooms)
    ensures var before := if roomId in rooms then rooms[roomId] else [];
      WellFormed(rooms[roomId := Joined(before, userId, username)])
  {
    var before := if roomId in rooms then rooms[roomId] else [];
    assert UniqueIds(before);
  }

  /** All of a socket's disconnect handlers, in registration order. They never
      create a room, send at most one notice per handler, and every notice is a
      `user-disconnected` that does not reach the leaving socket. */
  function LeaveAll(rooms: map<string, seq<Entry>>, sid: ConnId, bs: seq<Binding>): (res: (map<string, seq<Entry>>, seq<Emit>))
    ensures forall r :: r in res.0 ==> r in rooms
    ensures |res.1| <= |bs|
    ensures forall i :: 0 <= i < |res.1| ==> res.1[i].event == "user-disconnected" && !MayReach(res.1[i].to, sid)
    decreases |bs|
  {
    if bs == [] then (rooms, [])
    else
      var earlier := LeaveAll(rooms, sid, bs[..|bs| - 1]);
      var last := Leave(earlier.0, sid, bs[|bs| - 1]);
      (last.0, earlier.1 + last.1)
  }

  /** Disconnecting keeps the table well formed however many joins the socket made. */
  lemma {:induction false} LeaveAllKeepsWellFormed(rooms: map<string, seq<Entry>>, sid: ConnId, bs: seq<Binding>)
    requires WellFormed(rooms)
    ensures WellFormed(LeaveAll(rooms, sid, bs).0)
    decreases |bs|
  {
    if bs != [] {
      LeaveAllKeepsWellFormed(rooms, sid, bs[..|bs| - 1]);
      LeaveKeepsWellFormed(LeaveAll(rooms, sid, bs[..|bs| - 1]).0, sid, bs[|bs| - 1]);
    }
  }

  /** Disconnecting leaves every room untouched that none of the socket's
      bindings names. */
  lemma {:induction false} LeaveAllOnlyTouchesBoundRooms(rooms: map<string, seq<Entry>>, sid: ConnId, bs: seq<Binding>, r: string)
    requires forall i :: 0 <= i < |bs| ==> bs[i].roomId != r
    ensures (r in LeaveAll(rooms, sid, bs).0 <==> r in rooms)
    ensures r in rooms ==> LeaveAll(rooms, sid, bs).0[r] == rooms[r]
    decreases |bs|
  {
    if bs != [] {
      LeaveAllOnlyTouchesBoundRooms(rooms, sid, bs[..|bs| - 1], r);
    }
  }

  /** Runs one handler per binding, in registration order. */
  method Relay(bs: seq<Binding>, handler: Binding -> Emit) returns (outs: seq<Emit>)
    ensures |outs| == |bs|
    ensures forall i :: 0 <= i < |bs| ==> outs[i] == handler(bs[i])
  {
    outs := [];
    for i := 0 to |bs|
      invariant |outs| == i
      invariant forall k :: 0 <= k < i ==> outs[k] == handler(bs[k])
    {
      outs := outs + [handler(bs[i])];
    }
  }

  /** The socket.io server of server.js, with its `rooms` table. */
  class Server {
    var rooms: map<string, seq<Entry>>
    /** The handlers each socket has registered, one binding per join-room call. */
    var bindings: map<ConnId, seq<Binding>>

    ghost predicate Valid()
      reads this
    {
      WellFormed(rooms)
    }

    constructor ()
      ensures Valid() && rooms == map[] && bindings == map[]
    {
      rooms := map[];
      bindings := map[];
    }

    /** The bindings registered on socket `sid` so far. */
    function Bound(sid: ConnId): seq<Binding>
      reads this
    {
      if sid in bindings then bindings[sid] else []
    }

    /** join-room: adds the joiner to the room's roster unless an entry with that
        id is there already, sends the joiner the roster without its own id, tells
        the others in the room, and registers this call's handlers. */
    method JoinRoom(sid: ConnId, roomId: string, userId: string, username: string) returns (outs: seq<Emit>)
      requires Valid()
      modifies this
      ensures Valid()
      ensures var before := if roomId in old(rooms) then old(rooms)[roomId] else [];
        var list := Joined(before, userId, username);
        && rooms == old(rooms)[roomId := list]
        && outs == [Emit(ToConn(sid), "all-users", [Roster(Without(list, userId))]),
                    Emit(ToRoomExcept(roomId, sid), "user-connected", [Str(userId), Str(username)])]
      ensures bindings == old(bindings)[sid := old(Bound(sid)) + [Binding(roomId, userId, username)]]
      ensures forall e :: e in outs[0].args[0].users ==> e.id != userId
      ensures forall c :: MayReach(outs[0].to, c) <==> c == sid
      ensures !MayReach(outs[1].to, sid)
    {
      var bound := Bound(sid);
      ghost var before := if roomId in rooms then rooms[roomId] else [];
      ghost var list := Joined(before, userId, username);
      JoinKeepsWellFormed(rooms, roomId, userId, username);
      if roomId !in rooms {
        rooms := rooms[roomId := []];
      }
      assert rooms[roomId] == before;
      if Find(rooms[roomId], userId).None? {
        rooms := rooms[roomId := rooms[roomId] + [Entry(userId, username)]];
      }
      assert rooms[roomId] == list;
      assert rooms == old(rooms)[roomId := list];
      var usersInRoom := Without(rooms[roomId], userId);
      outs := [Emit(ToConn(sid), "all-users", [Roster(usersInRoom)]),
               Emit(ToRoomExcept(roomId, sid), "user-connected", [Str(userId), Str(username)])];
      bindings := bindings[sid := bound + [Binding(roomId, userId, username)]];
    }

    /** disconnect: every disconnect handler the socket registered runs, in order. */
    method Disconnect(sid: ConnId) returns (outs: seq<Emit>)
      requires Valid()
      modifies this
      ensures Valid()
      ensures bindings == old(bindings)
      ensures (rooms, outs) == LeaveAll(old(rooms), sid, Bound(sid))
    {
      var bs := Bound(sid);
      outs := [];
      for i := 0 to |bs|
        invariant (rooms, outs) == LeaveAll(old(rooms), sid, bs[..i])
        invariant bindings == old(bindings)
      {
        assert bs[..i + 1][..i] == bs[..i] && bs[..i + 1][i] == bs[i];
        var b := bs[i];
        ghost var step := Leave(rooms, sid, b);
        ghost var sofar := outs;
        if b.roomId !in rooms {
          assert step == (rooms, []);
          assert outs == sofar + [];
        }
        if b.roomId in rooms {
          var rest := Without(rooms[b.roomId], b.userId);
          outs := outs + [Emit(ToRoomExcept(b.roomId, sid), "user-disconnected", [Str(b.userId)])];
          if |rest| == 0 {
            rooms := rooms - {b.roomId};
          } else {
            rooms := rooms[b.roomId := rest];
          }
        }
        assert (rooms, outs) == (step.0, sofar + step.1);
      }
      assert bs[..|bs|] == bs;
      LeaveAllKeepsWellFormed(old(rooms), sid, bs);
    }

    /** offer: each registered handler sends the offer to the target only, with the
        claimed sender id and the name the roster of its own room gives that id. */
    method Offer(sid: ConnId, offer: string, targetSocketId: ConnId, senderSocketId: string) returns (outs: seq<Emit>)
      ensures |outs| == |Bound(sid)|
      ensures forall i :: 0 <= i < |outs| ==>
        outs[i] == Emit(ToConn(targetSocketId), "offer",
                        [Opaque(offer), Str(senderSocketId), Str(SenderName(rooms, Bound(sid)[i].roomId, senderSocketId))])
      ensures forall i, c :: 0 <= i < |outs| && MayReach(outs[i].to, c) ==> c == targetSocketId
    {
      var rs := rooms;
      outs := Relay(Bound(sid), (b: Binding) => Emit(ToConn(targetSocketId), "offer",
                                          [Opaque(offer), Str(senderSocketId), Str(SenderName(rs, b.roomId, senderSocketId))]));
    }

    /** answer: each registered handler sends the answer, unchanged, to the target only. */
    method Answer(sid: ConnId, answer: string, targetSocketId: ConnId, senderSocketId: string) returns (outs: seq<Emit>)
      ensures |outs| == |Bound(sid)|
      ensures forall i :: 0 <= i < |outs| ==>
        outs[i] == Emit(ToConn(targetSocketId), "answer", [Opaque(answer), Str(senderSocketId)])
      ensures forall i, c :: 0 <= i < |outs| && MayReach(outs[i].to, c) ==> c == targetSocketId
    {
      outs := Relay(Bound(sid), (b: Binding) => Emit(ToConn(targetSocketId), "answer", [Opaque(answer), Str(senderSocketId)]));
    }

    /** candidate: each registered handler sends the candidate, unchanged, to the target only. */
    method Candidate(sid: ConnId, candidate: string, targetSocketId: ConnId, senderSocketId: string) returns (outs: seq<Emit>)
      ensures |outs| == |Bound(sid)|
      ensures forall i :: 0 <= i < |outs| ==>
        outs[i] == Emit(ToConn(targetSocketId), "candidate", [Opaque(candidate), Str(senderSocketId)])
      ensures forall i, c :: 0 <= i < |outs| && MayReach(outs[i].to, c) ==> c == targetSocketId
    {
      outs := Relay(Bound(sid), (b: Binding) => Emit(ToConn(targetSocketId), "candidate", [Opaque(candidate), Str(senderSocketId)]));
    }
  }
}
