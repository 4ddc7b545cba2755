/** The meeting page of public/script.js: a `peers` table of connections and a
    `streams` table of media streams, both keyed by remote socket id, the local
    microphone and camera switches, leaving, and the grid's column rule. Each
    browser connection is a record of what the page has handed to it; handlers
    return what they send to the server. */
module MeetPage {
  import opened Common
  import opened Arithmetic

  /** One RTCPeerConnection: a serial number telling connections apart, and the
      remote descriptions and ICE candidates applied to it, in order. */
  datatype Link = Link(serial: nat, remote: seq<string>, candidates: seq<string>)

  /** What the page emits on its socket. */
  datatype Send =
    | SendJoinRoom(roomId: string, selfId: ConnId, userName: string)
    | SendCandidate(candidate: string, target: ConnId, selfId: ConnId)
    | SendDisconnect

  /** The name used when the page address carries no (or an empty) `user`. */
  const AnonymousName := "Utilisateur Anonyme"

  /** The key under which the page stores its own stream in `streams`. */
  const LocalKey := "local"

  /** `urlParams.get('user') || 'Utilisateur Anonyme'`. */
  function DisplayName(user: Option<string>): (name: string)
    ensures name != ""
    ensures user.Some? && user.value != "" ==> name == user.value
    ensures user.None? ==> name == AnonymousName
    ensures user == Some("") ==> name == AnonymousName
  {
    if user.Some? && user.value != "" then user.value else AnonymousName
  }

  /** The table after `createPeerConnection(targetId)`: an existing entry stops
      the call; otherwise exactly one new entry, with connection number `next`. */
  function Created(peers: map<ConnId, Link>, next: nat, targetId: ConnId): (r: map<ConnId, Link>)
    ensures targetId in r
    ensures r.Keys == peers.Keys + {targetId}
    ensures forall k :: k in peers ==> r[k] == peers[k]
    ensures targetId !in peers ==> r[targetId] == Link(next, [], [])
  {
    if targetId in peers then peers else peers[targetId := Link(next, [], [])]
  }

  /** Creating a connection for the same id a second time changes nothing. */
  lemma {:induction false} CreatedIdempotent(peers: map<ConnId, Link>, next: nat, next': nat, targetId: ConnId)
    ensures Created(Created(peers, next, targetId), next', targetId) == Created(peers, next, targetId)
  {
    assert targetId in Created(peers, next, targetId);
  }

  /** The serial numbers of the connections in the table. */
  function Serials(peers: map<ConnId, Link>): (r: set<nat>)
    ensures forall k :: k in peers ==> peers[k].serial in r
    ensures forall n :: n in r ==> exists k :: k in peers && peers[k].serial == n
  {
    set k | k in peers :: peers[k].serial
  }

  /** The ids of the listed users other than the page's own socket id. */
  function OthersListed(users: seq<Entry>, selfId: ConnId): (r: set<ConnId>)
    ensures forall k :: k in r <==> k != selfId && exists i :: 0 <= i < |users| && users[i].id == k
  {
    set i | 0 <= i < |users| && users[i].id != selfId :: users[i].id
  }

  /** Listing one more user adds that user's id unless it is the page's own. */
  lemma OthersListedSnoc(users: seq<Entry>, u: Entry, selfId: ConnId)
    ensures OthersListed(users + [u], selfId) ==
      OthersListed(users, selfId) + (if u.id != selfId then {u.id} else {})
  {
    var longer := users + [u];
    forall k | k in OthersListed(users, selfId)
      ensures k in OthersListed(longer, selfId)
    {
      var i :| 0 <= i < |users| && users[i].id == k;
      assert longer[i].id == k;
    }
    if u.id != selfId {
      assert longer[|users|].id == u.id;
    }
    forall k | k in OthersListed(longer, selfId)
      ensures k in OthersListed(users, selfId) || k == u.id
    {
      var i :| 0 <= i < |longer| && longer[i].id == k;
      if i < |users| {
        assert users[i].id == k;
      }
    }
  }

  /** `Math.ceil(a / b)` for non-negative integers. */
  function CeilDiv(a: nat, b: nat): nat
    requires b > 0
  {
    (a + b - 1) / b
  }

  /** The column count adjustGridLayout computes before capping it: the count
      itself for up to three tiles, and from four on the columns needed when the
      tiles are spread over `ceil(n / 4)` rows. The square-root guess it starts
      from is overridden for every count. */
  function RawColumns(n: nat): (cols: nat)
    ensures n <= 3 ==> cols == n
    ensures n >= 1 ==> cols >= 1
  {
    assert n >= 4 ==> CeilDiv(n, CeilDiv(n, 4)) >= 1 by {
      if n >= 4 {
        DivAtLeastOne(n + 3, 4);
        DivAtLeastOne(n + CeilDiv(n, 4) - 1, CeilDiv(n, 4));
      }
    }
    if n <= 2 then n
    else if n == 3 then 3
    else CeilDiv(n, CeilDiv(n, 4))
  }

  /** `Math.min(cols, 4)`: never more than four columns, exactly one per tile up to
      four tiles, and at least one once there is a tile. */
  function Columns(n: nat): (cols: nat)
    ensures cols <= 4
    ensures n <= 4 ==> cols == n
    ensures n >= 1 ==> cols >= 1
  {
    var raw := RawColumns(n);
    if raw < 4 then raw else 4
  }

  /** The cap never binds: from four tiles on, spreading them over `ceil(n / 4)`
      rows already needs at most four columns, and those rows and columns hold
      every tile. */
  lemma RawColumnsFit(n: nat)
    requires n >= 4
    ensures RawColumns(n) <= 4 && Columns(n) == RawColumns(n)
    ensures RawColumns(n) * CeilDiv(n, 4) >= n
  {
    var rows := CeilDiv(n, 4);
    DivAtLeastOne(n + 3, 4);
    assert 4 * rows >= n;
    DivAtMost(n + rows - 1, rows, 4);
    var cols := RawColumns(n);
    var x := n + rows - 1;
    assert x == cols * rows + x % rows && x % rows < rows;
  }

  /** The page state of handleMeetPage in public/script.js. */
  class Meet {
    const roomId: string
    const selfId: ConnId
    const userName: string
    var peers: map<ConnId, Link>
    var streams: map<ConnId, string>
    var micEnabled: bool
    var camEnabled: bool
    /** Whether getUserMedia has delivered `localStream`. */
    var hasLocal: bool
    /** The `enabled` flags of the local stream's audio and video tracks. */
    var audio: array<bool>
    var video: array<bool>
    /** The serial the next created connection receives. */
    var nextSerial: nat
    /** The serials of the connections `close()` was called on. */
    var closed: set<nat>

    /** The two track lists are distinct, and every connection in the table, and
        every closed one, was created earlier. */
    ghost predicate Valid()
      reads this
    {
      && audio != video
      && (forall k :: k in peers ==> peers[k].serial < nextSerial)
      && (forall n :: n in closed ==> n < nextSerial)
    }

    /** The page once it has a room id (without one it leaves at once), before the
        camera and microphone are granted. `user` is the address's `user` value. */
    constructor (roomId: string, selfId: ConnId, user: Option<string>)
      requires roomId != ""
      ensures Valid() && this.roomId == roomId && this.selfId == selfId && userName == DisplayName(user)
      ensures peers == map[] && streams == map[] && micEnabled && camEnabled && !hasLocal
      ensures nextSerial == 0 && closed == {}
      ensures fresh(audio) && fresh(video) && audio.Length == 0 && video.Length == 0
    {
      this.roomId := roomId;
      this.selfId := selfId;
      userName := DisplayName(user);
      peers := map[];
      streams := map[];
      micEnabled := true;
      camEnabled := true;
      hasLocal := false;
      audio := new bool[0];
      video := new bool[0];
      nextSerial := 0;
      closed := {};
    }

    /** The getUserMedia callback: keeps the stream (its tracks start enabled),
        stores it under 'local' and announces the join. */
    method MediaReady(stream: string, audioTracks: nat, videoTracks: nat) returns (outs: seq<Send>)
      requires Valid()
      modifies this
      ensures Valid()
      ensures hasLocal && streams == old(streams)[LocalKey := stream]
      ensures fresh(audio) && fresh(video) && audio.Length == audioTracks && video.Length == videoTracks
      ensures forall i :: 0 <= i < audio.Length ==> audio[i]
      ensures forall i :: 0 <= i < video.Length ==> video[i]
      ensures outs == [SendJoinRoom(roomId, selfId, userName)]
      ensures peers == old(peers) && nextSerial == old(nextSerial) && closed == old(closed)
      ensures micEnabled == old(micEnabled) && camEnabled == old(camEnabled)
    {
      hasLocal := true;
      streams := streams[LocalKey := stream];
      audio := new bool[audioTracks](_ => true);
      video := new bool[videoTracks](_ => true);
      outs := [SendJoinRoom(roomId, selfId, userName)];
    }

    /** createPeerConnection: returns at once when the id already has an entry;
        otherwise adds exactly one entry with a new connection. The name only
        labels log lines and the video tile. */
    method CreatePeerConnection(targetId: ConnId, targetName: string) returns (created: bool)
      requires Valid()
      modifies this
      ensures Valid()
      ensures created <==> targetId !in old(peers)
      ensures peers == Created(old(peers), old(nextSerial), targetId)
      ensures nextSerial == if created then old(nextSerial) + 1 else old(nextSerial)
      ensures streams == old(streams) && closed == old(closed) && hasLocal == old(hasLocal)
      ensures micEnabled == old(micEnabled) && camEnabled == old(camEnabled)
      ensures audio == old(audio) && video == old(video)
    {
      if targetId in peers {
        return false;
      }
      peers := peers[targetId := Link(nextSerial, [], [])];
      nextSerial := nextSerial + 1;
      created := true;
    }

    /** The `all-users` handler: a connection for every listed user other than
        the page itself (entries already there are kept). The offers it then tries
        to send refer to a variable out of scope and are never sent. */
    method AllUsers(users: seq<Entry>) returns (outs: seq<Send>)
      requires Valid() && hasLocal
      modifies this
      ensures Valid()
      ensures peers.Keys == old(peers).Keys + OthersListed(users, selfId)
      ensures forall k :: k in old(peers) ==> peers[k] == old(peers)[k]
      ensures forall k :: k in peers && k !in old(peers) ==> old(nextSerial) <= peers[k].serial
      ensures outs == []
      ensures streams == old(streams) && closed == old(closed) && hasLocal == old(hasLocal)
      ensures micEnabled == old(micEnabled) && camEnabled == old(camEnabled)
      ensures audio == old(audio) && video == old(video)
    {
      for i := 0 to |users|
        invariant Valid()
        invariant peers.Keys == old(peers).Keys + OthersListed(users[..i], selfId)
        invariant forall k :: k in old(peers) ==> peers[k] == old(peers)[k]
        invariant forall k :: k in peers && k !in old(peers) ==> old(nextSerial) <= peers[k].serial
        invariant old(nextSerial) <= nextSerial
        invariant streams == old(streams) && closed == old(closed) && hasLocal == old(hasLocal)
        invariant micEnabled == old(micEnabled) && camEnabled == old(camEnabled)
        invariant audio == old(audio) && video == old(video)
      {
        assert users[..i + 1] == users[..i] + [users[i]];
        if users[i].id != selfId {
          var _ := CreatePeerConnection(users[i].id, users[i].name);
        }
        assert OthersListed(users[..i + 1], selfId) ==
          OthersListed(users[..i], selfId) + (if users[i].id != selfId then {users[i].id} else {})
        by {
          OthersListedSnoc(users[..i], users[i], selfId);
        }
      }
      assert users[..|users|] == users;
      outs := [];
    }

    /** The `offer` handler: creates the sender's connection unless it exists and
        applies the offer to it. The answer it then tries to send refers to a
        variable out of scope and is never sent. */
    method OnOffer(offer: string, fromId: ConnId, fromName: string) returns (outs: seq<Send>)
      requires Valid() && hasLocal
      modifies this
      ensures Valid()
      ensures var table := Created(old(peers), old(nextSerial), fromId);
        peers == table[fromId := table[fromId].(remote := table[fromId].remote + [offer])]
      ensures nextSerial == if fromId in old(peers) then old(nextSerial) else old(nextSerial) + 1
      ensures outs == []
      ensures streams == old(streams) && closed == old(closed) && hasLocal == old(hasLocal)
      ensures micEnabled == old(micEnabled) && camEnabled == old(camEnabled)
      ensures audio == old(audio) && video == old(video)
    {
      var _ := CreatePeerConnection(fromId, fromName);
      var link := peers[fromId];
      peers := peers[fromId := link.(remote := link.remote + [offer])];
      outs := [];
    }

    /** The `answer` handler: applied to a known sender's connection only. */
    method OnAnswer(answer: string, fromId: ConnId)
      requires Valid() && hasLocal
      modifies this
      ensures Valid()
      ensures fromId !in old(peers) ==> peers == old(peers)
      ensures fromId in old(peers) ==>
        peers == old(peers)[fromId := old(peers)[fromId].(remote := old(peers)[fromId].remote + [answer])]
      ensures nextSerial == old(nextSerial) && streams == old(streams) && closed == old(closed)
      ensures hasLocal == old(hasLocal) && micEnabled == old(micEnabled) && camEnabled == old(camEnabled)
      ensures audio == old(audio) && video == old(video)
    {
      if fromId in peers {
        var link := peers[fromId];
        peers := peers[fromId := link.(remote := link.remote + [answer])];
      }
    }

    /** The `candidate` handler: applied to a known sender's connection only. */
    method OnCandidate(candidate: string, fromId: ConnId)
      requires Valid() && hasLocal
      modifies this
      ensures Valid()
      ensures fromId !in old(peers) ==> peers == old(peers)
      ensures fromId in old(peers) ==>
        peers == old(peers)[fromId := old(peers)[fromId].(candidates := old(peers)[fromId].candidates + [candidate])]
      ensures nextSerial == old(nextSerial) && streams == old(streams) && closed == old(closed)
      ensures hasLocal == old(hasLocal) && micEnabled == old(micEnabled) && camEnabled == old(camEnabled)
      ensures audio == old(audio) && video == old(video)
    {
      if fromId in peers {
        var link := peers[fromId];
        peers := peers[fromId := link.(candidates := link.candidates + [candidate])];
      }
    }

    /** The `onicecandidate` handler of the connection made for `targetId`: a
        gathered candidate goes to that id; the end-of-candidates event sends nothing. */
    method OnIceCandidate(targetId: ConnId, candidate: Option<string>) returns (outs: seq<Send>)
      ensures |outs| == if candidate.Some? then 1 else 0
      ensures forall i :: 0 <= i < |outs| ==> candidate.Some? && outs[i] == SendCandidate(candidate.value, targetId, selfId)
    {
      outs := [];
      if candidate.Some? {
        outs := [SendCandidate(candidate.value, targetId, selfId)];
      }
    }

    /** The `ontrack` handler of the connection made for `targetId`. */
    method OnTrack(targetId: ConnId, stream: string)
      requires Valid()
      modifies this
      ensures Valid()
      ensures streams == old(streams)[targetId := stream]
      ensures peers == old(peers) && nextSerial == old(nextSerial) && closed == old(closed)
      ensures hasLocal == old(hasLocal) && micEnabled == old(micEnabled) && camEnabled == old(camEnabled)
      ensures audio == old(audio) && video == old(video)
    {
      streams := streams[targetId := stream];
    }

    /** The `user-disconnected` handler: closes and drops the id's connection and
        drops its stream, each only if present; other ids are untouched. */
    method UserDisconnected(socketId: ConnId)
      requires Valid() && hasLocal
      modifies this
      ensures Valid()
      ensures peers == old(peers) - {socketId} && streams == old(streams) - {socketId}
      ensures closed == if socketId in old(peers) then old(closed) + {old(peers)[socketId].serial} else old(closed)
      ensures nextSerial == old(nextSerial) && hasLocal == old(hasLocal)
      ensures micEnabled == old(micEnabled) && camEnabled == old(camEnabled)
      ensures audio == old(audio) && video == old(video)
    {
      if socketId in peers {
        closed := closed + {peers[socketId].serial};
        peers := peers - {socketId};
      }
      if socketId in streams {
        streams := streams - {socketId};
      }
    }

    /** Sets every flag of the track list to `on`. */
    static method SetAll(tracks: array<bool>, on: bool)
      modifies tracks
      ensures forall i :: 0 <= i < tracks.Length ==> tracks[i] == on
    {
      for i := 0 to tracks.Length
        invariant forall k :: 0 <= k < i ==> tracks[k] == on
      {
        tracks[i] := on;
      }
    }

    /** The microphone button: flips the flag and sets every audio track to it.
        Before the local stream exists the flag still flips and the track update
        fails. */
    method ToggleMic()
      requires Valid()
      modifies this, audio
      ensures Valid()
      ensures micEnabled == !old(micEnabled)
      ensures old(hasLocal) ==> forall i :: 0 <= i < audio.Length ==> audio[i] == micEnabled
      ensures !old(hasLocal) ==> audio[..] == old(audio[..])
      ensures audio == old(audio) && video == old(video) && video[..] == old(video[..])
      ensures peers == old(peers) && streams == old(streams) && nextSerial == old(nextSerial)
      ensures closed == old(closed) && hasLocal == old(hasLocal) && camEnabled == old(camEnabled)
    {
      micEnabled := !micEnabled;
      if hasLocal {
        SetAll(audio, micEnabled);
      }
    }

    /** The camera button: flips the flag and sets every video track to it.
        Before the local stream exists the flag still flips and the track update
        fails. */
    method ToggleCam()
      requires Valid()
      modifies this, video
      ensures Valid()
      ensures camEnabled == !old(camEnabled)
      ensures old(hasLocal) ==> forall i :: 0 <= i < video.Length ==> video[i] == camEnabled
      ensures !old(hasLocal) ==> video[..] == old(video[..])
      ensures audio == old(audio) && video == old(video) && audio[..] == old(audio[..])
      ensures peers == old(peers) && streams == old(streams) && nextSerial == old(nextSerial)
      ensures closed == old(closed) && hasLocal == old(hasLocal) && micEnabled == old(micEnabled)
    {
      camEnabled := !camEnabled;
      if hasLocal {
        SetAll(video, camEnabled);
      }
    }

    /** The leave button: closes every connection, empties the table and
        disconnects the socket. */
    method Leave() returns (outs: seq<Send>)
      requires Valid()
      modifies this
      ensures Valid()
      ensures closed == old(closed) + Serials(old(peers))
      ensures peers == map[]
      ensures outs == [SendDisconnect]
      ensures streams == old(streams) && nextSerial == old(nextSerial) && hasLocal == old(hasLocal)
      ensures micEnabled == old(micEnabled) && camEnabled == old(camEnabled)
      ensures audio == old(audio) && video == old(video)
    {
      var todo := peers.Keys;
      while todo != {}
        invariant todo <= peers.Keys
        invariant closed == old(closed) + set k | k in peers && k !in todo :: peers[k].serial
        invariant peers == old(peers) && nextSerial == old(nextSerial) && streams == old(streams)
        invariant hasLocal == old(hasLocal) && micEnabled == old(micEnabled) && camEnabled == old(camEnabled)
        invariant audio == old(audio) && video == old(video)
        decreases todo
      {
        var k :| k in todo;
        closed := closed + {peers[k].serial};
        todo := todo - {k};
      }
      peers := map[];
      outs := [SendDisconnect];
    }
  }
}
