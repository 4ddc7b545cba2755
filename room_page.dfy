/** The meeting page of public/js/room.js: the `peers` table keyed by remote
    connection id, the signalling handlers that fill it, screen sharing, leaving,
    the chat send guard and the meeting timer. Each browser connection is a
    record of what the page has handed to it; every handler returns what it
    sends to the server. */
module RoomPage {
  import opened Common
  import opened Text
  import opened Arithmetic

  /** A session description: its `type` ("offer", "answer", …) and its body. */
  datatype Sdp = Sdp(kind: string, body: string)

  /** The parsed payload of a `signal` event. An absent or empty `userName` is "". */
  datatype SignalData = SignalData(sdp: Option<Sdp>, ice: Option<string>, userName: string)

  /** One RTCPeerConnection as the page drives it: a serial number telling
      connections apart, the remote descriptions and ICE candidates applied to it
      in order, its local description, how many times the local tracks were added,
      and the track on its video sender (None when no sender carries a video track). */
  datatype Conn = Conn(serial: nat, remote: seq<Sdp>, candidates: seq<string>, local: Option<Sdp>,
                       trackAdds: nat, video: Option<string>)

  /** An entry of `peers`: the connection and the remote user's display name. */
  datatype Peer = Peer(conn: Conn, userName: string)

  /** What the page emits on its socket. */
  datatype Send =
    | SendSignal(to: string, data: SignalData)
    | SendChat(message: string, sender: string)
    | SendScreenShareStarted
    | SendScreenShareStopped
    | SendDisconnect

  /** The name given to a peer first heard of through a signal without a name. */
  const UnknownName := "Unknown"

  /** A connection just created, with nothing applied to it yet. */
  function NewConn(serial: nat): Conn {
    Conn(serial, [], [], None, 0, None)
  }

  /** `addTracksToConnection(pc, localStream)` on a connection that does not hold
      the local tracks yet: they are added, and the first video sender carries the
      camera track. (On one that holds them, `addTrack` throws; see `Rejects`.) */
  function AddTracks(c: Conn, camera: Option<string>): (r: Conn)
    ensures r.trackAdds == c.trackAdds + 1
    ensures r.video == if c.video.Some? then c.video else camera
    ensures r.(trackAdds := c.trackAdds, video := c.video) == c
  {
    c.(trackAdds := c.trackAdds + 1, video := if c.video.Some? then c.video else camera)
  }

  /** The signal carries a description of type "offer". */
  predicate IsOffer(d: SignalData) {
    d.sdp.Some? && d.sdp.value.kind == "offer"
  }

  /** An offer reaching a connection that already holds the local tracks: adding
      them again makes `addTrack` throw for a track that already has a sender, and
      handleSignal stops there. The page's local stream always has tracks (a
      black, silent one when the devices are refused), so holding them is having
      had them added. */
  predicate Rejects(c: Conn, d: SignalData) {
    IsOffer(d) && c.trackAdds > 0
  }

  /** Whether handleSignal sends an answer: an offer it does not reject, for which
      creating the answer succeeded. */
  predicate Answers(c: Conn, d: SignalData, answer: Option<Sdp>) {
    IsOffer(d) && !Rejects(c, d) && answer.Some?
  }

  /** What handleSignal does to the connection: it applies the description, if
      any. An offer to a connection that already holds the local tracks then
      throws, and nothing else happens. Otherwise an offer adds the local tracks
      and, when the answer was created, makes it the local description; then the
      candidate, if any, is applied. The serial number, and so the connection
      itself, stays the same. */
  function Applied(c: Conn, d: SignalData, camera: Option<string>, answer: Option<Sdp>): (r: Conn)
    ensures r.serial == c.serial
    ensures r.remote == c.remote + (if d.sdp.Some? then [d.sdp.value] else [])
    ensures Rejects(c, d) ==> r == c.(remote := r.remote)
    ensures !Rejects(c, d) ==> r.candidates == c.candidates + (if d.ice.Some? then [d.ice.value] else [])
    ensures r.local == if Answers(c, d, answer) then answer else c.local
    ensures r.trackAdds == if IsOffer(d) && !Rejects(c, d) then c.trackAdds + 1 else c.trackAdds
    ensures r.video == if IsOffer(d) && !Rejects(c, d) && c.video.None? then camera else c.video
  {
    var described := c.(remote := c.remote + (if d.sdp.Some? then [d.sdp.value] else []));
    if Rejects(c, d) then described
    else
      var answered :=
        if !IsOffer(d) then described
        else if answer.Some? then AddTracks(described, camera).(local := answer)
        else AddTracks(described, camera);
      answered.(candidates := answered.candidates + (if d.ice.Some? then [d.ice.value] else []))
  }

  /** An offer reaching a connection this page created with connectToNewUser
      (its tracks added, its own offer as local description) is never answered:
      the local description stays the page's own offer, and the payload's
      candidate is dropped. This is the case of two pages offering to each other. */
  lemma OfferToOffererIgnored(n: nat, camera: Option<string>, offer: Option<Sdp>, d: SignalData, answer: Option<Sdp>)
    requires IsOffer(d)
    ensures var c := AddTracks(NewConn(n), camera).(local := offer);
      && !Answers(c, d, answer)
      && Applied(c, d, camera, answer).local == offer
      && Applied(c, d, camera, answer).candidates == []
  {
  }

  /** `replaceTrack` on the connection's video sender, when it has one. */
  function Switched(p: Peer, t: Option<string>): Peer {
    if p.conn.video.Some? then p.(conn := p.conn.(video := t)) else p
  }

  /** The peers table after the video sender of every peer has been pointed at `t`:
      the same ids, names and connections, with only the video track replaced and
      only where a video sender exists. */
  function WithVideo(peers: map<string, Peer>, t: Option<string>): (r: map<string, Peer>)
    ensures r.Keys == peers.Keys
    ensures forall k :: k in r ==> r[k].userName == peers[k].userName && r[k].conn.serial == peers[k].conn.serial
    ensures forall k :: k in r ==> r[k].conn.video == (if peers[k].conn.video.Some? then t else None)
    ensures forall k :: k in r ==> r[k].conn.(video := peers[k].conn.video) == peers[k].conn
  {
    map k | k in peers :: Switched(peers[k], t)
  }

  /** Sharing a screen and stopping again puts the camera track back on every peer
      that had a video sender, whatever the screen track was. */
  lemma StopAfterShareRestoresCamera(peers: map<string, Peer>, screen: string, camera: Option<string>)
    ensures WithVideo(WithVideo(peers, Some(screen)), camera) == WithVideo(peers, camera)
  {
    var a := WithVideo(WithVideo(peers, Some(screen)), camera);
    var b := WithVideo(peers, camera);
    forall k | k in peers ensures a[k] == b[k] {
      assert a[k] == Switched(Switched(peers[k], Some(screen)), camera);
    }
  }

  /** The serial numbers of the connections in the table. */
  function Serials(peers: map<string, Peer>): (r: set<nat>)
    ensures forall k :: k in peers ==> peers[k].conn.serial in r
    ensures forall n :: n in r ==> exists k :: k in peers && peers[k].conn.serial == n
  {
    set k | k in peers :: peers[k].conn.serial
  }

  /** The page state of public/js/room.js. */
  class Meeting {
    /** The video track of `localStream` (camera or black stand-in), if it has one. */
    const camera: Option<string>
    var peers: map<string, Peer>
    /** The serial the next created connection receives. */
    var nextSerial: nat
    /** The serials of the connections `close()` was called on. */
    var closed: set<nat>
    var isScreenSharing: bool
    /** The video track of the last screen stream obtained; never reset once set. */
    var screenStream: Option<string>
    var username: string
    /** Whether `socket` has been created, by joining. */
    var hasSocket: bool

    /** Every connection in the table, and every closed one, was created earlier,
        and a screen is shared only when a screen stream was obtained. */
    ghost predicate Valid()
      reads this
    {
      && (forall k :: k in peers ==> peers[k].conn.serial < nextSerial)
      && (forall n :: n in closed ==> n < nextSerial)
      && (isScreenSharing ==> screenStream.Some?)
    }

    /** The page after initializePreview, before joining. */
    constructor (camera: Option<string>)
      ensures Valid() && this.camera == camera
      ensures peers == map[] && closed == {} && nextSerial == 0
      ensures !isScreenSharing && screenStream == None && username == "" && !hasSocket
    {
      this.camera := camera;
      peers := map[];
      nextSerial := 0;
      closed := {};
      isScreenSharing := false;
      screenStream := None;
      username := "";
      hasSocket := false;
    }

    /** joinMeeting: stores the trimmed name, even when it is empty, and connects
        only when it is non-empty. The `join-room` emission happens on the socket's
        `connect` event and is not part of this call. */
    method JoinMeeting(input: string) returns (joined: bool)
      requires Valid()
      modifies this
      ensures Valid()
      ensures username == Trim(input)
      ensures joined <==> !AllSpace(input)
      ensures hasSocket == (old(hasSocket) || joined)
      ensures peers == old(peers) && closed == old(closed) && nextSerial == old(nextSerial)
      ensures isScreenSharing == old(isScreenSharing) && screenStream == old(screenStream)
    {
      var name := Trim(input);
      assert name == [] <==> AllSpace(input);
      username := name;
      joined := name != [];
      if joined {
        hasSocket := true;
      }
    }

    /** handleSignal. A payload that does not parse (`signal` is None) stops the
        handler before it changes anything. Otherwise a peer first heard of gets an
        entry with a new connection and the signal's name or 'Unknown'; a known
        peer's entry is reused. A description is applied to the connection. An
        offer to a connection that already holds the local tracks then stops the
        handler (see `Rejects`); any other offer adds the local tracks and, when
        creating the answer succeeds (`answer` is its result), sends exactly one
        answer back to the same id. A candidate is applied at once, with no
        queueing. */
    method HandleSignal(userId: string, signal: Option<SignalData>, answer: Option<Sdp>) returns (outs: seq<Send>)
      requires Valid()
      modifies this
      ensures Valid()
      ensures signal.None? ==> peers == old(peers) && nextSerial == old(nextSerial) && outs == []
      ensures signal.Some? ==>
        var d := signal.value;
        var entry := if userId in old(peers) then old(peers)[userId]
                     else Peer(NewConn(old(nextSerial)), if d.userName != "" then d.userName else UnknownName);
        && peers == old(peers)[userId := entry.(conn := Applied(entry.conn, d, camera, answer))]
        && nextSerial == (if userId in old(peers) then old(nextSerial) else old(nextSerial) + 1)
        && outs == (if Answers(entry.conn, d, answer) then [SendSignal(userId, SignalData(answer, None, username))] else [])
      ensures forall k :: k in old(peers) && k != userId ==> k in peers && peers[k] == old(peers)[k]
      ensures forall i :: 0 <= i < |outs| ==> outs[i].SendSignal? && outs[i].to == userId
      ensures closed == old(closed) && isScreenSharing == old(isScreenSharing) && screenStream == old(screenStream)
      ensures username == old(username) && hasSocket == old(hasSocket)
    {
      outs := [];
      if signal.None? {
        return;
      }
      var d := signal.value;
      var entry := if userId in peers then peers[userId]
                   else Peer(NewConn(nextSerial), if d.userName != "" then d.userName else UnknownName);
      var next := if userId in peers then nextSerial else nextSerial + 1;
      peers := peers[userId := entry.(conn := Applied(entry.conn, d, camera, answer))];
      nextSerial := next;
      if Answers(entry.conn, d, answer) {
        outs := [SendSignal(userId, SignalData(answer, None, username))];
      }
    }

    /** connectToNewUser: replaces any entry for the id with a new connection
        carrying the local tracks (the connection it replaces is not closed) and,
        when creating the offer succeeds (`offer` is its result), sends exactly one
        offer to that id. */
    method ConnectToNewUser(userId: string, userName: string, offer: Option<Sdp>) returns (outs: seq<Send>)
      requires Valid()
      modifies this
      ensures Valid()
      ensures peers == old(peers)[userId := Peer(AddTracks(NewConn(old(nextSerial)), camera).(local := offer), userName)]
      ensures nextSerial == old(nextSerial) + 1
      ensures outs == if offer.Some? then [SendSignal(userId, SignalData(offer, None, username))] else []
      ensures closed == old(closed) && isScreenSharing == old(isScreenSharing) && screenStream == old(screenStream)
      ensures username == old(username) && hasSocket == old(hasSocket)
    {
      var c := AddTracks(NewConn(nextSerial), camera);
      nextSerial := nextSerial + 1;
      outs := [];
      if offer.Some? {
        c := c.(local := offer);
        outs := [SendSignal(userId, SignalData(offer, None, username))];
      }
      peers := peers[userId := Peer(c, userName)];
    }

    /** The `user-disconnected` handler: a known peer's connection is closed and
        its entry removed; an unknown id changes nothing. */
    method UserDisconnected(userId: string)
      requires Valid()
      modifies this
      ensures Valid()
      ensures userId !in old(peers) ==> peers == old(peers) && closed == old(closed)
      ensures userId in old(peers) ==>
        peers == old(peers) - {userId} && closed == old(closed) + {old(peers)[userId].conn.serial}
      ensures nextSerial == old(nextSerial) && isScreenSharing == old(isScreenSharing) && screenStream == old(screenStream)
      ensures username == old(username) && hasSocket == old(hasSocket)
    {
      if userId in peers {
        closed := closed + {peers[userId].conn.serial};
        peers := peers - {userId};
      }
    }

    /** The `onconnectionstatechange` handler set up for `userId`: in state
        "disconnected" or "failed" it deletes whatever entry the id has now,
        without closing any connection. */
    method OnConnectionStateChange(userId: string, state: string)
      requires Valid()
      modifies this
      ensures Valid()
      ensures peers == if state == "disconnected" || state == "failed" then old(peers) - {userId} else old(peers)
      ensures closed == old(closed) && nextSerial == old(nextSerial)
      ensures isScreenSharing == old(isScreenSharing) && screenStream == old(screenStream)
      ensures username == old(username) && hasSocket == old(hasSocket)
    {
      if state == "disconnected" || state == "failed" {
        peers := peers - {userId};
      }
    }

    /** The `onicecandidate` handler set up for `userId`: a gathered candidate is
        sent to that id at once; the end-of-candidates event sends nothing. */
    method OnIceCandidate(userId: string, candidate: Option<string>) returns (outs: seq<Send>)
      ensures |outs| == if candidate.Some? then 1 else 0
      ensures forall i :: 0 <= i < |outs| ==> outs[i] == SendSignal(userId, SignalData(None, candidate, username))
    {
      outs := [];
      if candidate.Some? {
        outs := [SendSignal(userId, SignalData(None, candidate, username))];
      }
    }

    /** The for-in loop both screen-share paths run: every peer's video sender, where
        there is one, is pointed at `t`; no entry is added or removed. */
    method ReplaceVideoTrack(t: Option<string>)
      requires Valid()
      modifies this
      ensures Valid()
      ensures peers == WithVideo(old(peers), t)
      ensures closed == old(closed) && nextSerial == old(nextSerial)
      ensures isScreenSharing == old(isScreenSharing) && screenStream == old(screenStream)
      ensures username == old(username) && hasSocket == old(hasSocket)
    {
      var todo := peers.Keys;
      while todo != {}
        invariant todo <= peers.Keys && peers.Keys == old(peers).Keys
        invariant forall k :: k in peers ==> peers[k] == if k in todo then old(peers)[k] else Switched(old(peers)[k], t)
        invariant closed == old(closed) && nextSerial == old(nextSerial)
        invariant isScreenSharing == old(isScreenSharing) && screenStream == old(screenStream)
        invariant username == old(username) && hasSocket == old(hasSocket)
        decreases todo
      {
        var k :| k in todo;
        var p := peers[k];
        if p.conn.video.Some? {
          peers := peers[k := p.(conn := p.conn.(video := t))];
        }
        todo := todo - {k};
      }
      assert peers == WithVideo(old(peers), t);
    }

    /** stopScreenSharing: once any screen stream has been obtained, puts the
        camera track back on every peer, clears the flag and announces the stop;
        before that it does nothing. */
    method StopScreenSharing() returns (outs: seq<Send>)
      requires Valid()
      modifies this
      ensures Valid()
      ensures old(screenStream).None? ==> peers == old(peers) && isScreenSharing == old(isScreenSharing) && outs == []
      ensures old(screenStream).Some? ==>
        peers == WithVideo(old(peers), camera) && !isScreenSharing && outs == [SendScreenShareStopped]
      ensures peers.Keys == old(peers).Keys
      ensures screenStream == old(screenStream) && closed == old(closed) && nextSerial == old(nextSerial)
      ensures username == old(username) && hasSocket == old(hasSocket)
    {
      outs := [];
      if screenStream.Some? {
        ReplaceVideoTrack(camera);
        isScreenSharing := false;
        outs := [SendScreenShareStopped];
      }
    }

    /** toggleScreen: when not sharing, a screen obtained from the browser
        (`display`, None when the request fails) replaces every video sender's
        track, sets the flag and is announced; a failed request changes nothing.
        When sharing, it stops. */
    method ToggleScreen(display: Option<string>) returns (outs: seq<Send>)
      requires Valid()
      modifies this
      ensures Valid()
      ensures !old(isScreenSharing) && display.None? ==>
        peers == old(peers) && isScreenSharing == old(isScreenSharing) && screenStream == old(screenStream) && outs == []
      ensures !old(isScreenSharing) && display.Some? ==>
        && peers == WithVideo(old(peers), display) && isScreenSharing && screenStream == display
        && outs == [SendScreenShareStarted]
      ensures old(isScreenSharing) ==>
        peers == WithVideo(old(peers), camera) && !isScreenSharing && screenStream == old(screenStream)
        && outs == [SendScreenShareStopped]
      ensures peers.Keys == old(peers).Keys
      ensures closed == old(closed) && nextSerial == old(nextSerial)
      ensures username == old(username) && hasSocket == old(hasSocket)
    {
      outs := [];
      if !isScreenSharing {
        if display.Some? {
          screenStream := display;
          ReplaceVideoTrack(display);
          isScreenSharing := true;
          outs := [SendScreenShareStarted];
        }
      } else {
        outs := StopScreenSharing();
      }
    }

    /** leaveMeeting: disconnects the socket if there is one and closes every
        connection in the table, leaving the table itself as it is. */
    method LeaveMeeting() returns (outs: seq<Send>)
      requires Valid()
      modifies this
      ensures Valid()
      ensures outs == if old(hasSocket) then [SendDisconnect] else []
      ensures closed == old(closed) + Serials(old(peers))
      ensures peers == old(peers) && nextSerial == old(nextSerial)
      ensures isScreenSharing == old(isScreenSharing) && screenStream == old(screenStream)
      ensures username == old(username) && hasSocket == old(hasSocket)
    {
      outs := if hasSocket then [SendDisconnect] else [];
      var todo := peers.Keys;
      while todo != {}
        invariant todo <= peers.Keys
        invariant closed == old(closed) + set k | k in peers && k !in todo :: peers[k].conn.serial
        invariant peers == old(peers) && nextSerial == old(nextSerial)
        invariant isScreenSharing == old(isScreenSharing) && screenStream == old(screenStream)
        invariant username == old(username) && hasSocket == old(hasSocket)
        decreases todo
      {
        var k :| k in todo;
        closed := closed + {peers[k].conn.serial};
        todo := todo - {k};
      }
    }

    /** sendMessage: sends and echoes the trimmed input under the user's own name,
        and sends nothing when the input is empty or only white space. */
    method SendMessage(input: string) returns (outs: seq<Send>)
      ensures outs == [] <==> AllSpace(input)
      ensures outs != [] ==> outs == [SendChat(Trim(input), username)] && Trim(input) != []
    {
      var message := Trim(input);
      outs := [];
      if message != "" {
        outs := [SendChat(message, username)];
      }
    }
  }

  /** The meeting timer's display. */
  datatype Clock = Clock(hours: nat, minutes: nat, seconds: nat)

  /** The character of one decimal digit. */
  function DigitChar(d: nat): (c: char)
    requires d < 10
    ensures '0' <= c <= '9'
  {
    ('0' as int + d) as char
  }

  /** Every character is a decimal digit. */
  predicate IsDecimal(s: string) {
    forall i :: 0 <= i < |s| ==> '0' <= s[i] <= '9'
  }

  /** The value of a string of decimal digits. */
  function ValueOf(s: string): nat
    requires IsDecimal(s)
  {
    if s == [] then 0 else ValueOf(s[..|s| - 1]) * 10 + (s[|s| - 1] as int - '0' as int)
  }

  /** `n.toString()` for a non-negative integer: non-empty decimal digits with no
      leading zero. */
  function Digits(n: nat): (s: string)
    ensures |s| >= 1 && IsDecimal(s)
    ensures |s| == 1 || s[0] != '0'
    ensures n < 10 <==> |s| == 1
  {
    if n < 10 then [DigitChar(n)] else Digits(n / 10) + [DigitChar(n % 10)]
  }

  /** Reading back what `Digits` writes gives the number. */
  lemma {:induction false} ValueOfDigits(n: nat)
    ensures ValueOf(Digits(n)) == n
  {
    if n >= 10 {
      var s := Digits(n);
      assert s[..|s| - 1] == Digits(n / 10);
      ValueOfDigits(n / 10);
    }
  }

  /** A leading zero does not change the value. */
  lemma LeadingZero(s: string)
    requires IsDecimal(s)
    ensures IsDecimal("0" + s) && ValueOf("0" + s) == ValueOf(s)
    decreases |s|
  {
    var z := "0" + s;
    if s != [] {
      assert z[..|z| - 1] == "0" + s[..|s| - 1];
      LeadingZero(s[..|s| - 1]);
    }
  }

  /** `n.toString().padStart(2, '0')`: at least two digits, reading back as `n`,
      and exactly the plain digits once `n` has two of its own. */
  function Pad2(n: nat): (s: string)
    ensures |s| >= 2 && IsDecimal(s) && ValueOf(s) == n
    ensures n < 100 ==> |s| == 2
    ensures n >= 10 ==> s == Digits(n)
  {
    ValueOfDigits(n);
    var d := Digits(n);
    if n >= 10 then
      assert n >= 100 ==> |Digits(n / 10)| >= 2;
      d
    else
      LeadingZero(d);
      "0" + d
  }

  /** The fields the timer shows after `diff` milliseconds: whole hours, then the
      minutes and seconds within them. */
  function Elapsed(diff: nat): (k: Clock)
    ensures k.minutes < 60 && k.seconds < 60
    ensures k.hours * 3600 + k.minutes * 60 + k.seconds == diff / 1000
  {
    var t := diff / 1000;
    DivDiv(diff, 1000, 60);
    DivDiv(diff, 1000, 3600);
    DivDiv(t, 60, 60);
    var k := Clock(diff / (1000 * 60 * 60), (diff / (1000 * 60)) % 60, (diff / 1000) % 60);
    assert k.hours == t / 60 / 60 && k.minutes == (t / 60) % 60 && k.seconds == t % 60;
    k
  }

  /** The timer text `HH:MM:SS`: the padded hours, minutes and seconds of
      `Elapsed(diff)` between two colons, eight characters until 100 hours. */
  function TimerText(diff: nat): (s: string)
    ensures var k := Elapsed(diff);
      && |s| == |Pad2(k.hours)| + 6
      && s[..|s| - 6] == Pad2(k.hours) && s[|s| - 6] == ':'
      && s[|s| - 5..|s| - 3] == Pad2(k.minutes) && s[|s| - 3] == ':'
      && s[|s| - 2..] == Pad2(k.seconds)
    ensures diff < 100 * 3600000 ==> |s| == 8
  {
    var k := Elapsed(diff);
    Pad2(k.hours) + ":" + Pad2(k.minutes) + ":" + Pad2(k.seconds)
  }

  /** `s` is a timer text showing the clock `c`: decimal hours before the first
      of two colons, then two decimal digits of minutes and two of seconds. */
  predicate ShowsClock(s: string, c: Clock) {
    && |s| >= 8 && s[|s| - 6] == ':' && s[|s| - 3] == ':'
    && IsDecimal(s[..|s| - 6]) && IsDecimal(s[|s| - 5..|s| - 3]) && IsDecimal(s[|s| - 2..])
    && ValueOf(s[..|s| - 6]) == c.hours
    && ValueOf(s[|s| - 5..|s| - 3]) == c.minutes
    && ValueOf(s[|s| - 2..]) == c.seconds
  }

  /** The timer text reads back as the elapsed time: it shows `Elapsed(diff)`, and
      any clock it shows has minutes and seconds below 60 and adds up to the whole
      seconds elapsed. */
  lemma TimerTextReadsBack(diff: nat)
    ensures ShowsClock(TimerText(diff), Elapsed(diff))
    ensures forall c :: ShowsClock(TimerText(diff), c) ==>
      c.minutes < 60 && c.seconds < 60 && c.hours * 3600 + c.minutes * 60 + c.seconds == diff / 1000
  {
    var k := Elapsed(diff);
    var hs, ms, ss := Pad2(k.hours), Pad2(k.minutes), Pad2(k.seconds);
    var s := TimerText(diff);
    assert s[..|s| - 6] == hs;
    assert s[|s| - 5..|s| - 3] == ms;
    assert s[|s| - 2..] == ss;
    assert ShowsClock(s, k);
    forall c | ShowsClock(s, c) ensures c == k {
    }
  }
}
