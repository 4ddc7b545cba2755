# MyMeet: room and peer bookkeeping, in Dafny

MyMeet is a small browser video-meeting product: a Node/socket.io server keeps
rooms of participants and relays WebRTC signalling and chat, and two generations
of browser pages keep a table of peer connections. This project models the
in-memory bookkeeping of all of them and proves what each handler does to its
tables and what it sends.

- `common.dfy` (`Common`): shared vocabulary. It has `Option`, connection ids, roster entries, and outbound events (`Emit`: a target plus an event name and arguments). A target is one connection (`socket.emit`, or `io.to(id)` read as that one socket) or "the room except the sender"; `MayReach` says who a target can reach.
- `text.dfy` (`Text`): `String.prototype.trim`, with ECMAScript's white-space set.
- `history.dfy` (`History`): the 100-message chat log kept by `server/socket.js` and `server/utils/roomManager.js` (push, then one shift on overflow); `server.js` keeps no log.
- `arith.dfy` (`Arithmetic`): division facts used by the timer and the grid rule.
- `room_manager.dfy` (`RoomManager`): the standalone registry of `server/utils/roomManager.js`, as a class whose methods update `activeRooms`.
- `socket_server.dfy` (`SocketServer`): the socket.io handlers of `server/socket.js`. It has the `rooms` table, the per-socket `roomId`/`username` fields, and the `xss` filter as a constant of the server.
- `prototype_server.dfy` (`PrototypeServer`): the earlier server in `server.js`, with an ordered roster per room. Each `join-room` call registers its own disconnect and relay handlers, closing over that call's ids. The model keeps one binding per call, and a later event runs once per binding, in order.
- `room_page.dfy` (`RoomPage`): the meeting page of `public/js/room.js`. It covers the `peers` table, signal handling, screen sharing, leaving, the chat send guard and the `HH:MM:SS` timer.
- `meet_page.dfy` (`MeetPage`): the meeting page of `public/script.js`. It covers the `peers`/`streams` tables, the idempotent `createPeerConnection`, the microphone and camera switches (arrays of track `enabled` flags), leaving, and the grid's column rule.
- `landing.dfy` (`Landing`): the landing page's meeting-id clean-up (trim, then the last `/` piece of the split) and the meeting page address.

Each browser RTCPeerConnection is a value record. It holds a serial number that tells connections apart, plus what the page has applied to it. `close()` is recorded by adding the serial to a `closed` set. The following are parameters:

- the clock (`Date.now`, `new Date()`) and `uuidv4`;
- the random id generators and the `xss` filter;
- the outcome of the browser's asynchronous calls (createOffer, createAnswer, getDisplayMedia).

The model follows the code as written, including these behaviours:

- `public/js/room.js` applies an ICE candidate at once. It has no pending-candidate queue and no glare tie-break (`RoomPage.Meeting.HandleSignal`).
- An offer that reaches a connection already holding the local tracks makes `addTrack` throw (public/js/room.js:244, public/js/webrtc.js:71). This covers a renegotiation from the same peer and the first offer on a connection that `connectToNewUser` built. The handler then stops after setting the remote description: no answer, no send, and the payload's candidate is not applied (`RoomPage.Rejects`, `RoomPage.Applied`, `RoomPage.OfferToOffererIgnored`).
- `connectToNewUser` replaces an existing entry and does not close the connection it replaces.
- In `server/socket.js`, the room id "" is falsy. A socket that joined room "" gets a user entry, but chat and disconnect skip it, so that entry is never removed.
- A second `join-room` moves `socket.roomId` and leaves the earlier room's entry behind.
- In `server.js`, a repeated join does not add a second entry, but each join registers one more set of handlers. So a disconnect after two joins runs the removal twice, and an offer is relayed once per join.
- In `public/script.js`, the offer and answer sends after `createOffer`/`createAnswer` name variables that are out of scope. They never run, and the model sends nothing there.

## Model

| member | source | states |
|---|---|---|
| Text.Trim | public/js/room.js:564 | the result is empty iff the input is all white space; otherwise its first and last characters are not white space |
| Text.TrimIsInfix | public/js/landing.js:16 | trim cuts exactly a white-space prefix and a white-space suffix off the input |
| History.Push | server/utils/roomManager.js:95-106 | a log within the bound stays within it and is the last 100 of old log plus message; below the bound it is a plain append; the new message is last |
| History.PushAllKeepsRecent | server/socket.js:73-83 | after any sequence of appends the log is exactly the most recent 100 messages of everything appended, in order |
| RoomManager.Registry.constructor | server/utils/roomManager.js:5 | the registry starts with no rooms |
| RoomManager.Registry.CreateOrGetRoom | server/utils/roomManager.js:12-29 | returns the supplied (truthy) id or the generated one; an existing room is untouched; a new id gets a room with no users, no messages and the current time |
| RoomManager.Registry.AddUserToRoom | server/utils/roomManager.js:47-59 | false and no change for an absent room; otherwise sets (overwriting) the user's entry, so the user ids become the old ones plus this id |
| RoomManager.Registry.RemoveUserFromRoom | server/utils/roomManager.js:67-80 | false and no change unless room and user exist; otherwise the user is gone, the room is deleted iff that user was its only one, other rooms are unchanged |
| RoomManager.Registry.AddMessageToRoom | server/utils/roomManager.js:90-109 | false and no change for an absent room; otherwise the log becomes the last 100 of the old log plus the new message |
| RoomManager.Registry.GetRoomMessages | server/utils/roomManager.js:116-122 | [] for an absent room, the room's log otherwise, never longer than 100 |
| RoomManager.Registry.GetRoomUsers | server/utils/roomManager.js:129-135 | {} for an absent room, the room's users otherwise, each stored under its own id |
| RoomManager.Registry.RoomExists | server/utils/roomManager.js:142-144 | true iff the registry has the key; for an absent room the getters give no users and no messages |
| RoomManager.Registry.CleanupInactiveRooms | server/utils/roomManager.js:150-161 | a room survives iff it is not both older than maxAge and empty; survivors are unchanged |
| SocketServer.LeaverName | server/socket.js:130 | the stored name when there is a non-empty one; 'Unknown' for a missing entry and for an empty stored name; never empty |
| SocketServer.Replay | server/socket.js:47-51 | one chat-message per stored message, in stored order, each reaching only the joiner |
| SocketServer.Server.constructor | server/socket.js:4-6 | no rooms and no socket fields; the sanitiser is the one supplied |
| SocketServer.Server.JoinedRoom | server/socket.js:62-64 | a room id is present iff the socket's `roomId` is set and non-empty, and it is then that id |
| SocketServer.Server.Rebroadcast | server/socket.js:91-120 | one event iff the socket has a room, to that room, never reaching the sender |
| SocketServer.Server.JoinRoom | server/socket.js:16-52 | creates the room if absent, stores the sanitised user under the socket id, keeps the log, points the socket at the room; user-connected never reaches the joiner, then every stored message is replayed to the joiner only; every room stays non-empty |
| SocketServer.Server.Signal | server/socket.js:55-58 | exactly one signal, reaching exactly the addressed id (read as one connection), carrying the sender id and the unchanged payload |
| SocketServer.Server.ChatMessage | server/socket.js:61-88 | no change and no emission without a room; otherwise the log gets the bounded append when the room exists, and the message goes to the others only |
| SocketServer.Server.VideoStateChange | server/socket.js:91-96 | the rebroadcast as user-video-state-change |
| SocketServer.Server.AudioStateChange | server/socket.js:99-104 | the rebroadcast as user-audio-state-change |
| SocketServer.Server.ScreenShareStarted | server/socket.js:107-112 | the rebroadcast as user-screen-share-started |
| SocketServer.Server.ScreenShareStopped | server/socket.js:115-120 | the rebroadcast as user-screen-share-stopped |
| SocketServer.Server.Disconnect | server/socket.js:123-142 | removes the user, tells the others with the stored name or 'Unknown', and deletes the room iff no other user remains; every room stays non-empty |
| PrototypeServer.Find | server.js:45 | None iff no entry has the id; otherwise the entry at some index holding that id with no earlier entry holding it, i.e. the first one |
| PrototypeServer.Without | server.js:51 | exactly the entries with another id; unchanged when no entry has the id |
| PrototypeServer.WithoutAppend | server.js:63 | filtering keeps the survivors in list order (it distributes over concatenation) |
| PrototypeServer.WithoutKeepsUnique | server.js:63 | filtering a roster with unique ids keeps the ids unique |
| PrototypeServer.SenderName | server.js:78-81 | the roster's non-empty name for the sender; 'Inconnu' when the room or the entry is missing and when the found name is empty |
| PrototypeServer.Joined | server.js:41-47 | the joiner is appended unless an entry with that id exists, in which case the roster is unchanged; never creates a duplicate id |
| PrototypeServer.Leave | server.js:59-74 | when the room exists: removes the id's entries, tells the others, and the room exists afterwards iff entries remain; other rooms untouched |
| PrototypeServer.LeaveKeepsWellFormed | server.js:62-71 | one disconnect handler keeps every room non-empty and free of duplicate ids |
| PrototypeServer.JoinKeepsWellFormed | server.js:41-47 | one join keeps every room non-empty and free of duplicate ids |
| PrototypeServer.LeaveAll | server.js:59-74 | the disconnect handlers run in registration order create no room, send at most one notice each, and every notice is a `user-disconnected` that misses the leaver |
| PrototypeServer.LeaveAllKeepsWellFormed | server.js:59-74 | all of a socket's disconnect handlers together keep the table well formed |
| PrototypeServer.LeaveAllOnlyTouchesBoundRooms | server.js:59-74 | a room none of the socket's joins named is left as it was |
| PrototypeServer.Relay | server.js:77-95 | one emission per registered handler, in registration order |
| PrototypeServer.Server.constructor | server.js:16 | no rooms and no handlers |
| PrototypeServer.Server.JoinRoom | server.js:36-57 | the roster gets the joiner only if absent; the joiner alone gets the roster without its own id, in roster order; the others get user-connected; one more handler set is registered |
| PrototypeServer.Server.Disconnect | server.js:59-74 | runs the socket's disconnect handlers in order; the table stays well formed |
| PrototypeServer.Server.Offer | server.js:77-82 | per handler, one offer reaching only the target (read as one connection), with the name its room's roster gives the sender or 'Inconnu' |
| PrototypeServer.Server.Answer | server.js:84-89 | per handler, one answer reaching only the target (read as one connection), with the sender id and the unchanged payload |
| PrototypeServer.Server.Candidate | server.js:91-95 | per handler, one candidate reaching only the target (read as one connection), with the sender id and the unchanged payload |
| RoomPage.AddTracks | public/js/webrtc.js:67-73 | one more track addition is recorded; an existing video sender keeps its track, otherwise the camera track is sent |
| RoomPage.Applied | public/js/room.js:236-260 | the same connection; the description is appended; an offer to a connection that already holds the tracks changes nothing else; otherwise the candidate is appended, an offer adds the tracks, and a created answer becomes the local description |
| RoomPage.OfferToOffererIgnored | public/js/room.js:240-248 | an offer to a connection built by `connectToNewUser` is not answered: the page's own offer remains the local description and the payload's candidate is dropped |
| RoomPage.WithVideo | public/js/room.js:486-494 | same ids, names and connections; only the video sender's track changes, and only where there is one |
| RoomPage.StopAfterShareRestoresCamera | public/js/room.js:476-550 | sharing then stopping leaves every peer as if the camera track had been set directly |
| RoomPage.Serials | public/js/room.js:628-630 | exactly the serial numbers of the table's connections |
| RoomPage.Meeting.constructor | public/js/room.js:3-14 | no peers, not sharing, no screen stream, no socket |
| RoomPage.Meeting.JoinMeeting | public/js/room.js:156-180 | the trimmed name is stored even when empty; the page connects iff it is non-empty |
| RoomPage.Meeting.HandleSignal | public/js/room.js:223-261 | an unparsable payload changes nothing; an unknown id gets exactly one new entry named by the signal or 'Unknown'; a known entry is reused; the payload is applied to the connection as `Applied` says; one answer goes back to the same id iff the offer was not rejected by `addTrack` and the answer was created |
| RoomPage.Meeting.ConnectToNewUser | public/js/room.js:294-316 | the id's entry becomes a new connection with the local tracks; one offer to that id iff the offer was created |
| RoomPage.Meeting.UserDisconnected | public/js/room.js:198-206 | a known id's connection is closed and only its entry removed; an unknown id changes nothing |
| RoomPage.Meeting.OnConnectionStateChange | public/js/room.js:284-290 | 'disconnected' or 'failed' removes the id's entry without closing; other states change nothing |
| RoomPage.Meeting.OnIceCandidate | public/js/room.js:268-275 | at most one send, exactly one iff a candidate was gathered, and it is a signal to that peer's id carrying only that candidate |
| RoomPage.Meeting.ReplaceVideoTrack | public/js/room.js:486-494 | the table becomes `WithVideo` of the old table: no entry added or removed |
| RoomPage.Meeting.StopScreenSharing | public/js/room.js:522-551 | no-op before any screen stream; otherwise camera back on every peer, flag cleared, stop announced |
| RoomPage.Meeting.ToggleScreen | public/js/room.js:475-519 | not sharing: a granted screen replaces every video track, sets the flag and is announced, a refusal changes nothing; sharing: stops |
| RoomPage.Meeting.LeaveMeeting | public/js/room.js:612-634 | disconnects when there is a socket and closes every connection, leaving the table |
| RoomPage.Meeting.SendMessage | public/js/room.js:563-571 | nothing is sent iff the input is empty or white space; otherwise the trimmed text under the user's name |
| RoomPage.Digits | public/js/room.js:644-646 | `toString()`: non-empty decimal digits, no leading zero, one digit iff below 10 |
| RoomPage.ValueOfDigits | public/js/room.js:644-646 | reading the digits back gives the number |
| RoomPage.Pad2 | public/js/room.js:644-646 | `padStart(2, '0')`: at least two digits, exactly two below 100, reading back as the number, the plain digits from 10 on |
| RoomPage.Elapsed | public/js/room.js:642-646 | minutes and seconds below 60, and hours*3600 + minutes*60 + seconds is the whole seconds elapsed |
| RoomPage.TimerText | public/js/room.js:640-648 | the padded hours, minutes and seconds of `Elapsed` separated by two colons; eight characters below 100 hours |
| RoomPage.TimerTextReadsBack | public/js/room.js:640-648 | the text shows the `Elapsed` clock (decimal hours, two-digit minutes and seconds between two colons), and every clock it shows has minutes and seconds below 60 adding up to the whole seconds elapsed |
| MeetPage.DisplayName | public/script.js:53 | the address's non-empty user; 'Utilisateur Anonyme' when `user` is absent or empty |
| MeetPage.Created | public/script.js:156-169 | an existing entry is kept and nothing changes; otherwise exactly one new entry for the id |
| MeetPage.CreatedIdempotent | public/script.js:157-160 | creating twice for the same id is creating once |
| MeetPage.Serials | public/script.js:280-284 | exactly the serial numbers of the table's connections |
| MeetPage.OthersListed | public/script.js:74-76 | exactly the listed ids other than the page's own |
| MeetPage.Columns | public/script.js:236-251 | at most 4 columns, exactly n for n up to 4, at least 1 once there is a tile |
| MeetPage.RawColumns | public/script.js:239-242 | one column per tile up to three tiles; at least one column once there is a tile |
| MeetPage.RawColumnsFit | public/script.js:240-246 | from 4 tiles on, the uncapped rule already gives at most 4 columns, and those columns over ceil(n/4) rows hold every tile |
| MeetPage.Meet.constructor | public/script.js:35-59 | empty tables, both switches on, no local stream, the user name from the address |
| MeetPage.Meet.MediaReady | public/script.js:62-69 | the local stream is kept under 'local' with all tracks enabled, and join-room is sent |
| MeetPage.Meet.CreatePeerConnection | public/script.js:156-202 | returns at once for a known id; otherwise adds exactly one entry |
| MeetPage.Meet.AllUsers | public/script.js:72-89 | the table's ids become the old ones plus every listed id other than the page's own; old entries kept; nothing is sent |
| MeetPage.Meet.OnOffer | public/script.js:115-130 | creates the sender's entry unless it exists and applies the offer; nothing is sent |
| MeetPage.Meet.OnAnswer | public/script.js:132-138 | applied to a known sender's connection only |
| MeetPage.Meet.OnCandidate | public/script.js:140-146 | applied to a known sender's connection only |
| MeetPage.Meet.OnIceCandidate | public/script.js:184-189 | at most one send, exactly one iff a candidate was gathered, and it is that candidate addressed to the connection's target from the page's id |
| MeetPage.Meet.OnTrack | public/script.js:177-181 | the remote stream is stored under the target id |
| MeetPage.Meet.UserDisconnected | public/script.js:99-112 | the id leaves both tables, its connection closed if it had one; other ids untouched |
| MeetPage.Meet.SetAll | public/script.js:256 | every track's `enabled` becomes the given flag |
| MeetPage.Meet.ToggleMic | public/script.js:254-261 | the flag flips and every audio track takes it; without a local stream only the flag flips |
| MeetPage.Meet.ToggleCam | public/script.js:263-276 | the flag flips and every video track takes it; without a local stream only the flag flips |
| MeetPage.Meet.Leave | public/script.js:278-297 | every connection is closed, the table is empty, the socket disconnects |
| Landing.Split | public/js/landing.js:25 | at least one piece, none holding the separator, one piece iff the text has no separator |
| Landing.JoinSplit | public/js/landing.js:25 | joining the pieces gives the text back |
| Landing.SplitJoin | public/js/landing.js:25 | splitting a join of separator-free pieces gives the pieces back |
| Landing.LastPart | public/js/landing.js:25-26 | the text after the last separator: no separator, a suffix, preceded by a separator when there is one |
| Landing.LastPartIsLastPiece | public/js/landing.js:25-26 | the text after the last separator is the split's last piece |
| Landing.CleanId | public/js/landing.js:24-27 | no '/', a suffix of the text, the text itself when it has no '/' |
| Landing.MeetingId | public/js/landing.js:14-27 | the cleaned trimmed input, or the cleaned generated id for blank input; never a '/'; the trimmed input itself when it has none; empty when it ends in '/' |
| Landing.RoomUrl | public/js/landing.js:29 | '/room.html?room=' followed by the id, which reads back unchanged |

## Left out

- DOM work: video tiles, icons, notifications, chat rendering, button states, the copy-link button, and the preview toggles of `public/js/room.js`.
- The in-meeting `toggleVideo`/`toggleAudio` of `public/js/room.js` (room.js:411-473) are not modelled. They flip the `enabled` flag of the first local video or audio track, which the model does not keep, and they send `video-state-change`/`audio-state-change` with the new flag (room.js:437, 469). Those two sends are not modelled either; the server side of them is `SocketServer.Server.VideoStateChange`/`AudioStateChange`.
- `public/js/webrtc.js` is not part of this model. Its calls are record updates on the connection value, or outcomes passed in as parameters. A failed `setRemoteDescription`/`addIceCandidate` is only logged there, so the model applies the payload either way.
- `createPeerConnection` returning null is not modelled.
- `RoomPage.AddTracks` is only applied to a connection that does not hold the local tracks; the throwing case is decided by its caller (`RoomPage.Rejects`). The unhandled rejection of the handler's promise has no effect beyond stopping it.
- `server/server.js` and the Express/static routes of `server.js`.
- socket.io delivery: room membership from `socket.join`, ordering and delivery guarantees. Emissions are returned records, and `MayReach` only rules out the sender.
- A target of `io.to(x)` is socket.io's room named `x`. This is every socket that joined a room with that name, including the sender if it did, as well as the socket whose id is `x`. The model reads such a target as the single connection `x` (`ToConn`), so the "reaches exactly the addressed id" clauses below hold only when no socket joined a room whose name is that id.
- SocketServer.Server.Signal: the signal reaches exactly `userId` only under the `ToConn` reading above (server/socket.js:57).
- PrototypeServer.Server.Offer: each offer reaches exactly the target only under the `ToConn` reading above (server.js:81).
- PrototypeServer.Server.Answer: each answer reaches exactly the target only under the `ToConn` reading above (server.js:88).
- PrototypeServer.Server.Candidate: each candidate reaches exactly the target only under the `ToConn` reading above (server.js:94).
- Asynchronous interleaving: handlers run to completion one at a time. An entry deleted while a negotiation awaits is not modelled.
- The page redirects when the address has no room (`initialize`, `handleMeetPage`). `MeetPage.Meet.constructor` requires a room id instead. `public/js/room.js` takes the room from the address, which is not modelled.
- `handleCreateMeeting` is `Landing.RoomUrl` applied to a generated id, and is not a separate member. URL encoding of the id is absent in the source and in the model.
- Track `stop()` calls on leave and stop-sharing. The model has no track lifetime.
- `RoomManager.Registry.GetRoomMessages` and `GetRoomUsers` return values, not live references into the table, so aliasing through a caller's copy is not modelled.
- `RoomPage.Elapsed` takes a non-negative elapsed time. A clock that goes backwards would give a negative difference, and that case is not modelled.
- JavaScript prototype keys (`peers['constructor']` and similar) are not modelled. Every table is a plain map.
- `RoomPage.Meeting.HandleSignal`: an absent `userName` and an empty one are the same value (""), as both are falsy in the source.
- The socket handlers of `public/script.js` (`all-users`, `user-disconnected`, `offer`, `answer`, `candidate`) are registered only once `getUserMedia` has delivered the stream (public/script.js:62-147), so the model's `AllUsers`, `UserDisconnected`, `OnOffer`, `OnAnswer` and `OnCandidate` require `hasLocal`.
- `MeetPage.Meet` fixes `selfId` when the page is built. In the source `socket.id` is undefined until the socket connects and changes on every reconnection (public/script.js:69, 75), so a `join-room` sent before connecting carries no id and a reconnection is not modelled.
- `MeetPage.Meet.AllUsers` and `MeetPage.Meet.OnOffer` send nothing. Their offer and answer sends name variables that are out of scope (public/script.js:83, 126), so they never happen. The local descriptions those chains set are not recorded.
