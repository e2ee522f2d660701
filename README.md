# WebRTC signalling relay: a Dafny model

This project models the signalling server of a small video-call application
(`server.js`). The server does not carry media. It keeps socket.io's room
store, and for each connection event it sends WebRTC signalling messages to
the connections concerned:

- `JOIN` of a room: both sides of every new pair get an `ADD_PEER`
  introduction. The joiner is asked to make the offer; each existing member is
  not.
- `LEAVE`: `REMOVE_PEER` teardown notices are sent for every room the
  connection is in.
- `RELAY_SDP` and `RELAY_ICE`: the handshake payload is forwarded unchanged to
  the target, tagged with the sender's id.
- After every connect, non-duplicate join and leave, a `SHARE_ROOMS` directory is
  broadcast.
  It lists the rooms whose names are version-4 UUIDs.

The model has five modules:

- `Sequences`: duplicate-free sequences, standing in for JavaScript `Set`s in
  insertion order.
- `Uuid`: the room-name test.
- `RoomAdapter`: socket.io's in-memory room store, with its `addAll`, `del`
  and `delAll`.
- `Protocol`: the events, and what each handler sends as a pure function of
  the room store, with the lemmas about them.
- `SignalServer`: a class `Server`.
  - Its fields are the room store, the live connections and an outbox of every
    delivery made.
  - It has one method per listener.
  - Each method is proved to change the store and the outbox exactly as the
    `Protocol` functions say, and to keep the store's invariant.

Every `emit` becomes a sequence of `Delivery(to, event)` values, one per
receiving connection, in the order socket.io would send them.

## Assumptions about code outside `server.js`

- socket.io's room store behaves as follows (socket.io-adapter version 2):
  - A connection is put in the room named by its own id before the
    `connection` handler runs.
  - `io.to(x)` addresses the ROOM `x`, so it reaches every member of that room,
    or nobody if no such room exists.
  - `io.emit` reaches every connection in the order they connected.
  - A room is deleted when its last member leaves.
  - When a connection closes, socket.io removes it from all of its rooms and
    sends nothing.
- The `uuid` package's `validate(id) && version(id) === 4` accepts the
  canonical 8-4-4-4-12 hexadecimal layout with version digit 4 and variant
  digit 8, 9, a or b. See sections 4.1.1 and 4.1.3 of RFC 4122. This is
  `Uuid.IsUuidV4`.
- socket.io connection ids are 20 characters long, so no connection id is
  ever a UUID.
- The `ACTIONS` event names (src/models/socket-actions.js) are not part of
  this model. The model names the events by constructor (`AddPeer`,
  `RemovePeer`, and so on).

Two places where the code does not do what its own structure shows was
meant. The model follows the code as written in both, and models the intended
behaviour beside it (see "## Findings"):

- server.js:70-71 registers the same `leaveRoom` for `LEAVE` and for a
  connection-close event, so cleanup on close is clearly meant. But the event
  name used, `'disconnection'`, is one socket.io never emits.
- src/hooks/web/useWebRTC.js:145-149 sends `LEAVE` on the shared socket when
  the room changes, and the hook sends `JOIN` again for the next room. But
  `leaveRoom` also leaves the connection's own-id room, and that breaks the
  rejoin.

## Model

| member | source | states |
|---|---|---|
| Sequences.Remove | server.js:64 | taking a connection out of a member list keeps every other element and only those, and never lengthens the list |
| Sequences.RemoveNoDup | server.js:64 | removing from a duplicate-free list (a JavaScript `Set`) leaves it duplicate-free |
| Sequences.AddUnique | server.js:44 | `Set.prototype.add` inside `socket.join`: the element is appended unless already present. Membership is the old list plus the element, and a duplicate-free list stays duplicate-free |
| RoomAdapter.Members | server.js:30 | the member list of a room read as an array, as also at server.js:52. It is empty when the room does not exist. `RoomAdapter.Valid` ties it to `Joined` |
| RoomAdapter.Joined | server.js:24-26 | `socket.rooms.has(roomID)`: the duplicate-join guard. Under the store invariant it holds exactly when the connection is among `Members` of the room |
| RoomAdapter.AddAll | server.js:44 | `socket.join`: the connection is added to the room's member list and the room to its own list, and a new room is appended to the key order. `RoomAdapter.AddAllEffect` states its properties |
| RoomAdapter.Del | server.js:64 | `socket.leave`: the connection is removed from the room and the room from its list, and the room is deleted once empty. `RoomAdapter.DelEffect` states its properties |
| RoomAdapter.DelEach | server.js:51-65 | `Del` for each room of a list in turn. `RoomAdapter.DelEachEffect` states its properties |
| RoomAdapter.DelAll | server.js:71 | socket.io's cleanup when a connection closes: `DelEach` over the connection's rooms, then the connection is forgotten (its entry is gone). `RoomAdapter.DelAllEffect` states its properties |
| RoomAdapter.AddAllEffect | server.js:44 | `socket.join` keeps the room store consistent, puts the connection in the room, appends the room to the end of the connection's room list unless it is already there, changes no other room, and appends a new room at the end of the key order |
| RoomAdapter.DelEffect | server.js:64 | `socket.leave` of one room keeps the store consistent, takes the connection out of that room only, and leaves other connections' room lists alone |
| RoomAdapter.DelEachEffect | server.js:51-65 | leaving several rooms in turn takes the connection out of exactly those rooms |
| RoomAdapter.DelAllEffect | server.js:71 | closing a connection removes it from every room and forgets it, while every other connection keeps its room list |
| Uuid.Examples | server.js:97-99 | the room-name test accepts a version-4 id and rejects a version-1 id, a wrong variant, a socket.io id and free text |
| Uuid.IsUuidV4 | server.js:98 | the assumed meaning of `validate(id) && version(id) === 4`: 36 characters, hyphens at 8, 13, 18 and 23, hex digits elsewhere, version digit 4, variant digit 8, 9, a or b. `Uuid.Examples` checks it on sample names |
| Protocol.UuidRooms | server.js:97-99 | the filter keeps exactly the room names that pass the UUID test, without repeats. Its order is pinned by `Protocol.UuidRoomsAppend` and `Protocol.UuidRoomsSingle` |
| Protocol.UuidRoomsAppend | server.js:97-99 | filtering keeps key order: filtering a concatenation equals filtering each part and concatenating |
| Protocol.UuidRoomsSingle | server.js:98 | a single name is kept exactly when it passes the UUID test |
| Protocol.ClientRooms | server.js:94-100 | `getClientRooms`: the key list of the room store, filtered by `UuidRooms`. Every name it returns is a UUID and an existing key. `Protocol.ClientRoomsExact` states exactly what it lists |
| Protocol.Directory | server.js:102-106 | `shareRoomsInfo`: the `ClientRooms` list fanned out to every live connection. `Protocol.DirectoryReachesAll` states its properties |
| Protocol.RoomsOf | server.js:49-51 | `socket.rooms` as an array: the rooms the connection is in, in the order it entered them. `RoomAdapter.AddAllEffect`, `Protocol.JoinEffect` and `Protocol.LeaveEffect` state how it changes |
| Protocol.Fanout | server.js:103 | `io.emit`: one delivery of the same event to each target, in order. `Protocol.FanoutMembership` states its properties |
| Protocol.ToRoom | server.js:73-85 | `io.to(x).emit(e)`: the event for every member of room `x`. `Protocol.RelayDelivery` states its properties |
| Protocol.UuidRoomsRemove | server.js:97-99 | removing a name from the key list removes it from the filtered list, keeping the order of the rest |
| Protocol.DirectoryOrder | server.js:44-64 | how the `SHARE_ROOMS` list changes. A join that creates a room appends it (if its name is a UUID), and any other join leaves the list unchanged. A leave that empties a room removes that room and keeps the order of the rest, and any other leave leaves the list unchanged |
| Protocol.ClientRoomsExact | server.js:94-100 | `getClientRooms` lists exactly the existing rooms with a UUID name, each once |
| Protocol.DirectoryHidesRooms | server.js:94-100 | own-id rooms, non-UUID names and rooms that no longer exist are never listed |
| Protocol.DirectoryReachesAll | server.js:102-106 | `shareRoomsInfo` sends the same room list to every live connection, once each |
| Protocol.FanoutMembership | server.js:103 | a broadcast to a list of targets delivers the event to exactly those targets, one delivery per target |
| Protocol.RelayDelivery | server.js:73-85 | a relayed payload reaches exactly the members of the room named by `peerID`, unchanged. It reaches nobody if no such room exists, and just the target when the room is the target's own |
| Protocol.PeerNotices | server.js:32-42 | the notice loop of JOIN, and likewise of leaveRoom: for each client of the snapshot, the notice about `s` to room `client`, then the notice about the client to `s`. `SignalServer.Server.NotifyPeers` is proved equal to it. `Protocol.PeerNoticesReach`, `Protocol.PeerNoticesShape` and `Protocol.PeerNoticesPrivate` state its properties |
| Protocol.PeerNoticesShape | server.js:32-42 | every delivery of the loop is either the notice about `s`, or a notice about one of the clients addressed to `s` with createOffer set |
| Protocol.PeerNoticesReach | server.js:32-42 | in the notice loop, every client in the snapshot is told about the sender through its own-id room, and the sender is told about every client |
| Protocol.PeerNoticesPrivate | server.js:32-42 | with private own-id rooms, the loop sends exactly two events per client, in order: the client is told about the sender (createOffer false), then the sender about the client (createOffer true) |
| Protocol.JoinAdapter | server.js:26-44 | the room store after JOIN: unchanged if the connection is already in the room, else `socket.join`. `Protocol.JoinEffect` states its properties |
| Protocol.JoinIntroductions | server.js:26-42 | the `ADD_PEER` deliveries of JOIN: none on a duplicate join, else the notice loop over the member list read before the join. `Protocol.JoinOffersGoToJoiner` and `Protocol.JoinerNeverIntroducedToItself` state its properties |
| Protocol.JoinEffect | server.js:22-46 | a join changes only the joined room. The joiner is appended after the members it found, and the room is appended to the end of the joiner's room list (the order leaveRoom later follows). A duplicate join changes nothing. Joining an absent room sends no introductions |
| Protocol.JoinOffersGoToJoiner | server.js:26-42 | with no assumption on own-id rooms: every introduction is an `ADD_PEER`. Each one asking for the offer goes to the joiner and names a member of the room other than the joiner. Each other one names the joiner |
| Protocol.JoinerNeverIntroducedToItself | server.js:26-42 | when every member's own-id room holds just that member, no introduction names its own receiver. The joiner gets one `ADD_PEER` per member, asked to make the offer, and each member gets one, asked not to |
| Protocol.SelfIntroductionScenario | server.js:30-36 | when the joiner is itself in the own-id room of a member, `io.to(member)` reaches it, and it is introduced to itself |
| Protocol.SequentialJoinsState | server.js:22-46 | when N distinct live connections join a fresh room one after another, the room ends with all of them in join order and no other room changes. This holds whatever their own-id rooms hold, including after a `LEAVE` |
| Protocol.SequentialJoins | server.js:22-46 | when each joiner's own-id room holds just itself, those N joins send N(N-1) introductions in all, every one an `ADD_PEER` |
| Protocol.LeaveNotices | server.js:51-65 | the `REMOVE_PEER` deliveries of leaveRoom: the notice loop for each room in turn, over the member list read after the earlier rooms were left. `SignalServer.Server.LeaveRooms` is proved equal to it. `Protocol.LeaveNoticesCoverPeers` and `Protocol.LeaveNoticesShape` state its properties |
| Protocol.LeaveNoticesShape | server.js:51-65 | leaveRoom sends nothing else: every notice is a `REMOVE_PEER`. Each one naming someone other than the leaver goes to the leaver and names a member of one of the rooms it left |
| Protocol.LeaveEffect | server.js:48-68 | after `leaveRoom` the connection is in no room, its own-id room included. Every room loses only it. Rooms it was the last member of are gone. Other connections keep their room lists |
| Protocol.LeaveNoticesCoverPeers | server.js:48-68 | for every room left, the leaver is told to remove each member it found there, and each other member reachable by its own id is told to remove the leaver |
| Protocol.LeaveNoticesPrefix | server.js:51-65 | the same coverage for any prefix of the room list, in the order the rooms are left |
| Protocol.LeftConnectionUnreachable | server.js:49-65 | right after `leaveRoom` as written, `io.to(s)` does not reach `s` |
| Protocol.LeftConnectionStaysUnreachable | server.js:26-64 | once room `s` is gone, a join or leave of any other room, by any connection, does not bring it back. Only a JOIN of the room named `s` itself would |
| Protocol.RejoinAfterLeaveScenario | server.js:22-65 | A leaves, rejoins R, and B joins R: only B gets an introduction, so the pair never connects |
| Protocol.LeaveKeepingOwnRoomEffect | server.js:48-68 | the corrected leave takes the connection out of every room except its own-id room, so `io.to(s)` still reaches it |
| Protocol.RejoinAfterCorrectedLeaveScenario | server.js:22-65 | with the corrected leave, the same input introduces both A and B to each other |
| SignalServer.ConnectKeepsConsistent | server.js:17-20 | adding a fresh connection keeps the server invariant |
| SignalServer.JoinKeepsConsistent | server.js:44 | a join keeps the server invariant |
| SignalServer.DelEachKeepsConsistent | server.js:51-65 | leaving any list of rooms in turn keeps the server invariant; the leave loop relies on it |
| SignalServer.DisconnectKeepsConsistent | server.js:71 | closing a connection keeps the server invariant |
| SignalServer.Server.constructor | server.js:11-15 | the server starts with no rooms, no connections and nothing sent |
| SignalServer.Server.Connect | server.js:17-20 | a new connection is put in its own-id room and appended to the live list, and the directory is broadcast |
| SignalServer.Server.Join | server.js:22-46 | a duplicate join sends nothing. Otherwise the introductions computed from the pre-join member list are sent, the joiner is added, and the directory is broadcast |
| SignalServer.Server.NotifyPeers | server.js:32-42 | the loop appends exactly the notices `Protocol.PeerNotices` describes |
| SignalServer.Server.Leave | server.js:48-70 | `leaveRoom` leaves every room in order, sending the teardown notices of each, then broadcasts the directory |
| SignalServer.Server.LeaveRooms | server.js:51-65 | the room loop of `leaveRoom`, proved against `Protocol.LeaveNotices` and `RoomAdapter.DelEach` |
| SignalServer.Server.LeaveRoom | server.js:52-64 | one turn of that loop: the notices for one room, then `socket.leave` |
| SignalServer.Server.ShareRoomsInfo | server.js:102-106 | the directory is appended for every live connection |
| SignalServer.Server.RelaySdp | server.js:73-78 | the session description is delivered to the members of the room `peerID`, tagged with the sender |
| SignalServer.Server.RelayIce | server.js:80-85 | the ICE candidate is delivered likewise |
| SignalServer.Server.Disconnect | server.js:71 | as written, a closing connection leaves every room and is forgotten, and nothing is sent |
| SignalServer.Server.DisconnectWithLeave | server.js:48-71 | the corrected disconnect: the teardown notices and the directory of `leaveRoom` are sent, then the connection is dropped |
| SignalServer.Server.LeaveKeepingOwnRoom | server.js:48-68 | the corrected leave: the room loop skips the own-id room, then the directory is broadcast |

## Left out

- The express app, the HTTP server, CORS, `PORT` and `listen` (server.js:1-15, 88-92) are not modelled. They are transport set-up and send no signalling.
- Console logging (server.js:18, 27, 91) is not modelled. It has no effect on the state or on what is sent.
- Delivery itself is not modelled: network order, loss and acknowledgements. The outbox records what the server hands to socket.io, in order.
- Concurrency is not modelled. Each handler runs to completion, as on Node's single thread.
- The `uuid` package is not part of this model. What it accepts is an assumption, written as `Uuid.IsUuidV4`.
- The contents of `ACTIONS` (src/models/socket-actions.js) are not part of this model. Events are constructors here.
- Payloads of `RELAY_SDP` and `RELAY_ICE` are modelled as opaque strings. In the client they are objects: the offer or answer, and the ICE candidate. The relay never inspects them.
- A malformed `RELAY_SDP` or `RELAY_ICE` message is not modelled. With no payload object, the destructuring at server.js:73 and server.js:80 throws a `TypeError`. A `peerID` that is not a string is passed to `io.to` as is. The relay methods take `peerID` as a room name, as given.
- A malformed `JOIN` payload (no `config` or no `room`) is not modelled. The model takes the room name as given.
- The browser side (the React hooks that react to `ADD_PEER`, `REMOVE_PEER` and the rest) is not part of this model.
- SignalServer.Server.Connect: requires a fresh 20-character id, because socket.io's id generation is not modelled.
- Protocol.SequentialJoins: the N(N-1) count holds only when each joiner's own-id room holds just itself. A joiner that has sent `LEAVE` has no own-id room, so the introductions addressed to it reach nobody. In `Protocol.RejoinAfterLeaveScenario`, two joins give one introduction, not two.
- Protocol.JoinerNeverIntroducedToItself: the counts, the positions and "no one is introduced to itself" are stated only when every member's own-id room holds just that member. The server invariant does not guarantee this, for two reasons. A `LEAVE` empties the leaver's own-id room (the second finding). And nothing at server.js:26-44 stops a connection from JOINing a room named after another connection's id. In the second case the source does introduce a joiner to itself, through `io.to(clientID)` at server.js:33 (`Protocol.SelfIntroductionScenario`). The half that holds for every store is `Protocol.JoinOffersGoToJoiner`.

## Findings

| source | as written | input that shows it | evidently intended | confidence | as-written member | corrected member |
|---|---|---|---|---|---|---|
| server.js:71 | `leaveRoom` is registered for `'disconnection'`, which socket.io never emits, so a closing connection sends nothing | A and B are in room R, and A's connection closes: B gets no `REMOVE_PEER` for A, and no connection gets a fresh `SHARE_ROOMS` | closing a connection runs `leaveRoom`: every peer is told to remove it, and the directory is refreshed | high (not executed) | SignalServer.Server.Disconnect | SignalServer.Server.DisconnectWithLeave |
| server.js:51-64 | `leaveRoom` also leaves the connection's own-id room, after which `io.to(id)` reaches nobody | A and B are connected, A sends `LEAVE`, A joins R, then B joins R: B is told to call A, but A is told nothing | the connection leaves only the rooms it joined and stays addressable by its id | high (not executed) | Protocol.RejoinAfterLeaveScenario | Protocol.RejoinAfterCorrectedLeaveScenario |
