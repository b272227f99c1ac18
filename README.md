# Collaborative notepad relay — Dafny model

This project models the WebSocket relay at the centre of the collaborative notepad server
(`server.js`). Clients create and join named rooms. The server keeps one shared text per
room and forwards every edit to the room's other members. When a room loses its last
member, the server arms a deferred deletion ("reap"). The model covers:

- the module-level `rooms` table: a map from room name to a record of members, text,
  creation time and last-update time;
- the four event handlers that change it: create-room, join-room, update-content and
  connection close;
- the reap callback, which deletes a room only if it still exists and is still empty;
- the read-only statistics and room-info views.

Layout:

- `protocol.dfy` (module `Protocol`): connection ids, the room record, and inbound and
  outbound envelopes as datatypes.
- `rooms.dfy` (module `Rooms`): each handler's effect as a pure function of the table.
  An effect is the new table, the envelopes sent in order, and the reaps armed in order.
  The module also holds the lemmas that state what each handler promises, and the
  registry invariant: members are distinct, and every empty room has a reap armed.
- `relay.dfy` (module `Relay`): class `Server` with fields `rooms`, `outbox` and
  `pending`. It has one method per handler, each written as the source does it: `forEach`
  send loops and the `for...in` loop over the rooms. Each handler method is proved to
  perform exactly the effect `Rooms` gives for it, and to keep the invariant. The helpers
  `Broadcast` and `CloseRoom` are proved to append exactly their fan-out and to perform
  one close iteration.
- `stats.dfy` (module `Stats`): `GET /api/stats` and `GET /api/room/:roomName/info`.
- `lookup.dfy` (module `Lookup`): the room lookups as JavaScript evaluates them on a plain
  object, for create-room, join-room, update-content and the info endpoint (see Findings).

Environment inputs are parameters:

- `open: set<ConnId>` stands for `readyState === WebSocket.OPEN`.
- `now: nat` stands for `new Date()`.
- `keys: seq<RoomName>` is the order in which `for...in` and `Object.keys` enumerate the
  table. It must list every room exactly once.
- `outbox` records every `send`, in order.
- The 5-minute timers all have the same delay, so they fire in the order they were armed.
  `pending` is therefore a FIFO queue, and `FireReap` fires its head.

Where the source and the design description disagree, the model follows the source:

- create-room puts the creator in `clients`. The room is not created empty.
- A join does not cancel a reap that is already pending. Safety comes only from the
  re-check when the reap fires. So a pending reap can exist for a room that has members.
  Any fire deletes a present empty room, whoever armed it (`ReapSpec`). So an older reap
  can delete a room that emptied again before its newer grace period ended
  (`StaleReapDeletesReemptiedRoom`).
- The invariant that is proved instead is that every empty room has a reap armed.

## Model

| member | source | states |
|---|---|---|
| Rooms.OnCreate | server.js:18-34 | create-room's effect on the table, the reply and the armed reaps |
| Rooms.OnJoin | server.js:38-71 | join-room's effect: membership, the two replies, the count fan-out, or the not-found error |
| Rooms.OnUpdate | server.js:73-91 | update-content's effect: new text and timestamp, relay to the others, or nothing for an absent room |
| Rooms.OnMessage | server.js:15-93 | dispatch on the action; an unrecognised action has no effect |
| Rooms.OnClose | server.js:96-127 | close's effect over the rooms in enumeration order |
| Rooms.Reap | server.js:118-123 | the reap callback deletes the room only if present with zero clients |
| Rooms.WithMember | server.js:43-45 | after the join step the sender is a member, the old list is a prefix, at most one entry is added, and distinct lists stay distinct |
| Rooms.WithoutMembers | server.js:101 | the filter keeps exactly the members other than the closing connection |
| Rooms.WithoutAbsent | server.js:101 | filtering out a connection that is not present leaves the list unchanged |
| Rooms.WithoutSplice | server.js:101 | filtering out a present connection drops exactly its position; the others keep their order and the length drops by one |
| Rooms.WithoutNoDup | server.js:101 | filtering keeps the members distinct |
| Rooms.CountChangesIffMember | server.js:100-104 | the count changes on close exactly for the rooms that held the connection |
| Rooms.FanoutMembers | server.js:61-68 | a send loop reaches exactly the open, non-excluded members, each with the loop's message |
| Rooms.FanoutOncePerMember | server.js:81-88 | over distinct members, no connection is sent the message twice |
| Rooms.NoDupCount | server.js:65 | with distinct members, `clients.length` is the number of distinct connections |
| Rooms.CreateSpec | server.js:18-34 | taken name: one error to the sender and the table unchanged; fresh name: exactly that key added, with `clients == [sender]`, empty text, `createdAt == now`, other rooms unchanged, `room-created` with that name to the sender only |
| Rooms.JoinSpec | server.js:38-68 | sender becomes a member exactly once; other rooms and fields unchanged; `load-content` with the current text, then `room-joined`; then every open member, the sender included, gets exactly one `user-count-update` with the post-join count, which equals the number of distinct members |
| Rooms.JoinAbsentSpec | server.js:69-71 | join on an absent room: only the not-found error to the sender, table unchanged |
| Rooms.UpdateSpec | server.js:73-91 | present room: text replaced, `lastUpdated` set, members and creation time unchanged, new text to exactly the open members other than the sender; absent room: nothing changes and nothing is sent |
| Rooms.CloseTableSpec | server.js:98-101 | after close no room holds the connection; remaining members keep their order; rooms that did not hold it are unchanged |
| Rooms.CloseNoticeMembers | server.js:103-112 | close sends `user-count-update` exactly to the open remaining members of rooms that held the connection, with that room's new count; other rooms get nothing |
| Rooms.EmptiedMembers | server.js:116-118 | a reap is armed for a room exactly when it held the connection and this close left it empty |
| Rooms.CloseNonMemberIsNoOp | server.js:96-127 | closing a connection that is in no room changes nothing, sends nothing and arms nothing |
| Rooms.ReapSpec | server.js:118-123 | a reap removes its room exactly when the room is present and empty; all other rooms are untouched |
| Rooms.RejoinedRoomSurvivesReap | server.js:116-123 | a room whose reap was armed by a close and that is joined before the reap fires is not deleted by it |
| Rooms.DrainRemovesExactlyEmptyRooms | server.js:116-123 | once every armed reap has fired with no other event, exactly the empty rooms are gone and the rest are untouched |
| Rooms.CreateKeepsConsistent | server.js:25-29 | create-room keeps the invariant (distinct members, every empty room has a reap armed) |
| Rooms.JoinKeepsConsistent | server.js:41-45 | join-room keeps the invariant |
| Rooms.UpdateKeepsConsistent | server.js:76-78 | update-content keeps the invariant |
| Rooms.MessageKeepsConsistent | server.js:15-93 | every inbound message keeps the invariant |
| Rooms.CloseKeepsConsistent | server.js:98-125 | close keeps the invariant; each room it empties gets a reap armed |
| Rooms.ReapKeepsConsistent | server.js:118-123 | firing the oldest reap keeps the invariant |
| Rooms.StaleReapDeletesReemptiedRoom | server.js:116-123 | a room emptied, rejoined and emptied again has two reaps armed, and the first one to fire deletes it |
| Rooms.SharedEditSession | server.js:18-114 | create, two joins, an edit and a close produce exactly the expected replies, counts, relayed text and no reap |
| Relay.Server.constructor | server.js:9 | the server starts with an empty table, nothing sent and nothing pending |
| Relay.Server.Broadcast | server.js:61-68 | the `forEach` send loop appends exactly the fan-out to the outbox |
| Relay.Server.CreateRoom | server.js:18-36 | performs create-room's effect and keeps the invariant |
| Relay.Server.JoinRoom | server.js:38-71 | performs join-room's effect and keeps the invariant |
| Relay.Server.UpdateContent | server.js:73-91 | performs update-content's effect and keeps the invariant |
| Relay.Server.Receive | server.js:15-93 | performs the dispatched handler's effect and keeps the invariant |
| Relay.Server.CloseRoom | server.js:99-125 | one iteration of the close loop: filter, notify if the count changed, arm a reap if now empty |
| Relay.Server.Close | server.js:96-127 | performs close's effect over all rooms and keeps the invariant |
| Relay.Server.FireReap | server.js:118-123 | fires the oldest armed reap, deleting its room only if present and empty; no-op when nothing is pending |
| Stats.GetRoomInfo | server.js:138-151 | the info record exists exactly for present rooms, with the member count, creation and update times |
| Stats.StatsSpec | server.js:155-167 | room count is the table size; the summaries list each room exactly once, with its member count and creation time |
| Stats.TotalUsersAfterClose | server.js:157 | a close lowers the total user count by exactly the number of rooms the connection was in |
| Stats.TotalUsersAfterJoin | server.js:157 | a join raises the total user count by one exactly when the sender was not yet a member |
| Lookup.InheritedNameRefused | server.js:20-23 | on an empty server the lookup as written refuses "constructor" as taken, while the own-key test creates it |
| Lookup.AsWrittenAgreesOffInheritedNames | server.js:20-29 | for any name not inherited from Object.prototype, the as-written create-room and the model's agree |
| Lookup.JoinInheritedNameThrows | server.js:40-45 | join-room on "constructor" throws as written (uncaught, so the server exits), while the model answers with the not-found error and changes nothing |
| Lookup.UpdateInheritedNameThrows | server.js:75-88 | update-content on "__proto__" throws as written (uncaught, so the server exits), while the model silently drops it |
| Lookup.InfoInheritedNameFails | server.js:140-151 | the info request for "constructor" fails with 500 as written, while the model answers 404 |
| Lookup.LookupsAgreeOffInheritedNames | server.js:40-151 | for any name not inherited from Object.prototype, the as-written join, update and info agree with the model's |

## Left out

- JSON parsing and serialisation are not modelled; envelopes are datatypes. `JSON.parse` is unguarded, so a malformed frame throws in the listener.
- Envelopes with missing fields (`roomName` or `content` undefined) are not modelled; every inbound envelope carries its fields.
- Wall-clock time is not modelled. `new Date()` is the `now` parameter. The 5-minute delay is not modelled either: when a reap fires is the caller's choice, and only the firing order (arming order) is kept.
- `readyState` is the `open` parameter. Direct replies to the sender (`ws.send` in create-room and join-room) are not gated on it, as in the source.
- Enumeration order of `for...in` and `Object.keys` is the `keys` parameter. JavaScript lists integer-like keys first and the rest in insertion order; the model does not derive that order.
- Logging (`console.log`, `console.error`) and the `ws.on('error')` listener are left out: they only log.
- Express plumbing is left out: static files, `sendFile` routes, `app.listen`, the upgrade handshake, and SIGTERM/SIGINT shutdown. These only route requests and connections to the modelled handlers.
- server.js uses `app` from line 135 on but never declares it (only `express` is required, at line 2). As written, line 135 throws a ReferenceError while the module loads and the process exits, so no route is registered and no connection is ever upgraded. The model assumes the evidently intended `const app = express()`; every handler, view and Findings row below holds once `app` is declared.
- `public/script.js` is not part of this model. It is browser UI and speaks a different envelope (`type: 'join'`/`'update'`).
- Connections are plain ids, not weak references to socket objects.
- Lookup.OnUpdateAsWritten: for an inherited name it only records the throw. It does not model that `content` and `lastUpdated` are first written onto the inherited object (for `"__proto__"`, onto Object.prototype itself).

## Findings

Every row holds once `app` is declared (see the last lines of "Left out"); as written, the server never gets past line 135.

| source | as written | input that shows it | evidently intended | confidence | as-written member | corrected member |
|---|---|---|---|---|---|---|
| server.js:20 | `if (rooms[data.roomName])` on a plain object is also true for names inherited from Object.prototype | `{action: "create-room", roomName: "constructor"}` on an empty server is answered "Room already exists" | a room name is taken only if it is an own key of the table | high; not executed | Lookup.InheritedNameRefused | Rooms.CreateSpec |
| server.js:40-43 | the same lookup lets an inherited name through, and `room.clients.includes(ws)` throws a TypeError that nothing catches, so the server process exits and every room is lost | `{action: "join-room", roomName: "constructor"}` | the not-found error, no change | high; not executed | Lookup.JoinInheritedNameThrows | Rooms.JoinAbsentSpec |
| server.js:75-81 | the same lookup lets an inherited name through; the text is written onto the inherited object and `room.clients.forEach` throws a TypeError that nothing catches, so the server process exits and every room is lost | `{action: "update-content", roomName: "__proto__", content: "x"}` | a silent drop, no change | high; not executed | Lookup.UpdateInheritedNameThrows | Rooms.UpdateSpec |
| server.js:140-145 | the same lookup lets an inherited name through, `room.clients.length` throws inside the route and Express replies 500 | `GET /api/room/constructor/info` | a 404 | high; not executed | Lookup.InfoInheritedNameFails | Stats.GetRoomInfo |
