# Presence and message routing of a departmental chat server

This project models, in Dafny, the core of a small Socket.IO chat backend
(`src/index.js`): the in-memory registry that remembers which socket each
username was last seen on (`userSockets`), who is in which room (`roomUsers`),
the set of active rooms (`activeRooms`, seeded with seven department rooms), the
five socket handlers that change them (`joinRoom`, `leaveRoom`, `disconnect`,
`directMessage`, `sendMessage`), and the two read paths (`GET /api/rooms` and the
history query of `GET /api/messages/:room`).

Shape of the model:

- `AssocList` is a JavaScript `Map` as an association list in insertion order
  (`set` on a present key keeps its position; `delete` keeps the others in order;
  iteration is front to back). `InsertionSet` is a JavaScript `Set` as a
  duplicate-free sequence in insertion order. The order matters because the
  server broadcasts `Array.from(...)` of these and because `disconnect` stops at
  the *first* socket match.
- `Registry.State` holds the three structures; `Registry.Wf` is what `Map` and
  `Set` guarantee by construction (no duplicate keys, no duplicate members), and
  the handlers take it as their precondition and re-establish it.
- `Router` has one pure function per handler, `State × payload → Outcome`, where
  an `Outcome` is the next state and the ordered list of effects: `Emit(target,
  event)` for `io.to(room).emit`, `io.to(socketId).emit`/`socket.emit` and
  `io.emit`, and `Persist(record)` for `Message.save()`.
- `Server` dispatches a stream of inbound events (`Step`, `Run`) and holds the
  properties that span several events.
- `History` is the history query over a sequence of stored records.

Things the model takes from outside instead of computing: timestamps
(`new Date()` / `Date.now`) are parameters — `directMessage` calls `new Date()`
twice, so it gets two emit timestamps plus the saved record's; whether a
`sendMessage` save succeeded is a `bool` parameter.

JavaScript truthiness is kept: `directMessage` only delivers when the stored
socket id is non-empty (`if (toSocketId)`), and `disconnect` only cleans up rooms
when the username it found is non-empty (`if (disconnectedUsername)`): a user
registered under the empty name loses its socket entry on disconnect but stays in
its rooms.

Three behaviours of the code that an idealised reading of it would get wrong, all kept in the model:

- `joinRoom` never adds a room to `activeRooms`, so a room created by joining
  never appears in `/api/rooms` (`Server.ListedRoomsAreSeedRooms`), and the
  `roomsUpdated` broadcast after the last member leaves such a room carries the
  seed rooms unchanged (`Server.RunKeepsSeedRooms`).
- `disconnect` does not delete rooms it empties from `roomUsers`, does not touch
  `activeRooms` and sends no `roomsUpdated`; the emptied room hears an empty
  member list (`Server.JoinThenDisconnectLeavesEmptyRoom`).
- `disconnect` removes only the first `userSockets` entry that holds the socket;
  another username registered from the same socket keeps its entry
  (`Server.DisconnectKeepsLaterRegistrations`).

## Model

| member | source | states |
|---|---|---|
| Registry.InitWf | src/index.js:22-32 | the start state (no sockets, no member sets, the seven seed rooms) is well formed and has seven active rooms |
| AssocList.Get | src/index.js:157 | `Map.get`: the answer is absent exactly when the key is not among the map's keys, and a present answer is a value stored under that key |
| AssocList.Put | src/index.js:145 | `Map.set`: the key now maps to the value, every other key's value is unchanged, a present key keeps its position and a new key is appended, unique keys stay unique |
| AssocList.Remove | src/index.js:236 | `Map.delete`: every other key's value is unchanged, an absent key leaves the map as it was, and with unique keys the key disappears and the key order loses exactly that key |
| AssocList.FirstWithValue | src/index.js:233-239 | the scan with `break` finds the first entry holding the value, or reports that no entry holds it |
| AssocList.RemoveAt | src/index.js:236 | deleting the key of the entry found at position i removes exactly that entry |
| AssocList.PutFresh | src/index.js:145 | setting a new key appends its entry at the end of the iteration order |
| AssocList.PutPut | src/index.js:145 | setting a key twice equals setting it once to the later value |
| AssocList.RemovePutFresh | src/index.js:210 | deleting a key that was just added restores the map, order included |
| AssocList.GetAt | src/index.js:157 | with unique keys, `Map.get` of an entry's key returns that entry's value |
| InsertionSet.Add | src/index.js:151 | `Set.add`: the result is the old members plus the new one, existing members keep their order, a present member leaves the set unchanged, no duplicates arise |
| InsertionSet.Delete | src/index.js:208 | `Set.delete`: the result holds exactly the old members other than the removed one, an absent member leaves the set unchanged, a present member shrinks it by one |
| InsertionSet.NoDupOccursOnce | src/index.js:151 | a member of a set occurs in it exactly once |
| Router.AddMember | src/index.js:148-151 | a room without a set gets one appended at the end of the room table, an existing room keeps its place; the room's set holds the username exactly once and otherwise its old members; other rooms and set-ness are unchanged |
| Router.JoinRoom | src/index.js:144-154 | the username now maps to the caller's socket (other usernames unchanged), keeping its place in the registry's order if it was there and appended at the end if new; the room keeps its place in the room table or is appended if new; the room has a member set containing the username exactly once and otherwise its old members; other rooms are unchanged; `activeRooms` is unchanged; exactly one `roomUsers` emit goes to the room with its new member list |
| Router.LeaveRoom | src/index.js:204-229 | with no member set for the room nothing changes and nothing is emitted; otherwise the username leaves the set; a non-empty remainder is stored and sent to the room; an empty one deletes the room's entry and, for a seed room, emits nothing, for any other room emits `roomsUpdated` to everyone; `userSockets` never changes; `activeRooms` only ever loses the left room and never a seed room |
| Router.DropMember | src/index.js:242-246 | the cleanup loop keeps every room key in order and leaves each room's set minus the username |
| Router.MemberUpdates | src/index.js:242-247 | every emit of the cleanup loop goes to a room whose set held the username and carries that set without it; each such room gets exactly one emit and every other room none |
| Router.Unregister | src/index.js:235-248 | once the scan stops at entry i: exactly that entry is removed; if its username is non-empty the username leaves every room set (room keys unchanged, emptied rooms kept), each room that held it hears its remaining members once, and no other room hears anything; an empty username leaves the rooms and emits nothing; `activeRooms` is unchanged |
| Router.Disconnect | src/index.js:231-251 | with no entry holding the socket nothing changes and nothing is emitted; otherwise the outcome is unregistering the first entry holding it; only `roomUsers` emits to rooms are produced and `activeRooms` is unchanged |
| Router.DirectMessage | src/index.js:156-181 | the state never changes; when the recipient has a non-empty socket id there are exactly three effects: a direct message to the recipient's socket, the same sender and text echoed to the caller's socket, then a saved `direct` record; otherwise no effects at all |
| Router.SendMessage | src/index.js:183-202 | the state never changes; a `room` record is always handed to the store first; the room hears the message (with the record's timestamp, typed room) once if the save succeeded and not at all if it failed |
| Server.Step | src/index.js:141-252 | every handler keeps the registry well formed |
| Server.Run | src/index.js:141-252 | any sequence of events keeps the registry well formed |
| Server.StepKeepsSeedRooms | src/index.js:141-252 | from a state whose active rooms are the seed rooms, any one event keeps them so, and any `roomsUpdated` it emits goes to everyone with exactly the seed rooms |
| Server.LeaveKeepsSeedRooms | src/index.js:211-223 | when the active rooms are the seed rooms, `leaveRoom` keeps them so (the name it deletes was never there) and any `roomsUpdated` it emits carries exactly the seed rooms |
| Server.RunKeepsSeedRooms | src/index.js:24-32 | across any sequence of events the active-room set stays the seed rooms and every `roomsUpdated` broadcast carries exactly the seed rooms |
| Server.ListedRoomsAreSeedRooms | src/index.js:54-56 | after any events since start, `/api/rooms` returns the seed rooms in seed order, and never a non-seed room |
| Server.JoinIdempotent | src/index.js:144-154 | joining the same room twice from the same socket gives the same state and emits as joining once |
| Server.JoinThenLeaveFreshRoom | src/index.js:204-210 | a sole member joining and leaving a room with no entry restores the room table exactly and keeps the socket registry of the join; a non-seed room then announces the active-room list to everyone, a seed room emits nothing |
| Server.RejoinRedirectsDirectMessages | src/index.js:157-159 | after a username joins from one socket and then another, a direct message to it is delivered to the second socket and not the first |
| Server.DisconnectKeepsLaterRegistrations | src/index.js:233-239 | when two usernames share the socket, disconnect removes the first and the later one stays registered on that socket |
| Server.JoinThenDisconnectLeavesEmptyRoom | src/index.js:241-248 | a newcomer who joins an untouched room and disconnects restores the socket registry, leaves the room with an empty member set, and the room hears the empty list once |
| Server.UnregisterNotifiesRoom | src/index.js:242-246 | for a non-empty username and a room whose set holds it, the room keeps the set minus the username and hears exactly that list exactly once |
| History.Matching | src/index.js:129-132 | the filter keeps exactly the records of the room whose type is not `system`, each as often as it is stored |
| History.SortNewestFirst | src/index.js:133 | the sort returns the same records, newest first |
| History.Insert | src/index.js:133 | inserting into a newest-first sequence keeps it newest first and adds exactly that record |
| History.Reverse | src/index.js:135 | reversal keeps the length and the records |
| History.ReverseAt | src/index.js:135 | reversal puts position i at position length-1-i |
| History.NewestPrefix | src/index.js:133-135 | the first n of a newest-first list, reversed, are n records oldest first, none older than a record left out |
| History.RecentHistory | src/index.js:127-135 | the answer holds only records of the room that are not `system`, no more often than stored, min(50, number selected) of them, oldest first, and no selected record left out is newer than one returned |
| History.ShortHistoryIsComplete | src/index.js:134 | when at most fifty records are selected, the answer contains all of them |

## Left out

- Express, CORS and body-parser setup and `server.listen` (src/index.js:1-20, 34-52, 254-256): transport and bootstrap.
- `/register` and `/login` (src/index.js:58-125), JWT signing and bcrypt hashing (src/models/User.js): credential handling through libraries outside this model.
- `connectDB` (src/db/db.js): network I/O and process exit.
- The Mongoose schema machinery of src/models/Message.js; only the three-way `type` enum and the stored fields are kept.
- `socket.join` / `socket.leave` (src/index.js:146, 205): Socket.IO's own room bookkeeping; emits are modelled as effects addressed to a room, socket or everyone, not as deliveries.
- Clocks: every timestamp is a parameter.
- Interleaving of in-flight saves across `await` (src/index.js:179, 192), so the possible reordering of two room broadcasts whose saves finish out of order is not modelled; each handler runs to completion.
- Logging, the unhandled rejection when a direct-message save fails (the delivery has already happened, so the effects are the same), and the `500` answer when the history query fails.
- Payloads with missing fields (`undefined` usernames, rooms or texts): every payload field is a string.
- The order among records with equal timestamps in the history sort: `History.IsRecentHistory` allows any order there.
- InsertionSet.Delete: its contract states which members remain, not that they keep their relative order (the definition does keep it).
- History.Matching: its contract states which records are kept and how often, not that they keep store order; nothing downstream depends on it because the result is sorted.
