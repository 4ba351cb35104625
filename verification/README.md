# ChatMeet matchmaking and signalling, modelled in Dafny

ChatMeet is a random one-to-one video chat. Its server keeps a registry of
connected sockets, a FIFO queue of users waiting for a partner, and a set of
"skip cooldown" pair keys. It also keeps a table of two-person rooms with a
reverse index from user to room. Whenever the queue changes, a pairing pass
(`clearQueue`) pops the head and pairs it with the first waiting user it is
not on cooldown with. It then asks the room manager to open a room and tells
both users `send-offer`. After that, the server only relays WebRTC offers
and answers between the two members of a room. It is meant to relay ICE
candidates too, but the handler leaves out the `type` argument, so the room
id lands in `type`, the lookup never finds a room, and no candidate is ever
relayed (see Left out).

This project models that core as pure functions over an immutable state:

| file | module | models |
|---|---|---|
| `optional.dfy` | `Optional` | `Option`, for TypeScript's `T \| null` |
| `sequences.dfy` | `Sequences` | no-duplicates, subsequence, precedence, `Drop` (`splice`), `Remove` (`filter`) |
| `ids.dfy` | `Ids` | socket ids, room ids, JavaScript's default string sort, the cooldown pair key |
| `rooms.dfy` | `Rooms` | `RoomManager`: the room table, its index, room creation and removal, and the relay |
| `users.dfy` | `Users` | `UserManager`: the registry, the queue, the cooldown set, the pairing pass, `addUser`, `removeUser`, `skip`, cooldown expiry |
| `properties.dfy` | `Properties` | the invariants those operations keep, and what each promises |
| `server.dfy` | `Server` | the socket events wired in `index.ts`, as commands applied one at a time |
| `scenarios.dfy` | `Scenarios` | concrete event sequences, including the disconnect finding below |

Modelling choices:

- A socket is represented by its id, a non-empty string.
- `socket.emit` appends a `Message(to, event)` to the state's `outbox`. `RoomManager` operations return the messages they emit.
- A room id is a natural number taken from a counter (`nextId`) instead of a uuid. The counter gives the only property the code relies on: a new id is not the key of any existing room. Because uuids are never empty, every room id is truthy, so the `if (roomId)` and `if (!roomId)` checks become "the user is in the index".
- The `setTimeout` that ends a cooldown is its own event, `Expire(m, key)`. The scheduler decides when it fires.
- Events are handled one at a time, because Node runs each handler to completion.

The invariant `Users.Inv` holds at every event boundary. It says:

- the room index and the room table agree exactly, and every room has two different members;
- the queue has no repeats;
- only registered users are queued or indexed;
- no user is both waiting and in a room.

The stronger property `Users.Placed` says every registered user is either waiting or in a room. The code as written breaks it (see Findings). The corrected `removeUser` keeps it.

Three behaviours of the code that a reader might expect otherwise, modelled as the code has them:

- `createRoom` sends `send-offer` to both users, so neither side is the designated caller. No role-exclusivity property is stated.
- When a matched user record is missing, `clearQueue` splices the partner out, puts the head back and stops the pass. It does not drop the missing entry and continue with the rest.
- Removing a user who is only waiting runs no pairing pass: `removeUser` calls `clearQueue` only inside its room branch. If the leaver was a head on cooldown with everyone behind it, the users behind it stay unpaired until the next queue change (`Properties.LeaverUnblocksNobody`).

## Model

| member | source | states |
|---|---|---|
| Ids.Less | backend/src/managers/UserManager.ts:28 | the default sort order puts no string before itself and puts a proper prefix before the longer string |
| Ids.PairKey | backend/src/managers/UserManager.ts:27-29 | the key is the two ids joined by "--", the smaller one under the sort order first |
| Ids.PairKeySymmetric | backend/src/managers/UserManager.ts:27-29 | sorting first makes the key independent of argument order |
| Ids.PairKeyIdentifiesPair | backend/src/managers/UserManager.ts:27-29 | for ids without '-', two pairs share a key if and only if they are the same unordered pair |
| Ids.PairKeyInjectiveSameLength | backend/src/managers/UserManager.ts:27-29 | for ids all of one length, '-' allowed, two pairs share a key if and only if they are the same unordered pair |
| Ids.PairKeyCollision | backend/src/managers/UserManager.ts:28 | with '-' allowed in ids, ("a", "b--c") and ("a--b", "c") share the key "a--b--c" |
| Ids.LessTotal | backend/src/managers/UserManager.ts:28 | the default sort order compares any two different strings |
| Ids.LessAsymmetric | backend/src/managers/UserManager.ts:28 | the default sort order never puts a before b and b before a |
| Rooms.EmptyTable | backend/src/managers/RoomManager.ts:16-19 | a new room manager has no rooms and an empty index, and is valid |
| Rooms.CreateRoom | backend/src/managers/RoomManager.ts:21-44 | refused with no message when either user is indexed; otherwise one new room under an unused id, both users indexed to it, `send-offer` with that id to user1 then user2, nothing else changed, and the table stays valid |
| Rooms.Other | backend/src/managers/RoomManager.ts:53 | the receiver is a member of the room; for a member of a two-person room it is the other member; for a non-member it is user1 |
| Rooms.Forward | backend/src/managers/RoomManager.ts:47-55 | the shared relay body: no message for an unknown room; otherwise one message carrying the event, to user2 when the sender is user1 and to user1 otherwise |
| Rooms.OnOffer | backend/src/managers/RoomManager.ts:46-56 | unknown room: no message; otherwise exactly one `offer` carrying the sdp and room id, to user2 when the sender is user1 and to user1 otherwise |
| Rooms.OnAnswer | backend/src/managers/RoomManager.ts:58-68 | the same routing for `answer` |
| Rooms.OnIceCandidates | backend/src/managers/RoomManager.ts:70-80 | the same routing for `add-ice-candidate`, carrying the candidate and its type but not the room id |
| Rooms.RemoveRoom | backend/src/managers/RoomManager.ts:82-98 | an unknown id changes nothing; otherwise the room and both members' index entries go, and validity is kept |
| Rooms.GetRoomIdForUser | backend/src/managers/RoomManager.ts:100-102 | a room id exactly when the user is indexed; in a valid table that room exists and holds the user |
| Rooms.GetRoom | backend/src/managers/RoomManager.ts:104-106 | the room exactly when the id is a key; in a valid table its two members differ and both index back to it |
| Rooms.RelayReachesPartner | backend/src/managers/RoomManager.ts:53-55 | relaying from a room member reaches one message to the other member of the same room, never back to the sender |
| Rooms.RelayAfterRemoveRoom | backend/src/managers/RoomManager.ts:47-51 | after a room is removed, relaying on its id sends nothing |
| Rooms.RemoveRoomIdempotent | backend/src/managers/RoomManager.ts:82-98 | removing a room twice is removing it once |
| Rooms.CreateThenRemove | backend/src/managers/RoomManager.ts:21-44 | creating a room and removing it restores the rooms and the index; only the id is used up |
| Sequences.Drop | backend/src/managers/UserManager.ts:60 | the element at the index is cut out: one shorter, the part before it kept, the part after it shifted down by one |
| Sequences.Remove | backend/src/managers/UserManager.ts:115 | the filtered queue holds exactly the other ids, in their old order, and is shorter by the number of occurrences of the removed id |
| Users.Init | backend/src/managers/UserManager.ts:20-25 | a new user manager is empty and satisfies both invariants |
| Users.FirstEligible | backend/src/managers/UserManager.ts:52-58 | none exactly when the head is on cooldown with everyone behind it; otherwise the first index not on cooldown, with every earlier one on cooldown |
| Users.PairHead | backend/src/managers/UserManager.ts:59-69 | the head and the chosen partner leave the queue, the rest keeps its order, and rooms and index only grow |
| Users.ClearQueue | backend/src/managers/UserManager.ts:44-78 | the queue only loses entries and keeps its order; registry and cooldowns are untouched; rooms and index only grow; the table stays valid; messages are only appended |
| Users.ClearQueueNewRooms | backend/src/managers/UserManager.ts:52-69 | every room the pass opens pairs an earlier waiting user with a later one, both registered, not on cooldown, and both off the queue |
| Users.ClearQueueIndexGrowth | backend/src/managers/UserManager.ts:60-68 | the only users newly indexed were waiting, are registered, and have left the queue |
| Users.ClearQueuePreservesInv | backend/src/managers/UserManager.ts:44-78 | the pass keeps the boundary invariant |
| Users.ClearQueueHalts | backend/src/managers/UserManager.ts:46-76 | with every waiting user registered, the pass stops only when fewer than two wait or the head is on cooldown with everyone behind it |
| Users.ClearQueueIdempotent | backend/src/managers/UserManager.ts:44-78 | a second pass changes nothing |
| Users.PairHeadInv | backend/src/managers/UserManager.ts:60-68 | one matching step keeps the invariant and indexes both matched users |
| Users.PairHeadKeepsWaiting | backend/src/managers/UserManager.ts:59-69 | after one matching step every user that was waiting is still waiting or indexed |
| Users.ClearQueueKeepsPlaced | backend/src/managers/UserManager.ts:44-78 | the pass loses nobody: every user waiting or indexed before it is waiting or indexed after it |
| Users.PassKeepsStranded | backend/src/managers/UserManager.ts:44-78 | the pass never places a user who is registered but neither waiting nor in a room |
| Users.FirstRoomOfPass | backend/src/managers/UserManager.ts:46-69 | the first room of a pass pairs the head with the earliest waiting user it is not on cooldown with |
| Users.AddUser | backend/src/managers/UserManager.ts:31-42 | a known id changes nothing; a new id is registered, appended, and the pass runs on that queue |
| Users.RemoveUser | backend/src/managers/UserManager.ts:97-118 | an unknown id changes nothing; otherwise the id leaves the registry and the queue, and nothing else leaves the registry |
| Users.LeaveRoomAsWritten | backend/src/managers/UserManager.ts:101-112 | the room block leaves the registry and the cooldowns as they were |
| Users.RequeuePartner | backend/src/managers/UserManager.ts:104-110 | telling and queueing the partner leaves the registry and the cooldowns as they were |
| Users.RemoveUserFixed | backend/src/managers/UserManager.ts:97-118 | the corrected order: the same registry and queue promises as `RemoveUser` |
| Users.LeaveRoomFixed | backend/src/managers/UserManager.ts:101-112 | the corrected room block leaves the registry and the cooldowns as they were |
| Users.Skip | backend/src/managers/UserManager.ts:120-147 | a user in no room changes nothing; the registry never changes; a roomed user's pair key is on cooldown afterwards |
| Users.SkipPrelude | backend/src/managers/UserManager.ts:121-145 | before the pass: the key is added, the room removed, skipper then partner appended, `lobby` to both, and the invariant kept |
| Users.Expire | backend/src/managers/UserManager.ts:131-134 | the timer removes exactly its own key and touches nothing else |
| Properties.AddUserPrelude | backend/src/managers/UserManager.ts:36-40 | registering and appending a new id keeps both invariants before the pass |
| Properties.AddUserPreservesInv | backend/src/managers/UserManager.ts:31-42 | `addUser` keeps the boundary invariant |
| Properties.AddUserPlaces | backend/src/managers/UserManager.ts:31-42 | a newly added user ends up waiting or in a room, and nobody else loses their place |
| Properties.AddUserToEmptyLobby | backend/src/managers/UserManager.ts:31-42 | a user arriving at an empty lobby just waits: no room, no message |
| Properties.TwoWaitingPaired | backend/src/managers/UserManager.ts:46-69 | two waiting users not on cooldown become one room under a fresh id, both get `send-offer`, and the queue empties |
| Properties.TwoWaitingBlocked | backend/src/managers/UserManager.ts:72-76 | two waiting users on cooldown stay waiting and nothing changes |
| Properties.ConnectTwo | backend/src/managers/UserManager.ts:31-42 | two users connecting to an empty server are put in one room and both get `send-offer` |
| Properties.RemoveUserUnfold | backend/src/managers/UserManager.ts:101-112 | for a roomed user, the pass runs on the old room table with the partner appended, then the room goes |
| Properties.RemoveWaitingUser | backend/src/managers/UserManager.ts:97-118 | for a user who is not in a room, only the registry entry and the queue entry go: no pass runs and nothing else changes |
| Properties.LeaverUnblocksNobody | backend/src/managers/UserManager.ts:97-118 | queue [a, b, c] with a on cooldown with b and c: the pass leaves it as is, a leaving leaves [b, c] waiting, and a pass would pair them |
| Properties.RemoveUserPreservesInv | backend/src/managers/UserManager.ts:97-118 | `removeUser` as written keeps the boundary invariant, so no id is ever both waiting and in a room |
| Properties.RequeuedPass | backend/src/managers/UserManager.ts:104-110 | the pass run with the partner queued while still indexed leaves the old room in place and queues only registered, unindexed users, apart from the partner |
| Properties.RemoveUserRoomedInv | backend/src/managers/UserManager.ts:101-115 | the roomed case of the previous row |
| Properties.RemoveUserEffects | backend/src/managers/UserManager.ts:101-115 | the user is gone from registry, queue and index, the room is closed, and the partner is told `partner-disconnected` before anything else is sent |
| Properties.RemoveUserIdempotent | backend/src/managers/UserManager.ts:97-99 | a second `removeUser` of the same id changes nothing |
| Properties.RemoveUserFixedPrelude | backend/src/managers/UserManager.ts:101-112 | in the corrected order the pass starts from a valid state in which everyone but the leaver is still placed |
| Properties.RemoveUserFixedPreserves | backend/src/managers/UserManager.ts:97-118 | the corrected `removeUser` keeps the invariant and keeps every registered user waiting or in a room |
| Properties.SkipPreservesInv | backend/src/managers/UserManager.ts:120-147 | `skip` keeps the invariant and keeps every registered user placed |
| Properties.SkipEffects | backend/src/managers/UserManager.ts:120-147 | cooldown key added, room closed, queue drawn from the old queue plus skipper and partner, `lobby` to both first, and no room afterwards holds both of them |
| Properties.ExpirePreserves | backend/src/managers/UserManager.ts:131-134 | a cooldown expiry keeps both invariants |
| Properties.CooldownThenExpiry | backend/src/managers/UserManager.ts:129-134 | two users who skipped each other stay apart while the key is present, and are paired by the next pass once it expires |
| Server.Apply | backend/src/index.ts:25-42 | every handled event keeps the invariant; a disconnect removes the id; an offer or answer (the `initHandlers` handlers, UserManager.ts:82-89) only appends at most one message |
| Server.Run | backend/src/index.ts:25-42 | any sequence of events keeps the invariant |
| Server.ApplyFixed | backend/src/index.ts:25-42 | with the corrected `removeUser`, every event, including the offer and answer handlers of UserManager.ts:82-89, also keeps every registered user placed |
| Server.RunFixed | backend/src/index.ts:25-42 | with the corrected `removeUser`, any sequence of events keeps both invariants |
| Server.RunConcat | backend/src/index.ts:25-42 | handling two batches in turn is handling their concatenation |
| Server.RunSnoc | backend/src/index.ts:25-42 | one more event after a batch is one more `Apply` |
| Server.RunFixedAgrees | backend/src/index.ts:25-42 | without disconnects the corrected server behaves exactly like the code as written |
| Server.RunFixedSnoc | backend/src/index.ts:25-42 | one more event after a batch is one more `ApplyFixed` |
| Server.StrandedStays | backend/src/index.ts:25-42 | a registered user who is neither waiting nor in a room stays so through any event other than their own disconnect |
| Server.RunKeepsStranded | backend/src/index.ts:25-42 | the same through any sequence of events that does not disconnect them |
| Server.RunThenDisconnect | backend/src/index.ts:29-32 | a disconnect after a batch is `removeUser` on the state the batch left |
| Server.RunFixedThenDisconnect | backend/src/index.ts:29-32 | the same for the corrected `removeUser` |
| Scenarios.Paired | backend/src/index.ts:25-27 | two connections to an empty server give exactly one room {a, b} with id 0, an empty queue, and `send-offer` to a then b |
| Scenarios.ThreeConnected | backend/src/index.ts:25-27 | after a third connection, a and b are in room 0 and c waits alone |
| Scenarios.DisconnectWhileOneWaits | backend/src/managers/UserManager.ts:103-111 | as written, when a leaves room {a, b} while c waits, b and c stay registered but are neither waiting nor in a room |
| Scenarios.DisconnectStrandsUsers | backend/src/managers/UserManager.ts:103-111 | from an empty server, connect a, b, c and then disconnect a: every user was placed before, and b and c are stranded after |
| Scenarios.StrandedForever | backend/src/managers/UserManager.ts:103-111 | after connect a, b, c and disconnect a, b and c stay registered but neither waiting nor in a room through any later events that do not disconnect them |
| Scenarios.DisconnectWhileOneWaitsFixed | backend/src/managers/UserManager.ts:103-111 | with the room removed first, the same situation puts c and b in a new room and empties the queue |
| Scenarios.DisconnectPairsRemainingFixed | backend/src/managers/UserManager.ts:103-111 | the same four events with the corrected `removeUser` leave b and c together in one room, with everyone placed |

## Left out

- Logging (`console.log`/`console.warn`), the Express and HTTP setup, CORS and the port. None of these affect state.
- The value of `SKIP_COOLDOWN_MS` and its environment override: time is not modelled. A cooldown ends when the `Expire` event for its key is applied.
- Users.Expire: timers are not tracked, so the model does not state which timer removes a key. One pair cannot be skipped twice while its key is present, because the pass never pairs them then (`Users.ClearQueueNewRooms`). Two different pairs could share a key only through ids of different lengths containing '-' (`Ids.PairKeyCollision`); socket.io's ids all have one length, for which keys identify pairs (`Ids.PairKeyInjectiveSameLength`), so no timer removes a key another skip still relies on.
- uuid generation: replaced by a counter, because only freshness matters.
- The frontend (`frontend/`): a client of the events, not part of the server's state.
- The `add-ice-candidate` handler in `initHandlers` (UserManager.ts:90-94). It calls `onIceCandidates(candidate, roomId, socket.id)`, but the method is declared with four parameters `(candidate, type, roomId, senderSocketId)`. As called, the room id arrives as `type` and the socket id as `roomId`, so the lookup never finds a room and nothing is relayed. `Rooms.OnIceCandidates` models the method as declared, and `Server.Command` has no candidate event.
- The `leave-chat` handler (index.ts:39-42): it calls `userManager.leaveChat`, which `UserManager` does not define.
- The `if (!candidate) return` guard (UserManager.ts:91): it belongs to the candidate handler left out above.
- The `if (!id1) continue` branch of `clearQueue` (UserManager.ts:48): queued ids are non-empty socket ids, so it never fires.
- Ids.Less: JavaScript compares UTF-16 code units, and Dafny compares `char` values. They agree on the ASCII ids socket.io generates.
- Ids.PairKeyIdentifiesPair: proved only for ids without '-'. Ids with '-' are covered by `Ids.PairKeyInjectiveSameLength` when all have one length, as socket.io's 20-character ids do. A collision (`Ids.PairKeyCollision`) needs ids of different lengths, which socket.io does not generate.
- Concurrency: there is none beyond handler interleaving, which `Server.Run` models as a sequence.
- The `user.name` stored with each registration is kept, but nothing reads it except the log lines.

## Findings

| source | as written | input that shows it | evidently intended | confidence | as-written member | corrected member |
|---|---|---|---|---|---|---|
| backend/src/managers/UserManager.ts:103-111 | `removeUser` queues the partner and runs `clearQueue` before `removeRoom`, while the partner is still indexed in the old room. If another user is waiting, the pass takes both out of the queue, and `createRoom` refuses because the partner still has a room. The room is then removed. Both users remain connected but are neither waiting nor in a room, and no later event places them again until they disconnect (`Scenarios.StrandedForever`). | a and b in a room, c waiting alone, a disconnects; reached from an empty server by connect a, connect b, connect c, disconnect a (`Scenarios.DisconnectStrandsUsers`) | remove the room first, then queue the partner and run the pass, so the partner can be paired with c in that pass (`Scenarios.DisconnectPairsRemainingFixed`) | high, not executed | Scenarios.DisconnectWhileOneWaits | Properties.RemoveUserFixedPreserves |
