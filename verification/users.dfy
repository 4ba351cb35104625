/** The matchmaker (backend/src/managers/UserManager.ts): the user registry,
    the FIFO wait queue, the skip-cooldown keys, and the pairing pass that
    `addUser`, `removeUser` and `skip` run after changing the queue. */
module Users {
  import opened Ids
  import opened Sequences
  import opened Optional
  import opened Rooms

  /** A registered user; the socket is represented by the registry key. */
  datatype User = User(name: string)

  /** The state of one `UserManager` together with the `RoomManager` it owns
      and every message emitted so far, oldest first. */
  datatype Manager = Manager(
    users: map<Id, User>,
    queue: seq<Id>,
    skipHistory: set<string>,
    table: RoomTable,
    outbox: seq<Message>)

  /** Every queued id is registered. */
  ghost predicate QueueRegistered(m: Manager) {
    forall x :: x in m.queue ==> x in m.users
  }

  /** The invariant at operation boundaries: a valid room table, a queue
      without repeats, only registered users queued or indexed, and no user
      both waiting and in a room. */
  ghost predicate Inv(m: Manager) {
    && Valid(m.table)
    && NoDup(m.queue)
    && QueueRegistered(m)
    && (forall u :: u in m.table.userToRoom ==> u in m.users)
    && (forall x :: x in m.queue ==> x !in m.table.userToRoom)
  }

  /** Every registered user is waiting or in a room. */
  ghost predicate Placed(m: Manager) {
    forall u :: u in m.users ==> u in m.queue || u in m.table.userToRoom
  }

  /** `u` is registered but neither waiting nor in a room. */
  ghost predicate Stranded(m: Manager, u: Id) {
    u in m.users && u !in m.queue && u !in m.table.userToRoom
  }

  /** A freshly constructed `UserManager`. */
  function Init(): (m: Manager)
    ensures Inv(m) && Placed(m)
    ensures m.users == map[] && m.queue == [] && m.skipHistory == {} && m.outbox == []
  {
    Manager(map[], [], {}, EmptyTable(), [])
  }

  /** `id1` is on cooldown with everybody in `rest`. */
  ghost predicate Blocked(id1: Id, rest: seq<Id>, skip: set<string>) {
    forall j :: 0 <= j < |rest| ==> PairKey(id1, rest[j]) in skip
  }

  /** The inner `for` loop of `clearQueue`: the index in `rest` of the first id
      whose pair key with `id1` is not in `skip`. */
  function FirstEligible(id1: Id, rest: seq<Id>, skip: set<string>): (r: Option<nat>)
    ensures r.None? <==> Blocked(id1, rest, skip)
    ensures r.Some? ==>
      && r.value < |rest|
      && PairKey(id1, rest[r.value]) !in skip
      && Blocked(id1, rest[..r.value], skip)
    decreases |rest|
  {
    if |rest| == 0 then None
    else if PairKey(id1, rest[0]) !in skip then Some(0)
    else
      match FirstEligible(id1, rest[1..], skip)
      case None => None
      case Some(i) =>
        assert rest[..i + 1][1..] == rest[1..][..i];
        Some(i + 1)
  }

  /** One matching iteration of `clearQueue`: the head and the partner at
      index `i` of the rest leave the queue, and `createRoom` is called on them. */
  function PairHead(m: Manager, i: nat): (r: Manager)
    requires Valid(m.table) && NoDup(m.queue) && i < |m.queue| - 1
    ensures IsSubseq(r.queue, m.queue) && NoDup(r.queue) && |r.queue| == |m.queue| - 2
    ensures m.queue[0] !in r.queue && m.queue[1..][i] !in r.queue
    ensures r.users == m.users && r.skipHistory == m.skipHistory
    ensures Valid(r.table) && Extends(m.table, r.table)
    ensures m.outbox <= r.outbox
  {
    var rest := m.queue[1..];
    assert NoDup(rest);
    SubseqDrop(rest, i);
    SubseqTail(m.queue);
    SubseqTrans(Drop(rest, i), rest, m.queue);
    SubseqNoDup(Drop(rest, i), m.queue);
    SubseqMembers(Drop(rest, i), rest);
    assert m.queue[0] != rest[i];
    var e := CreateRoom(m.table, m.queue[0], rest[i]);
    m.(queue := Drop(rest, i), table := e.table, outbox := m.outbox + e.sent)
  }

  /** `clearQueue`: while two or more wait, pop the head and pair it with the
      first id in queue order that is not on cooldown with it. When there is
      none the head goes back to the front and the pass stops. When either
      user record is missing the partner stays spliced out, the head goes back
      and the pass stops. A refused `createRoom` still counts as a match. */
  function ClearQueue(m: Manager): (r: Manager)
    requires Valid(m.table) && NoDup(m.queue)
    ensures IsSubseq(r.queue, m.queue) && NoDup(r.queue)
    ensures r.users == m.users && r.skipHistory == m.skipHistory
    ensures Valid(r.table) && Extends(m.table, r.table)
    ensures m.outbox <= r.outbox
    decreases |m.queue|
  {
    SubseqRefl(m.queue);
    if |m.queue| < 2 then m
    else
      var id1 := m.queue[0];
      var rest := m.queue[1..];
      match FirstEligible(id1, rest, m.skipHistory)
      case None => m
      case Some(i) =>
        if id1 in m.users && rest[i] in m.users then
          var p := PairHead(m, i);
          var r := ClearQueue(p);
          SubseqTrans(r.queue, p.queue, m.queue);
          r
        else
          SubseqDrop(rest, i);
          SubseqCons(id1, Drop(rest, i), rest);
          assert [id1] + rest == m.queue;
          SubseqNoDup([id1] + Drop(rest, i), m.queue);
          m.(queue := [id1] + Drop(rest, i))
  }

  /** The pair a room created by the pass comes from: two registered ids that
      were waiting in this order, are off the queue now, and are not on cooldown. */
  ghost predicate FromQueue(m: Manager, r: Manager, room: Room) {
    && Precedes(m.queue, room.user1, room.user2)
    && room.user1 !in r.queue && room.user2 !in r.queue
    && room.user1 in m.users && room.user2 in m.users
    && PairKey(room.user1, room.user2) !in m.skipHistory
  }

  /** Every room the pass creates pairs an earlier waiting id with a later one
      that is not on cooldown with it, and both leave the queue. */
  lemma {:induction false} ClearQueueNewRooms(m: Manager)
    requires Valid(m.table) && NoDup(m.queue)
    ensures var r := ClearQueue(m);
      forall k :: k in r.table.rooms && k !in m.table.rooms ==> FromQueue(m, r, r.table.rooms[k])
    decreases |m.queue|
  {
    var r := ClearQueue(m);
    if |m.queue| >= 2 {
      var id1 := m.queue[0];
      var rest := m.queue[1..];
      match FirstEligible(id1, rest, m.skipHistory)
      case None =>
      case Some(i) =>
        if id1 in m.users && rest[i] in m.users {
          var p := PairHead(m, i);
          assert r == ClearQueue(p);
          ClearQueueNewRooms(p);
          SubseqMembers(r.queue, p.queue);
          forall k | k in r.table.rooms && k !in m.table.rooms
            ensures FromQueue(m, r, r.table.rooms[k])
          {
            if k in p.table.rooms {
              assert k == m.table.nextId && p.table.rooms[k] == Room(id1, rest[i]);
              assert r.table.rooms[k] == Room(id1, rest[i]);
              assert m.queue[0] == id1 && m.queue[i + 1] == rest[i];
            } else {
              SubseqPrecedes(p.queue, m.queue, r.table.rooms[k].user1, r.table.rooms[k].user2);
            }
          }
        }
    }
  }

  /** The index only grows by ids that were waiting, are registered, and have
      left the queue. */
  lemma ClearQueueIndexGrowth(m: Manager)
    requires Valid(m.table) && NoDup(m.queue)
    ensures var r := ClearQueue(m);
      forall u :: u in r.table.userToRoom && u !in m.table.userToRoom ==>
        u in m.queue && u in m.users && u !in r.queue
  {
    var r := ClearQueue(m);
    ClearQueueNewRooms(m);
    forall u | u in r.table.userToRoom && u !in m.table.userToRoom
      ensures u in m.queue && u in m.users && u !in r.queue
    {
      var k := r.table.userToRoom[u];
      assert k in r.table.rooms && InRoom(r.table.rooms[k], u);
      if k in m.table.rooms {
        assert false;
      }
      assert FromQueue(m, r, r.table.rooms[k]);
    }
  }

  /** The pass keeps the boundary invariant. */
  lemma ClearQueuePreservesInv(m: Manager)
    requires Inv(m)
    ensures Inv(ClearQueue(m))
  {
    var r := ClearQueue(m);
    ClearQueueIndexGrowth(m);
    SubseqMembers(r.queue, m.queue);
  }

  /** When every waiting id is registered, the pass stops only when fewer than
      two wait or the head is on cooldown with everybody behind it. */
  lemma {:induction false} ClearQueueHalts(m: Manager)
    requires Valid(m.table) && NoDup(m.queue) && QueueRegistered(m)
    ensures var r := ClearQueue(m);
      |r.queue| >= 2 ==> Blocked(r.queue[0], r.queue[1..], r.skipHistory)
    decreases |m.queue|
  {
    if |m.queue| >= 2 {
      match FirstEligible(m.queue[0], m.queue[1..], m.skipHistory)
      case None =>
      case Some(i) =>
        assert m.queue[1..][i] in m.queue;
        var p := PairHead(m, i);
        SubseqMembers(p.queue, m.queue);
        ClearQueueHalts(p);
    }
  }

  /** Running the pass a second time changes nothing. */
  lemma ClearQueueIdempotent(m: Manager)
    requires Inv(m)
    ensures ClearQueue(ClearQueue(m)) == ClearQueue(m)
  {
    var r := ClearQueue(m);
    ClearQueueHalts(m);
    ClearQueuePreservesInv(m);
    if |r.queue| >= 2 {
      assert FirstEligible(r.queue[0], r.queue[1..], r.skipHistory).None?;
    }
  }

  /** The pass only takes users from the queue, so it never reaches a
      stranded user. */
  lemma PassKeepsStranded(m: Manager, u: Id)
    requires Valid(m.table) && NoDup(m.queue) && Stranded(m, u)
    ensures Stranded(ClearQueue(m), u)
  {
    ClearQueueIndexGrowth(m);
    SubseqMembers(ClearQueue(m).queue, m.queue);
  }

  /** One matching step from a boundary state keeps the invariant, and both
      matched ids end up in the new room. */
  lemma PairHeadInv(m: Manager, i: nat)
    requires Inv(m) && i < |m.queue| - 1
    ensures var p := PairHead(m, i);
      && Inv(p)
      && m.queue[0] in p.table.userToRoom && m.queue[1..][i] in p.table.userToRoom
  {
    var p := PairHead(m, i);
    assert m.queue[1..][i] in m.queue;
    SubseqMembers(p.queue, m.queue);
  }

  /** From a boundary state, every id that was waiting is still waiting or is
      now in a room: the pass never loses anybody. */
  lemma {:induction false} ClearQueueKeepsPlaced(m: Manager)
    requires Inv(m)
    ensures var r := ClearQueue(m);
      forall u :: u in m.queue || u in m.table.userToRoom ==> u in r.queue || u in r.table.userToRoom
    decreases |m.queue|
  {
    var r := ClearQueue(m);
    if |m.queue| >= 2 {
      var id1 := m.queue[0];
      var rest := m.queue[1..];
      match FirstEligible(id1, rest, m.skipHistory)
      case None =>
      case Some(i) =>
        assert rest[i] in m.queue;
        var p := PairHead(m, i);
        PairHeadInv(m, i);
        PairHeadKeepsWaiting(m, i);
        ClearQueueKeepsPlaced(p);
    }
  }

  /** Pairing the head with `rest[i]` keeps every other waiting id waiting. */
  lemma PairHeadKeepsWaiting(m: Manager, i: nat)
    requires Inv(m) && i < |m.queue| - 1
    ensures var p := PairHead(m, i);
      forall u :: u in m.queue ==> u in p.queue || u in p.table.userToRoom
  {
    var p := PairHead(m, i);
    PairHeadInv(m, i);
    forall u | u in m.queue
      ensures u in p.queue || u in p.table.userToRoom
    {
      var k :| 0 <= k < |m.queue| && m.queue[k] == u;
      if k != 0 && k != i + 1 {
        if k <= i {
          assert p.queue[k - 1] == u;
        } else {
          assert p.queue[k - 2] == u;
        }
      }
    }
  }

  /** The first room of a pass pairs the head with the earliest waiting id
      not on cooldown with it. */
  lemma FirstRoomOfPass(m: Manager, j: nat)
    requires Inv(m) && 1 <= j < |m.queue|
    requires PairKey(m.queue[0], m.queue[j]) !in m.skipHistory
    requires forall k :: 1 <= k < j ==> PairKey(m.queue[0], m.queue[k]) in m.skipHistory
    ensures var r := ClearQueue(m);
      m.table.nextId in r.table.rooms && r.table.rooms[m.table.nextId] == Room(m.queue[0], m.queue[j])
  {
    var rest := m.queue[1..];
    var fe := FirstEligible(m.queue[0], rest, m.skipHistory);
    assert rest[j - 1] == m.queue[j];
    assert fe.Some?;
    var i := fe.value;
    assert rest[i] == m.queue[i + 1];
    assert i <= j - 1;
    assert forall k :: 0 <= k < i ==> rest[..i][k] == m.queue[k + 1];
    assert i == j - 1;
    assert m.queue[0] in m.queue && m.queue[j] in m.queue;
    var p := PairHead(m, i);
    assert ClearQueue(m) == ClearQueue(p);
  }

  /** `addUser(name, socket)`: a known id changes nothing; a new one is
      registered, appended to the queue, and the pass runs. */
  function AddUser(m: Manager, id: Id, name: string): (r: Manager)
    requires Inv(m)
    ensures id in m.users ==> r == m
    ensures id !in m.users ==>
      && r.users == m.users[id := User(name)]
      && IsSubseq(r.queue, m.queue + [id])
      && r.skipHistory == m.skipHistory
      && Extends(m.table, r.table)
      && m.outbox <= r.outbox
  {
    if id in m.users then m
    else
      NoDupAppend(m.queue, id);
      ClearQueue(m.(users := m.users[id := User(name)], queue := m.queue + [id]))
  }

  /** `removeUser(socketId)` as written: the partner of a roomed user is told,
      pushed onto the queue and the pass runs, all BEFORE the room is removed;
      then the user leaves the registry and the queue. */
  function RemoveUser(m: Manager, id: Id): (r: Manager)
    requires Inv(m)
    ensures id !in m.users ==> r == m
    ensures id !in r.users && id !in r.queue
    ensures r.users == m.users - {id} && r.skipHistory == m.skipHistory
  {
    if id !in m.users then m
    else
      var m1 := LeaveRoomAsWritten(m, id);
      m1.(users := m1.users - {id}, queue := Remove(m1.queue, id))
  }

  /** The room part of `removeUser` as written (the `if (roomId)` block). */
  function LeaveRoomAsWritten(m: Manager, id: Id): (r: Manager)
    requires Inv(m)
    ensures r.users == m.users && r.skipHistory == m.skipHistory
  {
    match GetRoomIdForUser(m.table, id)
    case None => m
    case Some(roomId) =>
      var m2 := RequeuePartner(m, id, roomId);
      m2.(table := RemoveRoom(m2.table, roomId))
  }

  /** The `if (room)` block of `removeUser` as written: the partner is told,
      queued, and the pass runs while the room still exists. */
  function RequeuePartner(m: Manager, id: Id, roomId: RoomId): (r: Manager)
    requires Inv(m) && id in m.table.userToRoom && m.table.userToRoom[id] == roomId
    ensures r.users == m.users && r.skipHistory == m.skipHistory
  {
    match GetRoom(m.table, roomId)
    case None => m
    case Some(room) =>
      var partner := Other(room, id);
      NoDupAppend(m.queue, partner);
      ClearQueue(m.(outbox := m.outbox + [Message(partner, PartnerDisconnected)],
                    queue := m.queue + [partner]))
  }

  /** `removeUser` with the room removed before the partner is queued and
      the pass runs, so the partner can be matched in that same pass. */
  function RemoveUserFixed(m: Manager, id: Id): (r: Manager)
    requires Inv(m)
    ensures id !in m.users ==> r == m
    ensures id !in r.users && id !in r.queue
    ensures r.users == m.users - {id} && r.skipHistory == m.skipHistory
  {
    if id !in m.users then m
    else
      var m1 := LeaveRoomFixed(m, id);
      m1.(users := m1.users - {id}, queue := Remove(m1.queue, id))
  }

  /** The room part of the corrected `removeUser`. */
  function LeaveRoomFixed(m: Manager, id: Id): (r: Manager)
    requires Inv(m)
    ensures r.users == m.users && r.skipHistory == m.skipHistory
  {
    match GetRoomIdForUser(m.table, id)
    case None => m
    case Some(roomId) =>
      var partner := Other(m.table.rooms[roomId], id);
      NoDupAppend(m.queue, partner);
      ClearQueue(m.(table := RemoveRoom(m.table, roomId),
                    outbox := m.outbox + [Message(partner, PartnerDisconnected)],
                    queue := m.queue + [partner]))
  }

  /** `skip(socketId)`: nothing unless the user is in a room; otherwise the
      pair goes on cooldown, the room is removed, skipper then partner are
      queued and told `lobby`, and the pass runs. */
  function Skip(m: Manager, id: Id): (r: Manager)
    requires Inv(m)
    ensures id !in m.table.userToRoom ==> r == m
    ensures r.users == m.users
    ensures id in m.table.userToRoom ==>
      PairKey(id, Other(m.table.rooms[m.table.userToRoom[id]], id)) in r.skipHistory
  {
    match GetRoomIdForUser(m.table, id)
    case None => m
    case Some(roomId) =>
      match GetRoom(m.table, roomId)
      case None => m
      case Some(room) => ClearQueue(SkipPrelude(m, id, roomId))
  }

  /** What `skip` does to a roomed user before the pass: cooldown key, room
      removal, skipper then partner queued, `lobby` to both. */
  function SkipPrelude(m: Manager, id: Id, roomId: RoomId): (r: Manager)
    requires Inv(m) && id in m.table.userToRoom && m.table.userToRoom[id] == roomId
    ensures Inv(r)
    ensures var partner := Other(m.table.rooms[roomId], id);
      && partner != id
      && r.users == m.users
      && r.skipHistory == m.skipHistory + {PairKey(id, partner)}
      && r.table == RemoveRoom(m.table, roomId)
      && r.queue == m.queue + [id, partner]
      && r.outbox == m.outbox + [Message(id, Lobby), Message(partner, Lobby)]
  {
    var room := m.table.rooms[roomId];
    var skipper := if room.user1 == id then room.user1 else room.user2;
    var partner := Other(room, id);
    NoDupAppend(m.queue, skipper);
    NoDupAppend(m.queue + [skipper], partner);
    assert m.queue + [skipper] + [partner] == m.queue + [skipper, partner];
    m.(skipHistory := m.skipHistory + {PairKey(skipper, partner)},
       table := RemoveRoom(m.table, roomId),
       queue := m.queue + [skipper, partner],
       outbox := m.outbox + [Message(skipper, Lobby), Message(partner, Lobby)])
  }

  /** The cooldown timer of a skip firing: only that key goes. */
  function Expire(m: Manager, key: string): (r: Manager)
    ensures key !in r.skipHistory
    ensures forall k :: k in m.skipHistory && k != key ==> k in r.skipHistory
    ensures r.skipHistory <= m.skipHistory
    ensures r.users == m.users && r.queue == m.queue && r.table == m.table && r.outbox == m.outbox
  {
    m.(skipHistory := m.skipHistory - {key})
  }
}
