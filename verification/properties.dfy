/** What `addUser`, `removeUser`, `skip` and the cooldown expiry promise, and
    the invariants they keep (backend/src/managers/UserManager.ts). */
module Properties {
  import opened Ids
  import opened Sequences
  import opened Optional
  import opened Rooms
  import opened Users

  /** The state `addUser` hands to the pass for a new id. */
  lemma AddUserPrelude(m: Manager, id: Id, name: string)
    requires Inv(m) && id !in m.users
    ensures var p := m.(users := m.users[id := User(name)], queue := m.queue + [id]);
      && Inv(p)
      && AddUser(m, id, name) == ClearQueue(p)
      && (Placed(m) ==> Placed(p))
  {
    NoDupAppend(m.queue, id);
  }

  lemma AddUserPreservesInv(m: Manager, id: Id, name: string)
    requires Inv(m)
    ensures Inv(AddUser(m, id, name))
  {
    if id !in m.users {
      AddUserPrelude(m, id, name);
      ClearQueuePreservesInv(m.(users := m.users[id := User(name)], queue := m.queue + [id]));
    }
  }

  /** A newly connected user ends up waiting or in a room, and nobody else
      loses their place. */
  lemma AddUserPlaces(m: Manager, id: Id, name: string)
    requires Inv(m)
    ensures var r := AddUser(m, id, name);
      && id in r.users
      && (id !in m.users ==> id in r.queue || id in r.table.userToRoom)
      && (Placed(m) ==> Placed(r))
  {
    if id !in m.users {
      var p := m.(users := m.users[id := User(name)], queue := m.queue + [id]);
      AddUserPrelude(m, id, name);
      ClearQueueKeepsPlaced(p);
      assert id in p.queue;
    }
  }

  /** A user connecting to an empty lobby just waits: no room, no message. */
  lemma AddUserToEmptyLobby(m: Manager, id: Id, name: string)
    requires Inv(m) && id !in m.users && m.queue == []
    ensures AddUser(m, id, name) == m.(users := m.users[id := User(name)], queue := [id])
  {
    var p := m.(users := m.users[id := User(name)], queue := m.queue + [id]);
    AddUserPrelude(m, id, name);
    assert p.queue == [id];
    assert FirstEligible(id, [], p.skipHistory).None?;
  }

  /** Queue [a, b] with no cooldown between them: exactly one room {a, b}
      under a fresh id, `send-offer` to both, and an empty queue. */
  lemma TwoWaitingPaired(m: Manager, a: Id, b: Id)
    requires Inv(m) && m.queue == [a, b]
    requires PairKey(a, b) !in m.skipHistory
    ensures var r := ClearQueue(m);
      && r.queue == []
      && r.users == m.users
      && m.table.nextId !in m.table.rooms
      && r.table.rooms == m.table.rooms[m.table.nextId := Room(a, b)]
      && r.table.userToRoom == m.table.userToRoom[a := m.table.nextId][b := m.table.nextId]
      && r.outbox == m.outbox + [Message(a, SendOffer(m.table.nextId)), Message(b, SendOffer(m.table.nextId))]
  {
    assert a in m.queue && b in m.queue;
    assert m.queue[0] != m.queue[1];
    assert FirstEligible(a, [b], m.skipHistory) == Some(0);
    var q := PairHead(m, 0);
    assert ClearQueue(m) == ClearQueue(q);
    assert q.queue == [];
  }

  /** Queue [a, b] with the pair on cooldown: the pass changes nothing. */
  lemma TwoWaitingBlocked(m: Manager, a: Id, b: Id)
    requires Valid(m.table) && m.queue == [a, b] && a != b
    requires PairKey(a, b) in m.skipHistory
    ensures ClearQueue(m) == m
  {
    assert FirstEligible(a, [b], m.skipHistory).None?;
  }

  /** Two users connecting one after the other into an empty lobby are paired:
      one room, an empty queue, and `send-offer` to both. */
  lemma ConnectTwo(a: Id, b: Id)
    requires a != b
    ensures var m := AddUser(AddUser(Init(), a, "a"), b, "b");
      && m.queue == []
      && m.table.rooms == map[0 := Room(a, b)]
      && m.outbox == [Message(a, SendOffer(0)), Message(b, SendOffer(0))]
  {
    var m0 := Init();
    var p1 := m0.(users := map[a := User("a")], queue := [a]);
    AddUserPrelude(m0, a, "a");
    var m1 := AddUser(m0, a, "a");
    assert m1 == p1;
    var p := p1.(users := p1.users[b := User("b")], queue := [a, b]);
    AddUserPrelude(m1, b, "b");
    TwoWaitingPaired(p, a, b);
  }

  /** The room part of `removeUser` as written, unfolded: the partner is
      queued and the pass runs against the old room table. */
  lemma RemoveUserUnfold(m: Manager, id: Id)
    requires Inv(m) && id in m.users && id in m.table.userToRoom
    ensures var roomId := m.table.userToRoom[id];
      var partner := Other(m.table.rooms[roomId], id);
      var p := m.(outbox := m.outbox + [Message(partner, PartnerDisconnected)], queue := m.queue + [partner]);
      && partner != id && partner in m.table.userToRoom && partner in m.users && partner !in m.queue
      && NoDup(p.queue) && Valid(p.table)
      && var m2 := ClearQueue(p);
         RemoveUser(m, id) == m2.(table := RemoveRoom(m2.table, roomId), users := m2.users - {id},
                                  queue := Remove(m2.queue, id))
  {
    var roomId := m.table.userToRoom[id];
    var partner := Other(m.table.rooms[roomId], id);
    NoDupAppend(m.queue, partner);
    var p := m.(outbox := m.outbox + [Message(partner, PartnerDisconnected)], queue := m.queue + [partner]);
    assert RequeuePartner(m, id, roomId) == ClearQueue(p);
    var m2 := ClearQueue(p);
    assert LeaveRoomAsWritten(m, id) == m2.(table := RemoveRoom(m2.table, roomId));
  }

  /** Removing a user who is only waiting runs no pass: the registry and the
      queue lose the id and nothing else changes, even when the leaver was the
      head that kept the rest of the queue from being paired. */
  lemma RemoveWaitingUser(m: Manager, id: Id)
    requires Inv(m) && id in m.users && id !in m.table.userToRoom
    ensures RemoveUser(m, id) == m.(users := m.users - {id}, queue := Remove(m.queue, id))
  {
    assert LeaveRoomAsWritten(m, id) == m;
  }

  /** A concrete stall: a heads the queue and is on cooldown with b and c,
      who are not on cooldown with each other. When a leaves, b and c keep
      waiting unpaired until something else changes the queue. */
  lemma LeaverUnblocksNobody(m: Manager, a: Id, b: Id, c: Id)
    requires Inv(m) && m.queue == [a, b, c] && m.table.userToRoom == map[]
    requires PairKey(a, b) in m.skipHistory && PairKey(a, c) in m.skipHistory
    requires PairKey(b, c) !in m.skipHistory
    ensures ClearQueue(m) == m
    ensures RemoveUser(m, a).queue == [b, c]
    ensures ClearQueue(RemoveUser(m, a)).queue == []
  {
    assert m.queue[1..] == [b, c];
    assert FirstEligible(a, [b, c], m.skipHistory).None?;
    assert a in m.queue;
    RemoveWaitingUser(m, a);
    RemoveUserPreservesInv(m, a);
    RemoveThree(a, b, c);
    TwoWaitingPaired(RemoveUser(m, a), b, c);
  }

  lemma RemoveThree(a: Id, b: Id, c: Id)
    requires a != b && a != c
    ensures Remove([a, b, c], a) == [b, c]
  {
    assert [a, b, c][1..] == [b, c];
    assert [b, c][1..] == [c];
    assert [c][1..] == [];
    assert Remove([c], a) == [c];
    assert Remove([b, c], a) == [b] + [c];
  }

  /** `removeUser` as written keeps the boundary invariant; in particular no id
      is ever both waiting and in a room. */
  lemma RemoveUserPreservesInv(m: Manager, id: Id)
    requires Inv(m)
    ensures Inv(RemoveUser(m, id))
  {
    var r := RemoveUser(m, id);
    if id in m.users && id in m.table.userToRoom {
      RemoveUserRoomedInv(m, id);
    } else if id in m.users {
      SubseqNoDup(r.queue, m.queue);
    }
  }

  /** The case of `RemoveUserPreservesInv` where the user is in a room. */
  lemma RemoveUserRoomedInv(m: Manager, id: Id)
    requires Inv(m) && id in m.users && id in m.table.userToRoom
    ensures Inv(RemoveUser(m, id))
  {
    var r := RemoveUser(m, id);
    var roomId := m.table.userToRoom[id];
    var room := m.table.rooms[roomId];
    var partner := Other(room, id);
    var p := m.(outbox := m.outbox + [Message(partner, PartnerDisconnected)], queue := m.queue + [partner]);
    RemoveUserUnfold(m, id);
    var m2 := ClearQueue(p);
    RequeuedPass(m, id);
    assert r.table.userToRoom == m2.table.userToRoom - {id, partner};
    assert forall x :: x in r.queue ==> x in m2.queue && x != id;
    SubseqNoDup(r.queue, m2.queue);
  }

  /** The pass `removeUser` runs with the partner queued while still indexed:
      everything it leaves queued is registered and unindexed, except possibly
      the partner, and the old room is still there. */
  lemma RequeuedPass(m: Manager, id: Id)
    requires Inv(m) && id in m.users && id in m.table.userToRoom
    ensures var roomId := m.table.userToRoom[id];
      var partner := Other(m.table.rooms[roomId], id);
      var p := m.(outbox := m.outbox + [Message(partner, PartnerDisconnected)], queue := m.queue + [partner]);
      var m2 := ClearQueue(p);
      && roomId in m2.table.rooms && m2.table.rooms[roomId] == m.table.rooms[roomId]
      && (forall x :: x in m2.queue ==> x in m.users && (x == partner || x !in m2.table.userToRoom))
      && (forall u :: u in m2.table.userToRoom ==> u in m.users)
  {
    var roomId := m.table.userToRoom[id];
    var partner := Other(m.table.rooms[roomId], id);
    var p := m.(outbox := m.outbox + [Message(partner, PartnerDisconnected)], queue := m.queue + [partner]);
    RemoveUserUnfold(m, id);
    var m2 := ClearQueue(p);
    ClearQueueIndexGrowth(p);
    SubseqMembers(m2.queue, p.queue);
  }

  /** After `removeUser` the user is gone from every structure, its room is
      closed, and its partner was told first. */
  lemma RemoveUserEffects(m: Manager, id: Id)
    requires Inv(m) && id in m.table.userToRoom
    ensures var r := RemoveUser(m, id);
      var roomId := m.table.userToRoom[id];
      var partner := Other(m.table.rooms[roomId], id);
      && id !in r.users && id !in r.queue && id !in r.table.userToRoom
      && roomId !in r.table.rooms
      && |r.outbox| > |m.outbox|
      && r.outbox[|m.outbox|] == Message(partner, PartnerDisconnected)
  {
    var roomId := m.table.userToRoom[id];
    var room := m.table.rooms[roomId];
    var partner := Other(room, id);
    var p := m.(outbox := m.outbox + [Message(partner, PartnerDisconnected)], queue := m.queue + [partner]);
    RemoveUserUnfold(m, id);
    var m2 := ClearQueue(p);
    assert m2.table.rooms[roomId] == room;
    assert p.outbox <= m2.outbox;
    assert m2.outbox[|m.outbox|] == p.outbox[|m.outbox|];
  }

  /** A second `removeUser` for the same id changes nothing. */
  lemma RemoveUserIdempotent(m: Manager, id: Id)
    requires Inv(m)
    ensures Inv(RemoveUser(m, id))
    ensures RemoveUser(RemoveUser(m, id), id) == RemoveUser(m, id)
  {
    RemoveUserPreservesInv(m, id);
  }

  /** The corrected `removeUser` keeps the boundary invariant and, unlike the
      code as written, keeps every registered user waiting or in a room. */
  lemma RemoveUserFixedPreserves(m: Manager, id: Id)
    requires Inv(m)
    ensures Inv(RemoveUserFixed(m, id))
    ensures Placed(m) ==> Placed(RemoveUserFixed(m, id))
  {
    var r := RemoveUserFixed(m, id);
    if id in m.users && id in m.table.userToRoom {
      var roomId := m.table.userToRoom[id];
      var partner := Other(m.table.rooms[roomId], id);
      var p := m.(table := RemoveRoom(m.table, roomId),
                  outbox := m.outbox + [Message(partner, PartnerDisconnected)],
                  queue := m.queue + [partner]);
      RemoveUserFixedPrelude(m, id);
      var m2 := ClearQueue(p);
      ClearQueuePreservesInv(p);
      ClearQueueIndexGrowth(p);
      assert id !in m2.table.userToRoom;
      SubseqNoDup(r.queue, m2.queue);
      if Placed(m) {
        ClearQueueKeepsPlaced(p);
        forall u | u in r.users
          ensures u in r.queue || u in r.table.userToRoom
        {
          assert u in p.queue || u in p.table.userToRoom;
        }
      }
    } else if id in m.users {
      SubseqNoDup(r.queue, m.queue);
    }
  }

  /** The state the corrected `removeUser` hands to the pass: room gone,
      partner queued, invariant intact, and every other user still placed. */
  lemma RemoveUserFixedPrelude(m: Manager, id: Id)
    requires Inv(m) && id in m.users && id in m.table.userToRoom
    ensures var roomId := m.table.userToRoom[id];
      var partner := Other(m.table.rooms[roomId], id);
      var p := m.(table := RemoveRoom(m.table, roomId),
                  outbox := m.outbox + [Message(partner, PartnerDisconnected)],
                  queue := m.queue + [partner]);
      && Inv(p)
      && id !in p.queue && id !in p.table.userToRoom
      && (Placed(m) ==> forall u :: u in m.users && u != id ==> u in p.queue || u in p.table.userToRoom)
      && var m2 := ClearQueue(p);
         RemoveUserFixed(m, id) == m2.(users := m2.users - {id}, queue := Remove(m2.queue, id))
  {
    var roomId := m.table.userToRoom[id];
    var partner := Other(m.table.rooms[roomId], id);
    assert partner in m.table.userToRoom && partner != id;
    NoDupAppend(m.queue, partner);
    var p := m.(table := RemoveRoom(m.table, roomId),
                outbox := m.outbox + [Message(partner, PartnerDisconnected)],
                queue := m.queue + [partner]);
    assert p.table.userToRoom == m.table.userToRoom - {id, partner};
  }

  lemma SkipPreservesInv(m: Manager, id: Id)
    requires Inv(m)
    ensures Inv(Skip(m, id))
    ensures Placed(m) ==> Placed(Skip(m, id))
  {
    if id in m.table.userToRoom {
      var roomId := m.table.userToRoom[id];
      var p := SkipPrelude(m, id, roomId);
      assert Skip(m, id) == ClearQueue(p);
      ClearQueuePreservesInv(p);
      if Placed(m) {
        ClearQueueKeepsPlaced(p);
        var partner := Other(m.table.rooms[roomId], id);
        assert p.table.userToRoom == m.table.userToRoom - {id, partner};
        assert forall u :: u in p.users ==> u in p.queue || u in p.table.userToRoom;
      }
    }
  }

  /** `skip` puts the pair on cooldown, closes their room, queues skipper then
      partner, tells both `lobby`, and the pass it runs never puts the two
      back together. */
  lemma SkipEffects(m: Manager, id: Id)
    requires Inv(m) && id in m.table.userToRoom
    ensures var r := Skip(m, id);
      var roomId := m.table.userToRoom[id];
      var partner := Other(m.table.rooms[roomId], id);
      && r.skipHistory == m.skipHistory + {PairKey(id, partner)}
      && roomId !in r.table.rooms
      && IsSubseq(r.queue, m.queue + [id, partner])
      && m.outbox + [Message(id, Lobby), Message(partner, Lobby)] <= r.outbox
      && forall k :: k in r.table.rooms ==> !(InRoom(r.table.rooms[k], id) && InRoom(r.table.rooms[k], partner))
  {
    var r := Skip(m, id);
    var roomId := m.table.userToRoom[id];
    var partner := Other(m.table.rooms[roomId], id);
    var p := SkipPrelude(m, id, roomId);
    assert r == ClearQueue(p);
    ClearQueueNewRooms(p);
    PairKeySymmetric(id, partner);
    forall k | k in r.table.rooms
      ensures !(InRoom(r.table.rooms[k], id) && InRoom(r.table.rooms[k], partner))
    {
      if k in p.table.rooms {
        assert k != roomId && m.table.rooms[k] == r.table.rooms[k];
        assert !InRoom(m.table.rooms[k], id);
      } else {
        assert FromQueue(p, r, r.table.rooms[k]);
      }
    }
  }

  /** The expiry of a cooldown keeps both invariants. */
  lemma ExpirePreserves(m: Manager, key: string)
    requires Inv(m)
    ensures Inv(Expire(m, key))
    ensures Placed(m) ==> Placed(Expire(m, key))
  {
  }

  /** A pair whose cooldown has expired can be paired again: two users that
      skipped each other and are the only ones waiting stay apart until the
      key expires, and the next pass then pairs them. */
  lemma CooldownThenExpiry(m: Manager, a: Id, b: Id)
    requires Inv(m) && m.queue == [a, b]
    requires PairKey(a, b) in m.skipHistory
    ensures ClearQueue(m) == m
    ensures var e := Expire(m, PairKey(a, b));
      var r := ClearQueue(e);
      && r.queue == []
      && r.table.rooms == m.table.rooms[m.table.nextId := Room(a, b)]
  {
    assert m.queue[0] != m.queue[1];
    TwoWaitingBlocked(m, a, b);
    TwoWaitingPaired(Expire(m, PairKey(a, b)), a, b);
  }
}
