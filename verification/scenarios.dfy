/** Concrete runs of the server, written out event by event. */
module Scenarios {
  import opened Ids
  import opened Sequences
  import opened Optional
  import opened Rooms
  import opened Users
  import opened Properties
  import opened Server

  /** A and B are paired: the state after both connected to an empty server. */
  lemma Paired(a: Id, b: Id)
    requires a != b
    ensures var m := Run(Init(), [Connect(a), Connect(b)]);
      && m.users == map[a := User(DefaultName), b := User(DefaultName)]
      && m.queue == [] && m.skipHistory == {}
      && m.table.rooms == map[0 := Room(a, b)]
      && m.table.userToRoom == map[a := 0, b := 0]
      && m.outbox == [Message(a, SendOffer(0)), Message(b, SendOffer(0))]
  {
    var m0 := Init();
    AddUserToEmptyLobby(m0, a, DefaultName);
    var m1 := Apply(m0, Connect(a));
    AddUserPrelude(m1, b, DefaultName);
    TwoWaitingPaired(m1.(users := m1.users[b := User(DefaultName)], queue := [a, b]), a, b);
    var m2 := Apply(m1, Connect(b));
    assert [Connect(a), Connect(b)][1..] == [Connect(b)];
    assert Run(m0, [Connect(a), Connect(b)]) == Run(m1, [Connect(b)]);
    assert Run(m1, [Connect(b)]) == Run(m2, []);
  }

  /** `removeUser` as written, for a user a in room {a, b} while c waits
      alone and c is not on cooldown with b: c is matched with b in the pass
      that runs before the room is removed, `createRoom` refuses because b is
      still indexed, and both end up registered but neither waiting nor in a
      room. */
  lemma DisconnectWhileOneWaits(m: Manager, a: Id, b: Id, c: Id)
    requires Inv(m) && m.queue == [c]
    requires a in m.users && a in m.table.userToRoom && m.table.rooms[m.table.userToRoom[a]] == Room(a, b)
    requires PairKey(c, b) !in m.skipHistory
    ensures var r := RemoveUser(m, a);
      && b in r.users && b !in r.queue && b !in r.table.userToRoom
      && c in r.users && c !in r.queue && c !in r.table.userToRoom
      && !Placed(r)
  {
    var roomId := m.table.userToRoom[a];
    RemoveUserUnfold(m, a);
    var p := m.(outbox := m.outbox + [Message(b, PartnerDisconnected)], queue := [c, b]);
    assert c in m.queue;
    assert FirstEligible(c, [b], p.skipHistory) == Some(0);
    var q := PairHead(p, 0);
    assert q.queue == [] && q.table == p.table;
    assert ClearQueue(p) == q;
    assert RemoveUser(m, a) == q.(table := RemoveRoom(q.table, roomId), users := q.users - {a}, queue := []);
  }

  /** a and b are paired and c waits: the state after three connections. */
  lemma ThreeConnected(a: Id, b: Id, c: Id)
    requires a != b && b != c && a != c
    ensures var m := Run(Init(), [Connect(a), Connect(b), Connect(c)]);
      && m.users.Keys == {a, b, c}
      && m.queue == [c] && m.skipHistory == {}
      && m.table.rooms == map[0 := Room(a, b)]
      && m.table.userToRoom == map[a := 0, b := 0]
  {
    Paired(a, b);
    var m2 := Run(Init(), [Connect(a), Connect(b)]);
    AddUserToEmptyLobby(m2, c, DefaultName);
    RunSnoc(Init(), [Connect(a), Connect(b)], Connect(c));
    assert [Connect(a), Connect(b)] + [Connect(c)] == [Connect(a), Connect(b), Connect(c)];
  }

  /** The same situation reached from an empty server: a and b connect and are
      paired, c connects and waits, a disconnects. Before the disconnect every
      registered user is waiting or in a room; after it, b and c are neither,
      and `StrandedForever` shows that no later event places them again. */
  lemma DisconnectStrandsUsers(a: Id, b: Id, c: Id)
    requires a != b && b != c && a != c
    ensures Placed(Run(Init(), [Connect(a), Connect(b), Connect(c)]))
    ensures var m := Run(Init(), [Connect(a), Connect(b), Connect(c)] + [Disconnect(a)]);
      && b in m.users && b !in m.queue && b !in m.table.userToRoom
      && c in m.users && c !in m.queue && c !in m.table.userToRoom
      && !Placed(m)
  {
    var cs := [Connect(a), Connect(b), Connect(c)];
    ThreeConnected(a, b, c);
    var m3 := Run(Init(), cs);
    DisconnectWhileOneWaits(m3, a, b, c);
    RunThenDisconnect(Init(), cs, a);
  }

  /** The corrected `removeUser` in the same situation: the room is gone
      before the pass, so b and c are paired with each other. */
  lemma DisconnectWhileOneWaitsFixed(m: Manager, a: Id, b: Id, c: Id)
    requires Inv(m) && m.queue == [c]
    requires a in m.users && a in m.table.userToRoom && m.table.rooms[m.table.userToRoom[a]] == Room(a, b)
    requires PairKey(c, b) !in m.skipHistory
    ensures var r := RemoveUserFixed(m, a);
      && r.queue == []
      && r.table.rooms == (m.table.rooms - {m.table.userToRoom[a]})[m.table.nextId := Room(c, b)]
      && b in r.table.userToRoom && c in r.table.userToRoom
      && r.table.userToRoom[b] == r.table.userToRoom[c] == m.table.nextId
  {
    var roomId := m.table.userToRoom[a];
    assert c in m.queue && c != b;
    NoDupAppend(m.queue, b);
    var p := m.(table := RemoveRoom(m.table, roomId),
                outbox := m.outbox + [Message(b, PartnerDisconnected)],
                queue := [c, b]);
    assert p.table.userToRoom == m.table.userToRoom - {a, b};
    assert Inv(p);
    assert LeaveRoomFixed(m, a) == ClearQueue(p);
    TwoWaitingPaired(p, c, b);
  }

  /** The run of `DisconnectStrandsUsers` with the corrected `removeUser`:
      b and c end up in a room together. */
  lemma DisconnectPairsRemainingFixed(a: Id, b: Id, c: Id)
    requires a != b && b != c && a != c
    ensures var m := RunFixed(Init(), [Connect(a), Connect(b), Connect(c)] + [Disconnect(a)]);
      && a !in m.users && b in m.users && c in m.users
      && m.queue == []
      && b in m.table.userToRoom && c in m.table.userToRoom
      && m.table.userToRoom[b] == m.table.userToRoom[c]
      && m.table.rooms[m.table.userToRoom[b]] == Room(c, b)
      && Placed(m)
  {
    var cs := [Connect(a), Connect(b), Connect(c)];
    ThreeConnected(a, b, c);
    var m3 := Run(Init(), cs);
    RunFixedAgrees(Init(), cs);
    DisconnectWhileOneWaitsFixed(m3, a, b, c);
    RunFixedThenDisconnect(Init(), cs, a);
    assert Placed(Init());
  }

  /** The stranding of `DisconnectStrandsUsers` is permanent: whatever events
      follow, b and c stay registered, out of the queue and out of every room
      until they disconnect themselves. */
  lemma StrandedForever(a: Id, b: Id, c: Id, later: seq<Command>)
    requires a != b && b != c && a != c
    requires forall i :: 0 <= i < |later| ==> later[i] != Disconnect(b) && later[i] != Disconnect(c)
    ensures var m := Run(Init(), [Connect(a), Connect(b), Connect(c)] + [Disconnect(a)] + later);
      Stranded(m, b) && Stranded(m, c)
  {
    var first := [Connect(a), Connect(b), Connect(c)] + [Disconnect(a)];
    DisconnectStrandsUsers(a, b, c);
    var m4 := Run(Init(), first);
    RunConcat(Init(), first, later);
    RunKeepsStranded(m4, later, b);
    RunKeepsStranded(m4, later, c);
  }
}
