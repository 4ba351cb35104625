/** The socket events the server wires to the managers (backend/src/index.ts
    and `initHandlers` in UserManager.ts), as commands applied one at a time:
    Node runs each handler to completion before the next. */
module Server {
  import opened Ids
  import opened Rooms
  import opened Users
  import opened Properties

  /** The name every connecting user is registered under. */
  const DefaultName: string := "randomName"

  /** One handled event. The cooldown timer firing is an event of its own. */
  datatype Command =
    | Connect(id: Id)
    | Disconnect(id: Id)
    | SkipRequest(id: Id)
    | CooldownExpired(key: string)
    | OfferFrom(id: Id, sdp: string, roomId: RoomId)
    | AnswerFrom(id: Id, sdp: string, roomId: RoomId)

  /** Handle one event with the code as written. */
  function Apply(m: Manager, c: Command): (r: Manager)
    requires Inv(m)
    ensures Inv(r)
    ensures c.Disconnect? ==> c.id !in r.users && c.id !in r.queue
    ensures c.OfferFrom? || c.AnswerFrom? ==>
      && r.users == m.users && r.queue == m.queue && r.skipHistory == m.skipHistory && r.table == m.table
      && m.outbox <= r.outbox && |r.outbox| <= |m.outbox| + 1
  {
    match c
    case Connect(id) =>
      AddUserPreservesInv(m, id, DefaultName);
      AddUser(m, id, DefaultName)
    case Disconnect(id) =>
      RemoveUserPreservesInv(m, id);
      RemoveUser(m, id)
    case SkipRequest(id) =>
      SkipPreservesInv(m, id);
      Skip(m, id)
    case CooldownExpired(key) =>
      Expire(m, key)
    case OfferFrom(id, sdp, roomId) =>
      m.(outbox := m.outbox + OnOffer(m.table, roomId, sdp, id))
    case AnswerFrom(id, sdp, roomId) =>
      m.(outbox := m.outbox + OnAnswer(m.table, roomId, sdp, id))
  }

  /** Handle a sequence of events, oldest first. */
  function Run(m: Manager, cs: seq<Command>): (r: Manager)
    requires Inv(m)
    ensures Inv(r)
    decreases |cs|
  {
    if |cs| == 0 then m else Run(Apply(m, cs[0]), cs[1..])
  }

  /** Handle one event with the corrected `removeUser`. */
  function ApplyFixed(m: Manager, c: Command): (r: Manager)
    requires Inv(m)
    ensures Inv(r)
    ensures Placed(m) ==> Placed(r)
    ensures c.Disconnect? ==> c.id !in r.users && c.id !in r.queue
  {
    match c
    case Connect(id) =>
      AddUserPreservesInv(m, id, DefaultName);
      AddUserPlaces(m, id, DefaultName);
      AddUser(m, id, DefaultName)
    case Disconnect(id) =>
      RemoveUserFixedPreserves(m, id);
      RemoveUserFixed(m, id)
    case SkipRequest(id) =>
      SkipPreservesInv(m, id);
      Skip(m, id)
    case CooldownExpired(key) =>
      Expire(m, key)
    case OfferFrom(id, sdp, roomId) =>
      m.(outbox := m.outbox + OnOffer(m.table, roomId, sdp, id))
    case AnswerFrom(id, sdp, roomId) =>
      m.(outbox := m.outbox + OnAnswer(m.table, roomId, sdp, id))
  }

  /** Handle a sequence of events with the corrected `removeUser`: every
      registered user stays waiting or in a room. */
  function RunFixed(m: Manager, cs: seq<Command>): (r: Manager)
    requires Inv(m)
    ensures Inv(r)
    ensures Placed(m) ==> Placed(r)
    decreases |cs|
  {
    if |cs| == 0 then m else RunFixed(ApplyFixed(m, cs[0]), cs[1..])
  }

  /** Running two batches of events one after the other is running them all. */
  lemma {:induction false} RunConcat(m: Manager, cs: seq<Command>, ds: seq<Command>)
    requires Inv(m)
    ensures Run(m, cs + ds) == Run(Run(m, cs), ds)
    decreases |cs|
  {
    if |cs| > 0 {
      assert (cs + ds)[0] == cs[0];
      assert (cs + ds)[1..] == cs[1..] + ds;
      RunConcat(Apply(m, cs[0]), cs[1..], ds);
    } else {
      assert cs + ds == ds;
    }
  }

  /** Running one more event after a batch. */
  lemma RunSnoc(m: Manager, cs: seq<Command>, c: Command)
    requires Inv(m)
    ensures Run(m, cs + [c]) == Apply(Run(m, cs), c)
  {
    RunConcat(m, cs, [c]);
    assert Run(Apply(Run(m, cs), c), []) == Apply(Run(m, cs), c);
  }

  /** Without disconnects the corrected server behaves exactly as the code as written. */
  lemma {:induction false} RunFixedAgrees(m: Manager, cs: seq<Command>)
    requires Inv(m)
    requires forall i :: 0 <= i < |cs| ==> !cs[i].Disconnect?
    ensures RunFixed(m, cs) == Run(m, cs)
    decreases |cs|
  {
    if |cs| > 0 {
      assert ApplyFixed(m, cs[0]) == Apply(m, cs[0]);
      RunFixedAgrees(Apply(m, cs[0]), cs[1..]);
    }
  }

  /** Running one more event after a batch, with the corrected `removeUser`. */
  lemma {:induction false} RunFixedSnoc(m: Manager, cs: seq<Command>, c: Command)
    requires Inv(m)
    ensures RunFixed(m, cs + [c]) == ApplyFixed(RunFixed(m, cs), c)
    decreases |cs|
  {
    if |cs| > 0 {
      assert (cs + [c])[1..] == cs[1..] + [c];
      RunFixedSnoc(ApplyFixed(m, cs[0]), cs[1..], c);
    } else {
      assert cs + [c] == [c];
    }
  }

  /** A disconnect at the end of a batch is `removeUser` on the state the batch left. */
  lemma RunThenDisconnect(m: Manager, cs: seq<Command>, id: Id)
    requires Inv(m)
    ensures Run(m, cs + [Disconnect(id)]) == RemoveUser(Run(m, cs), id)
  {
    RunSnoc(m, cs, Disconnect(id));
  }

  /** The same with the corrected `removeUser`. */
  lemma RunFixedThenDisconnect(m: Manager, cs: seq<Command>, id: Id)
    requires Inv(m)
    ensures RunFixed(m, cs + [Disconnect(id)]) == RemoveUserFixed(RunFixed(m, cs), id)
  {
    RunFixedSnoc(m, cs, Disconnect(id));
  }

  /** Once a user is registered but neither waiting nor in a room, no event
      other than their own disconnect changes that: only `addUser` (for a new
      id), `removeUser` (for the partner of a roomed user) and `skip` (for
      roomed users) push onto the queue, and the pass only pairs queued users. */
  lemma StrandedStays(m: Manager, c: Command, u: Id)
    requires Inv(m) && Stranded(m, u) && c != Disconnect(u)
    ensures Stranded(Apply(m, c), u)
  {
    match c
    case Connect(id) =>
      if id !in m.users {
        AddUserPrelude(m, id, DefaultName);
        PassKeepsStranded(m.(users := m.users[id := User(DefaultName)], queue := m.queue + [id]), u);
      }
    case Disconnect(id) =>
      if id in m.users && id in m.table.userToRoom {
        RemoveUserUnfold(m, id);
        var roomId := m.table.userToRoom[id];
        var partner := Other(m.table.rooms[roomId], id);
        PassKeepsStranded(m.(outbox := m.outbox + [Message(partner, PartnerDisconnected)], queue := m.queue + [partner]), u);
      } else if id in m.users {
        RemoveWaitingUser(m, id);
      }
    case SkipRequest(id) =>
      if id in m.table.userToRoom {
        var roomId := m.table.userToRoom[id];
        var p := SkipPrelude(m, id, roomId);
        assert Skip(m, id) == ClearQueue(p);
        PassKeepsStranded(p, u);
      }
    case CooldownExpired(key) =>
    case OfferFrom(id, sdp, roomId) =>
    case AnswerFrom(id, sdp, roomId) =>
  }

  /** A stranded user stays stranded through any sequence of events that does
      not disconnect them. */
  lemma {:induction false} RunKeepsStranded(m: Manager, cs: seq<Command>, u: Id)
    requires Inv(m) && Stranded(m, u)
    requires forall i :: 0 <= i < |cs| ==> cs[i] != Disconnect(u)
    ensures Stranded(Run(m, cs), u)
    decreases |cs|
  {
    if |cs| > 0 {
      StrandedStays(m, cs[0], u);
      RunKeepsStranded(Apply(m, cs[0]), cs[1..], u);
    }
  }
}
