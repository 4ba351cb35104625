/** The room table and the signalling relay (backend/src/managers/RoomManager.ts).
    A socket is represented by its id and `socket.emit` by a `Message` handed
    back to the caller, who appends it to the outbox. */
module Rooms {
  import opened Ids
  import opened Optional

  /** A room holds its two members; the source stores the whole user record,
      of which only the socket id matters here. */
  datatype Room = Room(user1: Id, user2: Id)

  /** The `type` field of an ICE candidate: `"sender" | "receiver"`. */
  datatype CandidateType = Sender | Receiver

  /** The named events the server emits, with their payloads. */
  datatype Event =
    | SendOffer(roomId: RoomId)
    | Offer(sdp: string, roomId: RoomId)
    | Answer(sdp: string, roomId: RoomId)
    | AddIceCandidate(candidate: string, kind: CandidateType)
    | PartnerDisconnected
    | Lobby

  /** One `emit`: the recipient socket and the event it is sent. */
  datatype Message = Message(to: Id, event: Event)

  /** `rooms`, the reverse index `userToRoomMap`, and the source of fresh room ids. */
  datatype RoomTable = RoomTable(rooms: map<RoomId, Room>, userToRoom: map<Id, RoomId>, nextId: RoomId)

  /** A new table together with the messages emitted while producing it. */
  datatype Emitted = Emitted(table: RoomTable, sent: seq<Message>)

  predicate InRoom(room: Room, u: Id) {
    room.user1 == u || room.user2 == u
  }

  /** `userToRoom[u] == r` exactly when `u` is one of the two members of room `r`. */
  ghost predicate Bijection(t: RoomTable) {
    && (forall u :: u in t.userToRoom ==> t.userToRoom[u] in t.rooms && InRoom(t.rooms[t.userToRoom[u]], u))
    && (forall r :: r in t.rooms ==>
          && t.rooms[r].user1 in t.userToRoom && t.userToRoom[t.rooms[r].user1] == r
          && t.rooms[r].user2 in t.userToRoom && t.userToRoom[t.rooms[r].user2] == r)
  }

  /** The invariant of the room table: the index is exact, every room has two
      different members, and `nextId` is not (and will never be) a room key. */
  ghost predicate Valid(t: RoomTable) {
    && Bijection(t)
    && (forall r :: r in t.rooms ==> t.rooms[r].user1 != t.rooms[r].user2)
    && (forall r :: r in t.rooms ==> r < t.nextId)
  }

  /** `t'` keeps every room and index entry of `t`, and adds rooms only under ids `t` had not handed out. */
  ghost predicate Extends(t: RoomTable, t': RoomTable) {
    && (forall r :: r in t.rooms ==> r in t'.rooms && t'.rooms[r] == t.rooms[r])
    && (forall u :: u in t.userToRoom ==> u in t'.userToRoom && t'.userToRoom[u] == t.userToRoom[u])
    && t.nextId <= t'.nextId
    && (forall r :: r in t'.rooms && r !in t.rooms ==> t.nextId <= r)
  }

  /** The table of a freshly constructed `RoomManager`. */
  function EmptyTable(): (t: RoomTable)
    ensures Valid(t) && t.rooms == map[] && t.userToRoom == map[]
  {
    RoomTable(map[], map[], 0)
  }

  /** `createRoom(user1, user2)`: refused when either user already has a room;
      otherwise a room under a fresh id, both users indexed to it, and
      `send-offer` with that id to user1 and then to user2. */
  function CreateRoom(t: RoomTable, u1: Id, u2: Id): (r: Emitted)
    requires Valid(t)
    ensures u1 in t.userToRoom || u2 in t.userToRoom ==> r == Emitted(t, [])
    ensures u1 !in t.userToRoom && u2 !in t.userToRoom ==>
      var id := t.nextId;
      && id !in t.rooms
      && r.table.rooms.Keys == t.rooms.Keys + {id}
      && r.table.rooms[id] == Room(u1, u2)
      && r.table.userToRoom.Keys == t.userToRoom.Keys + {u1, u2}
      && r.table.userToRoom[u1] == id && r.table.userToRoom[u2] == id
      && r.sent == [Message(u1, SendOffer(id)), Message(u2, SendOffer(id))]
    ensures Extends(t, r.table)
    ensures u1 != u2 ==> Valid(r.table)
  {
    if u1 in t.userToRoom || u2 in t.userToRoom then Emitted(t, [])
    else
      var id := t.nextId;
      var t' := RoomTable(t.rooms[id := Room(u1, u2)], t.userToRoom[u1 := id][u2 := id], id + 1);
      Emitted(t', [Message(u1, SendOffer(id)), Message(u2, SendOffer(id))])
  }

  /** The member the source treats as the other side of `u`: user2 when `u`
      is user1, user1 in every other case (also when `u` is not a member). */
  function Other(room: Room, u: Id): (r: Id)
    ensures InRoom(room, r)
    ensures InRoom(room, u) && room.user1 != room.user2 ==> r != u
    ensures !InRoom(room, u) ==> r == room.user1
  {
    if room.user1 == u then room.user2 else room.user1
  }

  /** The shared shape of `onOffer`, `onAnswer` and `onIceCandidates`: look the
      room up, say nothing if it is gone, else emit `ev` to the receiver only. */
  function Forward(t: RoomTable, roomId: RoomId, sender: Id, ev: Event): (sent: seq<Message>)
    ensures roomId !in t.rooms ==> sent == []
    ensures roomId in t.rooms ==> |sent| == 1 && sent[0].event == ev && InRoom(t.rooms[roomId], sent[0].to)
    ensures roomId in t.rooms && sender == t.rooms[roomId].user1 ==> sent[0].to == t.rooms[roomId].user2
    ensures roomId in t.rooms && sender != t.rooms[roomId].user1 ==> sent[0].to == t.rooms[roomId].user1
  {
    if roomId !in t.rooms then [] else [Message(Other(t.rooms[roomId], sender), ev)]
  }

  /** `onOffer(roomId, sdp, sender)`. */
  function OnOffer(t: RoomTable, roomId: RoomId, sdp: string, sender: Id): (sent: seq<Message>)
    ensures roomId !in t.rooms ==> sent == []
    ensures roomId in t.rooms ==>
      && |sent| == 1
      && sent[0].event == Offer(sdp, roomId)
      && (sender == t.rooms[roomId].user1 ==> sent[0].to == t.rooms[roomId].user2)
      && (sender != t.rooms[roomId].user1 ==> sent[0].to == t.rooms[roomId].user1)
  {
    Forward(t, roomId, sender, Offer(sdp, roomId))
  }

  /** `onAnswer(roomId, sdp, sender)`. */
  function OnAnswer(t: RoomTable, roomId: RoomId, sdp: string, sender: Id): (sent: seq<Message>)
    ensures roomId !in t.rooms ==> sent == []
    ensures roomId in t.rooms ==>
      && |sent| == 1
      && sent[0].event == Answer(sdp, roomId)
      && (sender == t.rooms[roomId].user1 ==> sent[0].to == t.rooms[roomId].user2)
      && (sender != t.rooms[roomId].user1 ==> sent[0].to == t.rooms[roomId].user1)
  {
    Forward(t, roomId, sender, Answer(sdp, roomId))
  }

  /** `onIceCandidates(candidate, type, roomId, sender)`, with the parameters
      in the order the method declares them. */
  function OnIceCandidates(t: RoomTable, candidate: string, kind: CandidateType, roomId: RoomId, sender: Id): (sent: seq<Message>)
    ensures roomId !in t.rooms ==> sent == []
    ensures roomId in t.rooms ==>
      && |sent| == 1
      && sent[0].event == AddIceCandidate(candidate, kind)
      && (sender == t.rooms[roomId].user1 ==> sent[0].to == t.rooms[roomId].user2)
      && (sender != t.rooms[roomId].user1 ==> sent[0].to == t.rooms[roomId].user1)
  {
    Forward(t, roomId, sender, AddIceCandidate(candidate, kind))
  }

  /** `removeRoom(roomId)`: nothing for an unknown id, else the room and the
      index entries of both its members go. */
  function RemoveRoom(t: RoomTable, roomId: RoomId): (r: RoomTable)
    ensures roomId !in t.rooms ==> r == t
    ensures roomId in t.rooms ==>
      && r.rooms == t.rooms - {roomId}
      && r.userToRoom == t.userToRoom - {t.rooms[roomId].user1, t.rooms[roomId].user2}
      && r.nextId == t.nextId
    ensures Valid(t) ==> Valid(r)
  {
    if roomId !in t.rooms then t
    else
      var room := t.rooms[roomId];
      RoomTable(t.rooms - {roomId}, t.userToRoom - {room.user1, room.user2}, t.nextId)
  }

  /** `getRoomIdForUser(socketId)`: the room the index records for the user. */
  function GetRoomIdForUser(t: RoomTable, u: Id): (r: Option<RoomId>)
    ensures r.Some? <==> u in t.userToRoom
    ensures r.Some? ==> r.value == t.userToRoom[u]
    ensures Valid(t) && r.Some? ==> r.value in t.rooms && InRoom(t.rooms[r.value], u)
  {
    if u in t.userToRoom then Some(t.userToRoom[u]) else None
  }

  /** `getRoom(roomId)`. */
  function GetRoom(t: RoomTable, roomId: RoomId): (r: Option<Room>)
    ensures r.Some? <==> roomId in t.rooms
    ensures r.Some? ==> r.value == t.rooms[roomId]
    ensures Valid(t) && r.Some? ==>
      r.value.user1 != r.value.user2
      && GetRoomIdForUser(t, r.value.user1) == Some(roomId)
      && GetRoomIdForUser(t, r.value.user2) == Some(roomId)
  {
    if roomId in t.rooms then Some(t.rooms[roomId]) else None
  }

  /** Relaying from a member of a room reaches exactly the other member of
      that same room. */
  lemma RelayReachesPartner(t: RoomTable, sender: Id, ev: Event)
    requires Valid(t) && sender in t.userToRoom
    ensures var roomId := t.userToRoom[sender];
      var sent := Forward(t, roomId, sender, ev);
      && |sent| == 1
      && sent[0].to != sender
      && sent[0].to in t.userToRoom && t.userToRoom[sent[0].to] == roomId
      && sent[0].event == ev
  {
  }

  /** A room that has been torn down relays nothing. */
  lemma RelayAfterRemoveRoom(t: RoomTable, roomId: RoomId, sender: Id, ev: Event)
    requires Valid(t)
    ensures Forward(RemoveRoom(t, roomId), roomId, sender, ev) == []
  {
  }

  /** Removing a room twice is the same as removing it once. */
  lemma RemoveRoomIdempotent(t: RoomTable, roomId: RoomId)
    ensures RemoveRoom(RemoveRoom(t, roomId), roomId) == RemoveRoom(t, roomId)
  {
  }

  /** Creating a room and removing it again gives back the table, except that
      the room id is used up. */
  lemma CreateThenRemove(t: RoomTable, u1: Id, u2: Id)
    requires Valid(t) && u1 !in t.userToRoom && u2 !in t.userToRoom
    ensures var t' := RemoveRoom(CreateRoom(t, u1, u2).table, t.nextId);
      t'.rooms == t.rooms && t'.userToRoom == t.userToRoom && t'.nextId > t.nextId
  {
    var t1 := CreateRoom(t, u1, u2).table;
    var t' := RemoveRoom(t1, t.nextId);
    assert t'.rooms == t.rooms;
    assert t'.userToRoom == t.userToRoom;
  }
}
