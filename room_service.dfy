/** Room creation and listing (backend/src/chat/room.service.ts) as
    functions over the store. */
module RoomService {
  import opened Values
  import opened Sorting
  import opened Store
  import opened RoomDto

  /** `dto.participantIds ? [...new Set([...dto.participantIds, userId])] : [userId]` */
  function Participants(userId: nat, ids: Option<seq<int>>): (r: seq<int>)
    ensures NoDuplicates(r) && userId in r
    ensures ids.None? ==> r == [userId]
    ensures ids.Some? ==> forall x :: x in r <==> x in ids.value || x == userId
  {
    if ids.Some? then Dedup(ids.value + [userId]) else [userId]
  }

  /** The supplied ids keep their first-occurrence order, and the creator
      comes after them unless it was among them. */
  lemma ParticipantsOrder(userId: nat, ids: seq<int>)
    requires NoDuplicates(ids)
    ensures Participants(userId, Some(ids)) == ids + (if userId in ids then [] else [userId])
  {
    assert (ids + [userId])[..|ids|] == ids;
    DedupOfDistinct(ids);
  }

  /** `createRoom`: the creator owns the room, the flags default to public
      with history, and the store refuses unknown participants. */
  function CreateRoomFor(db: Db, userId: nat, dto: CreateRoomDto, now: int): (r: Result<(Db, Room), DbError>)
    requires Store.Valid(db)
    ensures r.Err? <==> !IsUserId(db, userId) || exists p :: p in Participants(userId, dto.participantIds) && !IsUserId(db, p)
    ensures r.Ok? ==> var (db', room) := r.value;
              && Store.Valid(db')
              && db' == db.(rooms := db.rooms + [room])
              && room.id == |db.rooms| + 1 && room.name == dto.name && room.createdAt == now
              && room.ownerId == Some(userId)
              && room.participants == Participants(userId, dto.participantIds)
              && room.isPrivate == (dto.isPrivate == Some(true))
              && room.historyEnabled == (dto.historyEnabled != Some(false))
  {
    var participants := Participants(userId, dto.participantIds);
    CreateRoom(db, dto.name,
               if dto.isPrivate.Some? then dto.isPrivate.value else false,
               if dto.historyEnabled.Some? then dto.historyEnabled.value else true,
               Some(userId), participants, now)
  }

  /** With no flags given, a room is public and keeps history, and its only
      participant is its creator. */
  lemma CreateRoomDefaults(db: Db, userId: nat, name: string, now: int)
    requires Store.Valid(db) && IsUserId(db, userId)
    ensures var r := CreateRoomFor(db, userId, CreateRoomDto(name, None, None, None), now);
            && r.Ok?
            && !r.value.1.isPrivate && r.value.1.historyEnabled
            && r.value.1.participants == [userId] && r.value.1.ownerId == Some(userId)
  {
  }

  /** `{ isPrivate: false }` or `{ participants: { some: { id: userId } } }` */
  predicate VisibleTo(room: Room, userId: int) {
    !room.isPrivate || userId in room.participants
  }

  function CreatedAtDesc(room: Room): int {
    -room.createdAt
  }

  /** `getMyRooms`: the public rooms and the rooms the user takes part in,
      newest first. */
  function GetMyRooms(db: Db, userId: int): (r: seq<Room>)
    ensures forall room :: room in r <==> room in db.rooms && VisibleTo(room, userId)
    ensures forall i, j :: 0 <= i < j < |r| ==> r[i].createdAt >= r[j].createdAt
    ensures multiset(r) == multiset(Filter(db.rooms, (room: Room) => VisibleTo(room, userId)))
  {
    var visible := Filter(db.rooms, (room: Room) => VisibleTo(room, userId));
    var r := SortBy(visible, CreatedAtDesc);
    forall room ensures room in r <==> room in db.rooms && VisibleTo(room, userId) {
      SortByMembers(visible, CreatedAtDesc, room);
    }
    assert forall i, j :: 0 <= i < j < |r| ==> CreatedAtDesc(r[i]) <= CreatedAtDesc(r[j]);
    r
  }

  /** A room the user creates is listed for the user, whether it is private
      or not. */
  lemma CreatedRoomListed(db: Db, userId: nat, dto: CreateRoomDto, now: int)
    requires Store.Valid(db)
    requires CreateRoomFor(db, userId, dto, now).Ok?
    ensures var (db', room) := CreateRoomFor(db, userId, dto, now).value;
            room in GetMyRooms(db', userId)
  {
  }

  /** A private room that does not list the user is never listed for the user. */
  lemma PrivateRoomHidden(db: Db, userId: int, room: Room)
    requires room in db.rooms && room.isPrivate && userId !in room.participants
    ensures room !in GetMyRooms(db, userId)
  {
  }

  /** `select: { id, username, customColor }`: a user without e-mail and
      password. */
  datatype UserSummary = UserSummary(id: nat, username: string, customColor: string)

  function SummaryOf(u: User): UserSummary {
    UserSummary(u.id, u.username, u.customColor)
  }

  /** `getAllUsers`: one summary per user, in table order. */
  function GetAllUsers(db: Db): (r: seq<UserSummary>)
    ensures |r| == |db.users|
    ensures forall u :: u in db.users ==> SummaryOf(u) in r
    ensures forall k :: 0 <= k < |r| ==>
              r[k].id == db.users[k].id && r[k].username == db.users[k].username
              && r[k].customColor == db.users[k].customColor
  {
    var r := seq(|db.users|, k requires 0 <= k < |db.users| => SummaryOf(db.users[k]));
    assert forall u :: u in db.users ==> SummaryOf(u) in r by {
      forall u | u in db.users ensures SummaryOf(u) in r {
        var k :| 0 <= k < |db.users| && db.users[k] == u;
        assert r[k] == SummaryOf(u);
      }
    }
    r
  }
}
