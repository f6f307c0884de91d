/** The persistence layer the backend talks to, as in-memory tables.
    Every table receives increasing ids starting at 1 and nothing is ever
    deleted, so a record's id is its position plus one. The store enforces
    the constraints of the schema: unique user e-mails and user names, one
    reaction per (message, user, emoji), and references that point at
    existing records. A violated constraint is reported with the store's
    error code, as a failed query would be. */
module Store {
  import opened Values
  import opened Sorting

  datatype User = User(id: nat, email: string, username: string, password: string, customColor: string)

  datatype Room = Room(id: nat, name: string, isPrivate: bool, historyEnabled: bool,
                       ownerId: Option<nat>, participants: seq<int>, createdAt: int)

  datatype Message = Message(id: nat, content: string, roomId: nat, senderId: nat, createdAt: int)

  datatype Reaction = Reaction(id: nat, emoji: string, messageId: nat, userId: nat)

  datatype Db = Db(users: seq<User>, rooms: seq<Room>, messages: seq<Message>, reactions: seq<Reaction>)

  datatype DbError = DbError(code: string)

  /** Error codes of the store: a unique constraint failed, a foreign key
      constraint failed, a record an operation depends on was not found. */
  const UniqueViolation: string := "P2002"
  const ForeignKeyViolation: string := "P2003"
  const RecordNotFound: string := "P2025"

  const EmptyDb: Db := Db([], [], [], [])

  predicate IsUserId(db: Db, id: int) { 1 <= id <= |db.users| }
  predicate IsRoomId(db: Db, id: int) { 1 <= id <= |db.rooms| }
  predicate IsMessageId(db: Db, id: int) { 1 <= id <= |db.messages| }

  ghost predicate UsersValid(users: seq<User>) {
    && (forall i :: 0 <= i < |users| ==> users[i].id == i + 1)
    && (forall i, j :: 0 <= i < j < |users| ==>
          users[i].email != users[j].email && users[i].username != users[j].username)
  }

  predicate RoomRefsValid(db: Db, r: Room) {
    && (r.ownerId.Some? ==> IsUserId(db, r.ownerId.value))
    && (forall p :: p in r.participants ==> IsUserId(db, p))
  }

  ghost predicate RoomsValid(db: Db) {
    forall i :: 0 <= i < |db.rooms| ==> db.rooms[i].id == i + 1 && RoomRefsValid(db, db.rooms[i])
  }

  ghost predicate MessagesValid(db: Db) {
    forall i :: 0 <= i < |db.messages| ==>
      db.messages[i].id == i + 1 && IsRoomId(db, db.messages[i].roomId) && IsUserId(db, db.messages[i].senderId)
  }

  predicate SameKey(a: Reaction, b: Reaction) {
    a.messageId == b.messageId && a.userId == b.userId && a.emoji == b.emoji
  }

  ghost predicate ReactionsValid(db: Db) {
    && (forall i :: 0 <= i < |db.reactions| ==>
          db.reactions[i].id == i + 1 && IsMessageId(db, db.reactions[i].messageId)
          && IsUserId(db, db.reactions[i].userId))
    && (forall i, j :: 0 <= i < j < |db.reactions| ==> !SameKey(db.reactions[i], db.reactions[j]))
  }

  /** The constraints of the schema. */
  ghost predicate Valid(db: Db) {
    UsersValid(db.users) && RoomsValid(db) && MessagesValid(db) && ReactionsValid(db)
  }

  lemma EmptyDbValid()
    ensures Valid(EmptyDb)
  {
  }

  // ----- lookups -----

  /** `user.findUnique({ where: { id } })` */
  function FindUser(db: Db, id: int): (r: Option<User>)
    requires Valid(db)
    ensures r.Some? <==> exists u :: u in db.users && u.id == id
    ensures r.Some? ==> r.value in db.users && r.value.id == id
  {
    if IsUserId(db, id) then Some(db.users[id - 1]) else None
  }

  /** `user.findUnique` on a unique field: the user satisfying `p`, or
      none when no user does. */
  function FindUserBy(db: Db, p: User -> bool): (r: Option<User>)
    ensures r.Some? <==> exists u :: u in db.users && p(u)
    ensures r.Some? ==> r.value in db.users && p(r.value)
  {
    match Find(db.users, p)
    case None => None
    case Some(k) => Some(db.users[k])
  }

  /** `user.findUnique({ where: { email } })` */
  function FindUserByEmail(db: Db, email: string): Option<User> {
    FindUserBy(db, (u: User) => u.email == email)
  }

  /** `user.findUnique({ where: { username } })` */
  function FindUserByUsername(db: Db, username: string): Option<User> {
    FindUserBy(db, (u: User) => u.username == username)
  }

  /** `room.findUnique({ where: { id } })` */
  function FindRoom(db: Db, id: int): (r: Option<Room>)
    requires Valid(db)
    ensures r.Some? <==> exists room :: room in db.rooms && room.id == id
    ensures r.Some? ==> r.value in db.rooms && r.value.id == id
  {
    if IsRoomId(db, id) then Some(db.rooms[id - 1]) else None
  }

  /** `room.findFirst({ where: { name } })`: the oldest room with that name. */
  function FindRoomByName(db: Db, name: string): (r: Option<Room>)
    ensures r.Some? <==> exists room :: room in db.rooms && room.name == name
    ensures r.Some? ==> exists k :: 0 <= k < |db.rooms| && db.rooms[k] == r.value && r.value.name == name
                                    && forall j :: 0 <= j < k ==> db.rooms[j].name != name
  {
    match Find(db.rooms, (room: Room) => room.name == name)
    case None => None
    case Some(k) => Some(db.rooms[k])
  }

  /** `message.findUnique({ where: { id } })` */
  function FindMessage(db: Db, id: int): (r: Option<Message>)
    requires Valid(db)
    ensures r.Some? <==> exists m :: m in db.messages && m.id == id
    ensures r.Some? ==> r.value in db.messages && r.value.id == id
  {
    if IsMessageId(db, id) then Some(db.messages[id - 1]) else None
  }

  // ----- inserts and updates -----

  /** `user.create`: fails with a unique-constraint error when the e-mail or
      the user name is already taken. */
  function CreateUser(db: Db, email: string, username: string, password: string, customColor: string)
    : (r: Result<(Db, User), DbError>)
    requires Valid(db)
    ensures r.Err? <==> exists u :: u in db.users && (u.email == email || u.username == username)
    ensures r.Err? ==> r.error == DbError(UniqueViolation)
    ensures r.Ok? ==> var (db', u) := r.value;
              && u == User(|db.users| + 1, email, username, password, customColor)
              && db' == db.(users := db.users + [u])
              && Valid(db')
  {
    if FindUserByEmail(db, email).Some? || FindUserByUsername(db, username).Some? then
      Err(DbError(UniqueViolation))
    else
      var u := User(|db.users| + 1, email, username, password, customColor);
      var db' := db.(users := db.users + [u]);
      assert UsersValid(db'.users) by {
        forall i, j | 0 <= i < j < |db'.users|
          ensures db'.users[i].email != db'.users[j].email && db'.users[i].username != db'.users[j].username
        {
          if j == |db.users| { assert db'.users[i] in db.users; }
        }
      }
      Ok((db', u))
  }

  /** `room.create` with owner and participants connected: fails when a
      participant or the owner does not exist. */
  function CreateRoom(db: Db, name: string, isPrivate: bool, historyEnabled: bool,
                      ownerId: Option<nat>, participants: seq<int>, now: int)
    : (r: Result<(Db, Room), DbError>)
    requires Valid(db)
    ensures r.Err? <==> (exists p :: p in participants && !IsUserId(db, p))
                        || (ownerId.Some? && !IsUserId(db, ownerId.value))
    ensures r.Ok? ==> var (db', room) := r.value;
              && room == Room(|db.rooms| + 1, name, isPrivate, historyEnabled, ownerId, participants, now)
              && db' == db.(rooms := db.rooms + [room])
              && Valid(db')
  {
    if exists p :: p in participants && !IsUserId(db, p) then Err(DbError(RecordNotFound))
    else if ownerId.Some? && !IsUserId(db, ownerId.value) then Err(DbError(ForeignKeyViolation))
    else
      var room := Room(|db.rooms| + 1, name, isPrivate, historyEnabled, ownerId, participants, now);
      Ok((db.(rooms := db.rooms + [room]), room))
  }

  /** `message.create`: fails when the room or the sender does not exist. */
  function CreateMessage(db: Db, content: string, roomId: int, senderId: int, now: int)
    : (r: Result<(Db, Message), DbError>)
    requires Valid(db)
    ensures r.Err? <==> !IsRoomId(db, roomId) || !IsUserId(db, senderId)
    ensures r.Err? ==> r.error == DbError(ForeignKeyViolation)
    ensures r.Ok? ==> var (db', m) := r.value;
              && m == Message(|db.messages| + 1, content, roomId, senderId, now)
              && db' == db.(messages := db.messages + [m])
              && Valid(db')
  {
    if !IsRoomId(db, roomId) || !IsUserId(db, senderId) then Err(DbError(ForeignKeyViolation))
    else
      var m := Message(|db.messages| + 1, content, roomId, senderId, now);
      Ok((db.(messages := db.messages + [m]), m))
  }

  /** Is there a reaction row for this (message, user, emoji) already? */
  predicate HasReaction(db: Db, messageId: int, userId: int, emoji: string) {
    exists r :: r in db.reactions && r.messageId == messageId && r.userId == userId && r.emoji == emoji
  }

  /** `reaction.create`: fails on a second row for the same (message, user,
      emoji), and when the message or the user does not exist. */
  function CreateReaction(db: Db, messageId: int, userId: int, emoji: string)
    : (r: Result<(Db, Reaction), DbError>)
    requires Valid(db)
    ensures HasReaction(db, messageId, userId, emoji) ==> r == Err(DbError(UniqueViolation))
    ensures r.Ok? <==> !HasReaction(db, messageId, userId, emoji) && IsMessageId(db, messageId) && IsUserId(db, userId)
    ensures r.Ok? ==> var (db', x) := r.value;
              && x == Reaction(|db.reactions| + 1, emoji, messageId, userId)
              && db' == db.(reactions := db.reactions + [x])
              && Valid(db')
              && HasReaction(db', messageId, userId, emoji)
  {
    if HasReaction(db, messageId, userId, emoji) then Err(DbError(UniqueViolation))
    else if !IsMessageId(db, messageId) || !IsUserId(db, userId) then Err(DbError(ForeignKeyViolation))
    else
      var x := Reaction(|db.reactions| + 1, emoji, messageId, userId);
      var db' := db.(reactions := db.reactions + [x]);
      assert ReactionsValid(db') by {
        forall i, j | 0 <= i < j < |db'.reactions| ensures !SameKey(db'.reactions[i], db'.reactions[j]) {
          if j == |db.reactions| { assert db'.reactions[i] in db.reactions; }
        }
      }
      assert x in db'.reactions;
      Ok((db', x))
  }

  /** A user record replaced by one with the same id whose e-mail and user
      name no other user has keeps the store valid. */
  lemma ReplaceUserValid(db: Db, k: nat, u: User)
    requires Valid(db) && k < |db.users| && u.id == k + 1
    requires forall j :: 0 <= j < |db.users| && j != k ==>
               db.users[j].email != u.email && db.users[j].username != u.username
    ensures Valid(db.(users := db.users[k := u]))
  {
    var db' := db.(users := db.users[k := u]);
    assert forall i :: 0 <= i < |db.users| && i != k ==> db'.users[i] == db.users[i];
  }

  /** The record of user `id` with a new user name (when one is given) that
      no other user holds keeps the store valid. */
  lemma UpdatedUserValid(db: Db, id: int, username: Option<string>, u: User)
    requires Valid(db) && IsUserId(db, id)
    requires u.id == id && u.email == db.users[id - 1].email
    requires u.username == if username.Some? then username.value else db.users[id - 1].username
    requires forall v :: v in db.users && username.Some? && v.username == username.value ==> v.id == id
    ensures Valid(db.(users := db.users[id - 1 := u]))
  {
    forall j | 0 <= j < |db.users| && j != id - 1
      ensures db.users[j].email != u.email && db.users[j].username != u.username
    {
      assert db.users[j] in db.users;
    }
    ReplaceUserValid(db, id - 1, u);
  }

  /** `user.update`: fails when the user does not exist, and when the new
      user name belongs to another user. */
  function UpdateUser(db: Db, id: int, username: Option<string>, customColor: Option<string>)
    : (r: Result<(Db, User), DbError>)
    requires Valid(db)
    ensures !IsUserId(db, id) ==> r == Err(DbError(RecordNotFound))
    ensures r.Err? <==> !IsUserId(db, id)
                        || (username.Some? && exists u :: u in db.users && u.username == username.value && u.id != id)
    ensures r.Ok? ==> var db', u, before := r.value.0, r.value.1, db.users[id - 1];
              && u == before.(username := if username.Some? then username.value else before.username,
                           customColor := if customColor.Some? then customColor.value else before.customColor)
              && db' == db.(users := db.users[id - 1 := u])
              && Valid(db')
  {
    if !IsUserId(db, id) then Err(DbError(RecordNotFound))
    else
      var before := db.users[id - 1];
      var holder := if username.Some? then FindUserByUsername(db, username.value) else None;
      if holder.Some? && holder.value.id != id then Err(DbError(UniqueViolation))
      else
        assert forall u :: u in db.users && username.Some? && u.username == username.value ==> u.id == id by {
          forall u | u in db.users && username.Some? && u.username == username.value ensures u.id == id {
            var k :| 0 <= k < |db.users| && db.users[k] == u;
            var h :| 0 <= h < |db.users| && db.users[h] == holder.value;
            assert k == h;
          }
        }
        var u := before.(username := if username.Some? then username.value else before.username,
                      customColor := if customColor.Some? then customColor.value else before.customColor);
        UpdatedUserValid(db, id, username, u);
        var db' := db.(users := db.users[id - 1 := u]);
        Ok((db', u))
  }

  // ----- queries -----

  /** The messages of a room, in table order. */
  function RoomMessages(db: Db, roomId: int): (r: seq<Message>)
    ensures forall m :: m in r <==> m in db.messages && m.roomId == roomId
  {
    Filter(db.messages, (m: Message) => m.roomId == roomId)
  }

  function ReactionId(x: Reaction): int { x.id }

  /** `include: { reactions: ... }` of a message: every reaction row of the
      message once, in table order, which is ascending id. */
  function MessageReactions(db: Db, messageId: int): (r: seq<Reaction>)
    requires Valid(db)
    ensures forall x :: x in r <==> x in db.reactions && x.messageId == messageId
    ensures forall i, j :: 0 <= i < j < |r| ==> r[i].id < r[j].id
  {
    var r := Filter(db.reactions, (x: Reaction) => x.messageId == messageId);
    FilterAscending(db.reactions, (x: Reaction) => x.messageId == messageId, ReactionId);
    r
  }

  const HistoryLimit: nat := 50

  function ByCreatedAt(m: Message): int { m.createdAt }

  /** The first `n` elements of `s` (all of them when there are fewer). */
  function Take<T>(s: seq<T>, n: nat): (r: seq<T>)
    ensures |r| == if |s| < n then |s| else n
    ensures r == s[..|r|]
  {
    if |s| <= n then s else s[..n]
  }

  lemma OldestFirst(all: seq<Message>, sorted: seq<Message>, h: seq<Message>)
    requires SortedBy(sorted, ByCreatedAt) && multiset(sorted) == multiset(all)
    requires h == Take(sorted, HistoryLimit)
    ensures multiset(h) <= multiset(all)
    ensures forall m :: m in h ==> m in all
    ensures forall i, j :: 0 <= i < j < |h| ==> h[i].createdAt <= h[j].createdAt
    ensures forall m, i :: m in all && m !in h && 0 <= i < |h| ==> h[i].createdAt <= m.createdAt
  {
    assert sorted == h + sorted[|h|..];
    forall m | m in h ensures m in all {
      assert m in multiset(sorted);
    }
    forall i, j | 0 <= i < j < |h| ensures h[i].createdAt <= h[j].createdAt {
      assert h[i] == sorted[i] && h[j] == sorted[j];
      assert ByCreatedAt(sorted[i]) <= ByCreatedAt(sorted[j]);
    }
    forall m, i | m in all && m !in h && 0 <= i < |h| ensures h[i].createdAt <= m.createdAt {
      assert m in multiset(sorted);
      var k :| 0 <= k < |sorted| && sorted[k] == m;
      assert k >= |h|;
      assert h[i] == sorted[i];
      assert ByCreatedAt(sorted[i]) <= ByCreatedAt(sorted[k]);
    }
  }

  /** `message.findMany({ where: { roomId }, orderBy: { createdAt: 'asc' },
      take: 50 })`: the at most 50 OLDEST messages of the room, oldest first. */
  function HistoryMessages(db: Db, roomId: int): (h: seq<Message>)
    ensures |h| == if |RoomMessages(db, roomId)| < HistoryLimit then |RoomMessages(db, roomId)| else HistoryLimit
    ensures multiset(h) <= multiset(RoomMessages(db, roomId))
    ensures forall m :: m in h ==> m in db.messages && m.roomId == roomId
    ensures forall i, j :: 0 <= i < j < |h| ==> h[i].createdAt <= h[j].createdAt
    ensures forall m, i :: m in RoomMessages(db, roomId) && m !in h && 0 <= i < |h| ==> h[i].createdAt <= m.createdAt
    ensures |RoomMessages(db, roomId)| <= HistoryLimit ==> multiset(h) == multiset(RoomMessages(db, roomId))
  {
    var all := RoomMessages(db, roomId);
    var sorted := SortBy(all, ByCreatedAt);
    var h := Take(sorted, HistoryLimit);
    OldestFirst(all, sorted, h);
    h
  }
}
