/** The real-time chat gateway (backend/src/chat/chat.gateway.ts).
    A `Socket` is one client connection: its cached user and the set of
    broadcast groups it belongs to. The `ChatGateway` holds the typing sets
    of every room, the memo of the general room's id, the store, and the log
    of every event it emitted together with the connections it was emitted
    to. Each handler runs as one atomic step. */
module Gateway {
  import opened Values
  import opened Store
  import opened Wire

  const GeneralRoomName: string := "general"
  const RoomPrefix: string := "room:"
  const BearerPrefix: string := "Bearer "

  const NotAuthenticated: string := "User not authenticated"
  const SendFailed: string := "Error sending message"
  const RoomNotFound: string := "Room not found"
  const AccessDenied: string := "Access denied"

  /** The copy of the user the connection keeps (`client.data.user`). */
  datatype SessionUser = SessionUser(id: nat, username: string, customColor: string)

  function SessionOf(u: User): SessionUser {
    SessionUser(u.id, u.username, u.customColor)
  }

  /** The connection request: the raw `authorization` header and the `auth`
      object the client passed, if any. */
  datatype Handshake = Handshake(authorization: Option<Json>, auth: Option<map<string, Json>>)

  /** Who receives an emitted event: the connection alone (`client.emit`),
      every member of a group (`server.to(group)`), or every member but the
      connection itself (`client.to(group)`). */
  datatype Target = ToClient(socket: string) | ToGroup(group: string) | ToGroupExcept(group: string, except: string)

  datatype Event =
    | Joined(room: RoomInfo)                           // chat:joined
    | History(messages: seq<ChatMessage>)              // chat:history
    | NewMessage(message: ChatMessage)                 // chat:new-message
    | ReactionAdded(messageId: int, reaction: ReactionView)  // chat:reaction-added
    | Typing(names: seq<string>)                       // chat:typing
    | UserJoined(username: string)                     // chat:user-joined
    | UserLeft(username: string)                       // chat:user-left
    | ChatError(text: string)                          // chat:error

  datatype Emit = Emit(target: Target, event: Event)

  // ----- the handshake token -----

  predicate IsBearer(header: Option<Json>) {
    header.Some? && header.value.JStr? && StartsWith(header.value.s, BearerPrefix)
  }

  /** `getToken`: the header's text after `Bearer ` wins; otherwise a string
      `auth.token`; otherwise nothing. */
  function GetToken(h: Handshake): (t: Option<string>)
    ensures IsBearer(h.authorization) ==> t.Some? && BearerPrefix + t.value == h.authorization.value.s
    ensures !IsBearer(h.authorization) ==>
              (t.Some? <==> h.auth.Some? && "token" in h.auth.value && h.auth.value["token"].JStr?)
    ensures !IsBearer(h.authorization) && t.Some? ==> h.auth.value["token"] == JStr(t.value)
  {
    if IsBearer(h.authorization) then
      var header := h.authorization.value.s;
      assert header == BearerPrefix + header[|BearerPrefix|..];
      Some(header[|BearerPrefix|..])
    else if h.auth.Some? && "token" in h.auth.value && h.auth.value["token"].JStr? then
      Some(h.auth.value["token"].s)
    else None
  }

  /** A `Bearer` header yields its token whatever the `auth` object holds. */
  lemma BearerHeaderWins(token: string, auth: Option<map<string, Json>>)
    ensures GetToken(Handshake(Some(JStr(BearerPrefix + token)), auth)) == Some(token)
  {
    var h := Handshake(Some(JStr(BearerPrefix + token)), auth);
    assert (BearerPrefix + token)[..|BearerPrefix|] == BearerPrefix;
    assert IsBearer(h.authorization);
  }

  /** The browser client connects with `auth: { token }` and no header
      (frontend/src/pages/Chat.tsx): the gateway reads that token. */
  lemma AuthFieldToken(token: string, auth: map<string, Json>)
    requires "token" in auth && auth["token"] == JStr(token)
    ensures GetToken(Handshake(None, Some(auth))) == Some(token)
  {
  }

  /** The token of a successful handshake names an existing user. */
  function Authenticate(db: Db, h: Handshake, verify: string -> Option<int>): (r: Option<User>)
    requires Store.Valid(db)
    ensures r.Some? <==> GetToken(h).Some? && GetToken(h).value != []
                         && exists u :: u in db.users && verify(GetToken(h).value) == Some(u.id)
    ensures r.Some? ==> r.value in db.users && verify(GetToken(h).value) == Some(r.value.id)
  {
    var token := GetToken(h);
    if token.None? || token.value == [] then None
    else
      var sub := verify(token.value);
      if sub.None? then None else FindUser(db, sub.value)
  }

  // ----- broadcast groups -----

  function RoomGroup(roomId: int): string {
    RoomPrefix + IntToString(roomId)
  }

  predicate IsRoomGroup(g: string) {
    StartsWith(g, RoomPrefix)
  }

  /** `parseInt(roomStr.split(':')[1])` for a group name that starts with
      `room:` (its first ':' is the one of the prefix). */
  function RoomIdOfGroup(g: string): Option<int>
    requires IsRoomGroup(g)
  {
    ParseInt(UpToColon(g[|RoomPrefix|..]))
  }

  /** The group name of a room reads back as that room's id. */
  lemma RoomGroupRoundTrip(id: int)
    ensures IsRoomGroup(RoomGroup(id))
    ensures RoomIdOfGroup(RoomGroup(id)) == Some(id)
  {
    var g := RoomGroup(id);
    assert g[..|RoomPrefix|] == RoomPrefix;
    assert g[|RoomPrefix|..] == IntToString(id);
    UpToColonWithout(IntToString(id));
    ParseIntOfIntToString(id);
  }

  lemma RoomGroupInjective(a: int, b: int)
    ensures RoomGroup(a) == RoomGroup(b) ==> a == b
  {
    RoomGroupRoundTrip(a);
    RoomGroupRoundTrip(b);
  }

  /** The groups of a connection other than room groups, in order. */
  function KeepNonRoomGroups(s: seq<string>): (r: seq<string>)
    ensures forall g :: g in r <==> g in s && !IsRoomGroup(g)
    ensures |r| <= |s|
  {
    if s == [] then []
    else
      var init := s[..|s| - 1];
      assert s == init + [s[|s| - 1]];
      KeepNonRoomGroups(init) + (if IsRoomGroup(s[|s| - 1]) then [] else [s[|s| - 1]])
  }

  lemma {:induction false} KeepNonRoomGroupsNoDuplicates(s: seq<string>)
    requires NoDuplicates(s)
    ensures NoDuplicates(KeepNonRoomGroups(s))
  {
    if s != [] {
      var init := s[..|s| - 1];
      assert NoDuplicates(init) by {
        forall i, j | 0 <= i < j < |init| ensures init[i] != init[j] { assert init[i] == s[i] && init[j] == s[j]; }
      }
      KeepNonRoomGroupsNoDuplicates(init);
      assert s[|s| - 1] !in init by {
        forall i | 0 <= i < |init| ensures init[i] != s[|s| - 1] { assert init[i] == s[i]; }
      }
    }
  }

  lemma KeepSnoc(s: seq<string>)
    requires s != []
    ensures IsRoomGroup(s[|s| - 1]) ==> KeepNonRoomGroups(s) == KeepNonRoomGroups(s[..|s| - 1])
    ensures !IsRoomGroup(s[|s| - 1]) ==> KeepNonRoomGroups(s) == KeepNonRoomGroups(s[..|s| - 1]) + [s[|s| - 1]]
  {
  }

  /** One step of leaving the room groups of a snapshot `groups`: `cur` has
      dropped the room groups among the first `i`, and the next group is a
      room group, which leaving deletes. */
  lemma LeaveStep(groups: seq<string>, i: nat, cur: seq<string>)
    requires i < |groups| && NoDuplicates(cur) && IsRoomGroup(groups[i])
    requires cur == KeepNonRoomGroups(groups[..i]) + groups[i..]
    ensures RemoveAll(cur, groups[i]) == KeepNonRoomGroups(groups[..i + 1]) + groups[i + 1..]
  {
    var g, kept, rest := groups[i], KeepNonRoomGroups(groups[..i]), groups[i + 1..];
    Prefix(groups, i);
    KeepSnoc(groups[..i + 1]);
    assert KeepNonRoomGroups(groups[..i + 1]) == kept;
    Drop(groups, i);
    assert cur == kept + ([g] + rest);
    RemoveMiddle(kept, g, rest);
  }

  /** The same step when the next group is not a room group: it stays. */
  lemma KeepStep(groups: seq<string>, i: nat, cur: seq<string>)
    requires i < |groups| && !IsRoomGroup(groups[i])
    requires cur == KeepNonRoomGroups(groups[..i]) + groups[i..]
    ensures cur == KeepNonRoomGroups(groups[..i + 1]) + groups[i + 1..]
  {
    var g, kept, rest := groups[i], KeepNonRoomGroups(groups[..i]), groups[i + 1..];
    Prefix(groups, i);
    KeepSnoc(groups[..i + 1]);
    assert KeepNonRoomGroups(groups[..i + 1]) == kept + [g];
    Drop(groups, i);
    Assoc(kept, [g], rest);
  }

  /** Joining a room group after leaving all of them appends it. */
  lemma JoinAfterLeave(before: seq<string>, id: int)
    requires NoDuplicates(before)
    ensures NoDuplicates(KeepNonRoomGroups(before))
    ensures SetAdd(KeepNonRoomGroups(before), RoomGroup(id)) == KeepNonRoomGroups(before) + [RoomGroup(id)]
  {
    KeepNonRoomGroupsNoDuplicates(before);
    RoomGroupRoundTrip(id);
    var s := KeepNonRoomGroups(before);
    var r := SetAdd(s, RoomGroup(id));
    assert RoomGroup(id) !in s;
    assert r == r[..|s|] + [r[|s|]];
  }

  /** After `handleJoinRoom` the groups are the non-room groups followed by
      the one room group: exactly one group is a room group, and it names
      the joined room. */
  lemma JoinedGroups(before: seq<string>, id: int)
    ensures var after := KeepNonRoomGroups(before) + [RoomGroup(id)];
            && (forall g :: g in after && IsRoomGroup(g) ==> g == RoomGroup(id))
            && (forall g :: g in before && !IsRoomGroup(g) ==> g in after)
            && IsRoomGroup(after[|after| - 1])
  {
    RoomGroupRoundTrip(id);
  }

  /** Where `handleSend` stores a message: a truthy `payload.roomId` is used
      as it is; otherwise the number parsed from the connection's first room
      group; otherwise the general room. */
  datatype SendRoom = Explicit(id: int) | FromGroup(parsed: Option<int>) | General

  function SendRoomOf(payloadRoomId: Option<int>, groups: seq<string>): SendRoom {
    if Truthy(payloadRoomId) then Explicit(payloadRoomId.value)
    else
      match Find(groups, IsRoomGroup)
      case Some(k) => FromGroup(RoomIdOfGroup(groups[k]))
      case None => General
  }

  /** A send without `roomId` from a connection that joined room `id` goes
      to room `id`. */
  lemma SendGoesToJoinedRoom(before: seq<string>, id: int)
    ensures SendRoomOf(None, KeepNonRoomGroups(before) + [RoomGroup(id)]) == FromGroup(Some(id))
  {
    var kept := KeepNonRoomGroups(before);
    var groups := kept + [RoomGroup(id)];
    RoomGroupRoundTrip(id);
    forall j | 0 <= j < |groups| - 1 ensures !IsRoomGroup(groups[j]) {
      assert groups[j] == kept[j] && kept[j] in kept;
    }
    assert groups[|groups| - 1] == RoomGroup(id);
    FindLast(groups, IsRoomGroup);
  }

  // ----- the general room -----

  /** `room.findFirst({ where: { name: 'general' } })`, and when there is
      none, a new public room named `general` with history enabled. */
  function GeneralRoom(db: Db, now: int): (r: (Db, nat))
    requires Store.Valid(db)
    ensures Store.Valid(r.0) && r.1 >= 1
    ensures FindRoom(r.0, r.1).Some? && FindRoom(r.0, r.1).value.name == GeneralRoomName
    ensures FindRoomByName(db, GeneralRoomName).Some? ==>
              r == (db, FindRoomByName(db, GeneralRoomName).value.id)
    ensures FindRoomByName(db, GeneralRoomName).None? ==>
              && r.1 == |db.rooms| + 1
              && r.0 == db.(rooms := db.rooms + [Room(r.1, GeneralRoomName, false, true, None, [], now)])
  {
    match FindRoomByName(db, GeneralRoomName)
    case Some(room) => (db, room.id)
    case None =>
      var created := CreateRoom(db, GeneralRoomName, false, true, None, [], now);
      assert created.Ok?;
      (created.value.0, created.value.1.id)
  }

  /** `ensureGeneralRoom` as a value: the new memo, store and result. */
  function EnsureGeneral(memo: Option<nat>, db: Db, now: int): (r: (Option<nat>, Db, nat))
    requires Store.Valid(db)
    ensures Store.Valid(r.1) && Truthy(r.0) && r.0 == Some(r.2)
    ensures Truthy(memo) ==> r == (memo, db, memo.value)
  {
    if Truthy(memo) then (memo, db, memo.value)
    else
      var (db', id) := GeneralRoom(db, now);
      (Some(id), db', id)
  }

  /** Calling `ensureGeneralRoom` twice gives the same id, and the second
      call changes nothing. */
  lemma EnsureGeneralIdempotent(memo: Option<nat>, db: Db, now1: int, now2: int)
    requires Store.Valid(db)
    ensures var (memo1, db1, id1) := EnsureGeneral(memo, db, now1);
            EnsureGeneral(memo1, db1, now2) == (memo1, db1, id1)
  {
  }

  // ----- payloads built from the store -----

  function SenderOf(u: User): Sender {
    Sender(u.id, u.username, u.customColor)
  }

  function InfoOf(room: Room): RoomInfo {
    RoomInfo(room.id, room.name, room.isPrivate, room.historyEnabled)
  }

  /** `{ id, emoji, user: { id, username } }` of a stored reaction, with
      its author looked up. */
  function ReactionViewOf(db: Db, x: Reaction): (v: ReactionView)
    requires Store.Valid(db) && x in db.reactions
    ensures FindUser(db, x.userId).Some?
    ensures v == ReactionView(x.id, x.emoji, ReactionUser(x.userId, FindUser(db, x.userId).value.username))
  {
    ReactionView(x.id, x.emoji, ReactionUser(x.userId, db.users[x.userId - 1].username))
  }

  /** What the client receives for a stored message `m`: its id, text and
      time, its author's id, name and colour, and one view per reaction row
      of `m`, in table order. */
  ghost predicate IsViewOf(db: Db, m: Message, v: ChatMessage)
    requires Store.Valid(db)
  {
    && v.id == m.id && v.content == m.content && v.createdAt == m.createdAt
    && FindUser(db, m.senderId).Some?
    && (var u := FindUser(db, m.senderId).value;
        v.sender == Sender(m.senderId, u.username, u.customColor))
    && (var rs := MessageReactions(db, m.id);
        && |v.reactions| == |rs|
        && forall k :: 0 <= k < |rs| ==> rs[k] in db.reactions && v.reactions[k] == ReactionViewOf(db, rs[k]))
  }

  /** A stored message with its sender and all its reactions. */
  function MessageViewOf(db: Db, m: Message): (v: ChatMessage)
    requires Store.Valid(db) && m in db.messages
    ensures IsViewOf(db, m, v)
  {
    var rs := MessageReactions(db, m.id);
    ChatMessage(m.id, m.content, m.createdAt, SenderOf(db.users[m.senderId - 1]),
                seq(|rs|, k requires 0 <= k < |rs| => ReactionViewOf(db, rs[k])))
  }

  /** Stored messages as the client receives them, one view each, in order. */
  function MessageViews(db: Db, ms: seq<Message>): (h: seq<ChatMessage>)
    requires Store.Valid(db) && forall m :: m in ms ==> m in db.messages
    ensures |h| == |ms|
    ensures forall i :: 0 <= i < |h| ==> IsViewOf(db, ms[i], h[i])
  {
    seq(|ms|, k requires 0 <= k < |ms| => MessageViewOf(db, ms[k]))
  }

  /** The payload of `chat:history` for a room: nothing when the room keeps
      no history, otherwise a view of each of its oldest messages, oldest
      first. */
  function HistoryFor(db: Db, room: Room): (h: seq<ChatMessage>)
    requires Store.Valid(db)
    ensures !room.historyEnabled ==> h == []
    ensures room.historyEnabled ==> h == MessageViews(db, HistoryMessages(db, room.id))
    ensures |h| <= HistoryLimit
    ensures forall i, j :: 0 <= i < j < |h| ==> h[i].createdAt <= h[j].createdAt
  {
    if !room.historyEnabled then []
    else MessageViews(db, HistoryMessages(db, room.id))
  }

  /** The events `handleConnection` sends after a successful handshake. */
  function ConnectEmits(socketId: string, db: Db, room: Room, username: string): seq<Emit>
    requires Store.Valid(db)
  {
    [ Emit(ToClient(socketId), Joined(InfoOf(room))),
      Emit(ToClient(socketId), History(HistoryFor(db, room))),
      Emit(ToGroupExcept(RoomGroup(room.id), socketId), UserJoined(username)) ]
  }

  // ----- sending a message -----

  /** Does `message.create` succeed for this room and author? */
  predicate Storable(db: Db, roomId: Option<int>, senderId: nat) {
    roomId.Some? && IsRoomId(db, roomId.value) && IsUserId(db, senderId)
  }

  /** `message.create` followed by the `new-message` broadcast, or the
      `Error sending message` reply when the store refuses the write. */
  function StoreAndBroadcast(db: Db, socketId: string, senderId: nat, text: string, roomId: Option<int>, now: int)
    : (r: (Db, seq<Emit>))
    requires Store.Valid(db)
    ensures Store.Valid(r.0)
    ensures !Storable(db, roomId, senderId) ==> r == (db, [Emit(ToClient(socketId), ChatError(SendFailed))])
    ensures Storable(db, roomId, senderId) ==>
              var m := Message(|db.messages| + 1, text, roomId.value, senderId, now);
              && r.0 == db.(messages := db.messages + [m])
              && r.1 == [Emit(ToGroup(RoomGroup(roomId.value)),
                              NewMessage(ChatMessage(m.id, text, now, SenderOf(db.users[senderId - 1]), [])))]
  {
    var created := if roomId.None? then Err(DbError(ForeignKeyViolation))
                   else CreateMessage(db, text, roomId.value, senderId, now);
    if created.Err? then (db, [Emit(ToClient(socketId), ChatError(SendFailed))])
    else
      var (db', saved) := created.value;
      (db', [Emit(ToGroup(RoomGroup(saved.roomId)),
                  NewMessage(ChatMessage(saved.id, saved.content, saved.createdAt,
                                         SenderOf(db'.users[saved.senderId - 1]), [])))])
  }

  /** What `handleSend` does once the room is resolved (`roomId` is `None`
      when the parsed group name was not a number): check the user, then
      the content, then store the trimmed text. */
  function SendEffect(db: Db, socketId: string, user: Option<SessionUser>, content: Option<string>,
                      roomId: Option<int>, now: int): (r: (Db, seq<Emit>))
    requires Store.Valid(db)
    ensures Store.Valid(r.0)
    ensures user.None? ==> r == (db, [Emit(ToClient(socketId), ChatError(NotAuthenticated))])
    ensures user.Some? && (content.None? || AllWhitespace(content.value)) ==> r == (db, [])
    ensures user.Some? && content.Some? && !AllWhitespace(content.value) ==>
              r == StoreAndBroadcast(db, socketId, user.value.id, Trim(content.value), roomId, now)
  {
    if user.None? then (db, [Emit(ToClient(socketId), ChatError(NotAuthenticated))])
    else if content.None? || Trim(content.value) == [] then
      TrimEmptyIff(if content.Some? then content.value else []);
      (db, [])
    else
      TrimEmptyIff(content.value);
      StoreAndBroadcast(db, socketId, user.value.id, Trim(content.value), roomId, now)
  }

  /** A send stores nothing or one message, and a stored message holds the
      trimmed content, which is never empty. */
  lemma StoredContentTrimmed(db: Db, socketId: string, user: Option<SessionUser>, content: Option<string>,
                             roomId: Option<int>, now: int)
    requires Store.Valid(db)
    ensures var after := SendEffect(db, socketId, user, content, roomId, now).0;
            || after.messages == db.messages
            || (&& content.Some? && Trim(content.value) != []
                && |after.messages| == |db.messages| + 1 && after.messages[..|db.messages|] == db.messages
                && after.messages[|db.messages|].content == Trim(content.value))
  {
    var after := SendEffect(db, socketId, user, content, roomId, now).0;
    if user.Some? && content.Some? && !AllWhitespace(content.value) {
      var text := Trim(content.value);
      TrimEmptyIff(content.value);
      var stored := StoreAndBroadcast(db, socketId, user.value.id, text, roomId, now).0;
      assert after == stored;
      if Storable(db, roomId, user.value.id) {
        assert stored.messages == db.messages + [Message(|db.messages| + 1, text, roomId.value, user.value.id, now)];
      } else {
        assert stored == db;
      }
    } else {
      assert after == db;
    }
  }

  // ----- reactions -----

  /** What `handleReaction` does for a connection whose user is cached. */
  function ReactionEffect(db: Db, userId: nat, messageId: int, emoji: string): (r: (Db, seq<Emit>))
    requires Store.Valid(db)
    ensures Store.Valid(r.0) && r.0.users == db.users && r.0.rooms == db.rooms && r.0.messages == db.messages
    ensures HasReaction(db, messageId, userId, emoji) ==> r == (db, [])
    ensures !HasReaction(db, messageId, userId, emoji) && IsMessageId(db, messageId) && IsUserId(db, userId) ==>
              && r.0.reactions == db.reactions + [Reaction(|db.reactions| + 1, emoji, messageId, userId)]
              && r.1 == [Emit(ToGroup(RoomGroup(db.messages[messageId - 1].roomId)),
                              ReactionAdded(messageId, ReactionView(|db.reactions| + 1, emoji,
                                                                   ReactionUser(userId, db.users[userId - 1].username))))]
    ensures !IsMessageId(db, messageId) || !IsUserId(db, userId) ==> r == (db, [])
  {
    match CreateReaction(db, messageId, userId, emoji)
    case Err(_) => (db, [])
    case Ok((db', reaction)) =>
      var message := FindMessage(db', messageId);
      if message.Some? && message.value.roomId != 0 then
        var author := FindUser(db', reaction.userId).value;
        (db', [Emit(ToGroup(RoomGroup(message.value.roomId)),
                    ReactionAdded(messageId, ReactionView(reaction.id, reaction.emoji,
                                                          ReactionUser(author.id, author.username))))])
      else (db', [])
  }

  function CountReactions(rs: seq<Reaction>, messageId: int, userId: int, emoji: string): nat {
    if rs == [] then 0
    else CountReactions(rs[..|rs| - 1], messageId, userId, emoji)
         + (if rs[|rs| - 1].messageId == messageId && rs[|rs| - 1].userId == userId && rs[|rs| - 1].emoji == emoji
            then 1 else 0)
  }

  lemma {:induction false} CountReactionsAtMostOne(rs: seq<Reaction>, messageId: int, userId: int, emoji: string)
    requires forall i, j :: 0 <= i < j < |rs| ==> !SameKey(rs[i], rs[j])
    ensures CountReactions(rs, messageId, userId, emoji) <= 1
    ensures CountReactions(rs, messageId, userId, emoji) == 1 <==>
              exists x :: x in rs && x.messageId == messageId && x.userId == userId && x.emoji == emoji
  {
    if rs != [] {
      var init := rs[..|rs| - 1];
      var last := rs[|rs| - 1];
      assert rs == init + [last];
      CountReactionsAtMostOne(init, messageId, userId, emoji);
      if last.messageId == messageId && last.userId == userId && last.emoji == emoji {
        forall x | x in init ensures !(x.messageId == messageId && x.userId == userId && x.emoji == emoji) {
          var i :| 0 <= i < |init| && init[i] == x;
          assert !SameKey(rs[i], rs[|rs| - 1]);
        }
      }
    }
  }

  /** Reacting twice with the same emoji on the same message stores exactly
      one reaction row and broadcasts at most once; the second attempt is a
      silent no-op. */
  lemma ReactTwice(db: Db, userId: nat, messageId: int, emoji: string)
    requires Store.Valid(db)
    ensures var (db1, e1) := ReactionEffect(db, userId, messageId, emoji);
            var (db2, e2) := ReactionEffect(db1, userId, messageId, emoji);
            && db2 == db1 && e2 == [] && |e1| <= 1
            && CountReactions(db2.reactions, messageId, userId, emoji) <= 1
            && (IsMessageId(db, messageId) && IsUserId(db, userId) ==>
                  CountReactions(db2.reactions, messageId, userId, emoji) == 1)
  {
    var (db1, e1) := ReactionEffect(db, userId, messageId, emoji);
    if IsMessageId(db, messageId) && IsUserId(db, userId) && !HasReaction(db, messageId, userId, emoji) {
      assert db1.reactions[|db.reactions|] == Reaction(|db.reactions| + 1, emoji, messageId, userId);
    }
    CountReactionsAtMostOne(db1.reactions, messageId, userId, emoji);
  }

  // ----- joining a room -----

  /** The checks of `handleJoinRoom`: the room must exist, and a private room
      admits only its participants. */
  function JoinCheck(db: Db, userId: nat, roomId: int): (r: Result<Room, string>)
    requires Store.Valid(db)
    ensures r == Err(RoomNotFound) <==> !IsRoomId(db, roomId)
    ensures r == Err(AccessDenied) <==>
              IsRoomId(db, roomId) && db.rooms[roomId - 1].isPrivate && userId !in db.rooms[roomId - 1].participants
    ensures r.Ok? ==> r.value in db.rooms && r.value.id == roomId
                      && (!r.value.isPrivate || userId in r.value.participants)
  {
    match FindRoom(db, roomId)
    case None => Err(RoomNotFound)
    case Some(room) =>
      if room.isPrivate && !(exists k :: 0 <= k < |room.participants| && room.participants[k] == userId)
      then Err(AccessDenied)
      else Ok(room)
  }

  // ----- typing -----

  /** `typingUsersByRoom` after `handleTyping`. */
  function TypingStart(typing: map<nat, seq<string>>, roomId: nat, name: string): (r: map<nat, seq<string>>)
    requires roomId in typing ==> NoDuplicates(typing[roomId])
    ensures roomId in r && name in r[roomId] && NoDuplicates(r[roomId])
    ensures forall n :: n in r[roomId] <==> n == name || (roomId in typing && n in typing[roomId])
    ensures forall k :: k != roomId ==> (k in r <==> k in typing) && (k in typing ==> r[k] == typing[k])
  {
    var names := if roomId in typing then typing[roomId] else [];
    var added := SetAdd(names, name);
    var r := typing[roomId := added];
    assert r[roomId] == added;
    r
  }

  /** `typingUsersByRoom` after `handleTypingStop` (and the disconnect
      clean-up): a set that does not exist is not created. */
  function TypingStop(typing: map<nat, seq<string>>, roomId: nat, name: string): (r: map<nat, seq<string>>)
    requires roomId in typing ==> NoDuplicates(typing[roomId])
    ensures r.Keys == typing.Keys
    ensures roomId in r ==> name !in r[roomId] && NoDuplicates(r[roomId])
    ensures roomId in r ==> forall n :: n in r[roomId] <==> n in typing[roomId] && n != name
    ensures forall k :: k in typing && k != roomId ==> r[k] == typing[k]
  {
    if roomId in typing then
      RemoveAllKeepsNoDuplicates(typing[roomId], name);
      typing[roomId := RemoveAll(typing[roomId], name)]
    else typing
  }

  /** No typing set holds a name twice. */
  ghost predicate TypingValid(typing: map<nat, seq<string>>) {
    forall r :: r in typing ==> NoDuplicates(typing[r])
  }

  lemma TypingStartValid(typing: map<nat, seq<string>>, roomId: nat, name: string)
    requires TypingValid(typing)
    ensures TypingValid(TypingStart(typing, roomId, name))
  {
  }

  lemma TypingStopValid(typing: map<nat, seq<string>>, roomId: nat, name: string)
    requires TypingValid(typing)
    ensures TypingValid(TypingStop(typing, roomId, name))
  {
  }

  /** Start then stop leaves the name out of the room's set, and a name that
      was not typing before leaves the set as it was. */
  lemma TypingStartThenStop(typing: map<nat, seq<string>>, roomId: nat, name: string)
    requires roomId in typing ==> NoDuplicates(typing[roomId])
    ensures var after := TypingStop(TypingStart(typing, roomId, name), roomId, name);
            && roomId in after && name !in after[roomId]
            && (roomId in typing && name !in typing[roomId] ==> after == typing)
            && (roomId !in typing ==> after == typing[roomId := []])
  {
    var names := if roomId in typing then typing[roomId] else [];
    var added := SetAdd(names, name);
    AddThenDelete(names, name);
    assert TypingStart(typing, roomId, name) == typing[roomId := added];
    UpdateTwice(typing, roomId, added, RemoveAll(added, name));
    var after := TypingStop(TypingStart(typing, roomId, name), roomId, name);
    assert after == typing[roomId := RemoveAll(added, name)];
    if roomId in typing && name !in typing[roomId] {
      UpdateSame(typing, roomId);
    }
  }

  // ----- the connection -----

  class Socket {
    const id: string
    const handshake: Handshake
    /** `client.data.user` */
    var user: Option<SessionUser>
    /** `client.rooms`, in insertion order */
    var rooms: seq<string>
    var connected: bool

    ghost predicate Valid()
      reads this
    {
      NoDuplicates(rooms)
    }

    /** A new connection belongs to the group named after its own id. */
    constructor(id: string, handshake: Handshake)
      ensures this.id == id && this.handshake == handshake
      ensures user == None && rooms == [id] && connected && Valid()
    {
      this.id := id;
      this.handshake := handshake;
      user := None;
      rooms := [id];
      connected := true;
    }

    /** `client.join(group)` */
    method Join(group: string)
      requires Valid()
      modifies this`rooms
      ensures Valid() && rooms == SetAdd(old(rooms), group)
    {
      if group !in rooms {
        rooms := rooms + [group];
      }
    }

    /** `client.leave(group)` */
    method Leave(group: string)
      requires Valid()
      modifies this`rooms
      ensures Valid() && rooms == RemoveAll(old(rooms), group)
    {
      RemoveAllKeepsNoDuplicates(rooms, group);
      rooms := RemoveAll(rooms, group);
    }

    /** Leave every group whose name starts with `room:`, one at a time,
        over a snapshot of the groups. */
    method LeaveRoomGroups()
      requires Valid()
      modifies this`rooms
      ensures Valid() && rooms == KeepNonRoomGroups(old(rooms))
    {
      var groups := rooms;
      var i := 0;
      while i < |groups|
        invariant 0 <= i <= |groups|
        invariant Valid()
        invariant rooms == KeepNonRoomGroups(groups[..i]) + groups[i..]
      {
        if IsRoomGroup(groups[i]) {
          LeaveStep(groups, i, rooms);
          Leave(groups[i]);
        } else {
          KeepStep(groups, i, rooms);
        }
        i := i + 1;
      }
      assert groups[..|groups|] == groups;
    }

    /** `client.disconnect()`: the connection is closed and leaves every group. */
    method Disconnect()
      modifies this`connected, this`rooms
      ensures !connected && rooms == [] && Valid()
    {
      connected := false;
      rooms := [];
    }
  }

  datatype SendPayload = SendPayload(content: Option<string>, roomId: Option<int>)

  class ChatGateway {
    var typingUsersByRoom: map<nat, seq<string>>
    var generalRoomId: Option<nat>
    var db: Db
    /** Every event emitted so far, with its recipients. */
    var log: seq<Emit>

    ghost predicate Valid()
      reads this
    {
      Store.Valid(db) && TypingValid(typingUsersByRoom)
    }

    constructor(db: Db)
      requires Store.Valid(db)
      ensures Valid() && this.db == db && typingUsersByRoom == map[] && generalRoomId == None && log == []
    {
      this.db := db;
      typingUsersByRoom := map[];
      generalRoomId := None;
      log := [];
    }

    /** `ensureGeneralRoom` */
    method EnsureGeneralRoom(now: int) returns (id: nat)
      requires Valid()
      modifies this`generalRoomId, this`db
      ensures Valid()
      ensures (generalRoomId, db, id) == EnsureGeneral(old(generalRoomId), old(db), now)
      ensures Truthy(old(generalRoomId)) ==> id == old(generalRoomId).value && db == old(db)
      ensures generalRoomId == Some(id) && Truthy(generalRoomId)
    {
      if Truthy(generalRoomId) {
        return generalRoomId.value;
      }
      var room := FindRoomByName(db, GeneralRoomName);
      if room.None? {
        var created := CreateRoom(db, GeneralRoomName, false, true, None, [], now);
        assert created.Ok?;
        db := created.value.0;
        room := Some(created.value.1);
      }
      generalRoomId := Some(room.value.id);
      id := room.value.id;
    }

    /** `handleConnection`: authenticate, cache the user, join the general
        room, then send `joined` and `history` to the client and
        `user-joined` to the rest of the room. Any failure disconnects
        without an event. */
    method HandleConnection(client: Socket, verify: string -> Option<int>, now: int)
      requires Valid() && client.Valid()
      modifies this`generalRoomId, this`db, this`log, client
      ensures Valid() && client.Valid() && typingUsersByRoom == old(typingUsersByRoom)
      ensures Authenticate(old(db), client.handshake, verify).None? ==>
                && !client.connected && client.rooms == [] && client.user == old(client.user)
                && log == old(log) && db == old(db) && generalRoomId == old(generalRoomId)
      ensures var a := Authenticate(old(db), client.handshake, verify);
              a.Some? ==>
                && client.user == Some(SessionOf(a.value))
                && generalRoomId.Some?
                && (generalRoomId, db, generalRoomId.value) == EnsureGeneral(old(generalRoomId), old(db), now)
                && match FindRoom(db, generalRoomId.value)
                   case None => !client.connected && client.rooms == [] && log == old(log)
                   case Some(room) =>
                     && client.connected == old(client.connected)
                     && client.rooms == SetAdd(old(client.rooms), RoomGroup(room.id))
                     && log == old(log) + ConnectEmits(client.id, db, room, a.value.username)
    {
      // a missing token, one that does not verify and an unknown user all
      // end in a disconnect
      var user := Authenticate(db, client.handshake, verify);
      if user.None? {
        client.Disconnect();
        return;
      }
      AdmitUser(client, user.value, now);
    }

    /** What `handleConnection` does once the token names a user. */
    method AdmitUser(client: Socket, user: User, now: int)
      requires Valid() && client.Valid()
      modifies this`generalRoomId, this`db, this`log, client
      ensures Valid() && client.Valid() && typingUsersByRoom == old(typingUsersByRoom)
      ensures client.user == Some(SessionOf(user))
      ensures generalRoomId.Some?
      ensures (generalRoomId, db, generalRoomId.value) == EnsureGeneral(old(generalRoomId), old(db), now)
      ensures match FindRoom(db, generalRoomId.value)
              case None => !client.connected && client.rooms == [] && log == old(log)
              case Some(room) =>
                && client.connected == old(client.connected)
                && client.rooms == SetAdd(old(client.rooms), RoomGroup(room.id))
                && log == old(log) + ConnectEmits(client.id, db, room, user.username)
    {
      client.user := Some(SessionOf(user));
      var generalId := EnsureGeneralRoom(now);
      var generalRoom := FindRoom(db, generalId);
      if generalRoom.None? {
        client.Disconnect();
        return;
      }
      client.Join(RoomGroup(generalId));
      log := log + ConnectEmits(client.id, db, generalRoom.value, user.username);
    }

    /** `handleDisconnect`: tell the general room the user left and drop the
        name from the general room's typing set, when that set exists. */
    method HandleDisconnect(client: Socket)
      requires Valid()
      modifies this`log, this`typingUsersByRoom
      ensures Valid() && db == old(db) && generalRoomId == old(generalRoomId)
      ensures !(Truthy(generalRoomId) && client.user.Some? && client.user.value.username != []) ==>
                log == old(log) && typingUsersByRoom == old(typingUsersByRoom)
      ensures Truthy(generalRoomId) && client.user.Some? && client.user.value.username != [] ==>
                var roomId := generalRoomId.value;
                var name := client.user.value.username;
                && typingUsersByRoom == TypingStop(old(typingUsersByRoom), roomId, name)
                && log == old(log) + [Emit(ToGroupExcept(RoomGroup(roomId), client.id), UserLeft(name))]
                          + (if roomId in old(typingUsersByRoom)
                             then [Emit(ToGroup(RoomGroup(roomId)), Typing(typingUsersByRoom[roomId]))]
                             else [])
    {
      var roomId := generalRoomId;
      var user := client.user;
      if Truthy(roomId) && user.Some? && user.value.username != [] {
        log := log + [Emit(ToGroupExcept(RoomGroup(roomId.value), client.id), UserLeft(user.value.username))];
        if roomId.value in typingUsersByRoom {
          TypingStopValid(typingUsersByRoom, roomId.value, user.value.username);
          typingUsersByRoom := TypingStop(typingUsersByRoom, roomId.value, user.value.username);
          log := log + [Emit(ToGroup(RoomGroup(roomId.value)), Typing(typingUsersByRoom[roomId.value]))];
        }
      }
    }

    /** `handleSend`: resolve the room, then check the user, then the
        content, then store the trimmed text and broadcast it to the room. */
    method HandleSend(client: Socket, payload: SendPayload, now: int)
      requires Valid()
      modifies this`generalRoomId, this`db, this`log
      ensures Valid() && typingUsersByRoom == old(typingUsersByRoom)
      ensures var target := SendRoomOf(payload.roomId, client.rooms);
              var general :=
                if target.General? then EnsureGeneral(old(generalRoomId), old(db), now)
                else (old(generalRoomId), old(db), 0);
              var roomId := match target
                            case Explicit(id) => Some(id)
                            case FromGroup(parsed) => parsed
                            case General => Some(general.2 as int);
              var effect := SendEffect(general.1, client.id, client.user, payload.content, roomId, now);
              generalRoomId == general.0 && db == effect.0 && log == old(log) + effect.1
    {
      var target := SendRoomOf(payload.roomId, client.rooms);
      var roomId: Option<int>;
      match target {
        case Explicit(id) => roomId := Some(id);
        case FromGroup(parsed) => roomId := parsed;
        case General =>
          var generalId := EnsureGeneralRoom(now);
          roomId := Some(generalId);
      }
      // the user, the content and the write are checked in that order
      var (db', emits) := SendEffect(db, client.id, client.user, payload.content, roomId, now);
      db := db';
      log := log + emits;
    }

    /** `handleReaction`: store the reaction and broadcast it to the room of
        the message; a duplicate or a failure is silently dropped. */
    method HandleReaction(client: Socket, messageId: int, emoji: string)
      requires Valid()
      modifies this`db, this`log
      ensures Valid()
      ensures client.user.None? ==> db == old(db) && log == old(log)
      ensures client.user.Some? ==>
                var effect := ReactionEffect(old(db), client.user.value.id, messageId, emoji);
                db == effect.0 && log == old(log) + effect.1
    {
      var user := client.user;
      if user.None? {
        return;
      }
      var created := CreateReaction(db, messageId, user.value.id, emoji);
      if created.Err? {
        // duplicate (message, user, emoji) or a missing record: logged only
        return;
      }
      db := created.value.0;
      var reaction := created.value.1;
      var message := FindMessage(db, messageId);
      if message.Some? && message.value.roomId != 0 {
        var author := FindUser(db, reaction.userId).value;
        log := log + [Emit(ToGroup(RoomGroup(message.value.roomId)),
                           ReactionAdded(messageId, ReactionView(reaction.id, reaction.emoji,
                                                                 ReactionUser(author.id, author.username))))];
      }
    }

    /** `handleUpdateProfile`: reload the cached user from the store. */
    method HandleUpdateProfile(client: Socket)
      requires Valid()
      modifies client`user
      ensures old(client.user).None? ==> client.user == old(client.user)
      ensures old(client.user).Some? ==>
                match FindUser(db, old(client.user).value.id)
                case None => client.user == old(client.user)
                case Some(u) => client.user == Some(SessionOf(u))
    {
      var oldUser := client.user;
      if oldUser.None? {
        return;
      }
      var user := FindUser(db, oldUser.value.id);
      if user.Some? {
        client.user := Some(SessionOf(user.value));
      }
    }

    /** `handleJoinRoom`: after the checks, leave every room group, join the
        requested room and send `history` then `joined` to the client. */
    method HandleJoinRoom(client: Socket, roomId: int)
      requires Valid() && client.Valid()
      modifies client`rooms, this`log
      ensures Valid() && client.Valid()
      ensures client.user.None? ==> client.rooms == old(client.rooms) && log == old(log)
      ensures client.user.Some? ==>
                match JoinCheck(db, client.user.value.id, roomId)
                case Err(text) =>
                  client.rooms == old(client.rooms) && log == old(log) + [Emit(ToClient(client.id), ChatError(text))]
                case Ok(room) =>
                  && client.rooms == KeepNonRoomGroups(old(client.rooms)) + [RoomGroup(room.id)]
                  && log == old(log) + [Emit(ToClient(client.id), History(HistoryFor(db, room))),
                                        Emit(ToClient(client.id), Joined(InfoOf(room)))]
    {
      var user := client.user;
      if user.None? {
        return;
      }
      var check := JoinCheck(db, user.value.id, roomId);
      if check.Err? {
        log := log + [Emit(ToClient(client.id), ChatError(check.error))];
        return;
      }
      var room := check.value;
      JoinAfterLeave(client.rooms, room.id);
      client.LeaveRoomGroups();
      client.Join(RoomGroup(room.id));
      log := log + [Emit(ToClient(client.id), History(HistoryFor(db, room))),
                    Emit(ToClient(client.id), Joined(InfoOf(room)))];
    }

    /** `handleTyping`: add the user's name to the GENERAL room's typing set
        and broadcast the whole set to that room. */
    method HandleTyping(client: Socket, now: int)
      requires Valid()
      modifies this`generalRoomId, this`db, this`typingUsersByRoom, this`log
      ensures Valid()
      ensures var general := EnsureGeneral(old(generalRoomId), old(db), now);
              var roomId := general.2;
              && generalRoomId == general.0 && db == general.1
              && (client.user.None? ==> typingUsersByRoom == old(typingUsersByRoom) && log == old(log))
              && (client.user.Some? ==>
                    && typingUsersByRoom == TypingStart(old(typingUsersByRoom), roomId, client.user.value.username)
                    && log == old(log) + [Emit(ToGroup(RoomGroup(roomId)), Typing(typingUsersByRoom[roomId]))])
    {
      var roomId := EnsureGeneralRoom(now);
      var user := client.user;
      if user.None? {
        return;
      }
      TypingStartValid(typingUsersByRoom, roomId, user.value.username);
      typingUsersByRoom := TypingStart(typingUsersByRoom, roomId, user.value.username);
      log := log + [Emit(ToGroup(RoomGroup(roomId)), Typing(typingUsersByRoom[roomId]))];
    }

    /** `handleTypingStop`: remove the user's name from the GENERAL room's
        typing set and broadcast the set, only when the set exists. */
    method HandleTypingStop(client: Socket, now: int)
      requires Valid()
      modifies this`generalRoomId, this`db, this`typingUsersByRoom, this`log
      ensures Valid()
      ensures var general := EnsureGeneral(old(generalRoomId), old(db), now);
              var roomId := general.2;
              && generalRoomId == general.0 && db == general.1
              && (client.user.None? ==> typingUsersByRoom == old(typingUsersByRoom) && log == old(log))
              && (client.user.Some? ==>
                    && typingUsersByRoom == TypingStop(old(typingUsersByRoom), roomId, client.user.value.username)
                    && log == old(log) + (if roomId in old(typingUsersByRoom)
                                          then [Emit(ToGroup(RoomGroup(roomId)), Typing(typingUsersByRoom[roomId]))]
                                          else []))
    {
      var roomId := EnsureGeneralRoom(now);
      var user := client.user;
      if user.None? {
        return;
      }
      if roomId in typingUsersByRoom {
        TypingStopValid(typingUsersByRoom, roomId, user.value.username);
        typingUsersByRoom := TypingStop(typingUsersByRoom, roomId, user.value.username);
        log := log + [Emit(ToGroup(RoomGroup(roomId)), Typing(typingUsersByRoom[roomId]))];
      }
    }
  }
}
