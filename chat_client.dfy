/** The state updates of the chat page (frontend/src/pages/Chat.tsx): how
    the page folds the gateway's events into its message list, what it sends
    and what it shows of the typing list, and how it groups reactions. */
module ChatClient {
  import opened Values
  import opened Sorting
  import opened Wire
  import Gateway

  /** The part of the page state that the gateway's events drive. */
  datatype ClientState = ClientState(messages: seq<ChatMessage>, typingUsers: seq<string>,
                                     currentRoom: Option<RoomInfo>)

  /** The signed-in user as the page knows it (`useAuth().user`). */
  datatype Me = Me(id: nat, username: string, customColor: string)

  // ----- message list reducers -----

  /** `chat:reaction-added`: append the reaction to the message with that id. */
  function AddReaction(messages: seq<ChatMessage>, messageId: int, reaction: ReactionView): (r: seq<ChatMessage>)
    ensures |r| == |messages|
    ensures forall k :: 0 <= k < |r| && messages[k].id != messageId ==> r[k] == messages[k]
    ensures forall k :: 0 <= k < |r| && messages[k].id == messageId ==>
              r[k] == messages[k].(reactions := messages[k].reactions + [reaction])
  {
    seq(|messages|, k requires 0 <= k < |messages| =>
      if messages[k].id == messageId then messages[k].(reactions := messages[k].reactions + [reaction])
      else messages[k])
  }

  function ReactionCount(messages: seq<ChatMessage>): nat {
    if messages == [] then 0 else |messages[0].reactions| + ReactionCount(messages[1..])
  }

  function CountId(messages: seq<ChatMessage>, id: int): nat {
    if messages == [] then 0 else (if messages[0].id == id then 1 else 0) + CountId(messages[1..], id)
  }

  /** The list gains one reaction per message carrying the id: exactly one
      when the ids are distinct and the message is shown, none when it is
      not shown. */
  lemma {:induction false} AddReactionCount(messages: seq<ChatMessage>, messageId: int, reaction: ReactionView)
    ensures ReactionCount(AddReaction(messages, messageId, reaction))
            == ReactionCount(messages) + CountId(messages, messageId)
  {
    if messages != [] {
      var r := AddReaction(messages, messageId, reaction);
      assert r[1..] == AddReaction(messages[1..], messageId, reaction);
      AddReactionCount(messages[1..], messageId, reaction);
    }
  }

  lemma {:induction false} CountIdAbsent(messages: seq<ChatMessage>, id: int)
    requires forall k :: 0 <= k < |messages| ==> messages[k].id != id
    ensures CountId(messages, id) == 0
  {
    if messages != [] {
      CountIdAbsent(messages[1..], id);
    }
  }

  /** A reaction for a message that is not in the list changes nothing. */
  lemma AddReactionElsewhere(messages: seq<ChatMessage>, messageId: int, reaction: ReactionView)
    requires forall k :: 0 <= k < |messages| ==> messages[k].id != messageId
    ensures AddReaction(messages, messageId, reaction) == messages
  {
  }

  /** The profile effect: the user's own messages show the new name and
      colour; nothing else changes. */
  function RemapProfile(messages: seq<ChatMessage>, me: Me): (r: seq<ChatMessage>)
    ensures |r| == |messages|
    ensures forall k :: 0 <= k < |r| && messages[k].sender.id != me.id ==> r[k] == messages[k]
    ensures forall k :: 0 <= k < |r| && messages[k].sender.id == me.id ==>
              && r[k].sender == Sender(me.id, me.username, me.customColor)
              && r[k].id == messages[k].id && r[k].content == messages[k].content
              && r[k].createdAt == messages[k].createdAt && r[k].reactions == messages[k].reactions
  {
    seq(|messages|, k requires 0 <= k < |messages| =>
      var m := messages[k];
      if m.sender.id == me.id then m.(sender := m.sender.(username := me.username, customColor := me.customColor))
      else m)
  }

  /** Re-running the effect with the same profile changes nothing more. */
  lemma RemapIdempotent(messages: seq<ChatMessage>, me: Me)
    ensures RemapProfile(RemapProfile(messages, me), me) == RemapProfile(messages, me)
  {
  }

  /** How the page folds a gateway event into its state. `user-joined`,
      `user-left` and `error` leave it unchanged (the last shows an alert). */
  function Apply(s: ClientState, e: Gateway.Event): (r: ClientState)
    ensures e.History? ==> r == s.(messages := e.messages)
    ensures e.NewMessage? ==> r == s.(messages := s.messages + [e.message])
    ensures e.ReactionAdded? ==> r == s.(messages := AddReaction(s.messages, e.messageId, e.reaction))
    ensures e.Typing? ==> r == s.(typingUsers := e.names)
    ensures e.Joined? ==> r == s.(currentRoom := Some(e.room))
    ensures e.UserJoined? || e.UserLeft? || e.ChatError? ==> r == s
  {
    match e
    case Joined(room) => s.(currentRoom := Some(room))
    case History(h) => s.(messages := h)
    case NewMessage(m) => s.(messages := s.messages + [m])
    case ReactionAdded(id, x) => s.(messages := AddReaction(s.messages, id, x))
    case Typing(names) => s.(typingUsers := names)
    case UserJoined(_) => s
    case UserLeft(_) => s
    case ChatError(_) => s
  }

  function ApplyAll(s: ClientState, es: seq<Gateway.Event>): ClientState
    decreases |es|
  {
    if es == [] then s else ApplyAll(Apply(s, es[0]), es[1..])
  }

  /** A history replaces the list whatever it held, and each new message
      then lands at the end in arrival order. */
  lemma {:induction false} HistoryThenMessages(s: ClientState, h: seq<ChatMessage>, ms: seq<ChatMessage>)
    ensures ApplyAll(s, [Gateway.History(h)] + seq(|ms|, k requires 0 <= k < |ms| => Gateway.NewMessage(ms[k]))).messages
            == h + ms
  {
    var es := seq(|ms|, k requires 0 <= k < |ms| => Gateway.NewMessage(ms[k]));
    assert ([Gateway.History(h)] + es)[1..] == es;
    NewMessagesAppend(s.(messages := h), ms);
  }

  lemma {:induction false} NewMessagesAppend(s: ClientState, ms: seq<ChatMessage>)
    ensures ApplyAll(s, seq(|ms|, k requires 0 <= k < |ms| => Gateway.NewMessage(ms[k]))).messages == s.messages + ms
    decreases |ms|
  {
    var es := seq(|ms|, k requires 0 <= k < |ms| => Gateway.NewMessage(ms[k]));
    if ms != [] {
      var rest := seq(|ms[1..]|, k requires 0 <= k < |ms[1..]| => Gateway.NewMessage(ms[1..][k]));
      assert es[1..] == rest;
      NewMessagesAppend(s.(messages := s.messages + [ms[0]]), ms[1..]);
      assert s.messages + [ms[0]] + ms[1..] == s.messages + ms;
    }
  }

  // ----- what the page sends -----

  datatype ClientEmit =
    | Send(content: string)        // chat:send { content }
    | StartTyping                  // chat:typing
    | StopTyping                   // chat:typing-stop
    | React(messageId: int, emoji: string)  // chat:react
    | JoinRoom(roomId: int)        // chat:join
    | UpdateProfile                // chat:update-profile

  /** `sendMessage`: the new input field and what goes over the socket.
      Nothing happens without a connection or with a blank field. */
  function SendMessage(input: string, connected: bool): (r: (string, seq<ClientEmit>))
    ensures AllWhitespace(input) || !connected ==> r == (input, [])
    ensures !AllWhitespace(input) && connected ==>
              r == ([], [Send(Trim(input)), StopTyping]) && Trim(input) != []
  {
    var content := Trim(input);
    TrimEmptyIff(input);
    if content == [] || !connected then (input, [])
    else ([], [Send(content), StopTyping])
  }

  /** `typingUsers.filter(u => u !== user?.username)` */
  function FilteredTypingUsers(typing: seq<string>, me: Option<Me>): (r: seq<string>)
    ensures me.Some? ==> me.value.username !in r
    ensures forall u :: u in r <==> u in typing && (me.None? || u != me.value.username)
    ensures me.None? ==> r == typing
  {
    if me.Some? then RemoveAll(typing, me.value.username) else typing
  }

  /** What the typing banner shows: one name, or the first three names with
      a trailing `...` when there are more. */
  datatype Banner = NoBanner | OneTyping(name: string) | ManyTyping(shown: seq<string>, more: bool)

  function BannerOf(names: seq<string>): (b: Banner)
    ensures names == [] <==> b.NoBanner?
    ensures |names| == 1 ==> b == OneTyping(names[0])
    ensures |names| >= 2 ==> b.ManyTyping? && (b.more <==> |names| > 3)
    ensures |names| >= 2 ==> |b.shown| == (if |names| < 3 then |names| else 3) && b.shown == names[..|b.shown|]
  {
    if names == [] then NoBanner
    else if |names| == 1 then OneTyping(names[0])
    else
      var n := if |names| < 3 then |names| else 3;
      ManyTyping(names[..n], |names| > 3)
  }

  function Join(parts: seq<string>, sep: string): string {
    if parts == [] then [] else if |parts| == 1 then parts[0] else parts[0] + sep + Join(parts[1..], sep)
  }

  function BannerText(b: Banner): string {
    match b
    case NoBanner => []
    case OneTyping(name) => name + " est en train d'écrire..."
    case ManyTyping(shown, more) =>
      Join(shown, ", ") + " " + (if more then "..." else "") + " sont en train d'écrire..."
  }

  /** The banner never names the signed-in user, and every name it shows
      is typing. */
  lemma BannerOmitsSelf(typing: seq<string>, me: Me)
    ensures var b := BannerOf(FilteredTypingUsers(typing, Some(me)));
            && (b.OneTyping? ==> b.name != me.username && b.name in typing)
            && (b.ManyTyping? ==> forall n :: n in b.shown ==> n != me.username && n in typing)
  {
    var names := FilteredTypingUsers(typing, Some(me));
    var b := BannerOf(names);
    if b.ManyTyping? {
      forall n | n in b.shown ensures n != me.username && n in typing {
        var k :| 0 <= k < |b.shown| && b.shown[k] == n;
        assert names[k] == n;
      }
    }
  }

  // ----- the create-room form -----

  /** The invite list: every user but the signed-in one. */
  function InviteCandidates(users: seq<UserSummaryView>, me: Option<Me>): (r: seq<UserSummaryView>)
    ensures forall u :: u in r <==> u in users && (me.None? || u.id != me.value.id)
  {
    Filter(users, (u: UserSummaryView) => me.None? || u.id != me.value.id)
  }

  datatype UserSummaryView = UserSummaryView(id: nat, username: string)

  /** A participant checkbox: checking appends the id, unchecking removes
      every copy of it. */
  function ToggleParticipant(selected: seq<int>, id: int, checked: bool): (r: seq<int>)
    ensures checked ==> r == selected + [id]
    ensures !checked ==> id !in r && forall x :: x in r <==> x in selected && x != id
  {
    if checked then selected + [id] else RemoveAll(selected, id)
  }

  /** The box is offered unchecked only for an id not yet selected, so the
      selection never holds an id twice; checking then unchecking restores it. */
  lemma ToggleRoundTrip(selected: seq<int>, id: int)
    requires NoDuplicates(selected) && id !in selected
    ensures NoDuplicates(ToggleParticipant(selected, id, true))
    ensures ToggleParticipant(ToggleParticipant(selected, id, true), id, false) == selected
  {
    AddThenDelete(selected, id);
  }

  // ----- reaction groups -----

  /** The value stored per emoji in `groups`. */
  datatype GroupData = GroupData(count: nat, hasReacted: bool, users: seq<string>)

  /** One `[emoji, data]` pair of `Object.entries(groups)`. */
  datatype ReactionGroup = ReactionGroup(emoji: string, data: GroupData)

  /** The emojis in order of first appearance: the key order of `groups`. */
  function EmojiOrder(rs: seq<ReactionView>): (r: seq<string>)
    ensures NoDuplicates(r)
  {
    if rs == [] then [] else SetAdd(EmojiOrder(rs[..|rs| - 1]), rs[|rs| - 1].emoji)
  }

  predicate Occurs(rs: seq<ReactionView>, e: string) {
    exists k :: 0 <= k < |rs| && rs[k].emoji == e
  }

  lemma {:induction false} EmojiOrderMembers(rs: seq<ReactionView>, e: string)
    ensures e in EmojiOrder(rs) <==> Occurs(rs, e)
  {
    if rs != [] {
      var init := rs[..|rs| - 1];
      EmojiOrderMembers(init, e);
      assert forall k :: 0 <= k < |init| ==> init[k] == rs[k];
      if Occurs(init, e) {
        var k :| 0 <= k < |init| && init[k].emoji == e;
        assert rs[k] == init[k];
      }
    }
  }

  /** One step of the `forEach`: count the reaction, record its author, and
      note whether it is the signed-in user's. */
  function Bump(g: GroupData, x: ReactionView, me: Option<nat>): GroupData {
    GroupData(g.count + 1, g.hasReacted || (me.Some? && x.user.id == me.value), g.users + [x.user.username])
  }

  function Fresh(): GroupData {
    GroupData(0, false, [])
  }

  /** `groups` after the first `|rs|` reactions. */
  function Groups(rs: seq<ReactionView>, me: Option<nat>): (g: map<string, GroupData>)
    ensures forall e :: e in g <==> e in EmojiOrder(rs)
  {
    if rs == [] then map[]
    else
      var prev := Groups(rs[..|rs| - 1], me);
      var x := rs[|rs| - 1];
      prev[x.emoji := Bump(if x.emoji in prev then prev[x.emoji] else Fresh(), x, me)]
  }

  function EntriesOf(order: seq<string>, groups: map<string, GroupData>): (r: seq<ReactionGroup>)
    requires forall e :: e in order ==> e in groups
    ensures |r| == |order|
    ensures forall k :: 0 <= k < |r| ==> r[k] == ReactionGroup(order[k], groups[order[k]])
  {
    if order == [] then [] else [ReactionGroup(order[0], groups[order[0]])] + EntriesOf(order[1..], groups)
  }

  /** `(a, b) => b[1].count - a[1].count` as an ascending key. */
  function ByCountDesc(g: ReactionGroup): int {
    -(g.data.count as int)
  }

  /** The value of `getGroupedReactions`. */
  function Grouped(rs: seq<ReactionView>, me: Option<nat>): seq<ReactionGroup> {
    SortBy(EntriesOf(EmojiOrder(rs), Groups(rs, me)), ByCountDesc)
  }

  /** How one more reaction changes the dictionary and its key order. */
  lemma GroupsStep(rs: seq<ReactionView>, i: nat, me: Option<nat>)
    requires i < |rs|
    ensures var prev := Groups(rs[..i], me);
            var x := rs[i];
            && Groups(rs[..i + 1], me) == prev[x.emoji := Bump(if x.emoji in prev then prev[x.emoji] else Fresh(), x, me)]
            && EmojiOrder(rs[..i + 1]) == SetAdd(EmojiOrder(rs[..i]), x.emoji)
  {
    GroupsSnoc(rs[..i + 1], me);
    assert rs[..i + 1][..i] == rs[..i];
  }

  lemma GroupsSnoc(rs: seq<ReactionView>, me: Option<nat>)
    requires rs != []
    ensures var prev := Groups(rs[..|rs| - 1], me);
            var x := rs[|rs| - 1];
            && Groups(rs, me) == prev[x.emoji := Bump(if x.emoji in prev then prev[x.emoji] else Fresh(), x, me)]
            && EmojiOrder(rs) == SetAdd(EmojiOrder(rs[..|rs| - 1]), x.emoji)
  {
  }

  /** The body of the `forEach` for an emoji not seen before: a fresh
      entry is created, goes last in the key order and is then bumped. */
  lemma LoopStepNew(rs: seq<ReactionView>, i: nat, me: Option<nat>, groups: map<string, GroupData>, order: seq<string>)
    requires i < |rs| && groups == Groups(rs[..i], me) && order == EmojiOrder(rs[..i])
    requires rs[i].emoji !in groups
    ensures groups[rs[i].emoji := Fresh()][rs[i].emoji := Bump(Fresh(), rs[i], me)] == Groups(rs[..i + 1], me)
    ensures order + [rs[i].emoji] == EmojiOrder(rs[..i + 1])
  {
    GroupsStep(rs, i, me);
    var x := rs[i];
    assert x.emoji !in order;
    UpdateTwice(groups, x.emoji, Fresh(), Bump(Fresh(), x, me));
  }

  /** The body of the `forEach` for an emoji already seen: its entry is
      bumped and the key order stays. */
  lemma LoopStepSeen(rs: seq<ReactionView>, i: nat, me: Option<nat>, groups: map<string, GroupData>, order: seq<string>)
    requires i < |rs| && groups == Groups(rs[..i], me) && order == EmojiOrder(rs[..i])
    requires rs[i].emoji in groups
    ensures groups[rs[i].emoji := Bump(groups[rs[i].emoji], rs[i], me)] == Groups(rs[..i + 1], me)
    ensures order == EmojiOrder(rs[..i + 1])
  {
    GroupsStep(rs, i, me);
    assert rs[i].emoji in order;
  }

  /** `getGroupedReactions`: fill the dictionary in one pass, then sort its
      entries by count, largest first, keeping first-appearance order among
      equal counts. `me` is the signed-in user's id, if any. */
  method GroupReactions(reactions: seq<ReactionView>, me: Option<nat>) returns (r: seq<ReactionGroup>)
    ensures r == Grouped(reactions, me)
  {
    var groups: map<string, GroupData> := map[];
    var order: seq<string> := [];
    for i := 0 to |reactions|
      invariant groups == Groups(reactions[..i], me)
      invariant order == EmojiOrder(reactions[..i])
    {
      var x := reactions[i];
      if x.emoji !in groups {
        LoopStepNew(reactions, i, me, groups, order);
        groups := groups[x.emoji := Fresh()];
        order := order + [x.emoji];
      } else {
        LoopStepSeen(reactions, i, me, groups, order);
      }
      groups := groups[x.emoji := Bump(groups[x.emoji], x, me)];
    }
    assert reactions[..|reactions|] == reactions;
    r := SortBy(EntriesOf(order, groups), ByCountDesc);
  }

  // ----- `groups` as a plain object -----

  /** The names a plain object `{}` inherits from `Object.prototype`. Looking
      one of them up in `groups` before it is set finds the inherited member,
      which is truthy. */
  const InheritedKeys: set<string> :=
    {"constructor", "__proto__", "hasOwnProperty", "isPrototypeOf", "propertyIsEnumerable",
     "toString", "toLocaleString", "valueOf", "__defineGetter__", "__defineSetter__",
     "__lookupGetter__", "__lookupSetter__"}

  /** No reaction's emoji is one of the `inherited` names. */
  predicate NoInheritedEmoji(rs: seq<ReactionView>, inherited: set<string>) {
    forall k :: 0 <= k < |rs| ==> rs[k].emoji !in inherited
  }

  /** The `forEach` of `getGroupedReactions` as written, on a plain object
      that inherits the names `inherited` (`InheritedKeys` in a browser): for
      such an emoji, `if (!groups[r.emoji])` skips the initialisation and
      `groups[r.emoji].users.push` then throws a `TypeError` (`None`). */
  function GroupsAsWritten(rs: seq<ReactionView>, me: Option<nat>, inherited: set<string>)
    : Option<map<string, GroupData>>
  {
    if rs == [] then Some(map[])
    else
      match GroupsAsWritten(rs[..|rs| - 1], me, inherited)
      case None => None
      case Some(prev) =>
        var x := rs[|rs| - 1];
        if x.emoji !in prev && x.emoji in inherited then None
        else Some(prev[x.emoji := Bump(if x.emoji in prev then prev[x.emoji] else Fresh(), x, me)])
  }

  /** One reaction whose emoji is `constructor` makes the grouping throw, and
      with it the rendering of the message that carries it. */
  lemma InheritedEmojiThrows(id: nat, user: ReactionUser, me: Option<nat>)
    ensures GroupsAsWritten([ReactionView(id, "constructor", user)], me, InheritedKeys).None?
  {
    var rs := [ReactionView(id, "constructor", user)];
    assert rs[..0] == [];
  }

  /** When the code as written does not throw, it builds the dictionary of
      `Groups`. */
  lemma {:induction false} GroupsAsWrittenAgrees(rs: seq<ReactionView>, me: Option<nat>, inherited: set<string>)
    ensures GroupsAsWritten(rs, me, inherited).Some? ==> GroupsAsWritten(rs, me, inherited).value == Groups(rs, me)
  {
    if rs != [] {
      GroupsAsWrittenAgrees(rs[..|rs| - 1], me, inherited);
    }
  }

  /** The code as written throws exactly when some emoji is an inherited
      name. */
  lemma {:induction false} GroupsAsWrittenThrows(rs: seq<ReactionView>, me: Option<nat>, inherited: set<string>)
    ensures GroupsAsWritten(rs, me, inherited).Some? <==> NoInheritedEmoji(rs, inherited)
  {
    if rs != [] {
      var init := rs[..|rs| - 1];
      var x := rs[|rs| - 1];
      GroupsAsWrittenThrows(init, me, inherited);
      GroupsAsWrittenAgrees(init, me, inherited);
      assert forall k :: 0 <= k < |init| ==> init[k] == rs[k];
      if NoInheritedEmoji(init, inherited) && x.emoji in Groups(init, me) {
        EmojiOrderMembers(init, x.emoji);
      }
    }
  }

  /** The reactions carrying one emoji, in input order. */
  function WithEmoji(rs: seq<ReactionView>, e: string): seq<ReactionView> {
    if rs == [] then []
    else WithEmoji(rs[..|rs| - 1], e) + (if rs[|rs| - 1].emoji == e then [rs[|rs| - 1]] else [])
  }

  lemma {:induction false} WithEmojiNone(rs: seq<ReactionView>, e: string)
    requires !Occurs(rs, e)
    ensures WithEmoji(rs, e) == []
  {
    if rs != [] {
      var init := rs[..|rs| - 1];
      assert forall k :: 0 <= k < |init| ==> init[k] == rs[k];
      WithEmojiNone(init, e);
    }
  }

  function Usernames(rs: seq<ReactionView>): (r: seq<string>)
    ensures |r| == |rs| && forall k :: 0 <= k < |rs| ==> r[k] == rs[k].user.username
  {
    seq(|rs|, k requires 0 <= k < |rs| => rs[k].user.username)
  }

  predicate ReactedBy(rs: seq<ReactionView>, e: string, me: Option<nat>) {
    exists k :: 0 <= k < |rs| && rs[k].emoji == e && me == Some(rs[k].user.id)
  }

  /** A group's count is the number of reactions with its emoji and its
      users are their authors, in input order. */
  lemma {:induction false} GroupsUsers(rs: seq<ReactionView>, me: Option<nat>, e: string)
    requires e in Groups(rs, me)
    ensures Groups(rs, me)[e].count == |WithEmoji(rs, e)|
    ensures Groups(rs, me)[e].users == Usernames(WithEmoji(rs, e))
  {
    var init := rs[..|rs| - 1];
    var x := rs[|rs| - 1];
    var prev := Groups(init, me);
    GroupsSnoc(rs, me);
    if x.emoji == e {
      var before := if e in prev then prev[e] else Fresh();
      if e in prev {
        GroupsUsers(init, me, e);
      } else {
        EmojiOrderMembers(init, e);
        WithEmojiNone(init, e);
      }
      assert Groups(rs, me)[e] == Bump(before, x, me);
      assert WithEmoji(rs, e) == WithEmoji(init, e) + [x];
      UsernamesSnoc(WithEmoji(init, e), x);
    } else {
      GroupsUsers(init, me, e);
      assert WithEmoji(rs, e) == WithEmoji(init, e);
    }
  }

  lemma UsernamesSnoc(rs: seq<ReactionView>, x: ReactionView)
    ensures Usernames(rs + [x]) == Usernames(rs) + [x.user.username]
  {
  }

  lemma ReactedBySnoc(rs: seq<ReactionView>, e: string, me: Option<nat>)
    requires rs != []
    ensures ReactedBy(rs, e, me) <==>
            ReactedBy(rs[..|rs| - 1], e, me) || (rs[|rs| - 1].emoji == e && me == Some(rs[|rs| - 1].user.id))
  {
    var init := rs[..|rs| - 1];
    assert forall k :: 0 <= k < |init| ==> init[k] == rs[k];
  }

  lemma ReactedByOccurs(rs: seq<ReactionView>, e: string, me: Option<nat>)
    ensures ReactedBy(rs, e, me) ==> Occurs(rs, e)
  {
  }

  /** A group's `hasReacted` says whether one of its reactions is the
      signed-in user's. */
  lemma {:induction false} GroupsReacted(rs: seq<ReactionView>, me: Option<nat>, e: string)
    requires e in Groups(rs, me)
    ensures Groups(rs, me)[e].hasReacted <==> ReactedBy(rs, e, me)
  {
    var init := rs[..|rs| - 1];
    var x := rs[|rs| - 1];
    var prev := Groups(init, me);
    ReactedBySnoc(rs, e, me);
    if e in prev {
      GroupsReacted(init, me, e);
    } else {
      EmojiOrderMembers(init, e);
      ReactedByOccurs(init, e, me);
    }
  }

  function Total(gs: seq<ReactionGroup>): int {
    if gs == [] then 0 else gs[0].data.count + Total(gs[1..])
  }

  lemma {:induction false} TotalInsert(x: ReactionGroup, s: seq<ReactionGroup>)
    requires SortedBy(s, ByCountDesc)
    ensures Total(InsertBy(x, s, ByCountDesc)) == x.data.count + Total(s)
  {
    if s == [] || ByCountDesc(x) <= ByCountDesc(s[0]) {
      assert ([x] + s)[1..] == s;
    } else {
      var r := InsertBy(x, s, ByCountDesc);
      assert r[1..] == InsertBy(x, s[1..], ByCountDesc);
      TotalInsert(x, s[1..]);
    }
  }

  lemma {:induction false} TotalSort(s: seq<ReactionGroup>)
    ensures Total(SortBy(s, ByCountDesc)) == Total(s)
  {
    if s != [] {
      TotalSort(s[1..]);
      TotalInsert(s[0], SortBy(s[1..], ByCountDesc));
    }
  }

  lemma {:induction false} TotalAppend(a: seq<ReactionGroup>, x: ReactionGroup)
    ensures Total(a + [x]) == Total(a) + x.data.count
  {
    if a != [] {
      assert (a + [x])[1..] == a[1..] + [x];
      TotalAppend(a[1..], x);
    }
  }

  /** Changing the group of one key of a duplicate-free key list changes the
      total by the difference of the two counts. */
  lemma {:induction false} TotalUpdate(order: seq<string>, groups: map<string, GroupData>, e: string, v: GroupData)
    requires NoDuplicates(order) && e in order
    requires forall k :: k in order ==> k in groups
    ensures Total(EntriesOf(order, groups[e := v])) == Total(EntriesOf(order, groups)) - groups[e].count + v.count
  {
    var g2 := groups[e := v];
    var a := EntriesOf(order, groups);
    var b := EntriesOf(order, g2);
    assert a[1..] == EntriesOf(order[1..], groups);
    assert b[1..] == EntriesOf(order[1..], g2);
    NoDuplicatesTail(order);
    if order[0] == e {
      assert EntriesOf(order[1..], g2) == EntriesOf(order[1..], groups);
    } else {
      assert e in order[1..] by {
        var i :| 0 <= i < |order| && order[i] == e;
        assert order[1..][i - 1] == e;
      }
      TotalUpdate(order[1..], groups, e, v);
    }
  }

  /** A key added at the end adds its group's count to the total. */
  lemma TotalAddKey(order: seq<string>, groups: map<string, GroupData>, e: string, v: GroupData)
    requires e !in order && forall k :: k in order ==> k in groups
    ensures Total(EntriesOf(order + [e], groups[e := v])) == Total(EntriesOf(order, groups)) + v.count
  {
    var g2 := groups[e := v];
    assert EntriesOf(order + [e], g2) == EntriesOf(order, g2) + [ReactionGroup(e, v)];
    assert EntriesOf(order, g2) == EntriesOf(order, groups);
    TotalAppend(EntriesOf(order, g2), ReactionGroup(e, v));
  }

  /** One more reaction adds one to the total of the counts. */
  lemma TotalStep(rs: seq<ReactionView>, me: Option<nat>)
    requires rs != []
    ensures Total(EntriesOf(EmojiOrder(rs), Groups(rs, me)))
            == Total(EntriesOf(EmojiOrder(rs[..|rs| - 1]), Groups(rs[..|rs| - 1], me))) + 1
  {
    var init := rs[..|rs| - 1];
    var x := rs[|rs| - 1];
    var order := EmojiOrder(init);
    var prev := Groups(init, me);
    GroupsSnoc(rs, me);
    if x.emoji in prev {
      TotalUpdate(order, prev, x.emoji, Bump(prev[x.emoji], x, me));
    } else {
      TotalAddKey(order, prev, x.emoji, Bump(Fresh(), x, me));
    }
  }

  /** The counts add up to the number of reactions. */
  lemma {:induction false} EntriesTotal(rs: seq<ReactionView>, me: Option<nat>)
    ensures Total(EntriesOf(EmojiOrder(rs), Groups(rs, me))) == |rs|
  {
    if rs != [] {
      EntriesTotal(rs[..|rs| - 1], me);
      TotalStep(rs, me);
    }
  }

  predicate HasGroup(gs: seq<ReactionGroup>, e: string) {
    exists g :: g in gs && g.emoji == e
  }

  /** An entry is a key of the order with its group. */
  lemma EntryOf(order: seq<string>, groups: map<string, GroupData>, g: ReactionGroup)
    requires forall e :: e in order ==> e in groups
    requires g in EntriesOf(order, groups)
    ensures g.emoji in order && g.emoji in groups && g.data == groups[g.emoji]
  {
    var entries := EntriesOf(order, groups);
    var k :| 0 <= k < |entries| && entries[k] == g;
    assert order[k] in order;
  }

  /** A group of the result is the entry of its emoji. */
  lemma GroupedEntry(rs: seq<ReactionView>, me: Option<nat>, g: ReactionGroup)
    requires g in Grouped(rs, me)
    ensures g.emoji in EmojiOrder(rs) && g.data == Groups(rs, me)[g.emoji]
  {
    var entries := EntriesOf(EmojiOrder(rs), Groups(rs, me));
    SortByMembers(entries, ByCountDesc, g);
    EntryOf(EmojiOrder(rs), Groups(rs, me), g);
  }

  /** Every group is for an emoji that occurs. */
  lemma GroupOccurs(rs: seq<ReactionView>, me: Option<nat>, g: ReactionGroup)
    requires g in Grouped(rs, me)
    ensures Occurs(rs, g.emoji)
  {
    GroupedEntry(rs, me, g);
    EmojiOrderMembers(rs, g.emoji);
  }

  /** Every emoji that occurs has a group. */
  lemma OccursGroup(rs: seq<ReactionView>, me: Option<nat>, e: string)
    requires Occurs(rs, e)
    ensures HasGroup(Grouped(rs, me), e)
  {
    var order := EmojiOrder(rs);
    var entries := EntriesOf(order, Groups(rs, me));
    EmojiOrderMembers(rs, e);
    var i :| 0 <= i < |order| && order[i] == e;
    assert entries[i].emoji == e;
    SortByMembers(entries, ByCountDesc, entries[i]);
  }

  /** Groups come largest first. */
  lemma GroupedSorted(rs: seq<ReactionView>, me: Option<nat>)
    ensures var r := Grouped(rs, me);
            forall i, j :: 0 <= i < j < |r| ==> r[i].data.count >= r[j].data.count
  {
    var r := Grouped(rs, me);
    assert SortedBy(r, ByCountDesc);
    forall i, j | 0 <= i < j < |r| ensures r[i].data.count >= r[j].data.count {
      assert ByCountDesc(r[i]) <= ByCountDesc(r[j]);
    }
  }

  /** The counts add up to the number of reactions. */
  lemma GroupedTotal(rs: seq<ReactionView>, me: Option<nat>)
    ensures Total(Grouped(rs, me)) == |rs|
  {
    EntriesTotal(rs, me);
    TotalSort(EntriesOf(EmojiOrder(rs), Groups(rs, me)));
  }

  /** The properties of `getGroupedReactions`: no input gives no groups;
      the counts add up to the number of reactions; groups come largest
      first; there is a group exactly for each emoji that occurs. */
  lemma GroupedProperties(rs: seq<ReactionView>, me: Option<nat>)
    ensures rs == [] ==> Grouped(rs, me) == []
    ensures Total(Grouped(rs, me)) == |rs|
    ensures var r := Grouped(rs, me);
            forall i, j :: 0 <= i < j < |r| ==> r[i].data.count >= r[j].data.count
    ensures forall e :: HasGroup(Grouped(rs, me), e) <==> Occurs(rs, e)
  {
    GroupedTotal(rs, me);
    GroupedSorted(rs, me);
    forall e ensures HasGroup(Grouped(rs, me), e) <==> Occurs(rs, e) {
      if HasGroup(Grouped(rs, me), e) {
        var g :| g in Grouped(rs, me) && g.emoji == e;
        GroupOccurs(rs, me, g);
      }
      if Occurs(rs, e) {
        OccursGroup(rs, me, e);
      }
    }
  }

  /** Each group of the result holds what its emoji's reactions say. */
  lemma GroupedGroupMeaning(rs: seq<ReactionView>, me: Option<nat>, g: ReactionGroup)
    requires g in Grouped(rs, me)
    ensures g.data.count == |WithEmoji(rs, g.emoji)|
    ensures g.data.users == Usernames(WithEmoji(rs, g.emoji))
    ensures g.data.hasReacted <==> ReactedBy(rs, g.emoji, me)
  {
    GroupedEntry(rs, me, g);
    GroupsUsers(rs, me, g.emoji);
    GroupsReacted(rs, me, g.emoji);
  }
}
