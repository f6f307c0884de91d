# Chat gateway and chat page, modelled in Dafny

This project models the core of a real-time chat application. It has a
NestJS backend and a React page. The model covers:

- the socket.io gateway `ChatGateway`: connecting, sending, reacting, joining
  rooms, typing presence and disconnecting;
- the room service: creating rooms, listing the rooms a user may see, and
  listing users;
- the validated body of `POST /rooms`;
- the decision rules of the auth service: register, login, token payload and
  profile update;
- the state updates of the chat page: how it folds gateway events into its
  message list, its send guard, its typing banner, its invite list and its
  reaction grouping.

Layout, one module per file:

| file | module | models |
|---|---|---|
| `values.dfy` | `Values` | optional values, results and JSON values, plus the JavaScript string operations the code relies on (`startsWith`, `trim`, `parseInt`, a number inside a template literal) |
| `sorting.dfy` | `Sorting` | a stable sort on an integer key (`orderBy`, `Array.prototype.sort`) |
| `store.dfy` | `Store` | the database as in-memory tables, with the schema's unique and foreign-key constraints and the store's error codes |
| `wire.dfy` | `Wire` | the payloads exchanged over the socket |
| `room_dto.dfy` | `RoomDto` | `CreateRoomDto` and its validation decorators |
| `room_service.dfy` | `RoomService` | `createRoom`, `getMyRooms` and `getAllUsers` |
| `auth_service.dfy` | `AuthService` | `register`, `login`, `signToken` and `updateProfile` |
| `gateway.dfy` | `Gateway` | the class `Socket` (one connection: its cached user and its groups) and the class `ChatGateway` (the typing map, the memo of the general room, the store, and a log of every emitted event with its recipients), one method per handler |
| `chat_client.dfy` | `ChatClient` | the reducers and helpers of `Chat.tsx`. `getGroupedReactions` is a method with the `forEach` loop, proved against a specification function |
| `session.dfy` | `Session` | properties across the pieces: a login token opens a connection, and what the gateway sends is what the page shows |

Each gateway handler is one atomic step. Its contract gives the whole new
state: the typing map, the memo, the store, the connection's groups and
cached user, and the events appended to the log.

The model follows the code, including its quirks:

- typing start, typing stop and the disconnect clean-up always use the
  general room;
- history holds the 50 OLDEST messages, oldest first;
- on connect, `joined` comes before `history`; on join, `history` comes
  before `joined`;
- a `roomId` in a send payload is used unchecked;
- a send without `roomId` takes the room from the first `room:` group, or
  falls back to the general room.

Where the design notes and the code disagree, the model follows the code:

- The notes describe history as the most recent 50 messages. The code
  (`orderBy: { createdAt: 'asc' }, take: 50`) returns the oldest 50.
- The notes put typing in the connection's current room. The code uses the
  general room.
- The notes have a stop broadcast even when nothing changed. The code
  broadcasts on stop and on disconnect whenever the general room's set exists,
  and not at all when it does not.
- The notes say a join sends `joined` then `history`. The code sends them in
  the other order.
- The notes say a store failure on the history path proceeds with an empty
  history. In `handleConnection` the code disconnects instead. Store failures
  other than constraint violations are outside this model (see below).

## Model

| member | source | states |
|---|---|---|
| Values.StartsWith | backend/src/chat/chat.gateway.ts:34 | `startsWith`: the prefix is exactly the first characters |
| Values.RemoveAll | frontend/src/pages/Chat.tsx:500 | `filter(x => x !== v)`: drops exactly the copies of `v`, and changes nothing when `v` is absent |
| Values.RemoveAllKeepsNoDuplicates | backend/src/chat/chat.gateway.ts:303 | deleting from a JavaScript `Set` keeps it duplicate-free |
| Values.RemoveAllAt | backend/src/chat/chat.gateway.ts:243 | in a duplicate-free list, removing an element cuts out exactly its position |
| Values.Find | backend/src/chat/chat.gateway.ts:135 | `find`: the first index satisfying the predicate, or none when no element does |
| Values.FindLast | backend/src/chat/chat.gateway.ts:135 | `find` returns the last index when only the last element satisfies the predicate |
| Values.Filter | backend/src/chat/room.service.ts:29-34 | keeps exactly the elements satisfying the predicate |
| Values.SetAdd | backend/src/chat/chat.gateway.ts:292 | `Set.add`: a member is left in place, a new element goes last, no duplicates |
| Values.Truthy | backend/src/chat/chat.gateway.ts:20 | a JavaScript number is truthy when present and not 0 |
| Values.RemoveMiddle | backend/src/chat/chat.gateway.ts:243 | leaving a group in the middle of a duplicate-free list keeps what is before and after it |
| Values.RemoveAllAppend | frontend/src/pages/Chat.tsx:500 | filtering distributes over concatenation |
| Values.AddThenDelete | backend/src/chat/chat.gateway.ts:292-303 | `add` then `delete` of a name leaves the set as it was without that name |
| Values.Dedup | backend/src/chat/room.service.ts:10 | `[...new Set(s)]`: no duplicates and the same members |
| Values.SkipBlanks | backend/src/chat/chat.gateway.ts:150 | the first non-whitespace index at or after `k`, with only whitespace skipped |
| Values.SkipBlanksBack | backend/src/chat/chat.gateway.ts:150 | the end of the non-whitespace part, with only whitespace dropped |
| Values.TrimStart | backend/src/chat/chat.gateway.ts:137 | left-trimming keeps a suffix that starts with a non-whitespace character, and everything it drops is whitespace |
| Values.TrimBounds | backend/src/chat/chat.gateway.ts:150 | `trim` keeps the infix between two whitespace-only ends, and that infix starts and ends with non-whitespace |
| Values.TrimIsInfix | frontend/src/pages/Chat.tsx:193 | `trim` keeps an infix whose borders are not whitespace |
| Values.TrimEmptyIff | backend/src/chat/chat.gateway.ts:150 | `trim()` is empty exactly when the text is whitespace only |
| Values.TrimIdempotent | backend/src/chat/chat.gateway.ts:158 | trimming twice is trimming once |
| Values.NatToString | backend/src/chat/chat.gateway.ts:69 | a natural number's decimal spelling is a non-empty string of digits |
| Values.IntToString | backend/src/chat/chat.gateway.ts:69 | an integer's spelling is non-empty, has no ':' and does not start with whitespace |
| Values.DigitPrefix | backend/src/chat/chat.gateway.ts:137 | the longest run of leading digits |
| Values.DigitsValueOfNatToString | backend/src/chat/chat.gateway.ts:137 | reading the digits of a spelled number gives the number |
| Values.ParseIntOfIntToString | backend/src/chat/chat.gateway.ts:137 | `parseInt` of an integer's decimal spelling gives the integer back |
| Values.UpToColon | backend/src/chat/chat.gateway.ts:137 | `split(':')[1]`: the characters up to the next ':' |
| Values.UpToColonWithout | backend/src/chat/chat.gateway.ts:137 | a text without ':' is kept whole |
| Sorting.InsertBy | backend/src/chat/room.service.ts:36 | inserting keeps the order sorted and adds exactly the element |
| Sorting.SortBy | backend/src/chat/room.service.ts:36 | the result is sorted by the key and is a permutation of the input |
| Sorting.SortByMembers | backend/src/chat/room.service.ts:36 | sorting keeps exactly the members |
| Store.FindUser | backend/src/chat/chat.gateway.ts:50 | `findUnique` by id: the user with that id, or none when no user has it |
| Store.FindUserBy | backend/src/auth/auth.service.ts:31-35 | `findUnique` on a unique field (e-mail here, username at auth.service.ts:65-67): a user satisfying the condition, or none when no user does |
| Store.FindRoom | backend/src/chat/chat.gateway.ts:231-234 | `findUnique` by id: the room with that id, or none |
| Store.FindRoomByName | backend/src/chat/chat.gateway.ts:21 | `findFirst` by name: the first room with that name, or none |
| Store.FindMessage | backend/src/chat/chat.gateway.ts:192 | `findUnique` by id: the message with that id, or none |
| Store.CreateUser | backend/src/auth/auth.service.ts:14-20 | fails with P2002 exactly when the e-mail or username is taken; otherwise appends the user with the next id and keeps the constraints |
| Store.CreateRoom | backend/src/chat/room.service.ts:12-23 | fails exactly when a participant or the owner does not exist; otherwise appends the room with the next id |
| Store.CreateMessage | backend/src/chat/chat.gateway.ts:157-160 | fails with P2003 exactly when the room or the sender does not exist; otherwise appends the message |
| Store.CreateReaction | backend/src/chat/chat.gateway.ts:183-190 | fails with P2002 on a second row for the same (message, user, emoji), and fails when the message or user is missing; otherwise appends the row |
| Store.ReplaceUserValid | backend/src/auth/auth.service.ts:73-78 | replacing a user by one whose e-mail and name no one else has keeps the constraints |
| Store.UpdatedUserValid | backend/src/auth/auth.service.ts:73-78 | the updated record of a user, with a name no other user holds, keeps the constraints |
| Store.UpdateUser | backend/src/auth/auth.service.ts:73-78 | `user.update`: P2025 for a missing user, a failure when another user holds the new name, otherwise only that record changes (given fields set, others kept) |
| Store.RoomMessages | backend/src/chat/chat.gateway.ts:80 | exactly the messages of the room |
| Store.Take | backend/src/chat/chat.gateway.ts:82 | `take: n`: the first `min(n, length)` elements |
| Store.OldestFirst | backend/src/chat/chat.gateway.ts:79-89 | the first 50 of the messages sorted by `createdAt` are ascending, and none left out is older than one kept |
| Store.HistoryMessages | backend/src/chat/chat.gateway.ts:79-89 | at most 50 of the room's messages, each row at most as often as the room has it, ascending `createdAt`, and they are the oldest 50; all of them when there are at most 50 |
| Store.MessageReactions | backend/src/chat/chat.gateway.ts:85-87 | `include: { reactions }`: exactly the reaction rows of the message, each once, in ascending id (table order) |
| RoomDto.Numbers | backend/src/chat/room.dto.ts:16-19 | the numbers of an all-number JSON array, element by element |
| RoomDto.OptionalFlag | backend/src/chat/room.dto.ts:8-14 | `@IsOptional() @IsBoolean()`: absent or `null` gives none, otherwise the boolean given |
| RoomDto.Validate | backend/src/chat/room.dto.ts:4-19 | a body is accepted exactly when every decorator passes: a non-empty string name, absent-or-boolean flags, an absent-or-all-number id array; the accepted fields are the body's own |
| RoomDto.ValidateToBody | backend/src/chat/room.dto.ts:4-19 | sending then validating a DTO gives it back exactly when its name is not empty |
| RoomDto.ClientFormBody | frontend/src/pages/Chat.tsx:72-77 | the body the create-room form posts passes validation unchanged |
| RoomDto.NonNumericIdRefused | backend/src/chat/room.dto.ts:17 | one non-numeric participant id makes the body invalid |
| RoomService.Participants | backend/src/chat/room.service.ts:10 | duplicate-free and contains the creator; exactly `[userId]` without ids; otherwise the supplied ids plus the creator |
| Values.DedupOfDistinct | backend/src/chat/room.service.ts:10 | a duplicate-free list passes through `new Set` unchanged, order included |
| RoomService.ParticipantsOrder | backend/src/chat/room.service.ts:10 | for duplicate-free ids, the participants are exactly the ids in their order, followed by the creator unless already present |
| RoomService.CreateRoomFor | backend/src/chat/room.service.ts:9-25 | creator as owner, flags default to public with history, participants as above; refused exactly when the creator or a participant is unknown |
| RoomService.CreateRoomDefaults | backend/src/chat/room.service.ts:14-17 | with no flags and no ids: public, history on, only the creator, owned by the creator |
| RoomService.GetMyRooms | backend/src/chat/room.service.ts:27-38 | exactly the public rooms and the rooms listing the user, newest first, each once per table row |
| RoomService.CreatedRoomListed | backend/src/chat/room.service.ts:9-38 | the creator sees a room they created, private or not |
| RoomService.PrivateRoomHidden | backend/src/chat/room.service.ts:29-34 | a private room that does not list the user is not returned |
| RoomService.GetAllUsers | backend/src/chat/room.service.ts:40-44 | one `{id, username, customColor}` per user, in table order, with no e-mail or password |
| AuthService.Secret | backend/src/auth/auth.service.ts:50 | `JWT_SECRET || 'supersecret'`: a set, non-empty variable wins, an unset or empty one gives `supersecret`, and the secret is never empty |
| AuthService.SignToken | backend/src/auth/auth.service.ts:44-60 | the payload is exactly `{sub, email, username}`, signed for `1d` with the secret |
| AuthService.RegisterError | backend/src/auth/auth.service.ts:22-27 | P2002 becomes `Credentials taken`; any other error is passed on unchanged |
| AuthService.Register | backend/src/auth/auth.service.ts:11-28 | refused with `Credentials taken` exactly when the e-mail or username is taken; otherwise stores the hashed user and returns its token |
| AuthService.RegisterTwice | backend/src/auth/auth.service.ts:22-26 | a second registration with the same e-mail is refused |
| AuthService.Login | backend/src/auth/auth.service.ts:30-42 | succeeds exactly when the user with that e-mail has a matching password, and then returns that user's token; every failure is `Credentials incorrect` |
| AuthService.LoginFailures | backend/src/auth/auth.service.ts:36-39 | an unknown e-mail, and a wrong password, both give `Credentials incorrect` |
| AuthService.LoginFindsOwner | backend/src/auth/auth.service.ts:30-42 | a matching password logs in as the one user with that e-mail |
| AuthService.UpdateProfile | backend/src/auth/auth.service.ts:62-82 | `Username already taken` exactly when a non-empty requested name belongs to another user; P2025 for a missing user; P2002 from the store exactly when the requested name is `""` (the check is skipped) and another user holds it; succeeds exactly when the user exists and no other user holds the requested name, and then only that user's record changes and the result is it without the password |
| AuthService.OwnUsernameAccepted | backend/src/auth/auth.service.ts:64-70 | asking for one's own current name passes |
| AuthService.NoUsernameSkipsCheck | backend/src/auth/auth.service.ts:64 | with no name the update fails only for a missing user |
| Gateway.GetToken | backend/src/chat/chat.gateway.ts:32-38 | a `Bearer ` header gives the text after its 7 characters; otherwise a string `auth.token`; otherwise none |
| Gateway.BearerHeaderWins | backend/src/chat/chat.gateway.ts:34 | a `Bearer` header wins whatever `auth` holds |
| Gateway.AuthFieldToken | frontend/src/pages/Chat.tsx:101-102 | the page's `auth: { token }` handshake yields that token |
| Gateway.Authenticate | backend/src/chat/chat.gateway.ts:43-55 | a user exactly when the token is non-empty and verifies to the id of an existing user |
| Gateway.RoomGroupRoundTrip | backend/src/chat/chat.gateway.ts:137 | `parseInt` of the part after `room:` in `room:${id}` gives `id` |
| Gateway.RoomGroupInjective | backend/src/chat/chat.gateway.ts:69 | different rooms have different group names |
| Gateway.KeepNonRoomGroups | backend/src/chat/chat.gateway.ts:242-244 | exactly the groups without the `room:` prefix, in order |
| Gateway.KeepNonRoomGroupsNoDuplicates | backend/src/chat/chat.gateway.ts:242-244 | the kept groups have no duplicates |
| Gateway.LeaveStep | backend/src/chat/chat.gateway.ts:243 | leaving the next room group of the snapshot advances the invariant of the loop |
| Gateway.KeepStep | backend/src/chat/chat.gateway.ts:243 | skipping a group without the prefix advances the same invariant |
| Gateway.JoinAfterLeave | backend/src/chat/chat.gateway.ts:242-246 | joining `room:<id>` after leaving every room group appends it |
| Gateway.JoinedGroups | backend/src/chat/chat.gateway.ts:242-246 | after a join, the only room group is `room:<id>` and every other group is kept |
| Gateway.SendGoesToJoinedRoom | backend/src/chat/chat.gateway.ts:133-137 | after a join, a send without `roomId` resolves to the joined room |
| Gateway.GeneralRoom | backend/src/chat/chat.gateway.ts:21-27 | the first room named `general`, or else a new public room named `general` with history on, appended |
| Gateway.EnsureGeneral | backend/src/chat/chat.gateway.ts:19-30 | a set memo is returned without touching the store; otherwise the memo becomes the general room's id |
| Gateway.EnsureGeneralIdempotent | backend/src/chat/chat.gateway.ts:19-30 | a second call returns the same id and changes nothing |
| Gateway.ReactionViewOf | backend/src/chat/chat.gateway.ts:96-100 | a reaction's payload: its id and emoji, and its author's id and username as the store holds them |
| Gateway.MessageViewOf | backend/src/chat/chat.gateway.ts:91-101 | the payload of a stored message: its id, content and time, its sender's id, username and colour as the store holds them, and one reaction payload per reaction row of the message, in table order |
| Gateway.MessageViews | backend/src/chat/chat.gateway.ts:91-101 | one such payload per message, in order |
| Gateway.HistoryFor | backend/src/chat/chat.gateway.ts:78-104 | `[]` when history is off; otherwise the views of the room's oldest 50 messages, at most 50 and ascending `createdAt` |
| Gateway.StoreAndBroadcast | backend/src/chat/chat.gateway.ts:157-172 | a storable send appends the message and broadcasts it to the room with `reactions: []`; otherwise `Error sending message` to the sender and no write |
| Gateway.SendEffect | backend/src/chat/chat.gateway.ts:143-172 | no user: `User not authenticated` only; blank content: nothing; otherwise the trimmed text is stored and broadcast |
| Gateway.StoredContentTrimmed | backend/src/chat/chat.gateway.ts:150-158 | a send stores nothing, or one message holding the non-empty trimmed content |
| Gateway.ReactionEffect | backend/src/chat/chat.gateway.ts:182-205 | a duplicate or a missing message or user gives no write and no event; otherwise one row and one `reaction-added` to the message's room |
| Gateway.CountReactionsAtMostOne | backend/src/chat/chat.gateway.ts:183-190 | the reaction table holds at most one row per (message, user, emoji) |
| Gateway.ReactTwice | backend/src/chat/chat.gateway.ts:182-205 | reacting twice stores one row and broadcasts at most once; the second try is a silent no-op |
| Gateway.JoinCheck | backend/src/chat/chat.gateway.ts:231-240 | `Room not found` exactly for an unknown id, `Access denied` exactly for a private room without the user, otherwise the room |
| Gateway.TypingStart | backend/src/chat/chat.gateway.ts:287-292 | the room's set gains the name (idempotently) and the other rooms are unchanged |
| Gateway.TypingStop | backend/src/chat/chat.gateway.ts:301-303 | an existing set loses the name; a missing set is not created; other rooms are unchanged |
| Gateway.TypingStartValid | backend/src/chat/chat.gateway.ts:287-292 | start keeps every typing set duplicate-free |
| Gateway.TypingStopValid | backend/src/chat/chat.gateway.ts:301-303 | stop keeps every typing set duplicate-free |
| Gateway.TypingStartThenStop | backend/src/chat/chat.gateway.ts:282-306 | start then stop leaves the name out; a name that was not typing leaves the map as before |
| Gateway.Socket.constructor | backend/src/chat/chat.gateway.ts:40 | a new connection has no cached user and belongs only to its own group |
| Gateway.Socket.Join | backend/src/chat/chat.gateway.ts:69 | `client.join`: the group is added as to a set |
| Gateway.Socket.Leave | backend/src/chat/chat.gateway.ts:243 | `client.leave`: the group is removed |
| Gateway.Socket.LeaveRoomGroups | backend/src/chat/chat.gateway.ts:242-244 | the `forEach` leaving every `room:` group leaves exactly the other groups, in order |
| Gateway.Socket.Disconnect | backend/src/chat/chat.gateway.ts:46 | the connection is closed and belongs to no group |
| Gateway.ChatGateway.constructor | backend/src/chat/chat.gateway.ts:14-17 | empty typing map, no memo, empty log |
| Gateway.ChatGateway.EnsureGeneralRoom | backend/src/chat/chat.gateway.ts:19-30 | the new memo, store and id are those of `EnsureGeneral`; a set memo leaves the store alone |
| Gateway.ChatGateway.HandleConnection | backend/src/chat/chat.gateway.ts:40-111 | failed authentication disconnects with no event and no other change; success caches the user, joins `room:<general>` and logs `joined`, `history`, then `user-joined` to the others |
| Gateway.ChatGateway.AdmitUser | backend/src/chat/chat.gateway.ts:57-106 | the steps of a connection after authentication, with the whole new state |
| Gateway.ChatGateway.HandleDisconnect | backend/src/chat/chat.gateway.ts:113-125 | with a memo and a named user: `user-left` to the others, and when the general set exists, the name removed and the set broadcast; otherwise nothing |
| Gateway.ChatGateway.HandleSend | backend/src/chat/chat.gateway.ts:127-173 | room from `roomId`, else the first `room:` group, else the general room; then the effect of `SendEffect` on the store and the log |
| Gateway.ChatGateway.HandleReaction | backend/src/chat/chat.gateway.ts:175-206 | no user: nothing; otherwise the store and log of `ReactionEffect` |
| Gateway.ChatGateway.HandleUpdateProfile | backend/src/chat/chat.gateway.ts:208-222 | the cached user is reloaded from the store when the user still exists, and kept otherwise |
| Gateway.ChatGateway.HandleJoinRoom | backend/src/chat/chat.gateway.ts:224-280 | a failed check emits only its error and changes no group; otherwise the groups become the non-room groups plus `room:<id>`, and the log gains `history` then `joined` |
| Gateway.ChatGateway.HandleTyping | backend/src/chat/chat.gateway.ts:282-294 | the general room's set gains the name and is broadcast whole to that room |
| Gateway.ChatGateway.HandleTypingStop | backend/src/chat/chat.gateway.ts:296-306 | the general room's set loses the name and is broadcast, only when the set exists |
| ChatClient.AddReaction | frontend/src/pages/Chat.tsx:143-150 | only the messages with the id gain the reaction at the end; the length and the other messages are unchanged |
| ChatClient.AddReactionCount | frontend/src/pages/Chat.tsx:143-150 | the reactions shown grow by the number of messages with the id |
| ChatClient.CountIdAbsent | frontend/src/pages/Chat.tsx:145 | no message has an absent id |
| ChatClient.AddReactionElsewhere | frontend/src/pages/Chat.tsx:143-150 | a reaction for a message not shown changes nothing |
| ChatClient.RemapProfile | frontend/src/pages/Chat.tsx:173-185 | the user's messages get the new name and colour with every other field kept; other messages are unchanged |
| ChatClient.RemapIdempotent | frontend/src/pages/Chat.tsx:173-185 | re-running the remap with the same profile changes nothing |
| ChatClient.Apply | frontend/src/pages/Chat.tsx:114-159 | `history` replaces the list, `new-message` appends one, `reaction-added` is `AddReaction`, `typing` replaces the list, `joined` sets the room; other events leave the state alone |
| ChatClient.HistoryThenMessages | frontend/src/pages/Chat.tsx:133-141 | a history and then new messages give the history followed by the messages, in arrival order |
| ChatClient.NewMessagesAppend | frontend/src/pages/Chat.tsx:138-141 | new messages land at the end in arrival order |
| ChatClient.SendMessage | frontend/src/pages/Chat.tsx:192-198 | blank input or no socket: nothing sent, input kept; otherwise the non-empty trimmed text is sent, followed by `typing-stop`, and the input is cleared |
| ChatClient.FilteredTypingUsers | frontend/src/pages/Chat.tsx:240 | exactly the typing names other than the user's own |
| ChatClient.BannerOf | frontend/src/pages/Chat.tsx:396-401 | no banner for no name; one name alone; otherwise exactly the first min(n, 3) names, with `...` exactly when there are more than 3 |
| ChatClient.BannerOmitsSelf | frontend/src/pages/Chat.tsx:396-401 | the banner never names the user, and every name shown is typing |
| ChatClient.InviteCandidates | frontend/src/pages/Chat.tsx:493 | every user except the signed-in one |
| ChatClient.ToggleParticipant | frontend/src/pages/Chat.tsx:498-501 | checking appends the id; unchecking removes every copy of it |
| ChatClient.ToggleRoundTrip | frontend/src/pages/Chat.tsx:497-501 | check then uncheck of an unselected id restores the selection without duplicates |
| ChatClient.EmojiOrder | frontend/src/pages/Chat.tsx:230-231 | the key order of `groups`: first appearances, no duplicates |
| ChatClient.EmojiOrderMembers | frontend/src/pages/Chat.tsx:230-231 | an emoji is a key exactly when some reaction carries it |
| ChatClient.Groups | frontend/src/pages/Chat.tsx:229-236 | the keys of `groups` are exactly the emojis seen |
| ChatClient.EntriesOf | frontend/src/pages/Chat.tsx:237 | `Object.entries`: one pair per key, in key order |
| ChatClient.GroupsStep | frontend/src/pages/Chat.tsx:229-236 | how one more reaction changes the dictionary and its key order |
| ChatClient.LoopStepNew | frontend/src/pages/Chat.tsx:230-235 | the loop body for a new emoji creates a fresh entry, places it last and bumps it |
| ChatClient.LoopStepSeen | frontend/src/pages/Chat.tsx:233-235 | the loop body for a seen emoji bumps its entry and keeps the order |
| ChatClient.GroupReactions | frontend/src/pages/Chat.tsx:226-238 | the `forEach` loop followed by the sort computes `Grouped`, whose properties are proved below |
| ChatClient.GroupsUsers | frontend/src/pages/Chat.tsx:233-234 | a group's count is the number of reactions with its emoji, and its users are their authors in input order |
| ChatClient.GroupsReacted | frontend/src/pages/Chat.tsx:235 | `hasReacted` exactly when one of the group's reactions is the signed-in user's |
| ChatClient.TotalSort | frontend/src/pages/Chat.tsx:237 | sorting keeps the sum of the counts |
| ChatClient.EntriesTotal | frontend/src/pages/Chat.tsx:229-237 | the counts of the entries add up to the number of reactions |
| ChatClient.GroupedEntry | frontend/src/pages/Chat.tsx:237 | each result pair is an emoji seen, with its group |
| ChatClient.GroupOccurs | frontend/src/pages/Chat.tsx:229-237 | every group is for an emoji that occurs |
| ChatClient.OccursGroup | frontend/src/pages/Chat.tsx:229-237 | every emoji that occurs has a group |
| ChatClient.GroupedSorted | frontend/src/pages/Chat.tsx:237 | the groups come by count, largest first |
| ChatClient.GroupedTotal | frontend/src/pages/Chat.tsx:229-237 | the counts add up to the number of reactions |
| ChatClient.GroupedProperties | frontend/src/pages/Chat.tsx:226-238 | no reactions give no groups; the counts add up to the input length; largest count first; a group exactly for each emoji that occurs |
| ChatClient.GroupedGroupMeaning | frontend/src/pages/Chat.tsx:229-236 | each group's count, users and `hasReacted` are what its emoji's reactions say |
| ChatClient.InheritedEmojiThrows | frontend/src/pages/Chat.tsx:227-235 | as written, a reaction whose emoji is `constructor` makes the grouping throw |
| ChatClient.GroupsAsWrittenThrows | frontend/src/pages/Chat.tsx:227-235 | as written, the grouping throws exactly when some emoji is a name the plain object inherits |
| ChatClient.GroupsAsWrittenAgrees | frontend/src/pages/Chat.tsx:227-235 | when it does not throw, the code as written builds the same dictionary as the corrected one |
| Session.TokenOpens | backend/src/chat/chat.gateway.ts:43-55 | a token signed for a user authenticates that user |
| Session.LoginOpensConnection | backend/src/auth/auth.service.ts:30-42 | the token of a successful login connects the page as the user who logged in |
| Session.RegisterOpensConnection | backend/src/auth/auth.service.ts:11-28 | the token of a successful registration connects the new user |
| Session.ConnectShowsRoom | backend/src/chat/chat.gateway.ts:71-106 | the connecting client receives `joined` and `history` but not its own `user-joined`, and its page then shows the room and its history |
| Session.JoinShowsRoom | backend/src/chat/chat.gateway.ts:248-279 | on the page, the join's order of events has the same effect as the connection's order |
| Session.TrimmedTextStored | backend/src/chat/chat.gateway.ts:150-160 | a message with content is stored trimmed |
| Session.ClientTextStoredAsSent | frontend/src/pages/Chat.tsx:192-195 | what the page sends is stored as typed, less the surrounding blanks |

## Left out

- The socket.io transport, CORS and the mechanics of `client.disconnect`. A disconnect is a flag on the connection, and an emit is a log entry with its recipients.
- JWT signing and verification, and bcrypt hashing and comparison. They are the parameters `sign`, `verify`, `hash` and `compare`. A token that fails to verify is `verify` returning none, which covers the exception `verifyAsync` throws.
- The `JWT_SECRET` environment variable is the parameter `env`. The clock (`createdAt`) is the parameter `now`.
- Prisma. It is replaced by in-memory tables. Ids increase from 1 and nothing is deleted. The schema's unique and foreign-key constraints are enforced, with the error codes P2002, P2003 and P2025. Store failures of any other kind (an unreachable database, a timeout) are not modelled, nor is the `catch` path they would take.
- Async interleaving between `await`s and across connections. Each handler is one atomic step.
- React rendering, styles, modal and hover state, `alert`, the axios calls, and the 5000 ms typing timer of the page.
- Console logging.
- The other pages (Profile.tsx, Login.tsx, Register.tsx), the controllers, `chat.module.ts` and `vite.config.ts`. They hold framework wiring and form plumbing only.
- backend/src/auth/dto/auth.dto.ts, the Prisma schema and the validation pipe set up in `main.ts` are not part of this model. The fields of `UpdateProfileDto` (`username`, `customColor`) are inferred from the profile page. The validation of `CreateRoomDto` is assumed to run before `createRoom`.
- JSON numbers are integers. Floating-point participant ids, and a `NaN` room id from a group name, are not modelled beyond `parseInt` giving none.
- Payloads of the wrong JavaScript type, such as a non-string `content` or a missing payload object, are not modelled.
- EntriesOf, Groups: `Object.entries` lists integer-like keys (such as `"1"`) first, in numeric order, and the other keys in insertion order. The page's own `EMOJIS` (frontend/src/pages/Chat.tsx:19) are never integer-like, but `handleReaction` stores any emoji a client sends (backend/src/chat/chat.gateway.ts:183-188). The model uses insertion order throughout, so the order of equal-count groups is not modelled for integer-like emojis.
- The `null` reactions list of `getGroupedReactions` (`if (!reactions) return []`) and `m.reactions || []` in the `reaction-added` handler. In the model a message's reactions are always a list.
- As in the code, the memo `generalRoomId` is trusted once set. Nothing is left out here: a memo naming a missing room leads to the disconnect the code performs.
- Removing a closed connection from its groups is done by socket.io, not by `handleDisconnect`. `Socket.Disconnect` models it apart from the handler.
- Leaving the room groups iterates over a snapshot of the connection's groups. The code iterates over the live set, and deletes only the group it is visiting, which gives the same result.
- The order of reactions inside a message follows the table order of the store. The code fetches them with no `orderBy`.

## Findings

| source | as written | input that shows it | evidently intended | confidence | as-written member | corrected member |
|---|---|---|---|---|---|---|
| frontend/src/pages/Chat.tsx:227-235 | `groups` is a plain object `{}`, so `groups[r.emoji]` finds the members it inherits from `Object.prototype`. For an emoji such as `constructor`, `if (!groups[r.emoji])` skips the initialisation and `groups[r.emoji].users.push` throws a `TypeError` while the message renders | one message with a reaction whose emoji is `constructor` (the gateway stores any string as an emoji) | one group per distinct emoji whatever its text, as with `Object.create(null)` or a `Map` | not executed | ChatClient.InheritedEmojiThrows (on ChatClient.GroupsAsWritten, with ChatClient.GroupsAsWrittenThrows) | ChatClient.GroupReactions, with ChatClient.GroupedProperties and ChatClient.GroupedGroupMeaning |
