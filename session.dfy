/** Properties that follow one user across the pieces: the token the auth
    service issues opens a gateway connection, and what the gateway sends a
    connection ends up on that connection's page. */
module Session {
  import opened Values
  import opened Store
  import opened Wire
  import G = Gateway
  import A = AuthService
  import C = ChatClient

  /** Does an event sent to `t` reach the connection `socketId`, which
      belongs to `groups`? */
  predicate Reaches(t: G.Target, socketId: string, groups: seq<string>) {
    match t
    case ToClient(s) => s == socketId
    case ToGroup(g) => g in groups
    case ToGroupExcept(g, except) => g in groups && except != socketId
  }

  /** The events of `emits` that the connection receives, in order. */
  function ReceivedBy(emits: seq<G.Emit>, socketId: string, groups: seq<string>): seq<G.Event> {
    if emits == [] then []
    else (if Reaches(emits[0].target, socketId, groups) then [emits[0].event] else [])
         + ReceivedBy(emits[1..], socketId, groups)
  }

  /** A token that verifying maps back to its `sub` claim. */
  ghost predicate SignVerifyAgree(env: Option<string>, sign: (A.TokenPayload, A.SignOptions) -> string,
                            verify: string -> Option<int>) {
    forall p :: verify(sign(p, A.SignOptions(A.TokenLifetime, A.Secret(env)))) == Some(p.sub as int)
  }

  lemma TokenOpens(db: Db, u: User, env: Option<string>, sign: (A.TokenPayload, A.SignOptions) -> string,
                   verify: string -> Option<int>, token: A.AccessToken)
    requires Store.Valid(db) && u in db.users
    requires SignVerifyAgree(env, sign, verify)
    requires token == A.SignToken(u.id, u.email, u.username, env, sign) && token.accessToken != []
    ensures G.Authenticate(db, G.Handshake(None, Some(map["token" := JStr(token.accessToken)])), verify) == Some(u)
  {
    G.AuthFieldToken(token.accessToken, map["token" := JStr(token.accessToken)]);
    var k :| 0 <= k < |db.users| && db.users[k] == u;
    assert verify(token.accessToken) == Some(u.id as int);
  }

  /** The token of a successful login connects the web client as the user
      who logged in. */
  lemma LoginOpensConnection(db: Db, dto: A.LoginDto, env: Option<string>, compare: (string, string) -> bool,
                             sign: (A.TokenPayload, A.SignOptions) -> string, verify: string -> Option<int>)
    requires Store.Valid(db)
    requires SignVerifyAgree(env, sign, verify)
    requires A.Login(db, dto, env, compare, sign).Ok?
    requires A.Login(db, dto, env, compare, sign).value.accessToken != []
    ensures var token := A.Login(db, dto, env, compare, sign).value.accessToken;
            G.Authenticate(db, G.Handshake(None, Some(map["token" := JStr(token)])), verify)
            == FindUserByEmail(db, dto.email)
  {
    var u := FindUserByEmail(db, dto.email).value;
    TokenOpens(db, u, env, sign, verify, A.Login(db, dto, env, compare, sign).value);
  }

  /** The token of a successful registration connects the new user. */
  lemma RegisterOpensConnection(db: Db, dto: A.RegisterDto, defaultColor: string, env: Option<string>,
                                hash: string -> string, sign: (A.TokenPayload, A.SignOptions) -> string,
                                verify: string -> Option<int>)
    requires Store.Valid(db)
    requires SignVerifyAgree(env, sign, verify)
    requires A.Register(db, dto, defaultColor, env, hash, sign).Ok?
    requires A.Register(db, dto, defaultColor, env, hash, sign).value.1.accessToken != []
    ensures var (db', token) := A.Register(db, dto, defaultColor, env, hash, sign).value;
            var u := db'.users[|db'.users| - 1];
            && u.email == dto.email && u.username == dto.username
            && G.Authenticate(db', G.Handshake(None, Some(map["token" := JStr(token.accessToken)])), verify) == Some(u)
  {
    var (db', token) := A.Register(db, dto, defaultColor, env, hash, sign).value;
    TokenOpens(db', db'.users[|db'.users| - 1], env, sign, verify, token);
  }

  /** A connecting client receives `joined` and `history` but not its own
      `user-joined`, and its page then shows the room and its history. */
  lemma ConnectShowsRoom(s: C.ClientState, socketId: string, groups: seq<string>, db: Db, room: Room, name: string)
    requires Store.Valid(db)
    ensures ReceivedBy(G.ConnectEmits(socketId, db, room, name), socketId, groups)
            == [G.Joined(G.InfoOf(room)), G.History(G.HistoryFor(db, room))]
    ensures C.ApplyAll(s, ReceivedBy(G.ConnectEmits(socketId, db, room, name), socketId, groups))
            == s.(messages := G.HistoryFor(db, room), currentRoom := Some(G.InfoOf(room)))
  {
    var es := G.ConnectEmits(socketId, db, room, name);
    var joined, history := G.Joined(G.InfoOf(room)), G.History(G.HistoryFor(db, room));
    assert !Reaches(es[2].target, socketId, groups);
    assert es[2..][1..] == [];
    assert ReceivedBy(es[2..], socketId, groups) == [];
    assert es[1..][1..] == es[2..];
    assert ReceivedBy(es[1..], socketId, groups) == [history];
    assert ReceivedBy(es, socketId, groups) == [joined, history];
    var events := [joined, history];
    assert events[1..][1..] == [];
    assert C.ApplyAll(s, events) == C.ApplyAll(C.Apply(C.Apply(s, joined), history), []);
  }

  /** Joining sends the same two events in the other order; the page ends
      in the same state as after connecting. */
  lemma JoinShowsRoom(s: C.ClientState, db: Db, room: Room)
    requires Store.Valid(db)
    ensures C.ApplyAll(s, [G.History(G.HistoryFor(db, room)), G.Joined(G.InfoOf(room))])
            == C.ApplyAll(s, [G.Joined(G.InfoOf(room)), G.History(G.HistoryFor(db, room))])
            == s.(messages := G.HistoryFor(db, room), currentRoom := Some(G.InfoOf(room)))
  {
    var joined, history := G.Joined(G.InfoOf(room)), G.History(G.HistoryFor(db, room));
    var a, b := [history, joined], [joined, history];
    assert a[1..][1..] == [] && b[1..][1..] == [];
    assert C.ApplyAll(s, a) == C.ApplyAll(C.Apply(C.Apply(s, history), joined), []);
    assert C.ApplyAll(s, b) == C.ApplyAll(C.Apply(C.Apply(s, joined), history), []);
  }

  /** The gateway stores the trimmed text of a message with content. */
  lemma TrimmedTextStored(content: string, db: Db, socketId: string, user: G.SessionUser, roomId: int, now: int)
    requires Store.Valid(db) && !AllWhitespace(content)
    requires G.Storable(db, Some(roomId), user.id)
    ensures G.SendEffect(db, socketId, Some(user), Some(content), Some(roomId), now).0.messages
            == db.messages + [Message(|db.messages| + 1, Trim(content), roomId, user.id, now)]
  {
  }

  /** What the page sends is stored as it was typed, less the surrounding
      blanks: the gateway's own trim changes nothing more. */
  lemma ClientTextStoredAsSent(input: string, db: Db, socketId: string, user: G.SessionUser, roomId: int, now: int)
    requires Store.Valid(db) && !AllWhitespace(input)
    requires G.Storable(db, Some(roomId), user.id)
    ensures C.SendMessage(input, true).1[0] == C.Send(Trim(input))
    ensures G.SendEffect(db, socketId, Some(user), Some(C.SendMessage(input, true).1[0].content), Some(roomId), now).0.messages
            == db.messages + [Message(|db.messages| + 1, Trim(input), roomId, user.id, now)]
  {
    TrimIdempotent(input);
    TrimEmptyIff(input);
    TrimEmptyIff(Trim(input));
    TrimmedTextStored(Trim(input), db, socketId, user, roomId, now);
  }
}
