/** The decision rules of backend/src/auth/auth.service.ts. Password hashing
    and comparison (bcrypt) and token signing (JWT) are the parameters
    `hash`, `compare` and `sign`; the `JWT_SECRET` environment variable is
    the parameter `env`. */
module AuthService {
  import opened Values
  import opened Store

  const CredentialsTaken: string := "Credentials taken"
  const CredentialsIncorrect: string := "Credentials incorrect"
  const UsernameTaken: string := "Username already taken"
  const DefaultSecret: string := "supersecret"
  const TokenLifetime: string := "1d"

  /** A `ForbiddenException` with its message, or a store error passed on. */
  datatype AuthError = Forbidden(message: string) | StoreFailure(error: DbError)

  datatype RegisterDto = RegisterDto(email: string, username: string, password: string)
  datatype LoginDto = LoginDto(email: string, password: string)
  /** The fields a profile update may carry; a missing field is `None`. */
  datatype UpdateProfileDto = UpdateProfileDto(username: Option<string>, customColor: Option<string>)

  /** The claims of an access token. */
  datatype TokenPayload = TokenPayload(sub: nat, email: string, username: string)
  datatype SignOptions = SignOptions(expiresIn: string, secret: string)
  /** `{ access_token }` */
  datatype AccessToken = AccessToken(accessToken: string)

  /** A user record as `updateProfile` returns it, without the password. */
  datatype Profile = Profile(id: nat, email: string, username: string, customColor: string)

  /** `process.env.JWT_SECRET || 'supersecret'`: an unset or empty variable
      falls back to the default. */
  function Secret(env: Option<string>): (r: string)
    ensures r != []
    ensures env.Some? && env.value != [] ==> r == env.value
    ensures env.None? || env.value == [] ==> r == DefaultSecret
  {
    if env.Some? && env.value != [] then env.value else DefaultSecret
  }

  /** `signToken`: the payload is exactly the user's id (as `sub`), e-mail and
      username, signed for one day with the configured secret. */
  function SignToken(userId: nat, email: string, username: string, env: Option<string>,
                     sign: (TokenPayload, SignOptions) -> string): (r: AccessToken)
    ensures r.accessToken == sign(TokenPayload(userId, email, username), SignOptions(TokenLifetime, Secret(env)))
  {
    var payload := TokenPayload(userId, email, username);
    AccessToken(sign(payload, SignOptions(TokenLifetime, Secret(env))))
  }

  /** The error `register` throws for a failed insert: a unique-constraint
      violation becomes `Credentials taken`, anything else is rethrown. */
  function RegisterError(e: DbError): (r: AuthError)
    ensures e.code == UniqueViolation <==> r == Forbidden(CredentialsTaken)
    ensures e.code != UniqueViolation ==> r == StoreFailure(e)
  {
    if e.code == UniqueViolation then Forbidden(CredentialsTaken) else StoreFailure(e)
  }

  /** `register`: store the user with the hashed password and sign a token
      for it. `defaultColor` is the column default of `customColor`. */
  function Register(db: Db, dto: RegisterDto, defaultColor: string, env: Option<string>,
                    hash: string -> string, sign: (TokenPayload, SignOptions) -> string)
    : (r: Result<(Db, AccessToken), AuthError>)
    requires Store.Valid(db)
    ensures r == Err(Forbidden(CredentialsTaken)) <==>
              exists u :: u in db.users && (u.email == dto.email || u.username == dto.username)
    ensures r.Err? ==> r == Err(Forbidden(CredentialsTaken))
    ensures r.Ok? ==> var (db', token) := r.value;
              var u := User(|db.users| + 1, dto.email, dto.username, hash(dto.password), defaultColor);
              && db' == db.(users := db.users + [u])
              && Store.Valid(db')
              && token == SignToken(u.id, dto.email, dto.username, env, sign)
  {
    match CreateUser(db, dto.email, dto.username, hash(dto.password), defaultColor)
    case Err(e) => Err(RegisterError(e))
    case Ok((db', u)) => Ok((db', SignToken(u.id, u.email, u.username, env, sign)))
  }

  /** Two registrations with the same e-mail: the second is refused and the
      store keeps one user with that e-mail. */
  lemma RegisterTwice(db: Db, dto: RegisterDto, other: RegisterDto, defaultColor: string, env: Option<string>,
                      hash: string -> string, sign: (TokenPayload, SignOptions) -> string)
    requires Store.Valid(db)
    requires Register(db, dto, defaultColor, env, hash, sign).Ok?
    requires other.email == dto.email
    ensures var db' := Register(db, dto, defaultColor, env, hash, sign).value.0;
            Register(db', other, defaultColor, env, hash, sign) == Err(Forbidden(CredentialsTaken))
  {
    var db' := Register(db, dto, defaultColor, env, hash, sign).value.0;
    assert db'.users[|db.users|].email == other.email;
  }

  /** `login`: the user with that e-mail whose stored hash matches the
      password gets a token; every other attempt gets `Credentials
      incorrect`. */
  function Login(db: Db, dto: LoginDto, env: Option<string>, compare: (string, string) -> bool,
                 sign: (TokenPayload, SignOptions) -> string): (r: Result<AccessToken, AuthError>)
    ensures r.Err? ==> r == Err(Forbidden(CredentialsIncorrect))
    ensures r.Ok? <==> exists u :: u in db.users && u.email == dto.email && compare(dto.password, u.password)
                                   && FindUserByEmail(db, dto.email) == Some(u)
    ensures r.Ok? ==> var u := FindUserByEmail(db, dto.email).value;
              r.value == SignToken(u.id, u.email, u.username, env, sign)
  {
    match FindUserByEmail(db, dto.email)
    case None => Err(Forbidden(CredentialsIncorrect))
    case Some(u) =>
      if !compare(dto.password, u.password) then Err(Forbidden(CredentialsIncorrect))
      else Ok(SignToken(u.id, u.email, u.username, env, sign))
  }

  /** No user with the e-mail, or a password that does not match, are both
      refused with the same message. */
  lemma LoginFailures(db: Db, dto: LoginDto, env: Option<string>, compare: (string, string) -> bool,
                      sign: (TokenPayload, SignOptions) -> string)
    requires Store.Valid(db)
    ensures (forall u :: u in db.users ==> u.email != dto.email) ==>
              Login(db, dto, env, compare, sign) == Err(Forbidden(CredentialsIncorrect))
    ensures (forall u :: u in db.users && u.email == dto.email ==> !compare(dto.password, u.password)) ==>
              Login(db, dto, env, compare, sign) == Err(Forbidden(CredentialsIncorrect))
  {
  }

  /** The e-mail is unique, so a successful login is for the one user with it. */
  lemma LoginFindsOwner(db: Db, dto: LoginDto, env: Option<string>, compare: (string, string) -> bool,
                        sign: (TokenPayload, SignOptions) -> string, u: User)
    requires Store.Valid(db) && u in db.users && u.email == dto.email && compare(dto.password, u.password)
    ensures Login(db, dto, env, compare, sign) == Ok(SignToken(u.id, u.email, u.username, env, sign))
  {
    var found := FindUserByEmail(db, dto.email).value;
    var i :| 0 <= i < |db.users| && db.users[i] == u;
    var j :| 0 <= j < |db.users| && db.users[j] == found;
    assert i == j;
  }

  function ProfileOf(u: User): Profile {
    Profile(u.id, u.email, u.username, u.customColor)
  }

  /** `if (dto.username)`: the uniqueness check runs only for a non-empty
      requested username. */
  predicate ChecksUsername(dto: UpdateProfileDto) {
    dto.username.Some? && dto.username.value != []
  }

  /** `updateProfile`: refuse a username held by another user, then write
      the given fields to the user's record and return it without its
      password. */
  function UpdateProfile(db: Db, userId: nat, dto: UpdateProfileDto): (r: Result<(Db, Profile), AuthError>)
    requires Store.Valid(db)
    ensures r == Err(Forbidden(UsernameTaken)) <==>
              ChecksUsername(dto) && exists u :: u in db.users && u.username == dto.username.value && u.id != userId
    ensures r == Err(StoreFailure(DbError(RecordNotFound))) <==> r != Err(Forbidden(UsernameTaken)) && !IsUserId(db, userId)
    ensures r == Err(StoreFailure(DbError(UniqueViolation))) <==>
              IsUserId(db, userId) && dto.username == Some([])
              && exists u :: u in db.users && u.username == [] && u.id != userId
    ensures r.Ok? <==>
              IsUserId(db, userId)
              && !(dto.username.Some? && exists u :: u in db.users && u.username == dto.username.value && u.id != userId)
    ensures r.Ok? ==> var (db', profile) := r.value;
              && Store.Valid(db')
              && db'.rooms == db.rooms && db'.messages == db.messages && db'.reactions == db.reactions
              && |db'.users| == |db.users|
              && (forall k :: 0 <= k < |db.users| && k != userId - 1 ==> db'.users[k] == db.users[k])
              && IsUserId(db, userId)
              && db'.users[userId - 1].password == db.users[userId - 1].password
              && db'.users[userId - 1].email == db.users[userId - 1].email
              && profile == ProfileOf(db'.users[userId - 1])
              && profile.username == (if dto.username.Some? then dto.username.value else db.users[userId - 1].username)
              && profile.customColor == (if dto.customColor.Some? then dto.customColor.value else db.users[userId - 1].customColor)
  {
    var existing := if ChecksUsername(dto) then FindUserByUsername(db, dto.username.value) else None;
    if existing.Some? && existing.value.id != userId then Err(Forbidden(UsernameTaken))
    else
      match UpdateUser(db, userId, dto.username, dto.customColor)
      case Err(e) => Err(StoreFailure(e))
      case Ok((db', u)) => Ok((db', ProfileOf(u)))
  }

  /** Asking for one's own current username passes the check. */
  lemma OwnUsernameAccepted(db: Db, userId: nat, customColor: Option<string>)
    requires Store.Valid(db) && IsUserId(db, userId)
    ensures UpdateProfile(db, userId, UpdateProfileDto(Some(db.users[userId - 1].username), customColor)).Ok?
  {
    var name := db.users[userId - 1].username;
    forall u | u in db.users && u.username == name ensures u.id == userId {
      var k :| 0 <= k < |db.users| && db.users[k] == u;
      assert db.users[k].username == db.users[userId - 1].username;
    }
  }

  /** Without a username the check is skipped: only a missing user fails. */
  lemma NoUsernameSkipsCheck(db: Db, userId: nat, customColor: Option<string>)
    requires Store.Valid(db)
    ensures UpdateProfile(db, userId, UpdateProfileDto(None, customColor)).Ok? <==> IsUserId(db, userId)
  {
  }
}
