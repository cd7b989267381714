/** UserService on values: the user table, join, login and lookup by name. */
module Users {
  import opened Results
  import opened Domain
  import Jwt

  /** The validity window of login tokens: one hour in milliseconds. */
  const ExpiredTimeMs: int := 1000 * 60 * 60

  /** The user table, keyed by the unique userName column, with the next identity value. */
  datatype UserTable = UserTable(rows: map<string, User>, nextId: int)

  /** Table invariant: every row sits under its own name; ids are positive, below nextId and distinct. */
  ghost predicate Valid(t: UserTable) {
    && 1 <= t.nextId
    && (forall n :: n in t.rows ==> t.rows[n].userName == n && 1 <= t.rows[n].id < t.nextId)
    && (forall a, b :: a in t.rows && b in t.rows && a != b ==> t.rows[a].id != t.rows[b].id)
  }

  /** No two stored users share a userName. */
  ghost predicate UniqueNames(t: UserTable) {
    forall u, v :: u in t.rows.Values && v in t.rows.Values && u.userName == v.userName ==> u == v
  }

  /** t2 still holds every row of t1, unchanged. */
  ghost predicate Extends(t1: UserTable, t2: UserTable) {
    forall n :: n in t1.rows ==> n in t2.rows && t2.rows[n] == t1.rows[n]
  }

  /** The empty table a fresh database starts with. */
  function Empty(): (t: UserTable)
    ensures Valid(t) && t.rows == map[]
  {
    UserTable(map[], 1)
  }

  lemma ValidHasUniqueNames(t: UserTable)
    requires Valid(t)
    ensures UniqueNames(t)
  {
    forall u, v | u in t.rows.Values && v in t.rows.Values && u.userName == v.userName
      ensures u == v
    {
      var a :| a in t.rows && t.rows[a] == u;
      var b :| b in t.rows && t.rows[b] == v;
    }
  }

  /** findByUserName: the one stored user with that name, if there is one. */
  function FindByUserName(t: UserTable, userName: string): (r: Option<User>)
    requires Valid(t)
    ensures r.Some? <==> exists u :: u in t.rows.Values && u.userName == userName
    ensures r.Some? ==> r.value in t.rows.Values && r.value.userName == userName
    ensures r.Some? ==> forall u :: u in t.rows.Values && u.userName == userName ==> u == r.value
  {
    ValidHasUniqueNames(t);
    if userName in t.rows then
      Some(t.rows[userName])
    else
      assert forall u :: u in t.rows.Values ==> u.userName in t.rows;
      None
  }

  /** A successful join of req: next is t plus exactly one row, under req's name, with a fresh id,
      req's role and the encoding of req's password; dto describes that row. */
  ghost predicate AddsOneUser(t: UserTable, next: UserTable, req: UserJoinReq,
                              encode: string -> string, dto: UserDto)
  {
    && req.userName !in t.rows
    && next.rows.Keys == t.rows.Keys + {req.userName}
    && Extends(t, next)
    && next.rows[req.userName] == User(dto.id, req.userName, encode(req.password), req.userRole)
    && (forall n :: n in t.rows ==> t.rows[n].id != dto.id)
    && dto == UserDto(dto.id, req.userName, encode(req.password), req.userRole)
  }

  /** join: a name already taken is refused and nothing is stored; otherwise one user is inserted. */
  function Join(t: UserTable, req: UserJoinReq, encode: string -> string): (o: Outcome<UserTable, UserDto>)
    requires Valid(t)
    ensures Valid(o.next) && Extends(t, o.next)
    ensures o.result.Failure? <==> FindByUserName(t, req.userName).Some?
    ensures o.result.Failure? ==> o.result.error == DuplicatedUserName && o.next == t
    ensures o.result.Success? ==> AddsOneUser(t, o.next, req, encode, o.result.value)
  {
    if req.userName in t.rows then
      Outcome(t, Failure(DuplicatedUserName))
    else
      var saved := User(t.nextId, req.userName, encode(req.password), req.userRole);
      Outcome(UserTable(t.rows[req.userName := saved], t.nextId + 1), Success(UserDtoOf(saved)))
  }

  /** login: unknown name first, then password mismatch, then a one-hour token for the submitted name. */
  function Login(t: UserTable, userName: string, password: string, matches: (string, string) -> bool,
                 secretKey: string, nowMs: int): (r: Result<Jwt.Token>)
    requires Valid(t)
    ensures FindByUserName(t, userName).None? ==> r == Failure(UserNameNotFound)
    ensures (FindByUserName(t, userName).Some? &&
             !matches(password, FindByUserName(t, userName).value.password)) ==> r == Failure(InvalidPassword)
    ensures r.Success? <==>
              FindByUserName(t, userName).Some? && matches(password, FindByUserName(t, userName).value.password)
    ensures r.Success? ==> r.value == Jwt.CreateToken(userName, secretKey, ExpiredTimeMs, nowMs)
  {
    match FindByUserName(t, userName)
    case None => Failure(UserNameNotFound)
    case Some(user) =>
      if !matches(password, user.password) then Failure(InvalidPassword)
      else Success(Jwt.CreateToken(userName, secretKey, ExpiredTimeMs, nowMs))
  }

  /** getUserByUserName: the unique stored user with that name, or USERNAME_NOT_FOUND. */
  function GetUserByUserName(t: UserTable, userName: string): (r: Result<User>)
    requires Valid(t)
    ensures r.Failure? <==> forall u :: u in t.rows.Values ==> u.userName != userName
    ensures r.Failure? ==> r.error == UserNameNotFound
    ensures r.Success? ==> r.value in t.rows.Values && r.value.userName == userName
    ensures r.Success? ==> forall u :: u in t.rows.Values && u.userName == userName ==> u == r.value
  {
    match FindByUserName(t, userName)
    case None => Failure(UserNameNotFound)
    case Some(user) => Success(user)
  }

  /** Once a name has joined, every later join with that name is refused, whatever its password and role. */
  lemma JoinThenJoinAgainFails(t: UserTable, req: UserJoinReq, encode: string -> string,
                               again: UserJoinReq, encode2: string -> string)
    requires Valid(t)
    requires Join(t, req, encode).result.Success?
    requires again.userName == req.userName
    ensures Join(Join(t, req, encode).next, again, encode2)
              == Outcome(Join(t, req, encode).next, Failure(DuplicatedUserName))
  {
  }

  /** After a successful join the user is found by name, and holds the encoded password. */
  lemma JoinThenGetUser(t: UserTable, req: UserJoinReq, encode: string -> string)
    requires Valid(t)
    requires Join(t, req, encode).result.Success?
    ensures GetUserByUserName(Join(t, req, encode).next, req.userName).Success?
    ensures GetUserByUserName(Join(t, req, encode).next, req.userName).value.password == encode(req.password)
    ensures GetUserByUserName(Join(t, req, encode).next, req.userName).value.userRole == req.userRole
  {
  }

  /** After a successful join, login under that name succeeds exactly when the encoder accepts the submitted
      password against the stored encoding, and is refused with INVALID_PASSWORD otherwise. */
  lemma JoinThenLogin(t: UserTable, req: UserJoinReq, enc: PasswordEncoder,
                      password: string, secretKey: string, nowMs: int)
    requires Valid(t)
    requires Join(t, req, enc.encode).result.Success?
    ensures var r := Login(Join(t, req, enc.encode).next, req.userName, password, enc.matches, secretKey, nowMs);
            if enc.matches(password, enc.encode(req.password))
            then r == Success(Jwt.CreateToken(req.userName, secretKey, ExpiredTimeMs, nowMs))
            else r == Failure(InvalidPassword)
  {
  }

  /** A token from a successful login names the submitted user and lives for exactly one hour:
      live up to and including issue + 3600000 ms, expired from the next millisecond on. */
  lemma LoginTokenLifetime(t: UserTable, userName: string, password: string,
                           matches: (string, string) -> bool, secretKey: string, nowMs: int, checkMs: int)
    requires Valid(t)
    requires Login(t, userName, password, matches, secretKey, nowMs).Success?
    ensures var tok := Login(t, userName, password, matches, secretKey, nowMs).value;
            && Jwt.GetUserName(tok) == userName
            && tok.signingKey == secretKey
            && tok.issuedAtMs == nowMs
            && tok.expirationMs - tok.issuedAtMs == 3600000
            && (Jwt.IsExpired(tok, checkMs) <==> checkMs > nowMs + 3600000)
  {
  }

  /** Register "alice" with "pw1", then log in: with an encoder that accepts "pw1" against its own encoding
      the token names "alice"; a password the encoder rejects gets INVALID_PASSWORD and no token. */
  lemma AliceScenario(enc: PasswordEncoder, secretKey: string, nowMs: int)
    requires enc.matches("pw1", enc.encode("pw1"))
    requires !enc.matches("wrong", enc.encode("pw1"))
    ensures var joined := Join(Empty(), UserJoinReq("alice", "pw1", UserRole("USER")), enc.encode);
            && joined.result.Success?
            && Login(joined.next, "alice", "pw1", enc.matches, secretKey, nowMs).Success?
            && Jwt.GetUserName(Login(joined.next, "alice", "pw1", enc.matches, secretKey, nowMs).value) == "alice"
            && Login(joined.next, "alice", "wrong", enc.matches, secretKey, nowMs) == Failure(InvalidPassword)
  {
    JoinThenLogin(Empty(), UserJoinReq("alice", "pw1", UserRole("USER")), enc, "pw1", secretKey, nowMs);
    JoinThenLogin(Empty(), UserJoinReq("alice", "pw1", UserRole("USER")), enc, "wrong", secretKey, nowMs);
  }
}
