/**
 * The `/register`, `/login` and `/refresh` handlers: each makes one service
 * call, then turns the outcome into a response (status, cookies, header) or
 * into an `HTTPException`.
 */
module AuthRouter {
  import opened Wrappers
  import opened Errors
  import opened Jose
  import opened Records
  import opened BaseRepository
  import opened UserModel
  import opened UserSchema
  import opened UsersRepository
  import opened UsersService
  import opened Responses
  import Auth

  const UserNotFoundDetail := "Пользователь не найден"
  const WrongPasswordDetail := "Неверный пароль"
  const UnexpectedPrefix := "Unexpected error: "
  const RefreshCookie := "refresh_token"
  const AccessCookie := "access_token"

  /** FastAPI's answer to a body that does not validate against the response model. */
  const ResponseInvalid := Builtin("ResponseValidationError")

  // ---------------------------------------------------------------- register

  /** `UserRead.model_validate(user)`: `None` where a field does not validate. */
  function UserReadOf(u: Row): (r: Option<UserRead>)
    ensures r.Some? <==> Get(u, NameColumn).Str? && (Get(u, EmailColumn).Str? || Get(u, EmailColumn) == Null)
                         && Get(u, ActiveColumn).Bool?
    ensures r.Some? ==> && r.value.name == Get(u, NameColumn).s
                        && r.value.email == (if Get(u, EmailColumn).Str? then Some(Get(u, EmailColumn).s) else None)
                        && r.value.active == Get(u, ActiveColumn).b
  {
    var name := Get(u, NameColumn);
    var email := Get(u, EmailColumn);
    var active := Get(u, ActiveColumn);
    if name.Str? && (email.Str? || email == Null) && active.Bool? then
      Some(UserRead(name.s, if email.Str? then Some(email.s) else None, active.b))
    else None
  }

  /** The projection never reads the password hash or the refresh token. */
  lemma UserReadIgnoresSecrets(u: Row, password: Value, token: Value)
    ensures UserReadOf(u[PasswordColumn := password][RefreshTokenColumn := token]) == UserReadOf(u)
  {
    var v := u[PasswordColumn := password][RefreshTokenColumn := token];
    assert Get(v, NameColumn) == Get(u, NameColumn);
    assert Get(v, EmailColumn) == Get(u, EmailColumn);
    assert Get(v, ActiveColumn) == Get(u, ActiveColumn);
  }

  /** `create_user`: 201 with the created user through `UserRead`; exceptions are not caught. */
  function RegisterResponse(created: Result<Row>): (r: Result<Response<UserRead>>)
    ensures created.Err? ==> r == Err(created.error)
    ensures r.Ok? ==> created.Ok? && r.value == Plain(201, r.value.body) && UserReadOf(created.value) == Some(r.value.body)
  {
    match created
    case Err(e) => Err(e)
    case Ok(u) =>
      match UserReadOf(u)
      case None => Err(ResponseInvalid)
      case Some(body) => Ok(Plain(201, body))
  }

  /** A registration that goes through had an email, and stored the name and email sent. */
  lemma RegisteredWithEmail(users: map<int, Row>, nextId: int, user: UserCreate, d: Auth.Draws, salt: Salt, now: int)
    requires Auth.ValidDraws(d) && CreateUserSpec(users, nextId, user, d, salt, now).result.Ok?
    ensures user.email.Some?
    ensures var r := CreateUserSpec(users, nextId, user, d, salt, now).result.value;
      Get(r, NameColumn) == Str(user.name) && Get(r, EmailColumn) == Str(user.email.value)
  {
    var hash := Auth.HashPassword(user.password, d, salt);
    var data := UserData(user, hash);
    RegistrationRowGiven(user, hash, nextId, now);
    assert CreateUserSpec(users, nextId, user, d, salt, now) == CreateSpec(UsersSchema, users, nextId, data, now);
    CreatedRowInserted(UsersSchema, users, nextId, data, now);
    assert EmailColumn in UsersSchema.notNull;
  }

  /** A registration leaves `active` to its default. */
  lemma ActiveNotGiven(data: Dict, user: UserCreate)
    requires exists hash :: data == UserData(user, hash)
    ensures NotGiven(data, ActiveColumn)
    ensures ExtendsBase(UsersSchema) && ActiveColumn in UsersSchema.types - {IdColumn}
    ensures ActiveColumn in UsersSchema.defaults && UsersSchema.defaults[ActiveColumn] == Bool(true)
  {
    UsersSchemaExtendsBase();
    assert |ActiveColumn| != |NameColumn| && |ActiveColumn| != |EmailColumn| && |ActiveColumn| != |PasswordColumn|;
  }

  /** A registered user is active. */
  lemma RegisteredActive(users: map<int, Row>, nextId: int, user: UserCreate, d: Auth.Draws, salt: Salt, now: int)
    requires Auth.ValidDraws(d) && CreateUserSpec(users, nextId, user, d, salt, now).result.Ok?
    ensures Get(CreateUserSpec(users, nextId, user, d, salt, now).result.value, ActiveColumn) == Bool(true)
  {
    var data := UserData(user, Auth.HashPassword(user.password, d, salt));
    ActiveNotGiven(data, user);
    assert InitialValue(UsersSchema, data, ActiveColumn, now) == Bool(true);
    assert CreateUserSpec(users, nextId, user, d, salt, now) == CreateSpec(UsersSchema, users, nextId, data, now);
    CreatedRowInserted(UsersSchema, users, nextId, data, now);
  }

  /** A registration that goes through answers 201 with the name and email sent, and `active` true. */
  lemma RegisterResponds(users: map<int, Row>, nextId: int, user: UserCreate, d: Auth.Draws, salt: Salt, now: int)
    requires Auth.ValidDraws(d) && CreateUserSpec(users, nextId, user, d, salt, now).result.Ok?
    ensures RegisterResponse(CreateUserSpec(users, nextId, user, d, salt, now).result)
         == Ok(Plain(201, UserRead(user.name, user.email, true)))
  {
    RegisteredWithEmail(users, nextId, user, d, salt, now);
    RegisteredActive(users, nextId, user, d, salt, now);
  }

  /** A name already taken is not caught by the handler: FastAPI answers 500. */
  lemma RegisterTakenNameResponds(users: map<int, Row>, nextId: int, user: UserCreate, d: Auth.Draws, salt: Salt, now: int, k: int)
    requires Auth.ValidDraws(d)
    requires k in users && Get(users[k], NameColumn) == Str(user.name)
    ensures RegisterResponse(CreateUserSpec(users, nextId, user, d, salt, now).result) == Err(Database(IntegrityError))
    ensures StatusOf(RegisterResponse(CreateUserSpec(users, nextId, user, d, salt, now).result).error) == 500
  {
    RegisterTakenName(users, nextId, user, d, salt, now, k);
  }

  // ---------------------------------------------------------------- login

  /** The `except` clauses of `login`: 404 for an unknown user, 400 for a wrong password, 500 with the message otherwise. */
  function LoginError(e: Error): (h: Error)
    ensures h.Http?
    ensures h.status == 404 <==> e.Custom? && e.kind == NotFoundInDb
    ensures h.status == 400 <==> e.Custom? && e.kind == NotValidPassword
    ensures h.status == 404 ==> h.detail == UserNotFoundDetail
    ensures h.status == 400 ==> h.detail == WrongPasswordDetail
    ensures h.status != 404 && h.status != 400 ==> h.status == 500 && h.detail == UnexpectedPrefix + Describe(e)
  {
    if e.Custom? && e.kind == NotFoundInDb then Http(404, UserNotFoundDetail)
    else if e.Custom? && e.kind == NotValidPassword then Http(400, WrongPasswordDetail)
    else Http(500, UnexpectedPrefix + Describe(e))
  }

  /**
   * `login`: the token pair as the body, the refresh and the access token as
   * cookies, and the access token in the `Authorization` header.
   */
  function LoginResponse(o: Result<TokenPair>): (r: Result<Response<TokenPair>>)
    ensures o.Err? ==> r.Err? && r.error == LoginError(o.error)
    ensures o.Ok? ==> r.Ok? && r.value.status == 200 && r.value.body == o.value
  {
    match o
    case Err(e) => Err(LoginError(e))
    case Ok(pair) =>
      Ok(Response(200, pair, [(RefreshCookie, pair.refreshToken), (AccessCookie, pair.accessToken)], Some(pair.accessToken)))
  }

  /** An unknown login answers 404. */
  lemma LoginUnknownUserResponds(users: map<int, Row>, form: LoginForm, now: int, cfg: Auth.AuthConfig)
    requires WellFormed(UsersSchema, users)
    requires forall k :: k in users ==>
      !LowerEquals(users[k], NameColumn, LoginKey(form.username)) && !LowerEquals(users[k], EmailColumn, LoginKey(form.username))
    ensures LoginResponse(LoginSpec(users, form, now, cfg).result) == Err(Http(404, UserNotFoundDetail))
  {
    LoginUnknownUser(users, form, now, cfg);
  }

  /** A wrong password answers 400. */
  lemma LoginWrongPasswordResponds(users: map<int, Row>, form: LoginForm, now: int, cfg: Auth.AuthConfig, registered: string, salt: Salt)
    requires WellFormed(UsersSchema, users)
    requires GetUserByLogin(users, form.username).Some?
    requires Get(GetUserByLogin(users, form.username).value, PasswordColumn) == Str(UserModel.HashPassword(registered, salt))
    requires registered != form.password
    ensures LoginResponse(LoginSpec(users, form, now, cfg).result) == Err(Http(400, WrongPasswordDetail))
  {
    LoginWrongPassword(users, form, now, cfg, registered, salt);
  }

  /**
   * A successful login sets the `refresh_token` cookie to the token now
   * stored on the user, the `access_token` cookie and the bearer header to
   * the access token, and answers `token_type` "bearer".
   */
  lemma LoginSetsCookies(users: map<int, Row>, form: LoginForm, now: int, cfg: Auth.AuthConfig)
    requires WellFormed(UsersSchema, users)
    requires LoginSpec(users, form, now, cfg).result.Ok?
    ensures var u := GetUserByLogin(users, form.username).value;
      && Get(u, IdColumn).Int?
      && var o := LoginSpec(users, form, now, cfg);
      && var r := LoginResponse(o.result).value;
      && |r.cookies| == 2 && r.cookies[0].0 == RefreshCookie && r.cookies[1].0 == AccessCookie
      && r.bearer == Some(r.cookies[1].1) && r.body.accessToken == r.cookies[1].1
      && r.body.tokenType == Bearer
      && KeyOf(u) in o.users && Get(o.users[KeyOf(u)], RefreshTokenColumn) == Tok(r.cookies[0].1)
  {
    LoginOkMatched(users, form, now, cfg);
    LoginSucceeds(users, form, now, cfg);
  }

  // ---------------------------------------------------------------- refresh

  /** The `refresh_token` query parameter, `None` when absent, as compared with the stored column. */
  function TokenParam(t: Option<Token>): (v: Value)
    ensures v == Null <==> t.None?
  {
    if t.Some? then Tok(t.value) else Null
  }

  /**
   * `refresh`: `get_me` runs first and its exception wins; `NotFoundInDBError`
   * becomes 404 and every other exception passes through; success sets only
   * the `access_token` cookie and the bearer header.
   */
  function RefreshResponse(me: Result<Row>, o: Result<AccessInfo>): (r: Result<Response<AccessInfo>>)
    ensures me.Err? ==> r == Err(me.error)
    ensures me.Ok? && o.Err? && o.error.Custom? && o.error.kind == NotFoundInDb ==> r == Err(Http(404, UserNotFoundDetail))
    ensures me.Ok? && o.Err? && !(o.error.Custom? && o.error.kind == NotFoundInDb) ==> r == Err(o.error)
    ensures r.Ok? ==> me.Ok? && o.Ok? && r.value.status == 200 && r.value.body == o.value
  {
    if me.Err? then Err(me.error)
    else
      match o
      case Err(e) => if e.Custom? && e.kind == NotFoundInDb then Err(Http(404, UserNotFoundDetail)) else Err(e)
      case Ok(info) => Ok(Response(200, info, [(AccessCookie, info.accessToken)], Some(info.accessToken)))
  }

  /**
   * Right after a login, a refresh sent with the login's access token as the
   * bearer and its refresh token as the parameter answers 200 with a new
   * access token over the same claims, in the body, the `access_token` cookie
   * and the header, as long as the access token has expired neither for
   * `jwt.decode` nor for the host clock.
   */
  lemma RefreshAfterLoginResponds(users: map<int, Row>, form: LoginForm, now: int, later: int, micros: Auth.Micros, hostUtcOffset: int, cfg: Auth.AuthConfig)
    requires WellFormed(UsersSchema, users) && TokensBound(users)
    requires LoginSpec(users, form, now, cfg).result.Ok?
    requires Get(GetUserByLogin(users, form.username).value, ActiveColumn) == Bool(true)
    requires var exp := LoginSpec(users, form, now, cfg).result.value.accessToken.claims[ExpClaim].n;
      later <= exp && Auth.HostClockBefore(exp, later, micros, hostUtcOffset)
    ensures var u := GetUserByLogin(users, form.username).value;
      && Get(u, IdColumn).Int? && Get(u, NameColumn).Str?
      && Auth.CreateAccessToken(UserClaims(u), None, later, cfg).Ok?
      && var o := LoginSpec(users, form, now, cfg);
      && WellFormed(UsersSchema, o.users)
      && var me := Auth.Authenticate(o.result.value.accessToken, o.users, later, micros, hostUtcOffset, cfg);
      && var t := Auth.CreateAccessToken(UserClaims(u), None, later, cfg).value;
      && RefreshResponse(me, RefreshSpec(o.users, TokenParam(Some(o.result.value.refreshToken)), later, cfg))
         == Ok(Response(200, AccessInfo(t, Bearer), [(AccessCookie, t)], Some(t)))
  {
    LoginTokenAuthenticates(users, form, now, later, micros, hostUtcOffset, cfg);
    RefreshAfterLogin(users, form, now, later, cfg);
  }

  /** After a login that replaced it, the user's previous refresh token answers 404. */
  lemma StaleTokenResponds(users: map<int, Row>, form: LoginForm, now: int, later: int, cfg: Auth.AuthConfig, previous: Token, me: Result<Row>)
    requires WellFormed(UsersSchema, users) && TokensBound(users)
    requires LoginSpec(users, form, now, cfg).result.Ok?
    requires Get(GetUserByLogin(users, form.username).value, RefreshTokenColumn) == Tok(previous)
    requires LoginSpec(users, form, now, cfg).result.value.refreshToken != previous
    requires me.Ok?
    ensures WellFormed(UsersSchema, LoginSpec(users, form, now, cfg).users)
    ensures RefreshResponse(me, RefreshSpec(LoginSpec(users, form, now, cfg).users, TokenParam(Some(previous)), later, cfg))
         == Err(Http(404, UserNotFoundDetail))
  {
    OldTokenRejectedAfterLogin(users, form, now, later, cfg, previous);
  }

  /**
   * Without an authenticated caller the refresh never happens: the exception
   * of `get_me`, 401 or 500, is the answer whatever the refresh would give.
   */
  lemma RefreshNeedsCaller(bearer: Token, users: map<int, Row>, now: int, micros: Auth.Micros, hostUtcOffset: int, cfg: Auth.AuthConfig, o: Result<AccessInfo>)
    requires Auth.Authenticate(bearer, users, now, micros, hostUtcOffset, cfg).Err?
    ensures var r := RefreshResponse(Auth.Authenticate(bearer, users, now, micros, hostUtcOffset, cfg), o);
      r.Err? && StatusOf(r.error) in {401, 500}
  {
  }
}
