/**
 * `UsersService`: listing users, registering one with a hashed password,
 * logging in (a fresh access token and refresh token, the refresh token
 * stored on the user) and refreshing an access token from a stored refresh
 * token.
 */
module UsersService {
  import opened Wrappers
  import opened Errors
  import opened Text
  import opened Jose
  import opened Records
  import opened DbErrors
  import opened BaseRepository
  import opened UserModel
  import opened UserSchema
  import opened UsersRepository
  import Auth

  const NameClaim := "name"
  const Bearer := "bearer"

  /** `OAuth2PasswordRequestForm`: the two fields the login reads. */
  datatype LoginForm = LoginForm(username: string, password: string)

  /** The dictionary `login` returns. */
  datatype TokenPair = TokenPair(accessToken: Token, refreshToken: Token, tokenType: string)

  /** The dictionary `refresh` returns. */
  datatype AccessInfo = AccessInfo(accessToken: Token, tokenType: string)

  /** A row of the committed users. */
  predicate IsUser(users: map<int, Row>, u: Row) {
    exists k :: k in users && users[k] == u
  }

  /** `{"user_id": str(user.id), "name": user.name}`: the claims of both tokens. */
  function UserClaims(user: Row): (c: Claims)
    requires Get(user, IdColumn).Int? && Get(user, NameColumn).Str?
    ensures c.Keys == {Auth.UserIdClaim, NameClaim}
    ensures c[Auth.UserIdClaim] == Text(IntToString(KeyOf(user)))
    ensures c[NameClaim] == Text(Get(user, NameColumn).s)
  {
    map[Auth.UserIdClaim := Text(IntToString(KeyOf(user))), NameClaim := Text(Get(user, NameColumn).s)]
  }

  /** `get_me` reads back from the claims the id they were made from: `int(str(user.id))`. */
  lemma ClaimsNameUser(user: Row)
    requires Get(user, IdColumn).Int? && Get(user, NameColumn).Str?
    ensures Auth.UserIdOf(UserClaims(user)) == Some(KeyOf(user))
  {
    IntToStringRoundTrip(KeyOf(user));
  }

  /** Two users' claims differ: the claims name the user. */
  lemma UserClaimsInjective(a: Row, b: Row)
    requires Get(a, IdColumn).Int? && Get(a, NameColumn).Str?
    requires Get(b, IdColumn).Int? && Get(b, NameColumn).Str?
    requires UserClaims(a)[Auth.UserIdClaim] == UserClaims(b)[Auth.UserIdClaim]
    ensures KeyOf(a) == KeyOf(b)
  {
    IntToStringInjective(KeyOf(a), KeyOf(b));
  }

  /** What `create_access_token` signs: the claims with `exp` set. */
  function Issued(claims: Claims, exp: int, cfg: Auth.AuthConfig): (t: Token)
    ensures t.Signed? && t.claims.Keys == claims.Keys + {ExpClaim} && t.claims[ExpClaim] == Number(exp)
  {
    Encode(claims[ExpClaim := Number(exp)], cfg.secretKey, cfg.algorithm)
  }

  /** With the configured lifetime readable, `create_access_token(data)` signs `data` with `exp` that many minutes on. */
  lemma IssuedAccess(claims: Claims, now: int, cfg: Auth.AuthConfig)
    requires ParseInt(cfg.accessTokenExpireMinutes).Some?
    ensures Auth.CreateAccessToken(claims, None, now, cfg)
         == Ok(Issued(claims, now + ParseInt(cfg.accessTokenExpireMinutes).value * 60, cfg))
  {
  }

  /** `create_refresh_token(data)` signs `data` with `exp` seven days on. */
  lemma IssuedRefresh(claims: Claims, now: int, cfg: Auth.AuthConfig)
    ensures Auth.CreateRefreshToken(claims, now, cfg) == Ok(Issued(claims, now + Auth.RefreshTokenLifetime, cfg))
  {
  }

  // ---------------------------------------------------------------- login

  datatype LoginOutcome = LoginOutcome(result: Result<TokenPair>, users: map<int, Row>)

  /** The user row after a login: the new refresh token stored, `updated_at` stamped. */
  function Refreshed(u: Row, refresh: Token, now: int): (r: Row)
    ensures r.Keys == u.Keys + {RefreshTokenColumn, UpdatedAtColumn}
    ensures r[RefreshTokenColumn] == Tok(refresh) && r[UpdatedAtColumn] == Time(UtcNow(now))
    ensures forall c :: c in u && c != RefreshTokenColumn && c != UpdatedAtColumn ==> r[c] == u[c]
  {
    u[RefreshTokenColumn := Tok(refresh)][UpdatedAtColumn := Time(UtcNow(now))]
  }

  /** Storing a refresh token changes neither the user's id nor name, so neither the claims. */
  lemma RefreshedKeepsClaims(u: Row, refresh: Token, now: int)
    requires Get(u, IdColumn).Int? && Get(u, NameColumn).Str?
    ensures Get(Refreshed(u, refresh, now), IdColumn).Int? && Get(Refreshed(u, refresh, now), NameColumn).Str?
    ensures UserClaims(Refreshed(u, refresh, now)) == UserClaims(u)
  {
    var r := Refreshed(u, refresh, now);
    assert Get(r, IdColumn) == Get(u, IdColumn) && Get(r, NameColumn) == Get(u, NameColumn);
  }

  /**
   * `update(user, {"refresh_token": refresh_token})`. The token is a typed,
   * non-`None` value of a column no UNIQUE constraint watches, so the update
   * always commits: the user's row is replaced by the refreshed one.
   */
  function StoreRefreshToken(users: map<int, Row>, u: Row, refresh: Token, now: int): (o: UpdateOutcome)
    requires WellFormed(UsersSchema, users)
    requires Get(u, IdColumn).Int? && KeyOf(u) in users && users[KeyOf(u)] == u
    ensures o.result == Ok(Refreshed(u, refresh, now))
    ensures o.rows == users[KeyOf(u) := Refreshed(u, refresh, now)]
    ensures WellFormed(UsersSchema, o.rows)
  {
    UsersSchemaExtendsBase();
    AssignOneCommits(UsersSchema, users, u, RefreshTokenColumn, Tok(refresh), now);
    UpdateReplacesRow(UsersSchema, users, u, [(RefreshTokenColumn, Tok(refresh))], now);
    UpdateSpec(UsersSchema, users, u, [(RefreshTokenColumn, Tok(refresh))], now)
  }

  /**
   * The end of a login, once the password matched: issue both tokens and store
   * the refresh token on the user.
   */
  function IssueTokens(users: map<int, Row>, u: Row, now: int, cfg: Auth.AuthConfig): (o: LoginOutcome)
    requires WellFormed(UsersSchema, users)
    requires Get(u, IdColumn).Int? && KeyOf(u) in users && users[KeyOf(u)] == u
    ensures o.result.Ok? ==> o.result.value.tokenType == Bearer
                             && Expiring(o.result.value.accessToken) && BoundTo(o.result.value.accessToken, KeyOf(u))
                             && Expiring(o.result.value.refreshToken) && BoundTo(o.result.value.refreshToken, KeyOf(u))
    ensures o.result.Err? ==> o.users == users
    ensures o.result.Ok? ==> o.users == users[KeyOf(u) := Refreshed(u, o.result.value.refreshToken, now)]
  {
    StoredUser(users, KeyOf(u));
    var claims := UserClaims(u);
    match Auth.CreateAccessToken(claims, None, now, cfg)
    case Err(e) => LoginOutcome(Err(e), users)
    case Ok(access) =>
      var refresh := Auth.CreateRefreshToken(claims, now, cfg).value;
      LoginOutcome(Ok(TokenPair(access, refresh, Bearer)), StoreRefreshToken(users, u, refresh, now).rows)
  }

  /**
   * `login(form)`: find the user by name or email (`NotFoundInDBError`), check
   * the password (`NotValidPassword`; a stored value that is not a bcrypt hash
   * raises `ValueError`), then issue the tokens.
   */
  function LoginSpec(users: map<int, Row>, form: LoginForm, now: int, cfg: Auth.AuthConfig): (o: LoginOutcome)
    requires WellFormed(UsersSchema, users)
    ensures o.result.Ok? ==> Expiring(o.result.value.accessToken) && Expiring(o.result.value.refreshToken)
    ensures o.result.Err? ==> o.users == users
  {
    match GetUserByLogin(users, form.username)
    case None => LoginOutcome(Err(NotFound()), users)
    case Some(u) =>
      StoredUnderOwnId(UsersSchema, users, u);
      StoredUser(users, KeyOf(u));
      match VerifyPassword(form.password, Get(u, PasswordColumn).s)
      case Err(e) => LoginOutcome(Err(e), users)
      case Ok(matches) =>
        if !matches then LoginOutcome(Err(WrongPassword()), users)
        else IssueTokens(users, u, now, cfg)
  }

  /** An unknown login raises `NotFoundInDBError` and changes nothing. */
  lemma LoginUnknownUser(users: map<int, Row>, form: LoginForm, now: int, cfg: Auth.AuthConfig)
    requires WellFormed(UsersSchema, users)
    requires forall k :: k in users ==>
      !LowerEquals(users[k], NameColumn, LoginKey(form.username)) && !LowerEquals(users[k], EmailColumn, LoginKey(form.username))
    ensures LoginSpec(users, form, now, cfg) == LoginOutcome(Err(NotFound()), users)
  {
  }

  /** A password other than the one the stored hash was made from raises `NotValidPassword` and changes nothing. */
  lemma LoginWrongPassword(users: map<int, Row>, form: LoginForm, now: int, cfg: Auth.AuthConfig, registered: string, salt: Salt)
    requires WellFormed(UsersSchema, users)
    requires GetUserByLogin(users, form.username).Some?
    requires Get(GetUserByLogin(users, form.username).value, PasswordColumn) == Str(UserModel.HashPassword(registered, salt))
    requires registered != form.password
    ensures LoginSpec(users, form, now, cfg) == LoginOutcome(Err(WrongPassword()), users)
  {
    VerifyOtherPassword(form.password, registered, salt);
  }

  /**
   * Once the password matched, both tokens are signed over the user's claims,
   * with the configured lifetime and with seven days, and the user row is
   * replaced by the refreshed one; no other user changes.
   */
  lemma IssueTokensCommits(users: map<int, Row>, u: Row, now: int, cfg: Auth.AuthConfig)
    requires WellFormed(UsersSchema, users)
    requires Get(u, IdColumn).Int? && KeyOf(u) in users && users[KeyOf(u)] == u
    requires ParseInt(cfg.accessTokenExpireMinutes).Some?
    ensures Get(u, NameColumn).Str?
    ensures var refresh := Issued(UserClaims(u), now + Auth.RefreshTokenLifetime, cfg);
      var access := Issued(UserClaims(u), now + ParseInt(cfg.accessTokenExpireMinutes).value * 60, cfg);
      IssueTokens(users, u, now, cfg)
      == LoginOutcome(Ok(TokenPair(access, refresh, Bearer)), users[KeyOf(u) := Refreshed(u, refresh, now)])
  {
    StoredUser(users, KeyOf(u));
    var claims := UserClaims(u);
    IssuedAccess(claims, now, cfg);
    IssuedRefresh(claims, now, cfg);
  }

  /** When the password matches the stored hash, the login goes on to issue the tokens. */
  lemma LoginMatched(users: map<int, Row>, form: LoginForm, now: int, cfg: Auth.AuthConfig)
    requires WellFormed(UsersSchema, users)
    requires GetUserByLogin(users, form.username).Some?
    requires var u := GetUserByLogin(users, form.username).value;
      Get(u, PasswordColumn).Str? && VerifyPassword(form.password, Get(u, PasswordColumn).s) == Ok(true)
    ensures var u := GetUserByLogin(users, form.username).value;
      && Get(u, IdColumn).Int? && KeyOf(u) in users && users[KeyOf(u)] == u
      && LoginSpec(users, form, now, cfg) == IssueTokens(users, u, now, cfg)
  {
    StoredUnderOwnId(UsersSchema, users, GetUserByLogin(users, form.username).value);
  }

  /** Any login that succeeds went through a password that matched the stored hash. */
  lemma LoginOkMatched(users: map<int, Row>, form: LoginForm, now: int, cfg: Auth.AuthConfig)
    requires WellFormed(UsersSchema, users)
    requires LoginSpec(users, form, now, cfg).result.Ok?
    ensures GetUserByLogin(users, form.username).Some?
    ensures var u := GetUserByLogin(users, form.username).value;
      && Get(u, PasswordColumn).Str? && VerifyPassword(form.password, Get(u, PasswordColumn).s) == Ok(true)
      && ParseInt(cfg.accessTokenExpireMinutes).Some?
  {
    var u := GetUserByLogin(users, form.username).value;
    StoredUnderOwnId(UsersSchema, users, u);
    StoredUser(users, KeyOf(u));
  }

  /**
   * A login whose password matches returns both tokens and stores the refresh
   * token on the user.
   */
  lemma LoginSucceeds(users: map<int, Row>, form: LoginForm, now: int, cfg: Auth.AuthConfig)
    requires WellFormed(UsersSchema, users)
    requires GetUserByLogin(users, form.username).Some?
    requires var u := GetUserByLogin(users, form.username).value;
      Get(u, PasswordColumn).Str? && VerifyPassword(form.password, Get(u, PasswordColumn).s) == Ok(true)
    requires ParseInt(cfg.accessTokenExpireMinutes).Some?
    ensures var u := GetUserByLogin(users, form.username).value;
      && Get(u, IdColumn).Int? && Get(u, NameColumn).Str?
      && var refresh := Issued(UserClaims(u), now + Auth.RefreshTokenLifetime, cfg);
      && var access := Issued(UserClaims(u), now + ParseInt(cfg.accessTokenExpireMinutes).value * 60, cfg);
      && LoginSpec(users, form, now, cfg)
         == LoginOutcome(Ok(TokenPair(access, refresh, Bearer)), users[KeyOf(u) := Refreshed(u, refresh, now)])
  {
    LoginMatched(users, form, now, cfg);
    IssueTokensCommits(users, GetUserByLogin(users, form.username).value, now, cfg);
  }

  // ---------------------------------------------------------------- refresh

  /**
   * `refresh(refresh_token)`: the user holding that token (`NotFoundInDBError`
   * when none does), and a new access token over the user's claims.
   */
  function RefreshSpec(users: map<int, Row>, token: Value, now: int, cfg: Auth.AuthConfig): (r: Result<AccessInfo>)
    requires WellFormed(UsersSchema, users)
    ensures GetUserByRefreshToken(users, token).Err? ==> r == Err(GetUserByRefreshToken(users, token).error)
    ensures r.Ok? ==> GetUserByRefreshToken(users, token).Ok? && r.value.tokenType == Bearer
                      && r.value.accessToken.Signed? && r.value.accessToken.key == cfg.secretKey
  {
    match GetUserByRefreshToken(users, token)
    case Err(e) => Err(e)
    case Ok(u) =>
      StoredUnderOwnId(UsersSchema, users, u);
      StoredUser(users, KeyOf(u));
      match Auth.CreateAccessToken(UserClaims(u), None, now, cfg)
      case Err(e) => Err(e)
      case Ok(access) => Ok(AccessInfo(access, Bearer))
  }

  /** A signed token carrying a numeric `exp`. */
  predicate Expiring(t: Token) {
    t.Signed? && ExpClaim in t.claims && t.claims[ExpClaim].Number?
  }

  /** The token is bound to user `k`: its `user_id` claim is `str(k)`. */
  predicate BoundTo(t: Token, k: int) {
    t.Signed? && Auth.UserIdClaim in t.claims && t.claims[Auth.UserIdClaim] == Text(IntToString(k))
  }

  /** Every stored refresh token names the user that holds it. */
  predicate TokensBound(users: map<int, Row>) {
    forall k :: k in users && Get(users[k], RefreshTokenColumn).Tok? ==> BoundTo(Get(users[k], RefreshTokenColumn).token, k)
  }

  /** A token bound to `k` can be held by no other user. */
  lemma BoundTokenHolder(users: map<int, Row>, t: Token, k: int, j: int)
    requires TokensBound(users) && BoundTo(t, k)
    requires j in users && Get(users[j], RefreshTokenColumn) == Tok(t)
    ensures j == k
  {
    IntToStringInjective(j, k);
  }

  /** The refresh token a login issues is bound to the user who logged in. */
  lemma IssuedRefreshBound(u: Row, now: int, cfg: Auth.AuthConfig)
    requires Get(u, IdColumn).Int? && Get(u, NameColumn).Str?
    ensures BoundTo(Issued(UserClaims(u), now + Auth.RefreshTokenLifetime, cfg), KeyOf(u))
  {
  }

  /** Storing on user `k` a token bound to `k` keeps every stored token bound. */
  lemma StoreBoundToken(users: map<int, Row>, k: int, row: Row, t: Token)
    requires TokensBound(users) && BoundTo(t, k) && Get(row, RefreshTokenColumn) == Tok(t)
    ensures TokensBound(users[k := row])
  {
  }

  /** Issuing the tokens keeps the table well formed and every stored refresh token bound to its holder. */
  lemma IssueKeepsTokensBound(users: map<int, Row>, u: Row, now: int, cfg: Auth.AuthConfig)
    requires WellFormed(UsersSchema, users) && TokensBound(users)
    requires Get(u, IdColumn).Int? && KeyOf(u) in users && users[KeyOf(u)] == u
    ensures WellFormed(UsersSchema, IssueTokens(users, u, now, cfg).users)
    ensures TokensBound(IssueTokens(users, u, now, cfg).users)
  {
    StoredUser(users, KeyOf(u));
    var claims := UserClaims(u);
    if Auth.CreateAccessToken(claims, None, now, cfg).Ok? {
      IssuedRefresh(claims, now, cfg);
      var refresh := Issued(claims, now + Auth.RefreshTokenLifetime, cfg);
      IssuedRefreshBound(u, now, cfg);
      StoreBoundToken(users, KeyOf(u), Refreshed(u, refresh, now), refresh);
      assert IssueTokens(users, u, now, cfg).users == StoreRefreshToken(users, u, refresh, now).rows;
    }
  }

  /** A login keeps the table well formed and every stored refresh token bound to its holder. */
  lemma LoginKeepsTokensBound(users: map<int, Row>, form: LoginForm, now: int, cfg: Auth.AuthConfig)
    requires WellFormed(UsersSchema, users) && TokensBound(users)
    ensures WellFormed(UsersSchema, LoginSpec(users, form, now, cfg).users)
    ensures TokensBound(LoginSpec(users, form, now, cfg).users)
  {
    if LoginSpec(users, form, now, cfg).result.Ok? {
      LoginOkMatched(users, form, now, cfg);
      LoginMatched(users, form, now, cfg);
      IssueKeepsTokensBound(users, GetUserByLogin(users, form.username).value, now, cfg);
    }
  }

  /** Among users whose tokens are bound, a token bound to `k` and held by `k` finds `k`. */
  lemma RefreshFindsHolder(users: map<int, Row>, t: Token, k: int)
    requires TokensBound(users) && BoundTo(t, k)
    requires k in users && Get(users[k], RefreshTokenColumn) == Tok(t)
    ensures GetUserByRefreshToken(users, Tok(t)) == Ok(users[k])
  {
    var found := GetUserByRefreshToken(users, Tok(t));
    var j :| j in users && users[j] == found.value;
    BoundTokenHolder(users, t, k, j);
  }

  /** The refresh token just issued gets its user a new access token over the same claims. */
  lemma RefreshAfterIssue(users: map<int, Row>, u: Row, now: int, later: int, cfg: Auth.AuthConfig)
    requires WellFormed(UsersSchema, users) && TokensBound(users)
    requires Get(u, IdColumn).Int? && KeyOf(u) in users && users[KeyOf(u)] == u
    requires IssueTokens(users, u, now, cfg).result.Ok?
    ensures Get(u, NameColumn).Str? && Auth.CreateAccessToken(UserClaims(u), None, later, cfg).Ok?
    ensures var o := IssueTokens(users, u, now, cfg);
      && WellFormed(UsersSchema, o.users)
      && RefreshSpec(o.users, Tok(o.result.value.refreshToken), later, cfg)
         == Ok(AccessInfo(Auth.CreateAccessToken(UserClaims(u), None, later, cfg).value, Bearer))
  {
    StoredUser(users, KeyOf(u));
    IssueKeepsTokensBound(users, u, now, cfg);
    var claims := UserClaims(u);
    assert Auth.CreateAccessToken(claims, None, now, cfg).Ok?;
    Auth.ExpiryRule(None, now, cfg);
    Auth.ExpiryRule(None, later, cfg);
    IssuedRefresh(claims, now, cfg);
    IssuedRefreshBound(u, now, cfg);
    var refresh := Auth.CreateRefreshToken(claims, now, cfg).value;
    var after := StoreRefreshToken(users, u, refresh, now).rows;
    assert IssueTokens(users, u, now, cfg).users == after;
    assert IssueTokens(users, u, now, cfg).result.value.refreshToken == refresh;
    assert TokensBound(after) && BoundTo(refresh, KeyOf(u));
    assert Get(after[KeyOf(u)], RefreshTokenColumn) == Tok(refresh);
    RefreshFindsHolder(after, refresh, KeyOf(u));
    RefreshedKeepsClaims(u, refresh, now);
  }

  /**
   * Right after a login, its refresh token gets the same user a new access
   * token over the same claims.
   */
  lemma RefreshAfterLogin(users: map<int, Row>, form: LoginForm, now: int, later: int, cfg: Auth.AuthConfig)
    requires WellFormed(UsersSchema, users) && TokensBound(users)
    requires LoginSpec(users, form, now, cfg).result.Ok?
    ensures var u := GetUserByLogin(users, form.username).value;
      && Get(u, IdColumn).Int? && Get(u, NameColumn).Str?
      && Auth.CreateAccessToken(UserClaims(u), None, later, cfg).Ok?
      && var o := LoginSpec(users, form, now, cfg);
      && WellFormed(UsersSchema, o.users)
      && RefreshSpec(o.users, Tok(o.result.value.refreshToken), later, cfg)
         == Ok(AccessInfo(Auth.CreateAccessToken(UserClaims(u), None, later, cfg).value, Bearer))
  {
    LoginOkMatched(users, form, now, cfg);
    LoginMatched(users, form, now, cfg);
    RefreshAfterIssue(users, GetUserByLogin(users, form.username).value, now, later, cfg);
  }

  /** A token bound to `k` that `k` no longer holds is held by nobody. */
  lemma BoundTokenGone(users: map<int, Row>, t: Token, k: int)
    requires TokensBound(users) && BoundTo(t, k)
    requires k in users && Get(users[k], RefreshTokenColumn) != Tok(t)
    ensures forall j :: j in users ==> Get(users[j], RefreshTokenColumn) != Tok(t)
  {
    forall j | j in users
      ensures Get(users[j], RefreshTokenColumn) != Tok(t)
    {
      if Get(users[j], RefreshTokenColumn) == Tok(t) {
        BoundTokenHolder(users, t, k, j);
      }
    }
  }

  /** A token nobody holds refreshes nothing. */
  lemma UnheldTokenNotFound(users: map<int, Row>, t: Token, later: int, cfg: Auth.AuthConfig)
    requires WellFormed(UsersSchema, users)
    requires forall j :: j in users ==> Get(users[j], RefreshTokenColumn) != Tok(t)
    ensures RefreshSpec(users, Tok(t), later, cfg) == Err(NotFound())
  {
  }

  /** The token a user held before the tokens were issued anew refreshes nothing, unless it is the new one. */
  lemma OldTokenRejectedAfterIssue(users: map<int, Row>, u: Row, now: int, later: int, cfg: Auth.AuthConfig, previous: Token)
    requires WellFormed(UsersSchema, users) && TokensBound(users)
    requires Get(u, IdColumn).Int? && KeyOf(u) in users && users[KeyOf(u)] == u
    requires Get(u, RefreshTokenColumn) == Tok(previous)
    requires IssueTokens(users, u, now, cfg).result.Ok?
    requires IssueTokens(users, u, now, cfg).result.value.refreshToken != previous
    ensures WellFormed(UsersSchema, IssueTokens(users, u, now, cfg).users)
    ensures RefreshSpec(IssueTokens(users, u, now, cfg).users, Tok(previous), later, cfg) == Err(NotFound())
  {
    IssueKeepsTokensBound(users, u, now, cfg);
    var k := KeyOf(u);
    var o := IssueTokens(users, u, now, cfg);
    assert BoundTo(previous, k);
    assert Get(o.users[k], RefreshTokenColumn) == Tok(o.result.value.refreshToken);
    BoundTokenGone(o.users, previous, k);
    UnheldTokenNotFound(o.users, previous, later, cfg);
  }

  /**
   * After a login that issues a new refresh token, the token the user held
   * before no longer refreshes anything.
   */
  lemma OldTokenRejectedAfterLogin(users: map<int, Row>, form: LoginForm, now: int, later: int, cfg: Auth.AuthConfig, previous: Token)
    requires WellFormed(UsersSchema, users) && TokensBound(users)
    requires LoginSpec(users, form, now, cfg).result.Ok?
    requires Get(GetUserByLogin(users, form.username).value, RefreshTokenColumn) == Tok(previous)
    requires LoginSpec(users, form, now, cfg).result.value.refreshToken != previous
    ensures WellFormed(UsersSchema, LoginSpec(users, form, now, cfg).users)
    ensures RefreshSpec(LoginSpec(users, form, now, cfg).users, Tok(previous), later, cfg) == Err(NotFound())
  {
    LoginOkMatched(users, form, now, cfg);
    LoginMatched(users, form, now, cfg);
    OldTokenRejectedAfterIssue(users, GetUserByLogin(users, form.username).value, now, later, cfg, previous);
  }

  /** The `user_id` of a token issued over a user's claims is that user's id. */
  lemma IssuedNamesUser(u: Row, exp: int, cfg: Auth.AuthConfig)
    requires Get(u, IdColumn).Int? && Get(u, NameColumn).Str?
    ensures Auth.UserIdOf(Issued(UserClaims(u), exp, cfg).claims) == Some(KeyOf(u))
  {
    ClaimsNameUser(u);
    assert Issued(UserClaims(u), exp, cfg).claims[Auth.UserIdClaim] == UserClaims(u)[Auth.UserIdClaim];
  }

  /**
   * A token issued over a user's claims identifies that user to `get_me`
   * while the user is active and neither `jwt.decode` nor the host clock has
   * passed its `exp`.
   */
  lemma ClaimsTokenAuthenticates(users: map<int, Row>, u: Row, exp: int, later: int, micros: Auth.Micros, hostUtcOffset: int, cfg: Auth.AuthConfig)
    requires Get(u, IdColumn).Int? && Get(u, NameColumn).Str?
    requires KeyOf(u) in users && Get(users[KeyOf(u)], ActiveColumn) == Bool(true)
    requires later <= exp && Auth.HostClockBefore(exp, later, micros, hostUtcOffset)
    ensures Auth.Authenticate(Issued(UserClaims(u), exp, cfg), users, later, micros, hostUtcOffset, cfg) == Ok(users[KeyOf(u)])
  {
    IssuedNamesUser(u, exp, cfg);
    Auth.ValidTokenAuthenticates(Issued(UserClaims(u), exp, cfg), users, later, micros, hostUtcOffset, cfg, KeyOf(u));
  }

  /**
   * The access token just issued identifies its user to `get_me` until its
   * `exp`, by `jwt.decode` and by the host clock.
   */
  lemma IssuedTokenAuthenticates(users: map<int, Row>, u: Row, now: int, later: int, micros: Auth.Micros, hostUtcOffset: int, cfg: Auth.AuthConfig)
    requires WellFormed(UsersSchema, users)
    requires Get(u, IdColumn).Int? && KeyOf(u) in users && users[KeyOf(u)] == u
    requires Get(u, ActiveColumn) == Bool(true)
    requires IssueTokens(users, u, now, cfg).result.Ok?
    requires var exp := IssueTokens(users, u, now, cfg).result.value.accessToken.claims[ExpClaim].n;
      later <= exp && Auth.HostClockBefore(exp, later, micros, hostUtcOffset)
    ensures var o := IssueTokens(users, u, now, cfg);
      && KeyOf(u) in o.users
      && Auth.Authenticate(o.result.value.accessToken, o.users, later, micros, hostUtcOffset, cfg) == Ok(o.users[KeyOf(u)])
  {
    StoredUser(users, KeyOf(u));
    var access := Auth.CreateAccessToken(UserClaims(u), None, now, cfg).value;
    var exp := access.claims[ExpClaim].n;
    assert access.claims == UserClaims(u)[ExpClaim := Number(exp)];
    assert access == Issued(UserClaims(u), exp, cfg);
    var refresh := Auth.CreateRefreshToken(UserClaims(u), now, cfg).value;
    var after := StoreRefreshToken(users, u, refresh, now).rows;
    ClaimsTokenAuthenticates(after, u, exp, later, micros, hostUtcOffset, cfg);
  }

  /**
   * The access token a login returns identifies its user to `get_me` until the
   * token's `exp` (the configured lifetime on, by `LoginSucceeds`), by
   * `jwt.decode` and by the host clock, while the user is active.
   */
  lemma LoginTokenAuthenticates(users: map<int, Row>, form: LoginForm, now: int, later: int, micros: Auth.Micros, hostUtcOffset: int, cfg: Auth.AuthConfig)
    requires WellFormed(UsersSchema, users)
    requires LoginSpec(users, form, now, cfg).result.Ok?
    requires Get(GetUserByLogin(users, form.username).value, ActiveColumn) == Bool(true)
    requires var exp := LoginSpec(users, form, now, cfg).result.value.accessToken.claims[ExpClaim].n;
      later <= exp && Auth.HostClockBefore(exp, later, micros, hostUtcOffset)
    ensures var u := GetUserByLogin(users, form.username).value;
      && Get(u, IdColumn).Int?
      && var o := LoginSpec(users, form, now, cfg);
      && KeyOf(u) in o.users
      && Auth.Authenticate(o.result.value.accessToken, o.users, later, micros, hostUtcOffset, cfg) == Ok(o.users[KeyOf(u)])
  {
    LoginOkMatched(users, form, now, cfg);
    LoginMatched(users, form, now, cfg);
    IssuedTokenAuthenticates(users, GetUserByLogin(users, form.username).value, now, later, micros, hostUtcOffset, cfg);
  }

  // ---------------------------------------------------------------- register

  /** `{**user.__dict__}` with the password replaced by its hash. */
  function UserData(user: UserCreate, hash: string): (d: Dict)
    ensures Lookup(d, NameColumn) == Some(Str(user.name))
    ensures Lookup(d, PasswordColumn) == Some(Str(hash))
    ensures Lookup(d, EmailColumn) == Some(if user.email.Some? then Str(user.email.value) else Null)
    ensures forall i :: 0 <= i < |d| ==> d[i].0 in {NameColumn, EmailColumn, PasswordColumn}
    ensures forall c :: c != NameColumn && c != EmailColumn && c != PasswordColumn ==> Lookup(d, c) == None
  {
    var name := (NameColumn, Str(user.name));
    var email := (EmailColumn, if user.email.Some? then Str(user.email.value) else Null);
    var password := (PasswordColumn, Str(hash));
    var d := [name, email, password];
    assert d[..2] == [name, email] && [name, email][..1] == [name];
    assert Lookup([name], NameColumn) == Some(name.1);
    assert Lookup([name, email], NameColumn) == Some(name.1);
    assert Lookup([name, email], EmailColumn) == Some(email.1);
    d
  }

  /** `create_user(user_data)`: hash the password, then `create`. */
  function CreateUserSpec(users: map<int, Row>, nextId: int, user: UserCreate, d: Auth.Draws, salt: Salt, now: int): (o: CreateOutcome)
    requires Auth.ValidDraws(d)
    ensures o.result.Err? ==> o.rows == users
    ensures o.nextId == nextId || o.nextId == nextId + 1
  {
    UsersSchemaExtendsBase();
    CreateSpec(UsersSchema, users, nextId, UserData(user, Auth.HashPassword(user.password, d, salt)), now)
  }

  /**
   * A registered user is stored under the given name with the hash of the
   * password, never the password itself; the hash verifies the password.
   */
  lemma RegisteredUser(users: map<int, Row>, nextId: int, user: UserCreate, d: Auth.Draws, salt: Salt, now: int)
    requires Auth.ValidDraws(d) && user.password != ""
    requires CreateUserSpec(users, nextId, user, d, salt, now).result.Ok?
    ensures var r := CreateUserSpec(users, nextId, user, d, salt, now).result.value;
      && Get(r, NameColumn) == Str(user.name)
      && Get(r, PasswordColumn).Str? && Get(r, PasswordColumn).s != user.password
      && VerifyPassword(user.password, Get(r, PasswordColumn).s) == Ok(true)
  {
    UsersSchemaExtendsBase();
    var data := UserData(user, Auth.HashPassword(user.password, d, salt));
    assert CreateUserSpec(users, nextId, user, d, salt, now) == CreateSpec(UsersSchema, users, nextId, data, now);
    CreatedRowGiven(UsersSchema, users, nextId, data, now, NameColumn);
    CreatedRowGiven(UsersSchema, users, nextId, data, now, PasswordColumn);
  }

  /** A registration gives no id, no active flag and no refresh token. */
  lemma RegistrationLeavesDefaults(user: UserCreate, hash: string)
    ensures NotGiven(UserData(user, hash), IdColumn)
    ensures NotGiven(UserData(user, hash), ActiveColumn)
    ensures NotGiven(UserData(user, hash), RefreshTokenColumn)
  {
  }

  /** `is_active` defaults to true; `refresh_token` has no default and is no timestamp. */
  lemma UsersDefaults()
    ensures ActiveColumn in UsersSchema.types && ActiveColumn != IdColumn
    ensures ActiveColumn in UsersSchema.defaults && UsersSchema.defaults[ActiveColumn] == Bool(true)
    ensures RefreshTokenColumn in UsersSchema.types && RefreshTokenColumn != IdColumn
    ensures RefreshTokenColumn !in UsersSchema.defaults
    ensures RefreshTokenColumn != CreatedAtColumn && RefreshTokenColumn != UpdatedAtColumn
  {
  }

  /**
   * A registered user gets the next id of the sequence, is active, and holds
   * no refresh token.
   */
  lemma RegisteredUserDefaults(users: map<int, Row>, nextId: int, user: UserCreate, d: Auth.Draws, salt: Salt, now: int)
    requires Auth.ValidDraws(d)
    requires CreateUserSpec(users, nextId, user, d, salt, now).result.Ok?
    ensures var r := CreateUserSpec(users, nextId, user, d, salt, now).result.value;
      && Get(r, ActiveColumn) == Bool(true)
      && Get(r, RefreshTokenColumn) == Null
      && Get(r, IdColumn) == Int(nextId)
  {
    UsersSchemaExtendsBase();
    var hash := Auth.HashPassword(user.password, d, salt);
    var data := UserData(user, hash);
    assert CreateUserSpec(users, nextId, user, d, salt, now) == CreateSpec(UsersSchema, users, nextId, data, now);
    RegistrationLeavesDefaults(user, hash);
    UsersDefaults();
    CreatedRowDefault(UsersSchema, users, nextId, data, now, ActiveColumn);
    CreatedRowDefault(UsersSchema, users, nextId, data, now, RefreshTokenColumn);
    CreatedRowId(UsersSchema, users, nextId, data, now);
  }

  /** The row `create` tries for a registration: the id drawn from the sequence, and the given name, email and hash. */
  lemma RegistrationRowGiven(user: UserCreate, hash: string, nextId: int, now: int)
    ensures ExtendsBase(UsersSchema)
    ensures InitialValue(UsersSchema, UserData(user, hash), IdColumn, now) == Null
    ensures var r := Inserted(UsersSchema, UserData(user, hash), nextId, now);
      && r[IdColumn] == Int(nextId)
      && r[NameColumn] == Str(user.name)
      && r[EmailColumn] == (if user.email.Some? then Str(user.email.value) else Null)
      && r[PasswordColumn] == Str(hash)
  {
    UsersSchemaExtendsBase();
  }

  /** The row `create` tries for a registration holds a value of the right type in every column. */
  lemma RegistrationRowTyped(user: UserCreate, hash: string, nextId: int, now: int)
    ensures ExtendsBase(UsersSchema)
    ensures var r := Inserted(UsersSchema, UserData(user, hash), nextId, now);
      forall c :: c in r && r[c] != Null ==> HasType(r[c], UsersSchema.types[c])
  {
    UsersSchemaExtendsBase();
    var data := UserData(user, hash);
    forall i | 0 <= i < |data|
      ensures data[i].0 in UsersSchema.types && (data[i].1 == Null || HasType(data[i].1, UsersSchema.types[data[i].0]))
    {
      assert UsersSchema.types[NameColumn] == TextType && UsersSchema.types[EmailColumn] == TextType;
      assert UsersSchema.types[PasswordColumn] == TextType;
    }
    InsertedTyped(UsersSchema, data, nextId, now);
  }

  /**
   * Registering a name that is already taken fails with `IntegrityError`: no
   * user is added, and the id sequence still moves on.
   */
  lemma RegisterTakenName(users: map<int, Row>, nextId: int, user: UserCreate, d: Auth.Draws, salt: Salt, now: int, k: int)
    requires Auth.ValidDraws(d)
    requires k in users && Get(users[k], NameColumn) == Str(user.name)
    ensures CreateUserSpec(users, nextId, user, d, salt, now)
         == CreateOutcome(Err(Database(IntegrityError)), users, nextId + 1)
  {
    var hash := Auth.HashPassword(user.password, d, salt);
    var data := UserData(user, hash);
    RegistrationRowGiven(user, hash, nextId, now);
    RegistrationRowTyped(user, hash, nextId, now);
    assert !UnknownKey(UsersSchema, data);
    assert Clash(UsersSchema, Inserted(UsersSchema, data, nextId, now), users[k]);
    CreateIntegrityError(UsersSchema, users, nextId, data, now);
    assert CreateUserSpec(users, nextId, user, d, salt, now) == CreateSpec(UsersSchema, users, nextId, data, now);
  }

  /** A registration without an email fails with `IntegrityError` on the NOT NULL `email` column. */
  lemma RegisterWithoutEmail(users: map<int, Row>, nextId: int, user: UserCreate, d: Auth.Draws, salt: Salt, now: int)
    requires Auth.ValidDraws(d) && user.email.None?
    ensures CreateUserSpec(users, nextId, user, d, salt, now)
         == CreateOutcome(Err(Database(IntegrityError)), users, nextId + 1)
  {
    var hash := Auth.HashPassword(user.password, d, salt);
    var data := UserData(user, hash);
    RegistrationRowGiven(user, hash, nextId, now);
    RegistrationRowTyped(user, hash, nextId, now);
    assert !UnknownKey(UsersSchema, data);
    assert Get(Inserted(UsersSchema, data, nextId, now), EmailColumn) == Null;
    CreateIntegrityError(UsersSchema, users, nextId, data, now);
    assert CreateUserSpec(users, nextId, user, d, salt, now) == CreateSpec(UsersSchema, users, nextId, data, now);
  }

  /** Adding a row that holds no refresh token keeps every stored token bound. */
  lemma AddTokenlessRow(users: map<int, Row>, k: int, row: Row)
    requires TokensBound(users) && k !in users && Get(row, RefreshTokenColumn) == Null
    ensures TokensBound(users[k := row])
  {
  }

  /**
   * A create that gives no refresh token, into a table where that column has
   * no default, keeps every stored token bound.
   */
  lemma CreateKeepsTokensBound(schema: Schema, users: map<int, Row>, nextId: int, data: Dict, now: int)
    requires ExtendsBase(schema) && WellFormed(schema, users) && TokensBound(users)
    requires RefreshTokenColumn in schema.types && RefreshTokenColumn !in schema.defaults
    requires NotGiven(data, RefreshTokenColumn)
    ensures TokensBound(CreateSpec(schema, users, nextId, data, now).rows)
  {
    var o := CreateSpec(schema, users, nextId, data, now);
    if o.result.Ok? {
      CreatedRowDefault(schema, users, nextId, data, now, RefreshTokenColumn);
      var k := CreatedKey(schema, users, nextId, data, now);
      AddTokenlessRow(users, k, o.result.value);
    } else {
      CreateAddsOneRow(schema, users, nextId, data, now);
    }
  }

  /** A registration never stores a refresh token, so it keeps every stored token bound. */
  lemma RegisterKeepsTokensBound(users: map<int, Row>, nextId: int, user: UserCreate, d: Auth.Draws, salt: Salt, now: int)
    requires Auth.ValidDraws(d) && WellFormed(UsersSchema, users) && TokensBound(users)
    ensures WellFormed(UsersSchema, CreateUserSpec(users, nextId, user, d, salt, now).rows)
    ensures TokensBound(CreateUserSpec(users, nextId, user, d, salt, now).rows)
  {
    UsersSchemaExtendsBase();
    var data := UserData(user, Auth.HashPassword(user.password, d, salt));
    assert CreateUserSpec(users, nextId, user, d, salt, now) == CreateSpec(UsersSchema, users, nextId, data, now);
    CreateAddsOneRow(UsersSchema, users, nextId, data, now);
    CreateKeepsTokensBound(UsersSchema, users, nextId, data, now);
  }

  // ---------------------------------------------------------------- the service

  class UsersService {
    const repository: Table
    const cfg: Auth.AuthConfig

    ghost predicate Valid()
      reads this, repository
    {
      repository.Valid() && repository.schema == UsersSchema
    }

    constructor (repository: Table, cfg: Auth.AuthConfig)
      requires repository.Valid() && repository.schema == UsersSchema
      ensures Valid() && this.repository == repository && this.cfg == cfg
    {
      this.repository := repository;
      this.cfg := cfg;
    }

    /** `get_all_users()`. */
    method GetAllUsers() returns (r: map<int, Row>)
      ensures r == repository.rows
    {
      r := repository.All();
    }

    /** `create_user(user_data)`; the random draws and the salt of the hash are parameters. */
    method CreateUser(user: UserCreate, d: Auth.Draws, salt: Salt, now: int) returns (r: Result<Row>)
      requires Valid() && Auth.ValidDraws(d)
      modifies repository, repository.session
      ensures Valid()
      ensures var o := CreateUserSpec(old(repository.rows), old(repository.nextId), user, d, salt, now);
        r == o.result && repository.rows == o.rows && repository.nextId == o.nextId
    {
      var hash := Auth.HashPassword(user.password, d, salt);
      r := repository.Create(UserData(user, hash), now);
    }

    /** `refresh(refresh_token)`: reads only. */
    method Refresh(token: Value, now: int) returns (r: Result<AccessInfo>)
      requires Valid()
      ensures r == RefreshSpec(repository.rows, token, now, cfg)
    {
      var found := GetUserByRefreshToken(repository.rows, token);
      if found.Err? {
        return Err(found.error);
      }
      var u := found.value;
      StoredUnderOwnId(UsersSchema, repository.rows, u);
      StoredUser(repository.rows, KeyOf(u));
      var access := Auth.CreateAccessToken(UserClaims(u), None, now, cfg);
      if access.Err? {
        return Err(access.error);
      }
      r := Ok(AccessInfo(access.value, Bearer));
    }

    /** `login(form)`. */
    method Login(form: LoginForm, now: int) returns (r: Result<TokenPair>)
      requires Valid()
      modifies repository, repository.session
      ensures Valid()
      ensures var o := LoginSpec(old(repository.rows), form, now, cfg);
        r == o.result && repository.rows == o.users
      ensures repository.nextId == old(repository.nextId)
    {
      var found := GetUserByLogin(repository.rows, form.username);
      if found.None? {
        return Err(NotFound());
      }
      var u := found.value;
      StoredUnderOwnId(UsersSchema, repository.rows, u);
      StoredUser(repository.rows, KeyOf(u));
      var matches := VerifyPassword(form.password, Get(u, PasswordColumn).s);
      if matches.Err? {
        return Err(matches.error);
      }
      if !matches.value {
        return Err(WrongPassword());
      }
      var claims := UserClaims(u);
      var access := Auth.CreateAccessToken(claims, None, now, cfg);
      if access.Err? {
        return Err(access.error);
      }
      var refresh := Auth.CreateRefreshToken(claims, now, cfg).value;
      var _, _ := repository.Update(u, [(RefreshTokenColumn, Tok(refresh))], now);
      r := Ok(TokenPair(access.value, refresh, Bearer));
    }
  }
}
