/**
 * Token issuing, password generation and hashing, and `get_me`, the check
 * every protected endpoint runs on its bearer token. The clock is a parameter
 * (`now`, UTC seconds), as are the random draws and the host's UTC offset.
 */
module Auth {
  import opened Wrappers
  import opened Errors
  import opened Text
  import opened Jose
  import opened Records
  import opened DbErrors
  import UserModel

  /**
   * `Settings.auth`. The access-token lifetime is read from the environment as
   * a string and converted with `int()` where it is used.
   */
  datatype AuthConfig = AuthConfig(secretKey: string, algorithm: string, accessTokenExpireMinutes: string)

  /** `timedelta(days=7)`, in seconds. */
  const RefreshTokenLifetime := 7 * 24 * 60 * 60

  /** The `exp` of a token issued at `now`: a non-zero delta is used as given, else the configured minutes. */
  function Expiry(expiresDelta: Option<int>, now: int, cfg: AuthConfig): (r: Result<int>)
    ensures expiresDelta.Some? && expiresDelta.value != 0 ==> r == Ok(now + expiresDelta.value)
    ensures r.Err? <==> (expiresDelta.None? || expiresDelta.value == 0) && ParseInt(cfg.accessTokenExpireMinutes).None?
    ensures r.Err? ==> r.error == Builtin("ValueError")
  {
    if expiresDelta.Some? && expiresDelta.value != 0 then Ok(now + expiresDelta.value)
    else
      match ParseInt(cfg.accessTokenExpireMinutes)
      case Some(minutes) => Ok(now + minutes * 60)
      case None => Err(Builtin("ValueError"))
  }

  /**
   * `create_access_token(data, expires_delta)`: the data's claims with `exp`
   * added (replacing any `exp` in the data), signed with the configured key and
   * algorithm.
   */
  function CreateAccessToken(data: Claims, expiresDelta: Option<int>, now: int, cfg: AuthConfig): (r: Result<Token>)
    ensures r.Ok? <==> Expiry(expiresDelta, now, cfg).Ok?
    ensures r.Ok? ==> r.value.Signed? && r.value.alg == cfg.algorithm && r.value.key == cfg.secretKey
    ensures r.Ok? ==> r.value.claims.Keys == data.Keys + {ExpClaim}
    ensures r.Ok? ==> forall c :: c in data && c != ExpClaim ==> r.value.claims[c] == data[c]
    ensures r.Ok? ==> r.value.claims[ExpClaim] == Number(Expiry(expiresDelta, now, cfg).value)
    ensures r.Err? ==> r.error == Builtin("ValueError")
  {
    match Expiry(expiresDelta, now, cfg)
    case Ok(exp) => Ok(Encode(data[ExpClaim := Number(exp)], cfg.secretKey, cfg.algorithm))
    case Err(e) => Err(e)
  }

  /** The expiry arithmetic: a zero delta counts as no delta, and the minutes are converted to seconds. */
  lemma ExpiryRule(expiresDelta: Option<int>, now: int, cfg: AuthConfig)
    ensures expiresDelta.Some? && expiresDelta.value != 0 ==> Expiry(expiresDelta, now, cfg) == Ok(now + expiresDelta.value)
    ensures expiresDelta == Some(0) ==> Expiry(expiresDelta, now, cfg) == Expiry(None, now, cfg)
    ensures Expiry(None, now, cfg).Ok? <==> ParseInt(cfg.accessTokenExpireMinutes).Some?
    ensures Expiry(None, now, cfg).Ok? ==>
              Expiry(None, now, cfg).value == now + ParseInt(cfg.accessTokenExpireMinutes).value * 60
  {
  }

  /** `create_refresh_token(data)`: an access token that lives seven days. */
  function CreateRefreshToken(data: Claims, now: int, cfg: AuthConfig): (r: Result<Token>)
    ensures r.Ok? && r.value.Signed? && ExpClaim in r.value.claims
    ensures r.value.claims[ExpClaim] == Number(now + RefreshTokenLifetime)
  {
    CreateAccessToken(data, Some(RefreshTokenLifetime), now, cfg)
  }

  /**
   * An issued token decodes, under the configuration it was issued with, to
   * exactly its claims until its `exp`, and is expired afterwards.
   */
  lemma IssuedTokenLifetime(data: Claims, expiresDelta: Option<int>, now: int, cfg: AuthConfig, later: int)
    requires CreateAccessToken(data, expiresDelta, now, cfg).Ok?
    ensures var t := CreateAccessToken(data, expiresDelta, now, cfg).value;
      var exp := Expiry(expiresDelta, now, cfg).value;
      && (later <= exp ==> Decode(t, cfg.secretKey, cfg.algorithm, later) == Valid(t.claims))
      && (later > exp ==> Decode(t, cfg.secretKey, cfg.algorithm, later) == Expired)
  {
    var t := CreateAccessToken(data, expiresDelta, now, cfg).value;
    EncodeDecode(t.claims, cfg.secretKey, cfg.algorithm, Expiry(expiresDelta, now, cfg).value, later);
  }

  // ---------------------------------------------------------------- passwords

  /** `string.ascii_letters + string.digits + "!@#$%^&*()"`. */
  const PasswordCharacters := "abcdefghijklmnopqrstuvwxyzABCDEFGHIJKLMNOPQRSTUVWXYZ0123456789!@#$%^&*()"

  /** The random draws of one `password_generator()` call: `randint(8, 12)`, then one `choice` index per position. */
  datatype Draws = Draws(length: int, picks: seq<int>)

  predicate ValidDraws(d: Draws) {
    && 8 <= d.length <= 12
    && |d.picks| == d.length
    && forall i :: 0 <= i < |d.picks| ==> 0 <= d.picks[i] < |PasswordCharacters|
  }

  /** `password_generator()`. */
  function PasswordGenerator(d: Draws): (p: string)
    requires ValidDraws(d)
    ensures 8 <= |p| <= 12
    ensures forall i :: 0 <= i < |p| ==> p[i] in PasswordCharacters
  {
    seq(d.length, i requires 0 <= i < d.length => PasswordCharacters[d.picks[i]])
  }

  /** Where `c` sits in `s`. */
  function IndexOf(s: string, c: char): (i: nat)
    requires c in s
    ensures i < |s| && s[i] == c
  {
    if s[0] == c then 0 else 1 + IndexOf(s[1..], c)
  }

  /** Conversely, every password of 8 to 12 allowed characters can be generated. */
  lemma PasswordGeneratorReaches(p: string)
    requires 8 <= |p| <= 12 && forall i :: 0 <= i < |p| ==> p[i] in PasswordCharacters
    ensures exists d :: ValidDraws(d) && PasswordGenerator(d) == p
  {
    var picks := seq(|p|, i requires 0 <= i < |p| => IndexOf(PasswordCharacters, p[i]));
    var d := Draws(|p|, picks);
    assert ValidDraws(d);
    assert PasswordGenerator(d) == p;
  }

  /**
   * `hash_password(password)`: an empty password is replaced by a generated
   * one, which is hashed instead.
   */
  function HashPassword(password: string, d: Draws, salt: UserModel.Salt): (h: string)
    requires ValidDraws(d)
    ensures password != "" ==> UserModel.VerifyPassword(password, h) == Ok(true)
    ensures password == "" ==> UserModel.VerifyPassword(PasswordGenerator(d), h) == Ok(true)
    ensures password == "" ==> UserModel.VerifyPassword(password, h) == Ok(false)
    ensures h != password
  {
    var p := if password == "" then PasswordGenerator(d) else password;
    UserModel.VerifyOwnHash(p, salt);
    UserModel.HashIsNotPlaintext(p, salt);
    if password == "" then
      UserModel.VerifyOtherPassword(password, p, salt);
      UserModel.HashPassword(p, salt)
    else
      UserModel.HashPassword(p, salt)
  }

  // ---------------------------------------------------------------- get_me

  const UserIdClaim := "user_id"

  /** `int(payload.get('user_id'))`; `None` where the conversion raises. */
  function UserIdOf(payload: Claims): (r: Option<int>)
    ensures r.Some? ==> UserIdClaim in payload
    ensures UserIdClaim in payload && payload[UserIdClaim].Number? ==> r == Some(payload[UserIdClaim].n)
    ensures forall n :: UserIdClaim in payload && payload[UserIdClaim] == Text(IntToString(n)) ==> r == Some(n)
  {
    assert forall n :: ParseInt(IntToString(n)) == Some(n) by {
      forall n ensures ParseInt(IntToString(n)) == Some(n) {
        IntToStringRoundTrip(n);
      }
    }
    if UserIdClaim !in payload then None
    else
      match payload[UserIdClaim]
      case Text(s) => ParseInt(s)
      case Number(n) => Some(n)
  }

  /** The `HTTPException` the `try` block of `get_me` turns every exception into. */
  const Unexpected := Http(500, "unexpected")

  /**
   * The `try` block of `get_me`: load the user named by the token and refuse a
   * deactivated one. The 401 raised for a deactivated user, the `AttributeError`
   * of `user.active` on a missing user, and the `TypeError` or `ValueError` of
   * `int()` on a missing or malformed `user_id` are all caught and become 500.
   */
  function LoadUser(payload: Claims, users: map<int, Row>): (r: Result<Row>)
    ensures r.Ok? <==> UserIdOf(payload).Some? && UserIdOf(payload).value in users
                       && Get(users[UserIdOf(payload).value], UserModel.ActiveColumn) != Bool(false)
    ensures r.Ok? ==> r.value == users[UserIdOf(payload).value]
    ensures r.Err? ==> r.error == Unexpected
  {
    match UserIdOf(payload)
    case None => Err(Unexpected)
    case Some(id) =>
      if id !in users then Err(Unexpected)
      else if Get(users[id], UserModel.ActiveColumn) == Bool(false) then Err(Unexpected)
      else Ok(users[id])
  }

  /**
   * The microseconds `datetime.utcnow()` carries past the whole second. `jwt.decode`
   * reads the clock in whole seconds; the second expiry check reads it with these.
   */
  type Micros = m: int | 0 <= m < 1_000_000

  /**
   * `exp` is not before `ts = datetime.timestamp(datetime.utcnow())`, which reads
   * the UTC wall clock `now` seconds and `micros` microseconds as local time on
   * a host `hostUtcOffset` seconds east of UTC; compared in microseconds.
   */
  predicate HostClockBefore(exp: int, now: int, micros: Micros, hostUtcOffset: int) {
    (now - hostUtcOffset) * 1_000_000 + micros <= exp * 1_000_000
  }

  /** The second expiry check, `payload.get("exp") and payload["exp"] < ts`. */
  predicate HostClockRejects(payload: Claims, now: int, micros: Micros, hostUtcOffset: int)
    ensures HostClockRejects(payload, now, micros, hostUtcOffset) ==>
              && ExpClaim in payload && payload[ExpClaim].Number?
              && payload[ExpClaim].n != 0 && payload[ExpClaim].n <= now - hostUtcOffset
    ensures (&& ExpClaim in payload && payload[ExpClaim].Number? && payload[ExpClaim].n != 0
             && payload[ExpClaim].n < now - hostUtcOffset) ==> HostClockRejects(payload, now, micros, hostUtcOffset)
  {
    && ExpClaim in payload && payload[ExpClaim].Number?
    && payload[ExpClaim].n != 0
    && !HostClockBefore(payload[ExpClaim].n, now, micros, hostUtcOffset)
  }

  /** How `get_me` stands before its `try` block. */
  datatype Precheck = Rejected(error: Error) | Passed(payload: Claims)

  /** The checks of `get_me` before the user lookup, in order. */
  function CheckToken(token: Token, now: int, micros: Micros, hostUtcOffset: int, cfg: AuthConfig): (c: Precheck)
    ensures c.Passed? <==> && token != Malformed("")
                           && Decode(token, cfg.secretKey, cfg.algorithm, now).Valid?
                           && !HostClockRejects(Decode(token, cfg.secretKey, cfg.algorithm, now).claims, now, micros, hostUtcOffset)
    ensures c.Passed? ==> Decode(token, cfg.secretKey, cfg.algorithm, now) == Valid(c.payload)
    ensures c.Rejected? ==> c.error.Http? && c.error.status == 401
  {
    if token == Malformed("") then Rejected(Http(401, "Token not provided"))
    else
      match Decode(token, cfg.secretKey, cfg.algorithm, now)
      case Expired => Rejected(Http(401, "Token has expired"))
      case Invalid(reason) => Rejected(Http(401, "Invalid token: " + reason))
      case Valid(payload) =>
        if HostClockRejects(payload, now, micros, hostUtcOffset) then Rejected(Http(401, "Token expired"))
        else Passed(payload)
  }

  /** The outcome of `get_me`: the caller's user, or the `HTTPException` it raises. */
  function Authenticate(token: Token, users: map<int, Row>, now: int, micros: Micros, hostUtcOffset: int, cfg: AuthConfig): (r: Result<Row>)
    ensures r.Ok? ==> r.value in users.Values && Get(r.value, UserModel.ActiveColumn) != Bool(false)
    ensures r.Ok? ==> var c := CheckToken(token, now, micros, hostUtcOffset, cfg);
                      && c.Passed? && UserIdOf(c.payload).Some? && UserIdOf(c.payload).value in users
                      && r.value == users[UserIdOf(c.payload).value]
    ensures CheckToken(token, now, micros, hostUtcOffset, cfg).Rejected? ==>
              r == Err(CheckToken(token, now, micros, hostUtcOffset, cfg).error)
    ensures r.Err? ==> r.error.Http? && r.error.status in {401, 500}
  {
    match CheckToken(token, now, micros, hostUtcOffset, cfg)
    case Rejected(e) => Err(e)
    case Passed(payload) => LoadUser(payload, users)
  }

  /**
   * `get_me(token, session)`. The `finally` that closes the session belongs to
   * the `try` around the lookup, so the session is closed exactly on the paths
   * that reach the lookup.
   */
  method GetMe(token: Token, session: Session, users: map<int, Row>, now: int, micros: Micros, hostUtcOffset: int, cfg: AuthConfig)
    returns (r: Result<Row>)
    modifies session
    ensures r == Authenticate(token, users, now, micros, hostUtcOffset, cfg)
    ensures session.open == (old(session.open) && CheckToken(token, now, micros, hostUtcOffset, cfg).Rejected?)
    ensures session.rollbacks == old(session.rollbacks)
  {
    var c := CheckToken(token, now, micros, hostUtcOffset, cfg);
    if c.Rejected? {
      return Err(c.error);
    }
    r := LoadUser(c.payload, users);
    session.Close();
  }

  /**
   * A token signed with the configured key and algorithm, expired neither for
   * `jwt.decode` nor for the host clock, whose `user_id` names an active user,
   * gets that user.
   */
  lemma ValidTokenAuthenticates(token: Token, users: map<int, Row>, now: int, micros: Micros, hostUtcOffset: int, cfg: AuthConfig, id: int)
    requires token.Signed? && token.alg == cfg.algorithm && token.key == cfg.secretKey
    requires ExpClaim in token.claims && token.claims[ExpClaim].Number? && now <= token.claims[ExpClaim].n
    requires HostClockBefore(token.claims[ExpClaim].n, now, micros, hostUtcOffset)
    requires UserIdOf(token.claims) == Some(id) && id in users && Get(users[id], UserModel.ActiveColumn) == Bool(true)
    ensures Authenticate(token, users, now, micros, hostUtcOffset, cfg) == Ok(users[id])
  {
    EncodeDecode(token.claims, cfg.secretKey, cfg.algorithm, token.claims[ExpClaim].n, now);
    assert token == Encode(token.claims, cfg.secretKey, cfg.algorithm);
  }

  /** An empty bearer token is refused before anything is decoded. */
  lemma EmptyTokenRefused(users: map<int, Row>, now: int, micros: Micros, hostUtcOffset: int, cfg: AuthConfig)
    ensures Authenticate(Malformed(""), users, now, micros, hostUtcOffset, cfg) == Err(Http(401, "Token not provided"))
  {
  }

  /** An expired token gets 401 "Token has expired"; any other decoding failure 401 "Invalid token: " and the reason. */
  lemma DecodeFailures(token: Token, users: map<int, Row>, now: int, micros: Micros, hostUtcOffset: int, cfg: AuthConfig)
    requires token != Malformed("")
    ensures Decode(token, cfg.secretKey, cfg.algorithm, now) == Expired ==>
              Authenticate(token, users, now, micros, hostUtcOffset, cfg) == Err(Http(401, "Token has expired"))
    ensures Decode(token, cfg.secretKey, cfg.algorithm, now).Invalid? ==>
              Authenticate(token, users, now, micros, hostUtcOffset, cfg)
              == Err(Http(401, "Invalid token: " + Decode(token, cfg.secretKey, cfg.algorithm, now).reason))
  {
  }

  /**
   * A valid token naming a deactivated user, or a user that does not exist,
   * ends in 500 "unexpected", not in 401.
   */
  lemma DeactivatedOrMissingUserIsServerError(token: Token, users: map<int, Row>, now: int, micros: Micros, hostUtcOffset: int, cfg: AuthConfig)
    requires CheckToken(token, now, micros, hostUtcOffset, cfg).Passed?
    requires var id := UserIdOf(CheckToken(token, now, micros, hostUtcOffset, cfg).payload);
      id.Some? && (id.value !in users || Get(users[id.value], UserModel.ActiveColumn) == Bool(false))
    ensures Authenticate(token, users, now, micros, hostUtcOffset, cfg) == Err(Unexpected)
  {
  }

  /**
   * On a host at least one second east of UTC the second expiry check never
   * fires: after `jwt.decode` accepted the token, `get_me` only looks the user up.
   */
  lemma HostClockRedundantEastOfUtc(token: Token, users: map<int, Row>, now: int, micros: Micros, hostUtcOffset: int, cfg: AuthConfig)
    requires hostUtcOffset > 0 && token != Malformed("")
    requires Decode(token, cfg.secretKey, cfg.algorithm, now).Valid?
    ensures Authenticate(token, users, now, micros, hostUtcOffset, cfg)
         == LoadUser(Decode(token, cfg.secretKey, cfg.algorithm, now).claims, users)
  {
  }

  /**
   * On a host at UTC a token is refused with 401 "Token expired" during the
   * second after its `exp`, though `jwt.decode`, reading whole seconds, still
   * accepts it.
   */
  lemma HostClockRejectsAtUtc(token: Token, users: map<int, Row>, now: int, micros: Micros, cfg: AuthConfig)
    requires token.Signed? && token.alg == cfg.algorithm && token.key == cfg.secretKey
    requires ExpClaim in token.claims && token.claims[ExpClaim] == Number(now) && now != 0
    requires micros > 0
    ensures Decode(token, cfg.secretKey, cfg.algorithm, now).Valid?
    ensures Authenticate(token, users, now, micros, 0, cfg) == Err(Http(401, "Token expired"))
  {
  }

  /**
   * On a host west of UTC a token `jwt.decode` accepts is still refused with
   * 401 "Token expired" during the last `-hostUtcOffset` seconds of its life.
   */
  lemma HostClockRejectsWestOfUtc(token: Token, users: map<int, Row>, now: int, micros: Micros, hostUtcOffset: int, cfg: AuthConfig)
    requires hostUtcOffset < 0 && token.Signed? && token.alg == cfg.algorithm && token.key == cfg.secretKey
    requires ExpClaim in token.claims && token.claims[ExpClaim].Number?
    requires var exp := token.claims[ExpClaim].n; exp != 0 && now <= exp < now - hostUtcOffset
    ensures Decode(token, cfg.secretKey, cfg.algorithm, now).Valid?
    ensures Authenticate(token, users, now, micros, hostUtcOffset, cfg) == Err(Http(401, "Token expired"))
  {
  }
}
