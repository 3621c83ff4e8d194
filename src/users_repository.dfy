/**
 * The two queries of `UsersRepository`: a user by login (name first, then
 * email) and a user by stored refresh token. Both are reads of the committed
 * user rows. `result.first()` on a query without `ORDER BY` is taken to be the
 * matching row with the lowest id.
 */
module UsersRepository {
  import opened Wrappers
  import opened Errors
  import opened Text
  import opened Records
  import opened UserModel

  /** `login.strip().lower()`. */
  function LoginKey(login: string): (k: string)
    ensures |k| <= |login|
    ensures Lower(Strip(k)) == k
  {
    LowerStrip(Strip(login));
    StripIdempotent(login);
    Lower(Strip(login))
  }

  /** `func.lower(column) == key` holds for row `r`. */
  predicate LowerEquals(r: Row, column: string, key: string) {
    Get(r, column).Str? && Lower(Get(r, column).s) == key
  }

  lemma {:induction false} LeastKey(ks: set<int>) returns (m: int)
    requires ks != {}
    ensures m in ks && forall j :: j in ks ==> m <= j
    decreases |ks|
  {
    if forall y :: y !in ks {
      assert false;
    }
    var x :| x in ks;
    if ks == {x} {
      m := x;
    } else {
      var rest := ks - {x};
      var r := LeastKey(rest);
      m := if x < r then x else r;
      forall j | j in ks
        ensures m <= j
      {
        if j != x {
          assert j in rest;
        }
      }
    }
  }

  lemma MinExists(ks: set<int>)
    requires ks != {}
    ensures exists m :: m in ks && forall j :: j in ks ==> m <= j
  {
    var m := LeastKey(ks);
  }

  /** The least key of a non-empty set. */
  function MinKey(ks: set<int>): (m: int)
    requires ks != {}
    ensures m in ks && forall j :: j in ks ==> m <= j
  {
    MinExists(ks);
    var m :| m in ks && forall j :: j in ks ==> m <= j;
    m
  }

  /** `select(User).where(func.lower(column) == key)` then `.first()`. */
  function FirstWhere(users: map<int, Row>, column: string, key: string): (u: Option<Row>)
    ensures u.None? <==> forall k :: k in users ==> !LowerEquals(users[k], column, key)
    ensures u.Some? ==> exists k :: k in users && users[k] == u.value && LowerEquals(u.value, column, key)
                                    && forall j :: j in users && LowerEquals(users[j], column, key) ==> k <= j
  {
    var ks := set k | k in users && LowerEquals(users[k], column, key);
    assert forall k :: k in users ==> (k in ks <==> LowerEquals(users[k], column, key));
    if ks == {} then None else Some(users[MinKey(ks)])
  }

  /**
   * `get_user_by_login(login)`: the user whose lower-cased name equals the
   * stripped, lower-cased login; when there is none, the user whose email does;
   * `None` when neither matches.
   */
  function GetUserByLogin(users: map<int, Row>, login: string): (u: Option<Row>)
    ensures u.None? <==> forall k :: k in users ==>
              !LowerEquals(users[k], NameColumn, LoginKey(login)) && !LowerEquals(users[k], EmailColumn, LoginKey(login))
    ensures u.Some? ==> exists k :: k in users && users[k] == u.value
    ensures (exists k :: k in users && LowerEquals(users[k], NameColumn, LoginKey(login))) ==>
              u.Some? && LowerEquals(u.value, NameColumn, LoginKey(login))
    ensures (forall k :: k in users ==> !LowerEquals(users[k], NameColumn, LoginKey(login))) && u.Some? ==>
              LowerEquals(u.value, EmailColumn, LoginKey(login))
  {
    var byName := FirstWhere(users, NameColumn, LoginKey(login));
    if byName.Some? then byName else FirstWhere(users, EmailColumn, LoginKey(login))
  }

  /** Two logins with the same key find the same user. */
  lemma SameKeySameUser(users: map<int, Row>, a: string, b: string)
    requires LoginKey(a) == LoginKey(b)
    ensures GetUserByLogin(users, a) == GetUserByLogin(users, b)
  {
  }

  /** The login is matched regardless of case. */
  lemma LoginIgnoresCase(users: map<int, Row>, login: string)
    ensures GetUserByLogin(users, Lower(login)) == GetUserByLogin(users, login)
  {
    LowerStrip(login);
    SameKeySameUser(users, Lower(login), login);
  }

  /** The login is matched regardless of surrounding whitespace. */
  lemma LoginIgnoresSpaces(users: map<int, Row>, login: string)
    ensures GetUserByLogin(users, Strip(login)) == GetUserByLogin(users, login)
  {
    StripIdempotent(login);
    SameKeySameUser(users, Strip(login), login);
  }

  /** Lower-casing and stripping commute. */
  lemma LowerStrip(s: string)
    ensures Lower(Strip(Lower(s))) == Lower(Strip(s))
  {
    LowerStripLeft(s);
    LowerStripRight(StripLeft(s));
    LowerIdempotent(Strip(s));
  }

  /** Lower-casing changes no whitespace character and makes none. */
  lemma LowerCharSpace(c: char)
    ensures IsSpace(LowerChar(c)) <==> IsSpace(c)
  {
  }

  lemma {:induction false} LowerStripLeft(s: string)
    ensures StripLeft(Lower(s)) == Lower(StripLeft(s))
    decreases |s|
  {
    if |s| > 0 {
      LowerCharSpace(s[0]);
      assert Lower(s)[1..] == Lower(s[1..]);
      if IsSpace(s[0]) {
        LowerStripLeft(s[1..]);
      }
    }
  }

  lemma {:induction false} LowerStripRight(s: string)
    ensures StripRight(Lower(s)) == Lower(StripRight(s))
    decreases |s|
  {
    if |s| > 0 {
      LowerCharSpace(s[|s| - 1]);
      assert Lower(s)[..|s| - 1] == Lower(s[..|s| - 1]);
      if IsSpace(s[|s| - 1]) {
        LowerStripRight(s[..|s| - 1]);
      }
    }
  }

  /**
   * `get_user_by_refresh_token(token)`: a user whose stored refresh token equals
   * `token`, else `NotFoundInDBError`. A `None` argument compares with `== None`,
   * which SQL evaluates as `IS NULL`.
   */
  function GetUserByRefreshToken(users: map<int, Row>, token: Value): (r: Result<Row>)
    ensures r.Ok? ==> (exists k :: k in users && users[k] == r.value) && Get(r.value, RefreshTokenColumn) == token
    ensures r.Err? <==> forall k :: k in users ==> Get(users[k], RefreshTokenColumn) != token
    ensures r.Err? ==> r.error == NotFound()
  {
    var ks := set k | k in users && Get(users[k], RefreshTokenColumn) == token;
    assert forall k :: k in users ==> (k in ks <==> Get(users[k], RefreshTokenColumn) == token);
    if ks == {} then Err(NotFound()) else Ok(users[MinKey(ks)])
  }

  /**
   * With a `None` token the lookup finds a user who never logged in, whenever
   * one exists.
   */
  lemma NullTokenFindsUserWithoutToken(users: map<int, Row>, k: int)
    requires k in users && Get(users[k], RefreshTokenColumn) == Null
    ensures GetUserByRefreshToken(users, Null).Ok?
    ensures Get(GetUserByRefreshToken(users, Null).value, RefreshTokenColumn) == Null
  {
  }
}
