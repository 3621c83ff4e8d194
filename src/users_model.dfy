/**
 * The `users` table: its columns, uniqueness and defaults, the bcrypt helpers
 * of the `User` class, and the cascade from a user to its tasks.
 */
module UserModel {
  import opened Wrappers
  import opened Errors
  import opened Records
  import opened TaskModel

  const NameColumn := "name"
  const EmailColumn := "email"
  const PasswordColumn := "password"
  const ActiveColumn := "active"
  const RefreshTokenColumn := "refresh_token"

  /** `class User(Base)`: `name` and `email` NOT NULL and UNIQUE, `active` defaulting to true, `refresh_token` nullable. */
  const UsersSchema := Schema(
    types := map[
      IdColumn := IntType, CreatedAtColumn := TimeType, UpdatedAtColumn := TimeType,
      NameColumn := TextType, EmailColumn := TextType, PasswordColumn := TextType,
      ActiveColumn := BoolType, RefreshTokenColumn := TokenType],
    notNull := {IdColumn, CreatedAtColumn, UpdatedAtColumn, NameColumn, EmailColumn, PasswordColumn, ActiveColumn},
    unique := {NameColumn, EmailColumn},
    defaults := map[ActiveColumn := Bool(true)],
    readOnly := {})

  lemma UsersSchemaExtendsBase()
    ensures ExtendsBase(UsersSchema)
  {
  }

  /** No two users share a name, and no two share an email. */
  lemma NamesAndEmailsUnique(users: map<int, Row>, k: int, j: int)
    requires WellFormed(UsersSchema, users) && k in users && j in users && k != j
    ensures users[k][NameColumn] != users[j][NameColumn]
    ensures users[k][EmailColumn] != users[j][EmailColumn]
  {
    UniqueColumn(UsersSchema, users, NameColumn, k, j);
    UniqueColumn(UsersSchema, users, EmailColumn, k, j);
  }

  /** Every stored user has a name, an email, a password hash and an active flag. */
  lemma StoredUser(users: map<int, Row>, k: int)
    requires WellFormed(UsersSchema, users) && k in users
    ensures users[k][NameColumn].Str? && users[k][EmailColumn].Str?
    ensures users[k][PasswordColumn].Str? && users[k][ActiveColumn].Bool?
    ensures users[k][RefreshTokenColumn] == Null || users[k][RefreshTokenColumn].Tok?
  {
    assert RowFits(UsersSchema, users[k]);
    assert Get(users[k], NameColumn) != Null && Get(users[k], EmailColumn) != Null;
    assert Get(users[k], PasswordColumn) != Null && Get(users[k], ActiveColumn) != Null;
  }

  // ---------------------------------------------------------------- bcrypt

  /** A bcrypt salt: 22 characters. */
  type Salt = s: string | |s| == 22 witness "0000000000000000000000"

  /** The version and cost prefix `gensalt()` produces. */
  const BcryptPrefix := "$2b$12$"
  const HeaderLength := 29

  /**
   * The digest part of a hash. It stands in for bcrypt's one-way function; the
   * model relies only on its being injective.
   */
  function Digest(password: string): string {
    password
  }

  /** `User.hash_password`: `hashpw(password, gensalt())`, the salt drawn at random. */
  function HashPassword(password: string, salt: Salt): (h: string)
    ensures |h| >= HeaderLength && h[..|BcryptPrefix|] == BcryptPrefix
  {
    BcryptPrefix + salt + Digest(password)
  }

  /**
   * `User.verify_password`: `checkpw(password, hashed)`; a string that is not a
   * bcrypt hash raises `ValueError`.
   */
  function VerifyPassword(password: string, hashed: string): (r: Result<bool>)
    ensures r.Err? <==> !(|hashed| >= HeaderLength && BcryptPrefix <= hashed)
    ensures r.Err? ==> r.error == Builtin("ValueError")
  {
    if |hashed| < HeaderLength || hashed[..|BcryptPrefix|] != BcryptPrefix then Err(Builtin("ValueError"))
    else Ok(hashed[HeaderLength..] == Digest(password))
  }

  /** A password verifies against its own hash, whatever the salt. */
  lemma VerifyOwnHash(password: string, salt: Salt)
    ensures VerifyPassword(password, HashPassword(password, salt)) == Ok(true)
  {
    var h := HashPassword(password, salt);
    assert h[HeaderLength..] == Digest(password);
  }

  /** Any other password is rejected. */
  lemma VerifyOtherPassword(password: string, other: string, salt: Salt)
    requires password != other
    ensures VerifyPassword(password, HashPassword(other, salt)) == Ok(false)
  {
    var h := HashPassword(other, salt);
    assert h[HeaderLength..] == Digest(other);
  }

  /** The stored hash never equals the plaintext. */
  lemma HashIsNotPlaintext(password: string, salt: Salt)
    ensures HashPassword(password, salt) != password
  {
    assert |HashPassword(password, salt)| > |password|;
  }

  // ---------------------------------------------------------------- cascade

  /** Every task's `user_id` names a stored user. */
  ghost predicate OwnersExist(tasks: map<int, Row>, users: map<int, Row>) {
    forall k :: k in tasks ==> Get(tasks[k], UserIdColumn).Int? && Get(tasks[k], UserIdColumn).i in users
  }

  datatype Tables = Tables(users: map<int, Row>, tasks: map<int, Row>)

  /** `session.delete(user)` with `cascade="all, delete-orphan"` on `User.tasks`. */
  function DeleteUser(users: map<int, Row>, tasks: map<int, Row>, userId: int): (t: Tables)
    ensures t.users.Keys == users.Keys - {userId}
    ensures forall k :: k in t.users ==> t.users[k] == users[k]
    ensures forall k :: k in t.tasks <==> k in tasks && Get(tasks[k], UserIdColumn) != Int(userId)
    ensures forall k :: k in t.tasks ==> t.tasks[k] == tasks[k]
  {
    Tables(users - {userId},
           map k | k in tasks && Get(tasks[k], UserIdColumn) != Int(userId) :: tasks[k])
  }

  /** The cascade removes exactly the user's tasks, so every remaining task still has its owner. */
  lemma DeleteUserKeepsOwners(users: map<int, Row>, tasks: map<int, Row>, userId: int)
    requires OwnersExist(tasks, users)
    ensures var t := DeleteUser(users, tasks, userId); OwnersExist(t.tasks, t.users)
  {
  }
}
