/**
 * The user request and response bodies: `UserCreate`, whose email is lower-cased
 * by a field validator, and the `UserRead` projection.
 */
module UserSchema {
  import opened Wrappers
  import opened Text

  /** The body of `POST /register`, after validation. */
  datatype UserCreate = UserCreate(name: string, email: Option<string>, password: string)

  /** The `email_to_lower` validator. */
  function EmailToLower(v: Option<string>): (r: Option<string>)
    ensures r.None? <==> v.None?
    ensures r.Some? ==> |r.value| == |v.value| && forall i :: 0 <= i < |v.value| ==> r.value[i] == LowerChar(v.value[i])
  {
    if v.Some? then Some(Lower(v.value)) else v
  }

  /** Validating twice is validating once. */
  lemma EmailToLowerIdempotent(v: Option<string>)
    ensures EmailToLower(EmailToLower(v)) == EmailToLower(v)
  {
    if v.Some? {
      LowerIdempotent(v.value);
    }
  }

  /** Building `UserCreate` runs the validator on `email`; `name` and `password` are kept as sent. */
  function NewUserCreate(name: string, email: Option<string>, password: string): (u: UserCreate)
    ensures u.name == name && u.password == password && u.email == EmailToLower(email)
  {
    UserCreate(name, EmailToLower(email), password)
  }

  /** An email that is already lower case passes the validator unchanged. */
  lemma LowerEmailUnchanged(email: string)
    requires Lower(email) == email
    ensures NewUserCreate("", Some(email), "").email == Some(email)
  {
  }

  /** The response body of a user: name, email and the active flag, nothing else. */
  datatype UserRead = UserRead(name: string, email: Option<string>, active: bool)
}
