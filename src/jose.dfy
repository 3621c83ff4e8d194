/**
 * JSON Web Tokens as the `jose` library signs and checks them (RFC 7519),
 * abstracted: a token either carries its header algorithm, its claims and the
 * key it was signed with, or is text that does not parse as a token at all.
 */
module Jose {

  datatype ClaimValue = Text(s: string) | Number(n: int)

  type Claims = map<string, ClaimValue>

  const ExpClaim := "exp"

  datatype Token = Signed(alg: string, claims: Claims, key: string) | Malformed(text: string)

  /** What `jwt.decode` returns or raises. */
  datatype Decoded = Valid(claims: Claims) | Expired | Invalid(reason: string)

  /** `jwt.encode(claims, key, algorithm=alg)`. */
  function Encode(claims: Claims, key: string, alg: string): (t: Token)
    ensures t.Signed? && t.claims == claims && t.key == key && t.alg == alg
  {
    Signed(alg, claims, key)
  }

  /**
   * `jwt.decode(token, key, algorithms=[alg])` at time `now` (seconds): the
   * header algorithm must be the allowed one, the signature must verify, `exp`
   * must be an integer, and the token is expired when `exp < now`.
   */
  function Decode(t: Token, key: string, alg: string, now: int): (d: Decoded)
    ensures d.Valid? ==> t.Signed? && t.alg == alg && t.key == key && d.claims == t.claims
    ensures d.Valid? && ExpClaim in d.claims ==> d.claims[ExpClaim].Number? && d.claims[ExpClaim].n >= now
    ensures d.Expired? <==> t.Signed? && t.alg == alg && t.key == key && ExpClaim in t.claims
                            && t.claims[ExpClaim].Number? && t.claims[ExpClaim].n < now
  {
    match t
    case Malformed(_) => Invalid("Not enough segments")
    case Signed(a, claims, k) =>
      if a != alg then Invalid("The specified alg value is not allowed")
      else if k != key then Invalid("Signature verification failed.")
      else if ExpClaim in claims && !claims[ExpClaim].Number? then
        Invalid("Expiration Time claim (exp) must be an integer.")
      else if ExpClaim in claims && claims[ExpClaim].n < now then Expired
      else Valid(claims)
  }

  /**
   * A token issued with expiry `exp` decodes to its own claims up to and
   * including second `exp`, and is expired afterwards.
   */
  lemma EncodeDecode(claims: Claims, key: string, alg: string, exp: int, now: int)
    requires ExpClaim in claims && claims[ExpClaim] == Number(exp)
    ensures now <= exp ==> Decode(Encode(claims, key, alg), key, alg, now) == Valid(claims)
    ensures now > exp ==> Decode(Encode(claims, key, alg), key, alg, now) == Expired
  {
  }

  /** A token signed with another key never decodes. */
  lemma ForeignKeyRejected(claims: Claims, key: string, other: string, alg: string, now: int)
    requires key != other
    ensures Decode(Encode(claims, other, alg), key, alg, now).Invalid?
  {
  }
}
