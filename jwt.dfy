/**
 * The session token that `/login` issues with `jwt.sign`, as an abstract
 * signed value: its claims and the key it was signed with.  The encoding
 * (header, base64url, HMAC) is not modelled; `Verify` is how a holder of a
 * key reads a token back, and states what signing guarantees.
 */
module Jwt {
  import opened Wrappers

  /** `expiresIn: '1h'`, in seconds. */
  const Lifetime: int := 3600

  /** The payload `{id, username}` plus the `iat` and `exp` claims the library adds. */
  datatype Claims = Claims(id: int, username: string, iat: int, exp: int)

  datatype Token = Token(claims: Claims, key: string)

  /** `jwt.sign` refuses a missing or empty secret ("secretOrPrivateKey must have a value"). */
  predicate UsableSecret(secret: Option<string>)
  {
    secret.Some? && secret.value != ""
  }

  /**
   * `jwt.sign({id, username}, secret, {expiresIn: '1h'})` at clock time `now`
   * (whole seconds since the epoch); `None` when the library throws.
   */
  function Sign(secret: Option<string>, id: int, username: string, now: int): (r: Option<Token>)
    ensures r.Some? <==> UsableSecret(secret)
    ensures r.Some? ==> r.value.claims.exp == r.value.claims.iat + Lifetime
  {
    if UsableSecret(secret) then Some(Token(Claims(id, username, now, now + Lifetime), secret.value))
    else None
  }

  /**
   * Reading a token back with `secret` at time `now`: the claims, when the
   * token was signed with that secret and has not yet expired.
   */
  function Verify(token: Token, secret: string, now: int): (r: Option<Claims>)
    ensures r.Some? ==> r.value == token.claims && now < token.claims.exp
    ensures r.Some? ==> token.key == secret
  {
    if token.key == secret && now < token.claims.exp then Some(token.claims) else None
  }

  /**
   * A signed token yields exactly the claims `{id, username}` with a one-hour
   * validity to whoever holds the signing secret, during that hour only, and
   * nothing to a holder of any other key.
   */
  lemma SignThenVerify(secret: Option<string>, id: int, username: string, now: int, key: string, later: int)
    requires UsableSecret(secret)
    ensures Verify(Sign(secret, id, username, now).value, key, later) ==
            if key == secret.value && later < now + Lifetime
            then Some(Claims(id, username, now, now + Lifetime))
            else None
  {
  }
}
