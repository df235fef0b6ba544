/**
 * Password checking and bearer tokens, with the cryptography abstracted:
 * a bcrypt hash is a string in the modular crypt format and the comparison
 * itself is a parameter; a JWT is its subject, its `exp` claim (section
 * 4.1.4 of RFC 7519) and whether its signature verifies under the server key.
 */
module Auth {
  import opened Wrappers
  import opened Text

  predicate IsBcryptChar(c: char) {
    c == '.' || c == '/' || ('A' <= c <= 'Z') || ('a' <= c <= 'z') || IsDigit(c)
  }

  /**
   * A string bcrypt can check against: `$2a$`, `$2b$` or `$2y$`, a two-digit
   * cost, `$`, and 53 characters of salt and digest. On anything else
   * `bcrypt.checkpw` raises instead of answering.
   */
  predicate WellFormedHash(h: string) {
    && |h| == 60
    && h[0] == '$' && h[1] == '2' && (h[2] == 'a' || h[2] == 'b' || h[2] == 'y') && h[3] == '$'
    && IsDigit(h[4]) && IsDigit(h[5]) && h[6] == '$'
    && forall i :: 7 <= i < 60 ==> IsBcryptChar(h[i])
  }

  /**
   * `verify_password`: `checkpw` is bcrypt's comparison of a password with a
   * well-formed hash; a malformed hash raises inside bcrypt, and the handler
   * turns every exception into `false`.
   */
  function VerifyPassword(checkpw: (string, string) -> bool, plain: string, hashed: string): (ok: bool)
    ensures ok ==> WellFormedHash(hashed)
    ensures WellFormedHash(hashed) ==> (ok <==> checkpw(plain, hashed))
  {
    if WellFormedHash(hashed) then checkpw(plain, hashed) else false
  }

  /** Accounts created through OAuth store `""` as their hash: no password can match it. */
  lemma EmptyHashNeverVerifies(checkpw: (string, string) -> bool, plain: string)
    ensures !VerifyPassword(checkpw, plain, "")
  {
  }

  /** A decoded bearer token: `genuine` says the signature checks under the server secret. */
  datatype Token = Token(sub: string, exp: int, genuine: bool)

  /** `create_access_token({"sub": sub})` at time `now`: `exp` lies `ttlMinutes` minutes ahead. */
  function CreateAccessToken(sub: string, now: int, ttlMinutes: int): (t: Token)
    ensures t.genuine && t.sub == sub
    ensures t.exp - now == 60 * ttlMinutes
  {
    Token(sub, now + 60 * ttlMinutes, true)
  }

  /**
   * `verify_token` at time `now`: the subject when the signature verifies and
   * the token has not expired (python-jose rejects a token once `exp < now`),
   * nothing otherwise.
   */
  function VerifyToken(t: Token, now: int): (r: Option<string>)
    ensures r.Some? <==> t.genuine && now <= t.exp
    ensures r.Some? ==> r.value == t.sub
  {
    if t.genuine && now <= t.exp then Some(t.sub) else None
  }

  /** An issued token names its subject until its expiry and nothing afterwards. */
  lemma IssuedTokenLifetime(sub: string, issuedAt: int, ttlMinutes: int, now: int)
    ensures VerifyToken(CreateAccessToken(sub, issuedAt, ttlMinutes), now)
         == if now - issuedAt <= 60 * ttlMinutes then Some(sub) else None
  {
  }

  /** A token whose signature does not check never names a subject. */
  lemma ForgedTokenRejected(t: Token, now: int)
    requires !t.genuine
    ensures VerifyToken(t, now) == None
  {
  }
}
