/** The claims side of JwtUtil: what a token says about whom and until when.
    Signing and parsing are left to the JWT library and are not part of this model. */
module Jwt {

  /** A token, represented by its claims and the key it is signed with. */
  datatype Token = Token(userName: string, issuedAtMs: int, expirationMs: int, signingKey: string)

  /** createToken: a "userName" claim, issued at the clock reading and expiring expireTimeMs later.
      The token names its subject and is expired exactly after the window has fully passed:
      at the instant issuedAt + window it still counts as live. */
  function CreateToken(userName: string, key: string, expireTimeMs: int, nowMs: int): (t: Token)
    ensures GetUserName(t) == userName && t.signingKey == key && t.issuedAtMs == nowMs
    ensures forall checkMs {:trigger IsExpired(t, checkMs)} :: IsExpired(t, checkMs) <==> checkMs > nowMs + expireTimeMs
  {
    Token(userName, nowMs, nowMs + expireTimeMs, key)
  }

  /** isExpired: the expiration lies strictly before the current instant. */
  predicate IsExpired(t: Token, nowMs: int) {
    t.expirationMs < nowMs
  }

  /** getUserName: the "userName" claim. */
  function GetUserName(t: Token): string {
    t.userName
  }
}
