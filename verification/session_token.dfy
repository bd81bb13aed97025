/** `generateJWT` (identical in `verify-otp` and `login`): an HS256 token
    whose `exp` claim is seven days after the current time, in whole seconds. */
module SessionToken {
  import opened Base
  import opened Records
  import opened Primitives

  const TokenLifetimeSeconds: int := 7 * 24 * 60 * 60

  /** A signed token: header, payload and signature (the base64url text form is djwt's). */
  datatype Jwt = Jwt(header: JoseHeader, claims: Claims, signature: seq<Byte>)

  /** `Math.floor(Date.now() / 1000) + 7 * 24 * 60 * 60`; Dafny's `/` by a
      positive divisor rounds down, like `Math.floor`. */
  function Expiry(nowMs: int): (exp: int)
    ensures 1000 * exp <= nowMs + 1000 * TokenLifetimeSeconds < 1000 * exp + 1000
  {
    nowMs / 1000 + TokenLifetimeSeconds
  }

  /** `create({ alg: "HS256", typ: "JWT" }, { userId, email, role, exp }, key)` */
  function Issue(c: Crypto, userId: string, email: string, role: Role, nowMs: int): (t: Jwt)
    ensures t.claims.userId == userId && t.claims.email == email && t.claims.role == role
    ensures Accepts(c, t, nowMs)
  {
    var header := JoseHeader("HS256", "JWT");
    var claims := Claims(userId, email, role, Expiry(nowMs));
    Jwt(header, claims, c.hs256(header, claims))
  }

  /** How a relying party checks a token: the HS256 signature matches and,
      per section 4.1.4 of RFC 7519, the current time is before `exp`. */
  predicate Accepts(c: Crypto, t: Jwt, atMs: int) {
    t.header.alg == "HS256" && t.signature == c.hs256(t.header, t.claims) && atMs < 1000 * t.claims.exp
  }

  /** A token issued at `nowMs` is accepted for seven days less at most one
      second, and never from seven days after issue on. */
  lemma IssuedTokenLifetime(c: Crypto, userId: string, email: string, role: Role, nowMs: int, atMs: int)
    ensures nowMs <= atMs < nowMs + 1000 * TokenLifetimeSeconds - 999 ==>
      Accepts(c, Issue(c, userId, email, role, nowMs), atMs)
    ensures atMs >= nowMs + 1000 * TokenLifetimeSeconds ==>
      !Accepts(c, Issue(c, userId, email, role, nowMs), atMs)
  {
  }
}
