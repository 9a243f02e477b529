// internal/auth/token.go and the acceptance side in internal/api/middleware/auth.go.

module Tokens {
  import opened Options
  import opened AuthTypes

  /** jwt.NewNumericDate keeps whole seconds only. */
  function NumericDate(t: Time): (d: Time)
    ensures t - SECOND < d <= t && d % SECOND == 0
  {
    t - t % SECOND
  }

  function Sign(lib: Library, claims: Claims): Token {
    Token(claims, lib.mac(claims))
  }

  predicate Verifies(lib: Library, token: Token) {
    token.mac == lib.mac(token.claims)
  }

  /** Signature, expiry (strictly before exp) and the subject check. */
  predicate Accepts(lib: Library, token: Token, now: Time) {
    && Verifies(lib, token)
    && now < token.claims.expiresAt
    && token.claims.subject.Some?
  }

  function Parse(lib: Library, token: Token, now: Time): Option<Claims> {
    if Accepts(lib, token, now) then Some(token.claims) else None
  }

  function IssueSessionToken(lib: Library, id: Id, email: string, role: UserRole, perms: seq<Permission>,
                             now: Time, ttl: Time): Token {
    Sign(lib, Claims(Some(id), id, email, Some(role), perms, PurposeSession, NumericDate(now), NumericDate(now + ttl)))
  }

  function IssueMfaToken(lib: Library, id: Id, now: Time, ttl: Time): Token {
    Sign(lib, Claims(Some(id), id, "", None, [], PurposeMfa, NumericDate(now), NumericDate(now + ttl)))
  }

  function IssuePurposeToken(lib: Library, id: Id, email: string, purpose: Purpose, now: Time, ttl: Time): Token {
    Sign(lib, Claims(Some(id), id, email, None, [], purpose, NumericDate(now), NumericDate(now + ttl)))
  }

  /** requirePurpose: the claims put in the request context, or None for 401. */
  function RequirePurpose(lib: Library, token: Token, expected: Purpose, now: Time): Option<Claims> {
    var claims := Parse(lib, token, now);
    if claims.None? || claims.value.purpose != expected then None
    else if expected == PurposeSession && claims.value.role.None? then None
    else claims
  }

  /** What an issuer writes, the parser gives back, from the moment of issue until the truncated expiry
      and not after it; a token altered anywhere is refused unless its HMAC happens to fit. */
  lemma IssuedTokenLifetime(lib: Library, id: Id, email: string, purpose: Purpose, now: Time, ttl: Time, at: Time)
    ensures var t := IssuePurposeToken(lib, id, email, purpose, now, ttl);
            && (Parse(lib, t, at) == Some(t.claims) <==> at < NumericDate(now + ttl))
            && (at <= now + ttl - SECOND ==> Parse(lib, t, at).Some?)
            && (at >= now + ttl ==> Parse(lib, t, at).None?)
            && forall forged: Token :: forged.claims == t.claims && forged != t ==> Parse(lib, forged, at).None?
  {
  }
}
