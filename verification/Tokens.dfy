/** aegis/internal/domain/jwt.go: token pairs and their refreshing. */
module Tokens {
  import opened Text
  import opened Jwks

  datatype TokenType = AccessToken | RefreshToken

  /** Instants are seconds; the audience is the tenants of the roles. */
  datatype Claims = Claims(id: string, issuer: string, subject: string, audience: set<string>, tokenType: TokenType,
                           roles: map<string, string>, sessionId: string, authProvider: string,
                           issuedAt: int, notBefore: int, expiresAt: int)

  /** A token string: what it claims, and the header and signer it was signed with. */
  datatype Signed = Signed(claims: Claims, kid: string, signer: PublicKey)

  datatype Pair = Pair(access: Signed, refresh: Signed)

  function TokenOf(s: Signed): Token
  {
    Token("EdDSA", Some(s.kid), s.signer, s.claims.notBefore, s.claims.expiresAt)
  }

  class TokenManager {
    const keyManager: KeyManager
    const issuer: string
    const accessExpiration: int
    const refreshExpiration: int

    constructor (keyManager: KeyManager, issuer: string, accessExpiration: int, refreshExpiration: int)
      ensures this.keyManager == keyManager && this.issuer == issuer
      ensures this.accessExpiration == accessExpiration && this.refreshExpiration == refreshExpiration
    {
      this.keyManager, this.issuer := keyManager, issuer;
      this.accessExpiration, this.refreshExpiration := accessExpiration, refreshExpiration;
    }

    method Sign(claims: Claims) returns (token: Signed)
      ensures token.claims == claims
      ensures token.kid == keyManager.activeKey.kid && token.signer == keyManager.activeKey.publicKey
      ensures keyManager.Valid() ==>
        forall now :: AegisAccepts(keyManager.keys, TokenOf(token), now) <==> claims.notBefore <= now < claims.expiresAt
    {
      token := Signed(claims, keyManager.activeKey.kid, keyManager.activeKey.publicKey);
    }

    /** makeRefreshToken's claims. */
    function RefreshClaims(userId: string, sessionId: string, jti: string, authProvider: string, now: int): Claims
    {
      Claims(jti, issuer, userId, {}, RefreshToken, map[], sessionId, authProvider, now, now, now + refreshExpiration)
    }

    /** The claims of a first access token. */
    function AccessClaims(jti: string, userId: string, sessionId: string, authProvider: string,
        roles: map<string, string>, now: int): Claims
    {
      Claims(jti, issuer, userId, roles.Keys, AccessToken, roles, sessionId, authProvider,
             now, now, now + accessExpiration)
    }

    method GenerateTokenPair(jti: string, userId: string, sessionId: string, authProvider: string,
        roles: map<string, string>, now: int) returns (pair: Pair)
      requires keyManager.Valid()
      ensures pair.access.claims == AccessClaims(jti, userId, sessionId, authProvider, roles, now)
      ensures pair.refresh.claims == RefreshClaims(userId, sessionId, jti, authProvider, now)
      ensures var c := pair.access.claims;
        && c.tokenType == AccessToken && c.id == jti && c.issuer == issuer && c.subject == userId
        && c.roles == roles && c.audience == roles.Keys && c.sessionId == sessionId && c.authProvider == authProvider
        && c.issuedAt == now && c.notBefore == now && c.expiresAt == now + accessExpiration
      ensures var c := pair.refresh.claims;
        && c.tokenType == RefreshToken && c.id == jti && c.issuer == issuer && c.subject == userId
        && c.roles == map[] && c.audience == {} && c.sessionId == sessionId && c.authProvider == authProvider
        && c.issuedAt == now && c.notBefore == now && c.expiresAt == now + refreshExpiration
      ensures pair.access.kid == pair.refresh.kid == keyManager.activeKey.kid
      ensures pair.access.signer == pair.refresh.signer == keyManager.activeKey.publicKey
      ensures forall at ::
        AegisAccepts(keyManager.keys, TokenOf(pair.access), at) <==> now <= at < now + accessExpiration
      ensures forall at ::
        AegisAccepts(keyManager.keys, TokenOf(pair.refresh), at) <==> now <= at < now + refreshExpiration
    {
      var access := Sign(AccessClaims(jti, userId, sessionId, authProvider, roles, now));
      var refresh := Sign(RefreshClaims(userId, sessionId, jti, authProvider, now));
      return Pair(access, refresh);
    }

    /** ValidateToken: the claims of a token signed by a filed key, named by its kid, and timely. */
    method ValidateToken(alg: string, kid: Option<string>, signer: PublicKey, claims: Claims, now: int)
      returns (result: Option<Claims>)
      ensures result == None || result == Some(claims)
      ensures result.Some? <==>
        AegisAccepts(keyManager.keys, Token(alg, kid, signer, claims.notBefore, claims.expiresAt), now)
      ensures result.Some? <==>
        && alg == "EdDSA" && kid.Some? && kid.value != "" && kid.value in keyManager.keys
        && keyManager.keys[kid.value].publicKey == signer && claims.notBefore <= now < claims.expiresAt
    {
      if alg != "EdDSA" { return None; }
      if kid.None? || kid.value == "" { return None; }
      var key := keyManager.FindPublicKey(kid.value);
      if key.None? { return None; }
      if key.value != signer { return None; }
      if now < claims.notBefore || now >= claims.expiresAt { return None; }
      if claims.expiresAt < now { return None; }
      return Some(claims);
    }

    /** What RefreshToken puts into the pair it returns: the presented claims with new times, and a refresh token. */
    function Renewed(claims: Claims, now: int): (Claims, Claims)
    {
      (claims.(expiresAt := now + refreshExpiration, issuedAt := now, notBefore := now),
       RefreshClaims(claims.subject, claims.sessionId, claims.id, claims.authProvider, now))
    }

    /** RefreshToken: None is an error. */
    method Refresh(token: Signed, now: int) returns (pair: Option<Pair>)
      requires keyManager.Valid()
      ensures pair.Some? <==>
        AegisAccepts(keyManager.keys, TokenOf(token), now) && token.claims.tokenType == RefreshToken
      ensures pair.Some? ==> (pair.value.access.claims, pair.value.refresh.claims) == Renewed(token.claims, now)
      ensures pair.Some? <==>
        && token.claims.tokenType == RefreshToken && token.kid != "" && token.kid in keyManager.keys
        && keyManager.keys[token.kid].publicKey == token.signer
        && token.claims.notBefore <= now < token.claims.expiresAt
      ensures pair.Some? ==>
        var was, c := token.claims, pair.value.access.claims;
        && c.tokenType == RefreshToken && c.id == was.id && c.issuer == was.issuer && c.subject == was.subject
        && c.roles == was.roles && c.audience == was.audience
        && c.sessionId == was.sessionId && c.authProvider == was.authProvider
        && c.issuedAt == now && c.notBefore == now && c.expiresAt == now + refreshExpiration
      ensures pair.Some? ==>
        var was, c := token.claims, pair.value.refresh.claims;
        && c.tokenType == RefreshToken && c.id == was.id && c.issuer == issuer && c.subject == was.subject
        && c.roles == map[] && c.audience == {}
        && c.sessionId == was.sessionId && c.authProvider == was.authProvider
        && c.issuedAt == now && c.notBefore == now && c.expiresAt == now + refreshExpiration
    {
      if token.kid == "" || token.kid !in keyManager.keys { return None; }
      if keyManager.keys[token.kid].publicKey != token.signer { return None; }
      if now < token.claims.notBefore || now >= token.claims.expiresAt { return None; }
      if token.claims.tokenType != RefreshToken { return None; }
      var claims := token.claims;
      claims := claims.(expiresAt := now + refreshExpiration);
      claims := claims.(issuedAt := now);
      claims := claims.(notBefore := now);
      var access := Sign(claims);
      var refresh := Sign(RefreshClaims(claims.subject, claims.sessionId, claims.id, claims.authProvider, now));
      return Some(Pair(access, refresh));
    }
  }

  /** prism/internal/domain/jwt.go. */
  class TokenValidator {
    const keyProvider: JwksFetcher

    constructor (keyProvider: JwksFetcher)
      ensures this.keyProvider == keyProvider
    {
      this.keyProvider := keyProvider;
    }

    /** Prism's ValidateToken: a missing kid is looked up as the empty one. */
    method ValidateToken(alg: string, kid: Option<string>, signer: PublicKey, claims: Claims, now: int)
      returns (result: Option<Claims>)
      ensures result == None || result == Some(claims)
      ensures result.Some? <==>
        PrismAccepts(keyProvider.keys, Token(alg, kid, signer, claims.notBefore, claims.expiresAt), now)
      ensures result.Some? <==>
        && alg == "EdDSA" && claims.notBefore <= now < claims.expiresAt
        && var name := if kid.Some? then kid.value else "";
           name in keyProvider.keys && keyProvider.keys[name] == signer
    {
      if alg != "EdDSA" { return None; }
      var name := if kid.Some? then kid.value else "";
      var key := keyProvider.FindPublicKey(name);
      if key.None? { return None; }
      if key.value != signer { return None; }
      if now < claims.notBefore || now >= claims.expiresAt { return None; }
      if claims.expiresAt < now { return None; }
      return Some(claims);
    }
  }

  /** c' is one of the two tokens that refreshing with c gives. */
  ghost predicate Refreshes(m: TokenManager, c: Claims, c': Claims)
  {
    c.tokenType == RefreshToken && exists now :: m.Renewed(c, now).0 == c' || m.Renewed(c, now).1 == c'
  }

  /** A chain of refreshes: each claims but the first come from refreshing with the ones before. */
  ghost predicate Chain(m: TokenManager, cs: seq<Claims>)
  {
    cs != [] && forall i | 0 <= i < |cs| - 1 :: RefreshesAt(m, cs, i)
  }

  ghost predicate RefreshesAt(m: TokenManager, cs: seq<Claims>, i: nat)
    requires i + 1 < |cs|
  {
    Refreshes(m, cs[i], cs[i + 1])
  }

  /** However often and with whichever token of a pair a login is refreshed, user, session, token
      id and provider stay those of the login; but from the first refresh on no token, not even
      the one returned as access token, is of the access type or carries roles or tenants. */
  lemma {:induction false} RefreshChain(m: TokenManager, cs: seq<Claims>, jti: string, user: string, session: string,
      provider: string, roles: map<string, string>, now: int)
    requires Chain(m, cs)
    requires cs[0] == m.AccessClaims(jti, user, session, provider, roles, now)
          || cs[0] == m.RefreshClaims(user, session, jti, provider, now)
    ensures var c := cs[|cs| - 1];
            && c.id == jti && c.subject == user && c.sessionId == session && c.authProvider == provider
            && (|cs| > 1 ==> c.tokenType == RefreshToken && c.roles == map[] && c.audience == {})
    decreases |cs|
  {
    if |cs| > 1 {
      var n := |cs| - 1;
      assert RefreshesAt(m, cs, n - 1);
      var before := cs[..n];
      forall i | 0 <= i < |before| - 1 ensures RefreshesAt(m, before, i) { assert RefreshesAt(m, cs, i); }
      RefreshChain(m, before, jti, user, session, provider, roles, now);
    }
  }
}
