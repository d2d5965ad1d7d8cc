/** The server's `AuthMiddleware`: the `Authorization: Bearer <token>` form of section 2.1 of
    RFC 6750, matched case-sensitively, checked against the session tokens handed out at login.
    The nonce and the Content-Security-Policy header it sets are not modelled. */
module AuthMiddleware {
  import opened Wrappers
  import opened Strings
  import Service

  const BearerPrefix := "Bearer "

  /** The token carried by the header: the header with one leading "Bearer " removed, or `None`
      for an empty header or one without that exact prefix. */
  function ParseBearer(header: string): (r: Option<string>)
    ensures r.None? <==> header == "" || !StartsWith(header, BearerPrefix)
    ensures r.Some? ==> header == BearerPrefix + r.value
  {
    if header == "" || !StartsWith(header, BearerPrefix) then None
    else
      assert header == header[..|BearerPrefix|] + header[|BearerPrefix|..];
      Some(header[|BearerPrefix|..])
  }

  /** Only one prefix is trimmed: a doubled prefix leaves the second in the token. */
  lemma DoubledPrefixStaysInToken(token: string)
    ensures ParseBearer(BearerPrefix + BearerPrefix + token) == Some(BearerPrefix + token)
  {
    var h := BearerPrefix + BearerPrefix + token;
    assert h[..|BearerPrefix|] == BearerPrefix;
    assert h == BearerPrefix + (BearerPrefix + token);
  }

  /** The scheme is case-sensitive: a lower-case "bearer " header is refused. */
  lemma LowerCaseSchemeRefused(token: string)
    ensures ParseBearer("bearer " + token) == None
  {
    assert ("bearer " + token)[0] != BearerPrefix[0];
  }

  /** `isValidToken`: a linear scan of the session tokens. */
  method IsValidToken(token: string, sessionTokens: seq<string>) returns (ok: bool)
    ensures ok <==> token in sessionTokens
  {
    var i := 0;
    while i < |sessionTokens|
      invariant 0 <= i <= |sessionTokens|
      invariant token !in sessionTokens[..i]
    {
      if sessionTokens[i] == token {
        return true;
      }
      i := i + 1;
    }
    return false;
  }

  /** What the middleware does with a request: abort with 401 and a reason, or let it through. */
  datatype Verdict = Malformed | InvalidToken | Proceed(token: string)

  function Status(v: Verdict): int {
    if v.Proceed? then 200 else 401
  }

  /** The middleware's decision: a malformed header aborts, then an unknown token aborts, else the
      request proceeds. */
  function Authorize(header: string, sessionTokens: seq<string>): (v: Verdict)
    ensures v == Malformed <==> header == "" || !StartsWith(header, BearerPrefix)
    ensures v.Proceed? <==> StartsWith(header, BearerPrefix) && header[|BearerPrefix|..] in sessionTokens
    ensures v.Proceed? ==> header == BearerPrefix + v.token
  {
    match ParseBearer(header)
    case None => Malformed
    case Some(token) => if token in sessionTokens then Proceed(token) else InvalidToken
  }

  /** The middleware run as the handler runs it: parse, then scan the tokens. */
  method Middleware(header: string, sessionTokens: seq<string>) returns (v: Verdict)
    ensures v == Authorize(header, sessionTokens)
  {
    if header == "" || !StartsWith(header, BearerPrefix) {
      return Malformed;
    }
    var token := header[|BearerPrefix|..];
    var ok := IsValidToken(token, sessionTokens);
    if !ok {
      return InvalidToken;
    }
    return Proceed(token);
  }

  /** The token handed out at login is accepted right after it, and every token accepted before
      any later login attempt is still accepted after it: tokens are never removed. */
  lemma LoginTokenPersists(body: Option<Service.AuthRequest>, tokens: seq<string>, u1: string, u2: string, header: string)
    ensures var login := Service.HandleAuth(body, tokens, u1, u2);
      && (login.status == 200 ==> Authorize(BearerPrefix + login.token.value, login.tokens).Proceed?)
      && (Authorize(header, tokens).Proceed? ==> Authorize(header, login.tokens).Proceed?)
  {
    var login := Service.HandleAuth(body, tokens, u1, u2);
    if login.status == 200 {
      var h := BearerPrefix + login.token.value;
      assert h[..|BearerPrefix|] == BearerPrefix;
      assert h[|BearerPrefix|..] == login.token.value;
    }
  }
}
