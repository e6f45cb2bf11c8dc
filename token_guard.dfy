/** `validateToken`, the middleware in front of create, update and delete. It takes the
    second space-separated word of the `Authorization` header as the token. The header is
    meant to be `Bearer <token>` (section 2.1 of RFC 6750), but the scheme word is never
    checked. No token gives 401. A token that `jwt.verify` rejects for any reason gives 403.
    Otherwise the decoded payload becomes `req.user` and the handler runs. */
module TokenGuard {
  import opened Wrappers
  import opened Text
  import opened Decimal
  import Jwt

  datatype GuardOutcome =
    | NoToken                           // 401 "로그인이 필요합니다."
    | Rejected(reason: Jwt.JwtError)    // 403 "인증 정보가 올바르지 않습니다."
    | Authenticated(user: Jwt.Claims)   // `req.user`, then `next()`

  /** `authHeader && authHeader.split(" ")[1]`, kept only when truthy: a missing header, a
      header without a space and an empty second word all give no token. */
  function ExtractToken(authorization: Option<string>): (token: Option<string>)
    ensures token.Some? ==> token.value != "" && ' ' !in token.value
    ensures authorization.None? ==> token.None?
  {
    match authorization
    case None => None
    case Some(header) =>
      var words := Split(header, ' ');
      if |words| >= 2 && words[1] != "" then Some(words[1]) else None
  }

  /** The guard at time `now`, with the server's signing secret. */
  function Guard(authorization: Option<string>, secret: string, now: nat): (r: GuardOutcome)
    ensures r.NoToken? <==> ExtractToken(authorization).None?
    ensures r.Authenticated? ==> now < r.user.exp
  {
    match ExtractToken(authorization)
    case None => NoToken
    case Some(token) =>
      match Jwt.Verify(token, secret, now)
      case Failure(e) => Rejected(e)
      case Success(claims) => Authenticated(claims)
  }

  /** `scheme + " " + token` yields the token, whatever the scheme word, and so does the
      same header with more words after the token. */
  lemma SecondWordIsToken(scheme: string, token: string, rest: Option<string>)
    requires ' ' !in scheme && token != "" && ' ' !in token
    ensures ExtractToken(Some(scheme + " " + token)) == Some(token)
    ensures rest.Some? ==> ExtractToken(Some(scheme + " " + token + " " + rest.value)) == Some(token)
  {
    SplitWithoutSeparator(scheme, ' ');
    SplitWithoutSeparator(token, ' ');
    SplitAround(scheme, token, ' ');
    if rest.Some? {
      var tail := rest.value;
      SplitAround(token, tail, ' ');
      SplitAround(scheme, token + " " + tail, ' ');
      assert scheme + " " + token + " " + tail == scheme + [' '] + (token + [' '] + tail);
    }
  }

  /** A header with no space in it (such as a bare `"Bearer"`) yields no token. */
  lemma OneWordHeaderHasNoToken(header: string)
    requires ' ' !in header
    ensures ExtractToken(Some(header)) == None
  {
    SplitWithoutSeparator(header, ' ');
  }

  /** An empty second word yields no token: a header ending in the space after its first
      word (`"Bearer "`), or with two spaces there (`"Bearer  x"`). */
  lemma EmptySecondWordHasNoToken(scheme: string, rest: string)
    requires ' ' !in scheme && (rest == [] || rest[0] == ' ')
    ensures ExtractToken(Some(scheme + " " + rest)) == None
  {
    SplitWithoutSeparator(scheme, ' ');
    SplitAround(scheme, rest, ' ');
    if rest != [] {
      assert rest == [] + [' '] + rest[1..];
      SplitAround([], rest[1..], ' ');
    }
    assert scheme + " " + rest == scheme + [' '] + rest;
  }

  /** A token that `jwt.sign` issued under the server's secret passes the guard in any
      `Bearer` header until it expires, and `req.user` is exactly its claims. */
  lemma IssuedTokenAuthenticates(scheme: string, claims: Jwt.Claims, secret: string, now: nat)
    requires ' ' !in scheme && now < claims.exp
    ensures Guard(Some(scheme + " " + Jwt.Sign(claims, secret)), secret, now) == Authenticated(claims)
  {
    var token := Jwt.Sign(claims, secret);
    assert ' ' !in token by {
      forall k | 0 <= k < |token| ensures token[k] != ' ' {
        assert token[k] == '.' || IsDigit(token[k]);
      }
    }
    SecondWordIsToken(scheme, token, None);
    Jwt.VerifySigned(claims, secret, now);
  }

  /** From `exp` on, the same header is refused with 403 as expired. */
  lemma ExpiredTokenRejected(scheme: string, claims: Jwt.Claims, secret: string, now: nat)
    requires ' ' !in scheme && now >= claims.exp
    ensures Guard(Some(scheme + " " + Jwt.Sign(claims, secret)), secret, now) == Rejected(Jwt.Expired)
  {
    var token := Jwt.Sign(claims, secret);
    assert ' ' !in token by {
      forall k | 0 <= k < |token| ensures token[k] != ' ' {
        assert token[k] == '.' || IsDigit(token[k]);
      }
    }
    SecondWordIsToken(scheme, token, None);
    Jwt.VerifyExpired(claims, secret, now);
  }

  /** A token issued at `now` by sign-in is accepted for exactly one hour: at any time `t`
      before `now + 3600` it authenticates as the issued claims, and from then on it is
      refused as expired. */
  lemma IssuedTokenLastsAnHour(scheme: string, userId: nat, email: string, now: nat, t: nat, secret: string)
    requires ' ' !in scheme
    ensures Guard(Some(scheme + " " + Jwt.Sign(Jwt.Issue(userId, email, now), secret)), secret, t)
      == if t < now + 3600 then Authenticated(Jwt.Issue(userId, email, now)) else Rejected(Jwt.Expired)
  {
    var claims := Jwt.Issue(userId, email, now);
    if t < now + 3600 {
      IssuedTokenAuthenticates(scheme, claims, secret, t);
    } else {
      ExpiredTokenRejected(scheme, claims, secret, t);
    }
  }

  /** The guard lets a request through only with a token signed under the server's secret
      for exactly the claims it attaches, and not yet expired. */
  lemma AuthenticatedOnlyBySignedToken(authorization: Option<string>, secret: string, now: nat)
    requires Guard(authorization, secret, now).Authenticated?
    ensures ExtractToken(authorization)
      == Some(Jwt.Sign(Guard(authorization, secret, now).user, secret))
    ensures now < Guard(authorization, secret, now).user.exp
  {
    var token := ExtractToken(authorization).value;
    Jwt.VerifySound(token, secret, now, Guard(authorization, secret, now).user);
  }
}
