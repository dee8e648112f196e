/** The token manager: `create_access_token` and `verify_refresh_token`.

    A token is modelled by the claims it carries. Signing (`jwt.encode` with
    the configured secret and algorithm) and decoding (`jwt.decode`, which
    checks the signature and the `exp` claim against the clock) are
    parameters: `sign` maps claims to a token string and `decode` maps a token
    string to its claims, or to `None` when the token is malformed, tampered
    with or expired. Times are whole seconds. */
module Tokens {
  import opened Failures
  import opened Config

  /** A claim value: a string, or an instant (the `exp` datetime). */
  datatype ClaimValue = Text(text: string) | Instant(seconds: int)

  /** A JWT payload. */
  type Claims = map<string, ClaimValue>

  const SubjectClaim: string := "sub"
  const ExpiryClaim: string := "exp"

  const InvalidRefreshToken: string := "Invalid refresh token"

  /** What the claims `create_access_token` signs must be: the caller's
      claims, copied, with `exp` set to `now` plus the given lifetime, or plus
      the configured access-token lifetime when none is given. Every other
      claim keeps the caller's value, and no claim is added besides `exp`. */
  predicate IsAccessClaims(claims: Claims, data: Claims, expiresDelta: Option<int>, now: int, settings: Settings) {
    && claims.Keys == data.Keys + {ExpiryClaim}
    && (forall k | k in data && k != ExpiryClaim :: claims[k] == data[k])
    && (expiresDelta.Some? ==> claims[ExpiryClaim] == Instant(now + expiresDelta.value))
    && (expiresDelta.None? ==>
          claims[ExpiryClaim] == Instant(now + settings.accessTokenExpireMinutes * SecondsPerMinute))
  }

  /** The claims `create_access_token` signs. */
  function AccessTokenClaims(data: Claims, expiresDelta: Option<int>, now: int, settings: Settings): (claims: Claims)
    ensures IsAccessClaims(claims, data, expiresDelta, now, settings)
  {
    var lifetime := match expiresDelta
      case Some(delta) => delta
      case None => settings.accessTokenExpireMinutes * SecondsPerMinute;
    data[ExpiryClaim := Instant(now + lifetime)]
  }

  /** The requirements on the signed claims leave no freedom: one claim set
      meets them. */
  lemma AccessClaimsUnique(data: Claims, expiresDelta: Option<int>, now: int, settings: Settings)
    ensures forall claims | IsAccessClaims(claims, data, expiresDelta, now, settings) ::
      claims == AccessTokenClaims(data, expiresDelta, now, settings)
  {
    var expected := AccessTokenClaims(data, expiresDelta, now, settings);
    forall claims | IsAccessClaims(claims, data, expiresDelta, now, settings)
      ensures claims == expected
    {
      assert forall k | k in claims.Keys :: claims[k] == expected[k];
    }
  }

  /** The signed access token: whatever claim set meets the requirements,
      the token is its signature. */
  function CreateAccessToken(
    data: Claims, expiresDelta: Option<int>, now: int, settings: Settings, sign: Claims -> string): (token: string)
    ensures forall claims | IsAccessClaims(claims, data, expiresDelta, now, settings) :: token == sign(claims)
  {
    AccessClaimsUnique(data, expiresDelta, now, settings);
    sign(AccessTokenClaims(data, expiresDelta, now, settings))
  }

  /** The identity a refresh token names: `{"username": sub}` when the token
      decodes and carries a string `sub`; otherwise a 401 with "Invalid
      refresh token", whatever the reason. */
  function VerifyRefreshToken(token: string, decode: string -> Option<Claims>): (r: Result<Identity>)
    ensures r.Success? <==>
      decode(token).Some? && SubjectClaim in decode(token).value && decode(token).value[SubjectClaim].Text?
    ensures r.Success? ==> r.value == Identity(decode(token).value[SubjectClaim].text)
    ensures r.Failure? ==> r.error == HttpException(Unauthorized, InvalidRefreshToken)
  {
    match decode(token)
    case None => Failure(HttpException(Unauthorized, InvalidRefreshToken))
    case Some(payload) =>
      if SubjectClaim in payload && payload[SubjectClaim].Text? then
        Success(Identity(payload[SubjectClaim].text))
      else
        Failure(HttpException(Unauthorized, InvalidRefreshToken))
  }

  /** Decoding an issued token (with a decoder that accepts it) reveals the
      caller's `sub` unchanged and an `exp` claim. */
  lemma IssuedTokenCarriesSubjectAndExpiry(
    subject: string, expiresDelta: Option<int>, now: int, settings: Settings,
    sign: Claims -> string, decode: string -> Option<Claims>)
    requires
      var claims := AccessTokenClaims(map[SubjectClaim := Text(subject)], expiresDelta, now, settings);
      decode(sign(claims)) == Some(claims)
    ensures
      var payload := decode(CreateAccessToken(map[SubjectClaim := Text(subject)], expiresDelta, now, settings, sign));
      && payload.Some?
      && SubjectClaim in payload.value && payload.value[SubjectClaim] == Text(subject)
      && ExpiryClaim in payload.value
  {
  }

  /** A freshly issued, still-valid token verifies to the identity it was
      issued for. */
  lemma IssuedTokenVerifies(
    subject: string, expiresDelta: Option<int>, now: int, settings: Settings,
    sign: Claims -> string, decode: string -> Option<Claims>)
    requires
      var claims := AccessTokenClaims(map[SubjectClaim := Text(subject)], expiresDelta, now, settings);
      decode(sign(claims)) == Some(claims)
    ensures
      VerifyRefreshToken(CreateAccessToken(map[SubjectClaim := Text(subject)], expiresDelta, now, settings, sign), decode)
        == Success(Identity(subject))
  {
  }
}
