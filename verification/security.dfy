/** `app/core/security.py`: `create_access_token` and its `get_current_user`. */
module Security {

  import opened Wrappers
  import opened Json
  import opened Jose
  import JwtService

  /** `timedelta(minutes=30)`, in seconds: the default lifetime of an access token. */
  const DefaultAccessTtl: int := 30 * 60

  /** The payload of an access token: a copy of `data` whose `exp` is `now + expiresDelta`. */
  function AccessClaims(data: Claims, expiresDelta: int, now: Time): (r: Claims)
    ensures r.Keys == data.Keys + {"exp"}
    ensures r["exp"] == Num(now + expiresDelta)
    ensures forall k :: k in data && k != "exp" ==> r[k] == data[k]
  {
    data["exp" := Num(now + expiresDelta)]
  }

  /** The exception line 19 raises as written. */
  datatype CreateError = AttributeError

  /**
   * `create_access_token(data, expires_delta)` as written: the expiry expression
   * fails before anything is encoded, so every call raises `AttributeError`.
   */
  method CreateAccessTokenAsWritten(jwt: Jwt, key: string, now: Time, data: Claims, expiresDelta: int := DefaultAccessTtl)
    returns (r: Result<string, CreateError>)
    ensures r == Err(AttributeError)
  {
    var toEncode := data;
    // Line 19 looks up `timezone` on `datetime`, which line 5 binds to the class,
    // not the module: the class has no such attribute, so the lookup raises
    // before `exp` is set and nothing is encoded.
    r := Err(AttributeError);
  }

  /** `create_access_token` with the module-level `timezone.utc` its neighbours use. */
  method CreateAccessToken(jwt: Jwt, key: string, now: Time, data: Claims, expiresDelta: int := DefaultAccessTtl)
    returns (token: string)
    ensures token == jwt.encode(AccessClaims(data, expiresDelta, now), key)
  {
    var toEncode := data;
    toEncode := toEncode["exp" := Num(now + expiresDelta)];
    token := jwt.encode(toEncode, key);
  }

  /** An access token made with the default lifetime expires 30 minutes after `now`, and carries no `jti`. */
  lemma DefaultAccessLifetime(data: Claims, now: Time)
    ensures AccessClaims(data, DefaultAccessTtl, now)["exp"] == Num(now + 1800)
    ensures "jti" in AccessClaims(data, DefaultAccessTtl, now) <==> "jti" in data
  {
  }

  /** Until it expires, an access token decodes to the payload it was made from. */
  lemma AccessRoundTrip(jwt: Jwt, key: string, data: Claims, expiresDelta: int, now: Time, later: Time)
    requires Sound(jwt)
    requires "sub" in data ==> data["sub"].Str?
    requires now <= later <= now + expiresDelta
    ensures jwt.decode(jwt.encode(AccessClaims(data, expiresDelta, now), key), key, later) == Ok(AccessClaims(data, expiresDelta, now))
  {
    var c := AccessClaims(data, expiresDelta, now);
    assert !Refused(c, later);
  }

  /** A token made with a negative lifetime is already expired when it is decoded. */
  lemma NegativeLifetimeExpired(jwt: Jwt, key: string, data: Claims, expiresDelta: int, now: Time, later: Time)
    requires Sound(jwt)
    requires expiresDelta < 0 && now <= later
    ensures jwt.decode(jwt.encode(AccessClaims(data, expiresDelta, now), key), key, later).Err?
  {
    var c := AccessClaims(data, expiresDelta, now);
    assert Refused(c, later);
  }

  /** An access token carries no `type = "refresh"` claim, so `verify_refresh_token` refuses it. */
  lemma AccessTokenIsNotRefresh(jwt: Jwt, key: string, data: Claims, expiresDelta: int, now: Time, later: Time)
    requires Sound(jwt)
    requires Get(data, "type") != Str("refresh")
    ensures JwtService.VerifyRefreshToken(jwt, key, jwt.encode(AccessClaims(data, expiresDelta, now), key), later).Err?
  {
    var c := AccessClaims(data, expiresDelta, now);
    var token := jwt.encode(c, key);
    if !Refused(c, later) {
      assert jwt.decode(token, key, later) == Ok(c);
      assert Get(c, "type") == Get(data, "type");
    } else {
      assert jwt.decode(token, key, later).Err?;
    }
  }

  /** What `get_current_user` produces: the subject, a returned exception object, or a raised one. */
  datatype CurrentUser = Subject(email: Value) | ReturnedError(status: int, detail: string) | RaisedError(status: int, detail: string)

  /**
   * `get_current_user(token)`: a decode failure raises 401; a payload with no
   * (or a null) `sub` makes it return, not raise, a 401 exception object;
   * otherwise it returns `sub` as decoded.
   */
  function GetCurrentUser(jwt: Jwt, key: string, token: string, now: Time): (r: CurrentUser)
    ensures var d := jwt.decode(token, key, now);
      && (d.Err? <==> r == RaisedError(401, "Invalid token!"))
      && (r == ReturnedError(401, "Invalid token!") <==> d.Ok? && Get(d.value, "sub") == Null)
      && (r.Subject? <==> d.Ok? && Get(d.value, "sub") != Null)
      && (r.Subject? ==> r.email == d.value["sub"])
  {
    match jwt.decode(token, key, now)
    case Err(_) => RaisedError(401, "Invalid token!")
    case Ok(payload) =>
      var email := Get(payload, "sub");
      if email == Null then ReturnedError(401, "Invalid token!") else Subject(email)
  }

  /**
   * This `get_current_user` does not look at `type`: a live refresh token is
   * accepted as a bearer credential just like an access token.
   */
  lemma RefreshTokenAcceptedAsAccess(jwt: Jwt, key: string, email: string, expireDelta: int, now: Time, later: Time)
    requires Sound(jwt)
    requires now <= later <= now + expireDelta
    ensures var token := jwt.encode(JwtService.RefreshClaims(map["sub" := Str(email)], expireDelta, now), key);
      GetCurrentUser(jwt, key, token, later) == Subject(Str(email))
  {
    JwtService.RefreshRoundTrip(jwt, key, map["sub" := Str(email)], expireDelta, now, later);
  }
}
