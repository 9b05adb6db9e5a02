/** `app/auth/services/jwt.py`: `create_refresh_token` and `verify_refresh_token`. */
module JwtService {

  import opened Wrappers
  import opened Json
  import opened Jose

  /** `timedelta(days=30)`, in seconds: the lifetime the docstring promises by default. */
  const DefaultRefreshTtl: int := 30 * 24 * 60 * 60

  /**
   * The payload of a refresh token: a copy of `data` with `exp`, `iat` and
   * `type = "refresh"` written over whatever `data` held under those names.
   */
  function RefreshClaims(data: Claims, expireDelta: int, now: Time): (r: Claims)
    ensures r.Keys == data.Keys + {"exp", "iat", "type"}
    ensures r["exp"] == Num(now + expireDelta) && r["iat"] == Num(now) && r["type"] == Str("refresh")
    ensures forall k :: k in data && k != "exp" && k != "iat" && k != "type" ==> r[k] == data[k]
  {
    data + map["exp" := Num(now + expireDelta), "iat" := Num(now), "type" := Str("refresh")]
  }

  /** The exception line 13 raises as written. */
  datatype CreateError = TypeError

  /**
   * `create_refresh_token(data, expire_delta)` as written. Line 13 parses as
   * `(now + expire_delta) or timedelta(days=30)`: with no delta, `now + None`
   * raises `TypeError`, and with one the sum (a datetime, always true) is used,
   * so the 30-day default is never reached.
   */
  method CreateRefreshTokenAsWritten(jwt: Jwt, key: string, now: Time, data: Claims, expireDelta: Option<int> := None)
    returns (r: Result<string, CreateError>)
    ensures expireDelta.None? ==> r == Err(TypeError)
    ensures expireDelta.Some? ==> r == Ok(jwt.encode(RefreshClaims(data, expireDelta.value, now), key))
  {
    var toEncode := data;
    if expireDelta.None? {
      return Err(TypeError);
    }
    var expire := now + expireDelta.value;
    toEncode := toEncode + map["exp" := Num(expire), "iat" := Num(now), "type" := Str("refresh")];
    r := Ok(jwt.encode(toEncode, key));
  }

  /** The lifetime `now + (expire_delta or timedelta(days=30))` gives: a missing or zero delta means 30 days. */
  function RefreshTtl(expireDelta: Option<int>): (ttl: int)
    ensures expireDelta.None? ==> ttl == DefaultRefreshTtl
    ensures expireDelta.Some? && expireDelta.value != 0 ==> ttl == expireDelta.value
  {
    if expireDelta.None? || expireDelta.value == 0 then DefaultRefreshTtl else expireDelta.value
  }

  /**
   * `create_refresh_token` as its docstring means it: the payload gets
   * `exp = now + (expire_delta or 30 days)`, `iat = now` and `type = "refresh"`.
   */
  method CreateRefreshToken(jwt: Jwt, key: string, now: Time, data: Claims, expireDelta: Option<int> := None)
    returns (token: string)
    ensures token == jwt.encode(RefreshClaims(data, RefreshTtl(expireDelta), now), key)
  {
    var toEncode := data;
    var expire := now + RefreshTtl(expireDelta);
    toEncode := toEncode + map["exp" := Num(expire), "iat" := Num(now), "type" := Str("refresh")];
    token := jwt.encode(toEncode, key);
  }

  /** Called as the routes call it, with no delta, the token lives 30 days. */
  lemma DefaultRefreshLifetime(data: Claims, now: Time)
    ensures RefreshClaims(data, RefreshTtl(None), now)["exp"] == Num(now + DefaultRefreshTtl)
  {
  }

  /** The `ValueError`s of `verify_refresh_token`. */
  datatype RefreshError = InvalidToken(reason: string) | NotRefresh

  function Message(e: RefreshError): string {
    match e
    case InvalidToken(reason) => "Invalid refresh token " + reason
    case NotRefresh => "Not a refresh token"
  }

  /**
   * `verify_refresh_token(token)`: any `JWTError` from decoding becomes a
   * `ValueError`; a decoded payload whose `type` is not `"refresh"` is refused;
   * otherwise the payload is returned as decoded.
   */
  function VerifyRefreshToken(jwt: Jwt, key: string, token: string, now: Time): (r: Result<Claims, RefreshError>)
    ensures var d := jwt.decode(token, key, now);
      && (d.Err? ==> r == Err(InvalidToken(d.error)))
      && (r.Err? && r.error.InvalidToken? ==> d.Err?)
      && (r == Err(NotRefresh) <==> d.Ok? && Get(d.value, "type") != Str("refresh"))
      && (r.Ok? <==> d.Ok? && Get(d.value, "type") == Str("refresh"))
      && (r.Ok? ==> r.value == d.value && r.value["type"] == Str("refresh"))
  {
    match jwt.decode(token, key, now)
    case Err(reason) => Err(InvalidToken(reason))
    case Ok(payload) =>
      if Get(payload, "type") != Str("refresh") then Err(NotRefresh)
      else Ok(payload)
  }

  /**
   * A refresh token verifies, until it expires, to the payload it was made
   * from, so its `sub` is the one the caller gave.
   */
  lemma RefreshRoundTrip(jwt: Jwt, key: string, data: Claims, expireDelta: int, now: Time, later: Time)
    requires Sound(jwt)
    requires "sub" in data ==> data["sub"].Str?
    requires now <= later <= now + expireDelta
    ensures var token := jwt.encode(RefreshClaims(data, expireDelta, now), key);
      && VerifyRefreshToken(jwt, key, token, later) == Ok(RefreshClaims(data, expireDelta, now))
      && Get(VerifyRefreshToken(jwt, key, token, later).value, "sub") == Get(data, "sub")
  {
    var c := RefreshClaims(data, expireDelta, now);
    assert !Refused(c, later);
    assert jwt.decode(jwt.encode(c, key), key, later) == Ok(c);
  }

  /** Once its `exp` has passed, a refresh token is refused as invalid. */
  lemma ExpiredRefreshRefused(jwt: Jwt, key: string, data: Claims, expireDelta: int, now: Time, later: Time)
    requires Sound(jwt)
    requires later > now + expireDelta
    ensures VerifyRefreshToken(jwt, key, jwt.encode(RefreshClaims(data, expireDelta, now), key), later).Err?
    ensures VerifyRefreshToken(jwt, key, jwt.encode(RefreshClaims(data, expireDelta, now), key), later) != Err(NotRefresh)
  {
    var c := RefreshClaims(data, expireDelta, now);
    assert Refused(c, later);
  }
}
