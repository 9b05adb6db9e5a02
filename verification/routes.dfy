/** `app/auth/routes.py`: the `/register`, `/token`, `/refresh` and `/logout` endpoints. */
module AuthRoutes {

  import opened Wrappers
  import opened Json
  import opened Utf8
  import opened Text
  import opened Jose
  import opened Bcrypt
  // `Sound` is declared by both Bcrypt and Jose; `Hashing.Sound` names bcrypt's.
  import Hashing = Bcrypt
  import opened Crypto
  import opened Schemas
  import opened Users
  import opened Http
  import JwtService
  import Security
  import Dependencies

  /** `ACCESS_TOKEN_EXPIRE_MINUTES` of the settings, and the lifetime in seconds it gives. */
  const AccessTokenExpireMinutes: int := 60
  const AccessTtl: int := AccessTokenExpireMinutes * 60

  /** The primitives and the signing key the endpoints use. */
  datatype Services = Services(bcrypt: Bcrypt, jwt: Jwt, secretKey: string)

  /** `OAuth2PasswordRequestForm`: the login form. */
  datatype LoginForm = LoginForm(username: string, password: string)

  /**
   * What the credential check of the login endpoints comes to: a row whose hash
   * accepts the password, a refusal (401), or the `ValueError` passlib raises
   * from `verify` (a 500).
   */
  datatype Credentials = Accepted(row: UserRow) | Rejected | VerifyRaised

  /**
   * The credential check of the login endpoints: the row stored under the form's
   * `username`, used as given, whose hash `verify_pass` accepts for the form's
   * password. `verify_pass` runs only when there is a row.
   */
  function Authenticate(b: Bcrypt, rows: map<string, UserRow>, form: LoginForm): (r: Credentials)
    requires Keyed(rows)
    ensures r.Accepted? <==> form.username in rows && VerifyPass(b, form.password, rows[form.username].hashedPass) == Ok(true)
    ensures r.VerifyRaised? <==> form.username in rows && VerifyPass(b, form.password, rows[form.username].hashedPass).Err?
    ensures r.Accepted? ==> r.row == rows[form.username] && r.row.email == form.username
  {
    var found := FetchByEmail(rows, Str(form.username));
    if !found.Found? then Rejected
    else
      var verified := VerifyPass(b, form.password, found.row.hashedPass);
      if verified.Err? then VerifyRaised
      else if verified.value then Accepted(found.row)
      else Rejected
  }

  /** The access token the endpoints issue for `sub`: 60 minutes from `now`. */
  function AccessTokenFor(svc: Services, sub: Value, now: Time): string {
    svc.jwt.encode(Security.AccessClaims(map["sub" := sub], AccessTtl, now), svc.secretKey)
  }

  /** The response both token endpoints build: the access token, `"bearer"` and 3600 seconds. */
  function BearerResponse(accessToken: string): TokenResponse {
    TokenResponse(accessToken, "bearer", Some(AccessTtl))
  }

  /** The fields passed to `TokenResponse(...)`; the refresh token among them is dropped. */
  lemma TokenFieldsValidate(accessToken: string, refreshToken: string)
    ensures TokenResponseFrom(map["access_token" := Str(accessToken), "refresh_token" := Str(refreshToken),
      "token_type" := Str("bearer"), "expires_in" := Num(AccessTtl)]) == Some(BearerResponse(accessToken))
  {
    var declared := map["access_token" := Str(accessToken), "token_type" := Str("bearer"), "expires_in" := Num(AccessTtl)];
    UndeclaredFieldIgnored(declared, "refresh_token", Str(refreshToken));
    assert declared["refresh_token" := Str(refreshToken)] == map["access_token" := Str(accessToken),
      "refresh_token" := Str(refreshToken), "token_type" := Str("bearer"), "expires_in" := Num(AccessTtl)];
  }

  const EmailTaken: HttpError := HttpError(BadRequest, "Email already registered!", false)

  /**
   * `register_user(user)`: an email already present is refused with 400 and
   * nothing changes; a password `hash_pass` refuses raises `ValueError` (a 500)
   * and nothing changes; otherwise exactly one row is added, verified and
   * active, and its public columns are returned. `id` and `now` stand for the
   * column defaults of the table.
   */
  method RegisterUser(users: UserTable, b: Bcrypt, user: RegisterRequest, salt: Salt, id: string, now: Time)
    returns (r: Outcome<UserOut>)
    requires users.Valid()
    modifies users
    ensures users.Valid()
    ensures user.email in old(users.rows) ==> r == Failure(EmailTaken) && users.rows == old(users.rows)
    ensures user.email !in old(users.rows) && HashPass(b, user.password, salt).Err? ==>
      r == ServerError("ValueError") && users.rows == old(users.rows)
    ensures user.email !in old(users.rows) && HashPass(b, user.password, salt).Ok? ==>
      var row := UserRow(id, user.email, HashPass(b, user.password, salt).value, true, true, now);
      && users.rows == old(users.rows)[user.email := row]
      && r == Success(Public(row))
  {
    if user.email in users.rows {
      return Failure(EmailTaken);
    }
    var hashedPassword := HashPass(b, user.password, salt);
    if hashedPassword.Err? {
      return ServerError("ValueError");
    }
    var row := UserRow(id, user.email, hashedPassword.value, true, true, now);
    users.Insert(row);
    r := Success(Public(row));
  }

  const BadCredentials: HttpError := HttpError(Unauthorized, "Incorrect email or password", true)
  const LoginUnverified: HttpError := HttpError(Forbidden, "Please verify your email address before logging in", false)

  /**
   * `token(form_data)`: an unknown email and a wrong password get the same 401;
   * a password passlib refuses to verify is a 500; only then is an unverified
   * account refused with 403; otherwise an access token for the stored email is
   * returned. The refresh token is made as well, but `TokenResponse` has no
   * field for it.
   */
  method Token(users: UserTable, svc: Services, form: LoginForm, now: Time) returns (r: Outcome<TokenResponse>)
    requires users.Valid()
    ensures Authenticate(svc.bcrypt, users.rows, form).Rejected? ==> r == Failure(BadCredentials)
    ensures Authenticate(svc.bcrypt, users.rows, form).VerifyRaised? ==> r == ServerError("ValueError")
    ensures Authenticate(svc.bcrypt, users.rows, form).Accepted? && !users.rows[form.username].isVerified ==>
      r == Failure(LoginUnverified)
    ensures Authenticate(svc.bcrypt, users.rows, form).Accepted? && users.rows[form.username].isVerified ==>
      r == Success(BearerResponse(AccessTokenFor(svc, Str(form.username), now)))
  {
    var found := FetchByEmail(users.rows, Str(form.username));
    if !found.Found? {
      return Failure(BadCredentials);
    }
    var verified := VerifyPass(svc.bcrypt, form.password, found.row.hashedPass);
    if verified.Err? {
      return ServerError("ValueError");
    }
    if !verified.value {
      return Failure(BadCredentials);
    }
    var row := found.row;
    if !row.isVerified {
      return Failure(LoginUnverified);
    }
    var accessToken := Security.CreateAccessToken(svc.jwt, svc.secretKey, now, map["sub" := Str(row.email)], AccessTtl);
    var refreshToken := JwtService.CreateRefreshToken(svc.jwt, svc.secretKey, now, map["sub" := Str(row.email)]);
    TokenFieldsValidate(accessToken, refreshToken);
    var response := TokenResponseFrom(map["access_token" := Str(accessToken), "refresh_token" := Str(refreshToken),
      "token_type" := Str("bearer"), "expires_in" := Num(AccessTtl)]);
    r := Success(response.value);
  }

  /** The text asyncpg's `DataError` carries for a parameter of the wrong type. */
  const DataErrorText: string := "invalid input for query argument $1"

  function InvalidRefresh(reason: string): HttpError {
    HttpError(Unauthorized, "Invalid refresh token: " + reason, false)
  }

  const UserNotFound: HttpError := HttpError(NotFound, "User not found", false)
  const RefreshUnverified: HttpError := HttpError(Forbidden, "Please verify your email first", false)

  /**
   * `refresh_token(refresh_token)`, in order: a token `verify_refresh_token`
   * refuses gets 401 with its reason (so does a `sub` the driver refuses, being a
   * `ValueError` too); no row for `sub` gets 404; an unverified account 403;
   * otherwise a new access token for `sub`.
   */
  method Refresh(users: UserTable, svc: Services, refreshToken: string, now: Time) returns (r: Outcome<TokenResponse>)
    requires users.Valid()
    ensures var v := JwtService.VerifyRefreshToken(svc.jwt, svc.secretKey, refreshToken, now);
      && (v.Err? ==> r == Failure(InvalidRefresh(JwtService.Message(v.error))))
      && (v.Ok? ==>
            var sub := Get(v.value, "sub");
            var found := FetchByEmail(users.rows, sub);
            && (found.DataError? ==> r == Failure(InvalidRefresh(DataErrorText)))
            && (found.NoRow? ==> r == Failure(UserNotFound))
            && (found.Found? && !found.row.isVerified ==> r == Failure(RefreshUnverified))
            && (found.Found? && found.row.isVerified ==> r == Success(BearerResponse(AccessTokenFor(svc, sub, now)))))
  {
    var verified := JwtService.VerifyRefreshToken(svc.jwt, svc.secretKey, refreshToken, now);
    if verified.Err? {
      return Failure(InvalidRefresh(JwtService.Message(verified.error)));
    }
    var userEmail := Get(verified.value, "sub");
    var found := FetchByEmail(users.rows, userEmail);
    if found.DataError? {
      return Failure(InvalidRefresh(DataErrorText));
    }
    if found.NoRow? {
      return Failure(UserNotFound);
    }
    if !found.row.isVerified {
      return Failure(RefreshUnverified);
    }
    var accessToken := Security.CreateAccessToken(svc.jwt, svc.secretKey, now, map["sub" := userEmail], AccessTtl);
    var newRefreshToken := JwtService.CreateRefreshToken(svc.jwt, svc.secretKey, now, map["sub" := userEmail]);
    TokenFieldsValidate(accessToken, newRefreshToken);
    var response := TokenResponseFrom(map["access_token" := Str(accessToken), "refresh_token" := Str(newRefreshToken),
      "token_type" := Str("bearer"), "expires_in" := Num(AccessTtl)]);
    r := Success(response.value);
  }

  /** The body `logout_user` returns. */
  datatype LogoutReceipt = LogoutReceipt(message: string, revoked: bool, timestamp: Time)

  /**
   * `logout_user()`: whenever the `get_current_user` dependency lets the request
   * through, it reports the token revoked; it stores nothing.
   */
  function LogoutUser(verified: Result<Claims, string>, rows: map<string, UserRow>, now: Time): (r: Outcome<LogoutReceipt>)
    requires Keyed(rows)
    ensures r.Success? <==> Dependencies.GetCurrentUser(verified, rows).Success?
    ensures r.Success? ==> r.value == LogoutReceipt("Successfully logged out", true, now)
    ensures r.Failure? ==> r.error == Dependencies.CredentialsError
    ensures r.ServerError? <==> Dependencies.GetCurrentUser(verified, rows).ServerError?
  {
    match Dependencies.GetCurrentUser(verified, rows)
    case Success(_) => Success(LogoutReceipt("Successfully logged out", true, now))
    case Failure(e) => Failure(e)
    case ServerError(x) => ServerError(x)
  }

  /** "Revoked" revokes nothing: the same credential logs out, and authenticates, again. */
  lemma LogoutRevokesNothing(verified: Result<Claims, string>, rows: map<string, UserRow>, now: Time, later: Time)
    requires Keyed(rows)
    requires LogoutUser(verified, rows, now).Success?
    ensures LogoutUser(verified, rows, later).Success?
    ensures Dependencies.GetCurrentUser(verified, rows).Success?
  {
  }

  /** `"é" * n`. */
  function RepeatAcute(n: nat): (r: string)
    ensures |r| == n && forall i :: 0 <= i < n ==> r[i] == 'é'
  {
    seq(n, i requires 0 <= i < n => 'é')
  }

  lemma {:induction false} AcuteEncodeLength(n: nat)
    ensures |Encode(RepeatAcute(n))| == 2 * n
  {
    if n > 0 {
      var s := RepeatAcute(n);
      assert s == [s[0]] + RepeatAcute(n - 1);
      EncodeAppend([s[0]], RepeatAcute(n - 1));
      assert Encode([s[0]]) == EncodeChar(s[0]) + Encode([]);
      AcuteEncodeLength(n - 1);
    }
  }

  /**
   * The request schema counts characters and `hash_pass` counts bytes: 37 to 72
   * two-byte characters pass validation and then make registration fail with a
   * 500.
   */
  lemma WideCharactersPassSchemaNotHash(b: Bcrypt, salt: Salt, n: nat)
    requires 37 <= n <= 72
    ensures ValidatePassword(RepeatAcute(n)) == Some(RepeatAcute(n))
    ensures HashPass(b, RepeatAcute(n), salt) == Err(TooLong)
  {
    var p := RepeatAcute(n);
    assert !IsSpace(p[0]) && !IsSpace(p[n - 1]);
    StripUnchanged(p);
    assert LengthInRange(p);
    AcuteEncodeLength(n);
    assert |Encode(Strip(p))| > MaxPasswordBytes;
  }

  /**
   * Under the bcrypt contract, a registration that went through lets the user
   * log in with the validated email and password.
   */
  lemma RegisteredUserAuthenticates(b: Bcrypt, rows: map<string, UserRow>, user: RegisterRequest, salt: Salt, id: string, now: Time)
    requires Hashing.Sound(b) && Keyed(rows)
    requires Strip(user.password) == user.password
    requires HashPass(b, user.password, salt).Ok?
    ensures var row := UserRow(id, user.email, HashPass(b, user.password, salt).value, true, true, now);
      Authenticate(b, rows[user.email := row], LoginForm(user.email, user.password)) == Accepted(row)
  {
    var p := user.password;
    assert |Encode(p)| <= MaxPasswordBytes;
    TrimForBcryptFitting(p);
    assert VerifyPass(b, p, HashPass(b, p, salt).value) == Ok(true);
  }

  /** What the schema stores for a password that begins or ends with whitespace differs from it. */
  lemma StoredPasswordDiffers(raw: string)
    requires ValidatePassword(raw).Some? && !Unpadded(raw)
    ensures ValidatePassword(raw).value != raw
  {
    var stored := Strip(raw);
    StripShape(raw);
    assert stored != [] && Unpadded(stored);
  }

  /**
   * Registering and then logging in with the same (validated) email and
   * password yields an access token for that email.
   */
  method RegisterThenLogIn(users: UserTable, svc: Services, user: RegisterRequest, salt: Salt, id: string, now: Time)
    returns (registered: Outcome<UserOut>, login: Outcome<TokenResponse>)
    requires users.Valid() && Hashing.Sound(svc.bcrypt)
    requires Strip(user.password) == user.password
    modifies users
    ensures registered.Success? ==> login == Success(BearerResponse(AccessTokenFor(svc, Str(user.email), now)))
  {
    ghost var before := users.rows;
    registered := RegisterUser(users, svc.bcrypt, user, salt, id, now);
    if registered.Success? {
      RegisteredUserAuthenticates(svc.bcrypt, before, user, salt, id, now);
    }
    login := Token(users, svc, LoginForm(user.email, user.password), now);
  }

  /** The hash stored for a padded password does not verify the password as typed. */
  lemma StoredHashRejectsRaw(b: Bcrypt, raw: string, salt: Salt)
    requires Hashing.Sound(b)
    requires ValidatePassword(raw).Some? && HashPass(b, ValidatePassword(raw).value, salt).Ok?
    requires |Encode(raw)| <= MaxPasswordBytes && !Unpadded(raw)
    ensures VerifyPass(b, raw, HashPass(b, ValidatePassword(raw).value, salt).value) == Ok(false)
  {
    var stored := ValidatePassword(raw).value;
    assert stored == Strip(raw) && stored != raw by {
      StoredPasswordDiffers(raw);
    }
    assert '\0' !in stored by {
      StripStrip(raw);
      EncodeHasNul(stored);
    }
    UnstrippedPasswordFails(b, raw, salt);
  }

  /**
   * The schema stores the stripped password but `verify_pass` does not strip,
   * so logging in with the password exactly as it was registered fails when it
   * began or ended with whitespace.
   */
  lemma PaddedPasswordDoesNotAuthenticate(b: Bcrypt, rows: map<string, UserRow>, raw: string, salt: Salt, email: string, id: string, now: Time)
    requires Hashing.Sound(b) && Keyed(rows)
    requires ValidatePassword(raw).Some? && HashPass(b, ValidatePassword(raw).value, salt).Ok?
    requires |Encode(raw)| <= MaxPasswordBytes && !Unpadded(raw)
    ensures var row := UserRow(id, email, HashPass(b, ValidatePassword(raw).value, salt).value, true, true, now);
      Authenticate(b, rows[email := row], LoginForm(email, raw)) == Rejected
  {
    var h := HashPass(b, ValidatePassword(raw).value, salt).value;
    StoredHashRejectsRaw(b, raw, salt);
    WrongPasswordRejected(b, rows, UserRow(id, email, h, true, true, now), raw);
  }

  /** A login whose password `verify_pass` refuses against the row's hash gets no credentials. */
  lemma WrongPasswordRejected(b: Bcrypt, rows: map<string, UserRow>, row: UserRow, password: string)
    requires Keyed(rows) && VerifyPass(b, password, row.hashedPass) == Ok(false)
    ensures Authenticate(b, rows[row.email := row], LoginForm(row.email, password)) == Rejected
  {
    assert rows[row.email := row][row.email] == row;
  }

  /**
   * A refresh token issued at login, presented before it expires by a user who
   * is still verified, is accepted and yields an access token for the same email.
   */
  lemma IssuedRefreshTokenRefreshes(svc: Services, rows: map<string, UserRow>, email: string, issued: Time, now: Time)
    requires Jose.Sound(svc.jwt) && Keyed(rows)
    requires email in rows && rows[email].isVerified
    requires issued <= now <= issued + JwtService.DefaultRefreshTtl
    ensures var token := svc.jwt.encode(JwtService.RefreshClaims(map["sub" := Str(email)], JwtService.RefreshTtl(None), issued), svc.secretKey);
      var v := JwtService.VerifyRefreshToken(svc.jwt, svc.secretKey, token, now);
      && v.Ok? && Get(v.value, "sub") == Str(email)
      && FetchByEmail(rows, Get(v.value, "sub")) == Found(rows[email])
  {
    JwtService.RefreshRoundTrip(svc.jwt, svc.secretKey, map["sub" := Str(email)], JwtService.DefaultRefreshTtl, issued, now);
  }

  /** Under the token contract a verified refresh token never carries a `sub` the driver refuses. */
  lemma RefreshNeverReachesDataError(svc: Services, rows: map<string, UserRow>, token: string, now: Time)
    requires Jose.Sound(svc.jwt)
    requires JwtService.VerifyRefreshToken(svc.jwt, svc.secretKey, token, now).Ok?
    ensures !FetchByEmail(rows, Get(JwtService.VerifyRefreshToken(svc.jwt, svc.secretKey, token, now).value, "sub")).DataError?
  {
    var d := svc.jwt.decode(token, svc.secretKey, now);
    assert d.Ok? && !Refused(d.value, now);
  }
}
