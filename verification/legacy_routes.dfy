/**
 * `app/routers/auth_routes.py`: the older `/register` and `/token` endpoints.
 * They share the request, row and response shapes and the credential check
 * of `AuthRoutes`, but the login issues only an access token and never looks
 * at `is_verified`.
 */
module LegacyAuthRoutes {

  import opened Wrappers
  import opened Json
  import opened Jose
  import opened Bcrypt
  import opened Crypto
  import opened Schemas
  import opened Users
  import opened Http
  import Security
  import AuthRoutes

  const EmailTaken: HttpError := HttpError(BadRequest, "The email already registered!", false)

  /**
   * `register_user(user)`: an email already present is refused with 400 and
   * nothing changes; a password `hash_pass` refuses is a 500 and nothing
   * changes; otherwise one verified, active row is added.
   */
  method RegisterUser(users: UserTable, b: Bcrypt, user: RegisterRequest, salt: Salt, id: string, now: Time)
    returns (r: Outcome<UserOut>)
    requires users.Valid()
    modifies users
    ensures users.Valid()
    ensures user.email in old(users.rows) ==> r == Failure(EmailTaken) && users.rows == old(users.rows)
    ensures user.email !in old(users.rows) && HashPass(b, user.password, salt).Err? ==>
      r == ServerError("ValueError") && users.rows == old(users.rows)
    ensures user.email !in old(users.rows) && HashPass(b, user.password, salt).Ok? ==>
      var row := UserRow(id, user.email, HashPass(b, user.password, salt).value, true, true, now);
      && users.rows == old(users.rows)[user.email := row]
      && r == Success(Public(row))
  {
    var existing := FetchByEmail(users.rows, Str(user.email));
    if existing.Found? {
      return Failure(EmailTaken);
    }
    var hashedPassword := HashPass(b, user.password, salt);
    if hashedPassword.Err? {
      return ServerError("ValueError");
    }
    var row := UserRow(id, user.email, hashedPassword.value, true, true, now);
    users.Insert(row);
    r := Success(Public(row));
  }

  /** The 401 of this login carries no `WWW-Authenticate` header. */
  const BadCredentials: HttpError := HttpError(Unauthorized, "Incorrect email or password", false)

  /**
   * `token(form_data)`: an unknown email and a wrong password get the same 401;
   * a password passlib refuses to verify is a 500; otherwise, verified or not,
   * the user gets an access token for the stored email, `"bearer"` and 3600
   * seconds.
   */
  method Token(users: UserTable, svc: AuthRoutes.Services, form: AuthRoutes.LoginForm, now: Time) returns (r: Outcome<TokenResponse>)
    requires users.Valid()
    ensures AuthRoutes.Authenticate(svc.bcrypt, users.rows, form).Rejected? ==> r == Failure(BadCredentials)
    ensures AuthRoutes.Authenticate(svc.bcrypt, users.rows, form).VerifyRaised? ==> r == ServerError("ValueError")
    ensures AuthRoutes.Authenticate(svc.bcrypt, users.rows, form).Accepted? ==>
      r == Success(AuthRoutes.BearerResponse(AuthRoutes.AccessTokenFor(svc, Str(form.username), now)))
  {
    var found := FetchByEmail(users.rows, Str(form.username));
    if !found.Found? {
      return Failure(BadCredentials);
    }
    var verified := VerifyPass(svc.bcrypt, form.password, found.row.hashedPass);
    if verified.Err? {
      return ServerError("ValueError");
    }
    if !verified.value {
      return Failure(BadCredentials);
    }
    var accessTokenExpires := AuthRoutes.AccessTokenExpireMinutes * 60;
    var token := Security.CreateAccessToken(svc.jwt, svc.secretKey, now, map["sub" := Str(found.row.email)], accessTokenExpires);
    var body := map["access_token" := Str(token), "token_type" := Str("bearer"), "expires_in" := Num(accessTokenExpires)];
    TokenResponseRoundTrip(AuthRoutes.BearerResponse(token));
    assert Dump(AuthRoutes.BearerResponse(token)) == body;
    r := Success(TokenResponseFrom(body).value);
  }
}
