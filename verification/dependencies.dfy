/** `app/auth/dependencies.py`: the `get_current_user` dependency of the protected endpoints. */
module Dependencies {

  import opened Wrappers
  import opened Json
  import opened Jose
  import opened Users
  import opened Http

  /** The single rejection this dependency raises. */
  const CredentialsError: HttpError := HttpError(Unauthorized, "Could not validate credentials", true)

  /**
   * `get_current_user(token)`. `verified` is what `verify_token(token, key)`
   * gives: the payload, or the `ValueError` it raises. A failed verification or a
   * falsy `sub` is rejected; the row is looked up by `sub` (outside the `try`, so
   * asyncpg's `DataError` on a non-string `sub` escapes as a 500); a missing,
   * unverified or inactive user is rejected; otherwise the row is returned.
   */
  function GetCurrentUser(verified: Result<Claims, string>, rows: map<string, UserRow>): (r: Outcome<UserRow>)
    requires Keyed(rows)
    ensures r.Success? <==>
      && verified.Ok? && Get(verified.value, "sub").Str?
      && var email := Get(verified.value, "sub").s;
         email != [] && email in rows && rows[email].isVerified && rows[email].isActive
    ensures r.Success? ==> r.value == rows[verified.value["sub"].s]
    ensures r.Success? ==> r.value.email == verified.value["sub"].s && r.value.isVerified && r.value.isActive
    ensures r.Failure? ==> r.error == CredentialsError
    ensures r.ServerError? <==> verified.Ok? && Truthy(Get(verified.value, "sub")) && !Get(verified.value, "sub").Str?
  {
    match verified
    case Err(_) => Failure(CredentialsError)
    case Ok(payload) =>
      var email := Get(payload, "sub");
      if !Truthy(email) then Failure(CredentialsError)
      else
        match FetchByEmail(rows, email)
        case DataError => ServerError("DataError")
        case NoRow => Failure(CredentialsError)
        case Found(row) =>
          if !row.isVerified || !row.isActive then Failure(CredentialsError)
          else Success(row)
  }

  /** An unverified or inactive account never authenticates, whatever the token says. */
  lemma DisabledAccountRejected(verified: Result<Claims, string>, rows: map<string, UserRow>, email: string)
    requires Keyed(rows)
    requires email in rows && (!rows[email].isVerified || !rows[email].isActive)
    requires verified.Ok? && Get(verified.value, "sub") == Str(email)
    ensures GetCurrentUser(verified, rows) == Failure(CredentialsError)
  {
  }
}
