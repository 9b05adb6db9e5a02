/**
 * The signed-claims token (section 4.1 of RFC 7519 for the registered claim
 * names) as python-jose encodes and decodes it with HS256 (section 3.2 of
 * RFC 7518). Signing and decoding are kept abstract.
 */
module Jose {

  import opened Wrappers
  import opened Json

  /** Whole seconds since the epoch: python-jose stores `exp` and `iat` as integers. */
  type Time = int

  /** A token payload. */
  type Claims = map<string, Value>

  /**
   * The claim checks python-jose's `decode` makes at time `now` that can fail
   * for a payload this system signs: an `exp` that is not an integer or lies in
   * the past (`exp < now`), a `sub` that is not a string.
   */
  predicate Refused(c: Claims, now: Time) {
    || ("exp" in c && (!c["exp"].Num? || c["exp"].n < now))
    || ("sub" in c && !c["sub"].Str?)
  }

  /**
   * `jwt.encode(claims, key, algorithm)` and `jwt.decode(token, key, algorithms)`
   * at time `now`; a failed decode carries the text of the `JWTError`.
   */
  datatype Jwt = Jwt(encode: (Claims, string) -> string, decode: (string, string, Time) -> Result<Claims, string>)

  /**
   * The contract assumed of python-jose: a token it signed decodes, under the same
   * key, to exactly its claims unless the claim checks refuse them, and nothing it
   * decodes fails those checks.
   */
  ghost predicate Sound(j: Jwt) {
    && (forall c, key, now {:trigger j.decode(j.encode(c, key), key, now)} ::
          j.decode(j.encode(c, key), key, now) == Ok(c) || Refused(c, now))
    && (forall c, key, now {:trigger j.decode(j.encode(c, key), key, now)} ::
          Refused(c, now) ==> j.decode(j.encode(c, key), key, now).Err?)
    && (forall token, key, now {:trigger j.decode(token, key, now)} ::
          j.decode(token, key, now).Ok? ==> !Refused(j.decode(token, key, now).value, now))
  }
}
