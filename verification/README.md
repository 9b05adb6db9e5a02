# authpad authentication core, in Dafny

This project models the core of authpad, a FastAPI authentication service, and proves
properties of that model. The core covers:

- the two password policies (`hash_password` / `verify_password` and `hash_pass` /
  `verify_pass`), including the 72-byte UTF-8 truncation done on the verify side;
- the OTP helpers of `OTPService`: generating a code, hashing it, and checking a typed code
  against a stored hash;
- how access and refresh tokens are built from a claims map, and how a refresh token is
  checked;
- validation of the registration body and of the token response;
- the `get_current_user` dependency;
- the decisions of the `/register`, `/token`, `/refresh` and `/logout` endpoints, in both
  the current router and the older one.

Some primitives are kept opaque and passed in as function-valued parameters:

| primitive | represented as | contract assumed |
|---|---|---|
| bcrypt | `Bcrypt.Bcrypt` | `Bcrypt.Sound`: on inputs of at most 72 bytes with no NUL byte, a hash verifies exactly the bytes it was made from. passlib's refusal of a NUL byte (`NullPasswordError`, a `ValueError`, from both `hash` and `verify`) is modelled in front of the primitive. |
| SHA-256 | a function to 32-byte `Otp.Digest` values | fixed output size (no further contract) |
| python-jose HS256 signing and decoding | `Jose.Jwt` | `Jose.Sound`: a token decodes to its own claims unless they are expired or have a non-string `sub`, and nothing it decodes fails those checks |
| pydantic's `EmailStr` | `Schemas.EmailCheck` | a plain predicate (no further contract): it accepts or refuses, and does not transform the value |

Lemmas that need one of these contracts take it as a precondition. The user table is a
`Users.UserTable` object whose `rows` map is keyed by email. Only registration writes to it.

Module layout, one module per file:

| module | models | notes |
|---|---|---|
| `Utf8` | encoder and error-ignoring decoder | section 3 and section 4 of RFC 3629 |
| `Text` | `strip`, `lower`, `isdigit` | |
| `Hex` | `hexdigest` | |
| `Bcrypt` | the opaque bcrypt pair | |
| `PasswordService` | `app/auth/services/password.py` | |
| `Crypto` | `app/utils/crypto.py` | |
| `Otp` | `app/auth/services/otp.py` | |
| `Json`, `Jose` | payload values and the token codec | |
| `JwtService` | `app/auth/services/jwt.py` | |
| `Security` | `app/core/security.py` | |
| `Schemas` | `app/auth/schemas.py` | |
| `Users`, `Http` | the table and the endpoint outcomes | |
| `Dependencies` | `app/auth/dependencies.py` | |
| `AuthRoutes` | `app/auth/routes.py` | |
| `LegacyAuthRoutes` | `app/routers/auth_routes.py` | |

Behaviours of the code that the model keeps as they are:

- The minimum password length is 8 characters, not 8 bytes (app/utils/crypto.py:17).
- Registration stores the user as already verified (app/auth/routes.py:51-54).
- Login and refresh do not look at `is_active`.
- Access tokens carry no `jti`.
- A password registered with leading or trailing whitespace does not verify when typed the same
  way again. See `AuthRoutes.PaddedPasswordDoesNotAuthenticate`.
- A password holding a NUL character is refused by passlib with a `ValueError`. Registration
  with it and a login with it both give a 500.

Where an import names something the repository does not define, the model binds it as follows:

- `app/auth/routes.py:9` imports `hash_pass`/`verify_pass` from a module that defines other
  names. `app/routers/auth_routes.py:7` imports them from a module that is not part of this
  model. Both are bound to `app/utils/crypto.py`.
- `app/routers/auth_routes.py:8` imports `UserRegistration`, `UserOut` and `TokenResponse` from a
  module that is not part of this model. They are bound to `Schemas.RegisterRequest` and
  `Schemas.TokenResponse` (app/auth/schemas.py) and to `Users.UserOut` (app/user/schemas.py).
- `verify_token` (`app/auth/dependencies.py:5`) is not defined anywhere. Its result is an
  input of `Dependencies.GetCurrentUser`.
- `ACCESS_TOKEN_EXPIRE_MINUTES` is taken from the settings: 60.

## Model

| member | source | states |
|---|---|---|
| Utf8.EncodeChar | app/auth/services/password.py:16 | A scalar value encodes to 1 to 4 bytes. It is exactly one byte iff it is ASCII, and every byte after the first is a continuation byte. |
| Utf8.Encode | app/auth/services/password.py:16 | A string encodes to between one and four bytes per character. |
| Utf8.DecodeFirst | app/auth/services/password.py:30 | A decoded first character consumes between 1 byte and the whole input. |
| Utf8.EncodeAppend | app/auth/services/password.py:16 | Encoding distributes over concatenation. |
| Utf8.DecodeFirstEncodeChar | app/auth/services/password.py:30 | The decoder reads back exactly the character the encoder wrote, and its length. |
| Utf8.TwoBytes | app/auth/services/password.py:16 | The two bytes written for U+0080 to U+07FF are a lead byte from 0xC2 to 0xDF and a continuation byte, and they carry the value back. |
| Utf8.ThreeBytes | app/auth/services/password.py:16 | The three bytes written for U+0800 to U+FFFF, surrogates excepted, are a well-formed sequence (no overlong form, no surrogate) that carries the value back. |
| Utf8.FourBytes | app/auth/services/password.py:16 | The four bytes written above U+FFFF are a well-formed sequence (no overlong form, nothing above U+10FFFF) that carries the value back. |
| Utf8.DecodeIgnore | app/auth/services/password.py:30 | Decoding with errors ignored never gives more characters than there are bytes. `Utf8.DecodeEncode` shows that it undoes `Encode`. |
| Utf8.DecodeEncode | app/auth/services/password.py:30 | Decoding with errors ignored undoes encoding. |
| Utf8.EncodeInjective | app/auth/services/password.py:31 | Different strings have different encodings. |
| Utf8.ContinuationsDecodeToNothing | app/auth/services/password.py:30 | Stray continuation bytes decode to nothing. |
| Utf8.CutCharDecodesToNothing | app/auth/services/password.py:30 | A character cut short decodes to nothing, so no half character is kept. |
| Utf8.CutFirstChar | app/auth/services/password.py:30 | When the first character does not fit in k bytes, the truncation is empty. |
| Utf8.DecodeCutAfterFirst | app/auth/services/password.py:30 | Truncation keeps a first character that fits and continues on the rest with the remaining budget. |
| Utf8.LongestFittingPrefix | app/auth/services/password.py:30 | The result is a prefix whose encoding fits in k bytes, and adding the next character would not fit. |
| Utf8.FittingPrefixStep | app/auth/services/password.py:30 | A first character that fits is kept, and the rest of the prefix is the longest one fitting in what remains. |
| Utf8.DecodeTakeIsLongestFittingPrefix | app/auth/services/password.py:30 | Encoding, slicing to k bytes and decoding with errors ignored gives the longest whole-character prefix that fits. |
| Utf8.Truncate | app/auth/services/password.py:30 | `s.encode("utf-8")[:k].decode("utf-8", errors="ignore")` is the longest prefix of whole characters whose encoding fits in k bytes (`Utf8.LongestFittingPrefix`). |
| Utf8.TruncateFitting | app/auth/services/password.py:30 | A string that already fits is unchanged by truncation. |
| Text.TrimStart | app/auth/services/password.py:13 | `lstrip` removes exactly the leading whitespace. |
| Text.TrimEnd | app/auth/services/password.py:13 | `rstrip` removes exactly the trailing whitespace. |
| Text.StripInfix | app/auth/services/password.py:13 | What `strip` keeps is a contiguous part of the input, starting right after the leading whitespace. |
| Text.StripTrailing | app/auth/services/password.py:13 | Everything `strip` removes after the kept part is whitespace. |
| Text.StripShape | app/auth/services/password.py:13 | `strip` keeps the infix between a whitespace prefix and a whitespace suffix, and that infix has no whitespace at either end. |
| Text.Strip | app/auth/services/password.py:13 | `strip` never lengthens its input. What it keeps is stated by `Text.StripShape`. |
| Text.TrimStartKeepsNonSpace | app/auth/services/password.py:13 | `lstrip` keeps every occurrence of a non-whitespace character. |
| Text.TrimEndKeepsNonSpace | app/auth/services/password.py:13 | `rstrip` keeps every occurrence of a non-whitespace character. |
| Text.StripKeepsNonSpace | app/auth/services/password.py:13 | A non-whitespace character, NUL among them, occurs in the stripped string iff it occurs in the input. |
| Text.StripEmpty | app/auth/services/password.py:13-15 | `strip` gives the empty string iff the input is all whitespace. |
| Text.StripUnchanged | app/auth/schemas.py:17 | A string with no surrounding whitespace is unchanged by `strip`. |
| Text.StripStrip | app/auth/schemas.py:17 | `strip` is idempotent. |
| Text.LowerKeepsSpace | app/auth/schemas.py:12 | Lower-casing neither creates nor removes whitespace. |
| Text.Lower | app/auth/schemas.py:12 | Lower-casing keeps the length and leaves no upper-case ASCII letter. |
| Text.LowerTrimStart | app/auth/schemas.py:12 | Lower-casing commutes with `lstrip`. |
| Text.LowerTrimEnd | app/auth/schemas.py:12 | Lower-casing commutes with `rstrip`. |
| Text.LowerStripCommute | app/auth/schemas.py:12 | `v.lower().strip() == v.strip().lower()`. |
| Bcrypt.TrimForBcrypt | app/auth/services/password.py:30 | The text handed to bcrypt fits in 72 bytes and is the longest whole-character prefix of the input that does. |
| Bcrypt.TrimForBcryptFitting | app/utils/crypto.py:23 | A password of at most 72 bytes is verified as given. |
| Bcrypt.EncodeHasNul | app/auth/services/password.py:26-31 | The encoding holds a 0 byte iff the string holds U+0000, so passlib's NUL check on the bytes is a check on the text. |
| Bcrypt.AsciiEncodeLength | app/utils/crypto.py:23 | ASCII text takes one byte per character. |
| Bcrypt.AsciiTrim | app/utils/crypto.py:23 | For ASCII text the truncation keeps the first 72 characters. |
| PasswordService.HashPassword | app/auth/services/password.py:10-26 | A non-string is rejected first. Then, on the stripped input: empty is rejected, more than 72 bytes is rejected, fewer than 8 characters is rejected, in that order. A password that passes these checks but holds a NUL character is refused by passlib (`NullPassword`). Otherwise the hash is of exactly the stripped password. |
| PasswordService.VerifyPassword | app/auth/services/password.py:29-31 | The result is an error iff the 72-byte truncation holds a NUL character, and that error is `NullPassword`. Otherwise it is bcrypt's answer for exactly the truncation's bytes. |
| PasswordService.StripEncodeLength | app/auth/services/password.py:13-16 | The stripped password never takes more bytes than the raw one. |
| PasswordService.UnstrippedBytes | app/auth/services/password.py:13-31 | A password of at most 72 bytes that `strip` changes, and whose stripped form holds no NUL, reaches bcrypt whole on the verify side. Neither form holds a NUL byte, and their encodings differ. |
| PasswordService.VerifyAgainstOwnHash | app/auth/services/password.py:29-31 | Under the bcrypt contract, `verify_password(plain, hash_password(p))` is `True` iff the truncated `plain` equals the stripped `p`. |
| PasswordService.HashThenVerify | app/auth/services/password.py:26-31 | Under the bcrypt contract, an accepted password with no surrounding whitespace verifies (`True`) against its own hash. |
| PasswordService.OtherPasswordFails | app/auth/services/password.py:29-31 | Under the bcrypt contract, any other password of at most 72 bytes gives `False` against that hash, or passlib's `ValueError` when it holds a NUL character. |
| PasswordService.LeadingSpaceDoesNotVerify | app/auth/services/password.py:13-30 | Verification does not strip, so an accepted password of at most 72 bytes with leading whitespace gives `False`, not an error, against its own hash. |
| PasswordService.MessagesNameTheirRule | app/auth/services/password.py:12-25 | Every error message password.py raises itself mentions "password", and the too-long message mentions "72". passlib's own NUL message is not part of the model. |
| Crypto.HashPass | app/utils/crypto.py:10-19 | On the stripped input, more than 72 bytes is rejected, then fewer than 8 characters. A password that passes both but holds a NUL character is refused by passlib (`NullPassword`). Otherwise the hash is of the stripped password. |
| Crypto.MessagesNameTheirLimits | app/utils/crypto.py:15-18 | The too-long message names 72 and bytes, and the too-short message names 8 and chars. |
| Crypto.VerifyPass | app/utils/crypto.py:22-24 | The result is an error iff the 72-byte truncation holds a NUL character, and that error is `NullPassword`. Otherwise it is bcrypt's answer for exactly the truncation's bytes. |
| Crypto.Repeat | app/utils/crypto.py:15-16 | `c * n` has n characters, all `c`. |
| Crypto.RepeatAscii | app/utils/crypto.py:11-12 | A run of one ASCII non-whitespace character is its own `strip()` and takes one byte per character. |
| Crypto.SameAcceptance | app/utils/crypto.py:10-19 | `hash_pass` accepts the same strings as `hash_password`, with the same hash, and both refuse the same NUL-holding passwords. An empty password is rejected as too short. |
| Crypto.RejectsShort | app/utils/crypto.py:17-18 | `"abc"` is rejected as too short. |
| Crypto.RejectsLong | app/utils/crypto.py:15-16 | `"a" * n` with n > 72 is rejected as too long. |
| Crypto.VerifyTrimsToSeventyTwo | app/utils/crypto.py:23 | `verify_pass` reduces `"a" * n` with n ≥ 72 to 72 `a`s. |
| Crypto.HashThenVerify | app/utils/crypto.py:19-24 | Under the bcrypt contract, the round trip gives `True`. Any other password of at most 72 bytes gives `False`, or passlib's `ValueError` when it holds a NUL character. |
| Crypto.TruncatedHashVerifies | app/utils/crypto.py:22-24 | The hash of the 72-byte truncation verifies (`True`) against the untruncated password and against the truncation itself. |
| Crypto.UnstrippedPasswordFails | app/utils/crypto.py:10-24 | Under the bcrypt contract, a password of at most 72 bytes that `strip` changes gives `False`, not an error, against the hash of its stripped form (what `hash_pass` stores), when that form holds no NUL. |
| Hex.HexDigest | app/auth/services/otp.py:31 | The result has two lowercase hex digits per byte. |
| Hex.HexDigit | app/auth/services/otp.py:31 | The digit written for a nibble is a lowercase hex digit. |
| Hex.NibbleValue | app/auth/services/otp.py:31 | Every lowercase hex digit reads back to the nibble it stands for. |
| Hex.NibbleOfDigit | app/auth/services/otp.py:31 | Reading a digit back gives the nibble that wrote it. |
| Hex.UnhexByte | app/auth/services/otp.py:31 | The two digits written for a byte read back as that byte, in front of whatever the rest reads back as. |
| Hex.UnhexHexDigest | app/auth/services/otp.py:31 | Hex encoding is undone by hex decoding. |
| Hex.HexDigestInjective | app/auth/services/otp.py:31 | Different digests have different hex strings. |
| Otp.GenerateOtp | app/auth/services/otp.py:14-18 | The code has exactly `length` characters (none for a non-positive length), each a digit. |
| Otp.HashToken | app/auth/services/otp.py:22-32 | The result is 64 lowercase hex characters. |
| Otp.HashTokenDistinct | app/auth/services/otp.py:31 | Inputs with different digests have different hashes. |
| Otp.VerifyInputToken | app/auth/services/otp.py:36-50 | The not-digits error comes iff the input is not a non-empty digit string. The length error comes iff digits of the wrong length. Otherwise the result is whether the stored hash equals the input's hash. |
| Otp.DigitChar | app/auth/services/otp.py:47 | The digit written for 0 to 9 is a decimal digit of that value. |
| Otp.DecimalString | app/auth/services/otp.py:47 | `str(n)`: for n ≥ 0, digits only, reading back as n, with a leading 0 only for 0 itself. For n < 0, a minus sign before the digits of -n, which have no leading 0. |
| Otp.DecimalStringInjective | app/auth/services/otp.py:47 | Different integers have different `str` forms. |
| Otp.WrongLengthMessageNamesLength | app/auth/services/otp.py:44-47 | The length message holds `str(expected_length)` after its fixed opening words. Different lengths give different messages, and none of them is the digits message. |
| Otp.OwnHashVerifies | app/auth/services/otp.py:49-50 | A code checked against its own hash gives true. |
| Otp.OtherCodeIsFalse | app/auth/services/otp.py:49-50 | A different well-formed code with a different digest gives false, not an error. |
| Otp.NonDigitsRejected | app/auth/services/otp.py:43-44 | `"123xyz"` and `""` are rejected as not digits. |
| Otp.GenerateThenVerify | app/auth/services/otp.py:14-50 | A freshly generated 6-digit code verifies against its own hash. |
| Json.Get | app/auth/services/jwt.py:39 | `payload.get(key)` gives the value under the key, or `None` when the key is absent. |
| JwtService.RefreshClaims | app/auth/services/jwt.py:12-19 | The payload has the keys of `data` plus `exp`, `iat` and `type`. These three hold now + delta, now and `"refresh"`. Every other key of `data` is kept. |
| JwtService.CreateRefreshTokenAsWritten | app/auth/services/jwt.py:6-26 | As written: no delta raises `TypeError`, and a given delta encodes `RefreshClaims` with that delta. |
| JwtService.RefreshTtl | app/auth/services/jwt.py:10-13 | A missing delta means 30 days, and a non-zero delta is used as given. |
| JwtService.CreateRefreshToken | app/auth/services/jwt.py:6-26 | The token encodes `RefreshClaims` with the delta, or 30 days. |
| JwtService.DefaultRefreshLifetime | app/auth/services/jwt.py:10 | Called with no delta, the token expires 30 days after now. |
| JwtService.VerifyRefreshToken | app/auth/services/jwt.py:29-47 | A decode error becomes "invalid" with the decoder's reason. A payload whose `type` is not `"refresh"` becomes "not a refresh token". Otherwise the payload is returned unchanged, and these cases are exhaustive. |
| JwtService.RefreshRoundTrip | app/auth/services/jwt.py:12-42 | Under the token contract and before expiry, a created refresh token verifies to its own payload, so `sub` is preserved. |
| JwtService.ExpiredRefreshRefused | app/auth/services/jwt.py:44-47 | After `exp`, a refresh token is refused as invalid, not as "not a refresh token". |
| Security.AccessClaims | app/core/security.py:18-19 | The payload has the keys of `data` plus `exp`, with `exp` = now + delta, and every other key kept. |
| Security.CreateAccessTokenAsWritten | app/core/security.py:16-20 | As written, every call raises `AttributeError`. |
| Security.CreateAccessToken | app/core/security.py:16-20 | The token encodes `AccessClaims` of the given delta (30 minutes by default). |
| Security.DefaultAccessLifetime | app/core/security.py:16 | The default lifetime is 1800 seconds, and no `jti` is added. |
| Security.AccessRoundTrip | app/core/security.py:18-20 | Under the token contract and before expiry, an access token decodes to its payload. |
| Security.NegativeLifetimeExpired | app/core/security.py:19 | A negative delta gives a token the decoder refuses. |
| Security.AccessTokenIsNotRefresh | app/core/security.py:18-20 | An access token, expired or not, is refused by `verify_refresh_token`. |
| Security.GetCurrentUser | app/core/security.py:24-34 | A decode error raises 401 "Invalid token!". A missing or null `sub` returns, not raises, that exception. Otherwise `sub` is returned. |
| Security.RefreshTokenAcceptedAsAccess | app/core/security.py:27-31 | A live refresh token is accepted by this dependency as if it were an access token. |
| Schemas.ValidatePassword | app/auth/schemas.py:7-20 | The password is accepted iff both the raw and the stripped length are 8 to 72 characters, and the stripped password is stored. |
| Schemas.NormalizeEmail | app/auth/schemas.py:9-12 | `v.lower().strip()` is no longer than `v`, holds no upper-case ASCII letter, and has no whitespace at either end. |
| Schemas.ValidateRegister | app/auth/schemas.py:5-24 | The body is accepted iff its fields are exactly `email` and `password`, both strings, the email passes `EmailStr` and the password passes. The stored email is `lower().strip()` of the raw input, not of the address `EmailStr` would hand the validator (see "## Left out"). |
| Schemas.RegisterBody | app/auth/schemas.py:5-7 | A request is sent as exactly the two declared fields. |
| Schemas.LowerLower | app/auth/schemas.py:12 | Lower-casing is idempotent. |
| Schemas.NormalizeEmailIdempotent | app/auth/schemas.py:9-12 | A normalised email normalises to itself. |
| Schemas.ValidatePasswordIdempotent | app/auth/schemas.py:14-20 | A stored password validates to itself. |
| Schemas.ValidateRegisterIdempotent | app/auth/schemas.py:5-24 | Re-validating the request that validation produced gives it back. |
| Schemas.ExtraFieldRejected | app/auth/schemas.py:22-24 | Any extra field makes the body invalid. |
| Schemas.AbcTimesThirty | app/auth/schemas.py:7 | `"abc" * 30` has 90 characters. |
| Schemas.LengthExamples | app/auth/schemas.py:7 | `"021"` and `"abc" * 30` are refused. |
| Schemas.PaddedTrimStart | app/auth/schemas.py:17 | `lstrip` of `"  123abcde  "` is `"123abcde  "`. |
| Schemas.PaddedTrimEnd | app/auth/schemas.py:17 | `rstrip` of `"123abcde  "` is `"123abcde"`. |
| Schemas.PaddedPasswordExample | app/auth/schemas.py:17-20 | `"  123abcde  "` is stored as `"123abcde"`. |
| Schemas.EmailExample | app/auth/schemas.py:12 | `" MaHdi@x.com "` is stored as `"mahdi@x.com"`. |
| Schemas.TokenResponseFrom | app/auth/schemas.py:27-30 | The response is accepted iff `access_token` is a string, `token_type` is absent or a string, and `expires_in` is absent, null or an integer. The access token is kept, `token_type` is the given string or `"bearer"`, and `expires_in` is set iff an integer was given. |
| Schemas.Dump | app/auth/schemas.py:27-30 | A dumped response has exactly the three declared fields. |
| Schemas.TokenResponseRoundTrip | app/auth/schemas.py:27-30 | Validating a dumped response gives it back. |
| Schemas.TokenResponseDefaults | app/auth/schemas.py:29-30 | `token_type` defaults to `"bearer"` and `expires_in` to `None`. An explicit null `expires_in` is accepted and an explicit null `token_type` is refused. |
| Schemas.UndeclaredFieldIgnored | app/auth/schemas.py:27-30 | An undeclared field such as `refresh_token` does not change the response and never appears in its dump. |
| Users.Public | app/auth/routes.py:52-63 | The public view has exactly the row's id, email and verified flag, and its creation time. |
| Users.UserTable.constructor | app/db/models.py:14 | The table starts empty and keyed by email. |
| Users.UserTable.Insert | app/auth/routes.py:49-55 | Adds exactly one row, under its email, and keeps the table keyed. |
| Users.FetchByEmail | app/auth/dependencies.py:47 | A string finds its row or none. `None` finds none. Any other value is a driver `DataError`. |
| Users.FoundRowHasEmail | app/auth/routes.py:91-94 | In a keyed table, the row found for an email has that email. |
| Dependencies.GetCurrentUser | app/auth/dependencies.py:14-52 | Success comes iff verification succeeded, `sub` is a non-empty string, and the user exists, is verified and is active. On success the row is that user's. Every rejection is the same 401 with the bearer challenge. A 500 comes iff `sub` is truthy but not a string. |
| Dependencies.DisabledAccountRejected | app/auth/dependencies.py:49-50 | An unverified or inactive account gets the 401 whatever the token says. |
| AuthRoutes.Authenticate | app/auth/routes.py:91-102 | Three outcomes. A row is accepted iff the username is stored and `verify_pass` gives `True` for the password against its hash. passlib's `ValueError` comes iff the username is stored and `verify_pass` raises. Otherwise the credentials are rejected. |
| AuthRoutes.TokenFieldsValidate | app/auth/routes.py:121-126 | The fields the endpoint passes validate to the access token, `"bearer"` and 3600, with the refresh token dropped. |
| AuthRoutes.RegisterUser | app/auth/routes.py:19-63 | A taken email gives 400 with the table unchanged. A password `hash_pass` refuses gives 500 with the table unchanged. Otherwise exactly one verified, active row is added and its public view is returned. |
| AuthRoutes.Token | app/auth/routes.py:67-126 | Rejected credentials give 401 with the bearer challenge. A `ValueError` from `verify_pass` gives 500. Then an unverified user gets 403. Otherwise the response holds an access token for the stored email, `"bearer"` and 3600. The table is not modified. |
| AuthRoutes.Refresh | app/auth/routes.py:130-201 | In order: an invalid refresh token gives 401 with its reason, a driver-refused `sub` gives 401, a missing user 404, an unverified user 403, otherwise a new access token for `sub`. The table is not modified. |
| AuthRoutes.LogoutUser | app/auth/routes.py:205-224 | Succeeds iff the dependency does, with `revoked: true` and the fixed message. Otherwise it gives the dependency's 401 or 500. |
| AuthRoutes.LogoutRevokesNothing | app/auth/routes.py:220-224 | After a logout, the same credential still authenticates and logs out again. |
| AuthRoutes.RepeatAcute | app/auth/schemas.py:7 | `"é" * n` has n characters. |
| AuthRoutes.AcuteEncodeLength | app/utils/crypto.py:12 | `"é" * n` takes 2n bytes. |
| AuthRoutes.WideCharactersPassSchemaNotHash | app/auth/routes.py:47 | 37 to 72 copies of `"é"` pass the schema but are refused by `hash_pass`, so registration gives 500. |
| AuthRoutes.RegisteredUserAuthenticates | app/auth/routes.py:47-97 | Under the bcrypt contract, a registered user is accepted, with the row just stored, when logging in with the validated email and password. |
| AuthRoutes.RegisterThenLogIn | app/auth/routes.py:19-126 | Under the bcrypt contract, a successful registration followed by a login with the same credentials yields an access token. |
| AuthRoutes.StoredPasswordDiffers | app/auth/schemas.py:17 | A password beginning or ending with whitespace is stored changed. |
| AuthRoutes.StoredHashRejectsRaw | app/auth/routes.py:47-97 | Under the bcrypt contract, the hash `hash_pass` stores for a validated password of at most 72 bytes with whitespace at either end gives `False`, not an error, against that password as typed. |
| AuthRoutes.WrongPasswordRejected | app/auth/routes.py:91-102 | When the stored row's hash makes `verify_pass` return `False` for the password, the login is rejected: it neither succeeds nor raises. |
| AuthRoutes.PaddedPasswordDoesNotAuthenticate | app/auth/routes.py:47-97 | Under the bcrypt contract, logging in with a password of at most 72 bytes exactly as registered is rejected (401, not 500) when it began or ended with whitespace. |
| AuthRoutes.IssuedRefreshTokenRefreshes | app/auth/routes.py:119-165 | Under the token contract, the refresh token made at login verifies for 30 days and finds the same user. |
| AuthRoutes.RefreshNeverReachesDataError | app/auth/routes.py:155-165 | Under the token contract, a verified refresh token never carries a `sub` the driver refuses. |
| LegacyAuthRoutes.RegisterUser | app/routers/auth_routes.py:14-45 | A taken email gives 400 "The email already registered!" with the table unchanged. A refused password gives 500. Otherwise one verified, active row is added. |
| LegacyAuthRoutes.Token | app/routers/auth_routes.py:49-82 | Rejected credentials give 401 without a challenge header. A `ValueError` from `verify_pass` gives 500. Otherwise, verified or not, the response holds an access token, `"bearer"` and 3600. The table is not modified. |

## Left out

- `EmailService`: sending mail over SMTP and the template rendering are I/O.
- The OTP request and check state machine, and the login lockout: no code in the core reads or
  writes those fields.
- Database plumbing: the connection pool and async I/O. The table is a keyed map.
  - The model is sequential: one request runs to completion before the next starts. Two
    concurrent registrations of one email can both pass the existence check, and the second
    `INSERT` then raises `UniqueViolationError`, a 500. That race is not modelled.
  - The table's DDL is not part of this model. The raw `INSERT` at app/auth/routes.py:49-55
    names only `email`, `hashed_pass` and `is_verified`. The ORM's `default=uuid.uuid4` for `id`
    (app/db/base.py:21) and `default=True` for `is_active` (app/db/models.py:19) are applied by
    SQLAlchemy on the client, not by such an `INSERT`. The model assumes the table itself
    supplies a fresh `id` and `is_active = true`. The id is a parameter. `created_at` has a
    server default (app/db/base.py:15) and is the `now` parameter.
  - Column names: app/auth/routes.py:51 and :92 use `hashed_pass`, while
    app/auth/dependencies.py:40 and the ORM model (app/db/models.py:16) use `password_hash`.
    The model assumes one column that both names reach. A table with only one of the two
    names would make the queries that use the other fail.
  - A NUL character in a query parameter, such as a login username, is refused by PostgreSQL
    with an error (a 500). That refusal is not modelled.
  - The 500 "User registration failed" branch is not modelled: an `INSERT ... RETURNING` row is
    never empty.
- FastAPI wiring: 422 responses for bodies that fail validation, and the OAuth2 scheme's own
  401 "Not authenticated" for a missing header.
- `protected_area` in app/routers/auth_routes.py: it calls `UserOut` with a positional
  argument on a value of unknown shape.
- Randomness: `secrets.choice` is a nondeterministic choice of digit, and bcrypt salts are a
  parameter whose freshness is not modelled.
- The clock: `now` is one parameter of whole seconds per call. jwt.py reads the clock twice,
  and sub-second times are not modelled.
- The primitives bcrypt, SHA-256, HS256 signing and decoding, and the `EmailStr` check are
  opaque parameters.
  - Bcrypt.Bcrypt: `verify` is a total Boolean. passlib raises `ValueError` when the stored
    hash is not a bcrypt hash. Every stored hash here comes from `hash_pass`, so no modelled
    path reaches that case.
  - python-jose's other claim checks (`iat`, `nbf`, `aud`) and its coercion of numeric strings
    in `exp` are not modelled.
  - The wrong-key and wrong-algorithm cases appear only as a decode error.
- Text.IsDigitString: ASCII digits only. Python's `isdigit` also accepts other Unicode digits.
- Text.LowerChar: ASCII letters only. Python's `lower` maps all of Unicode.
- Strings are sequences of Unicode scalar values. Lone surrogates, which Python strings can hold
  and UTF-8 encoding rejects, are not modelled.
- Schemas.ValidateRegister: does not model `EmailStr`'s own normalisation, which runs before
  the validator at app/auth/schemas.py:9-12. That covers pydantic's extraction of the address
  from a `Name <addr>` value and email-validator's normalisation of the address. For
  `"Bob <B@x.com>"` the program stores `"b@x.com"`, while the model stores `"bob <b@x.com>"`. pydantic's lax coercions of bytes to string and of numeric strings or booleans to
  integers are not modelled either.
- `hash_pass` and `hash_password` given a non-string: `hash_pass` would raise
  `AttributeError`. Only `hash_password`'s type check is modelled, since the routes always pass
  a validated string.
- Dependencies.GetCurrentUser: `verify_token` is not defined in the repository. Its outcome is
  an input, and only its `ValueError` is modelled.
- AuthRoutes.Refresh: the detail for a `sub` the driver refuses uses a fixed text. asyncpg's
  message also names the value and its type.
- `LogoutUser`'s timestamp is the `now` parameter rather than its ISO-8601 text.

## Findings

| source | as written | input that shows it | evidently intended | confidence | as-written member | corrected member |
|---|---|---|---|---|---|---|
| app/core/security.py:19 | `datetime.now(datetime.timezone.utc)`, where `datetime` is the class imported at line 5, which has no `timezone` attribute | any call, e.g. `create_access_token({"sub": "a@b.c"})` | `datetime.now(timezone.utc)`: a token expiring `expires_delta` after now | not executed | Security.CreateAccessTokenAsWritten | Security.CreateAccessToken |
| app/auth/services/jwt.py:13 | `datetime.now(timezone.utc) + expire_delta or timedelta(days=30)` parses as `(now + expire_delta) or ...` | `create_refresh_token({"sub": "a@b.c"})` with no delta, as app/auth/routes.py:119 calls it, raises `TypeError` | `now + (expire_delta or timedelta(days=30))`: 30 days by default (the docstring at line 10) | not executed | JwtService.CreateRefreshTokenAsWritten | JwtService.CreateRefreshToken |

The endpoints in the model use the corrected members. As written, every successful login and
every refresh that passes the token and user checks would fail with a 500 at these lines.
