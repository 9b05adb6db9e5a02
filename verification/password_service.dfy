/** `app/auth/services/password.py`: `hash_password` and `verify_password`. */
module PasswordService {

  import opened Wrappers
  import opened Utf8
  import opened Text
  import opened Bcrypt

  /** What a caller passes as `password`: a `str`, or some other object such as `None`. */
  datatype Arg = Str(s: string) | NotStr

  /**
   * The `ValueError`s `hash_password` raises, in the order its checks run, and
   * the `NullPasswordError` passlib raises after them.
   */
  datatype PasswordError = NotAString | Empty | TooLong | TooShort | NullPassword

  /**
   * The text of each `ValueError` this file raises itself. The "too long" check
   * at line 16 always fires before the one at line 22, so the message of line 23
   * is never produced. passlib words its own error; that text is not modelled.
   */
  function Message(e: PasswordError): string
    requires e != NullPassword
  {
    match e
    case NotAString => "Password must be a string"
    case Empty => "Password cannot be empty"
    case TooLong => "Password must be at most 72 bytes"
    case TooShort => "Password too short (Min: 8 chars)"
  }

  /** True when the stripped password passes every check of `hash_password`. */
  predicate Acceptable(p: string) {
    var t := Strip(p);
    t != [] && |Encode(t)| <= MaxPasswordBytes && |t| >= MinPasswordChars
  }

  /**
   * `hash_password(password)`, with the salt passlib draws made a parameter:
   * type check, strip, empty check, byte-length check, character-length check,
   * then passlib's hash of exactly the stripped password, which it refuses when
   * that holds a NUL character.
   */
  function HashPassword(b: Bcrypt, password: Arg, salt: Salt): (r: Result<string, PasswordError>)
    ensures password.NotStr? ==> r == Err(NotAString)
    ensures password.Str? ==> var t := Strip(password.s);
      && (r == Err(Empty) <==> t == [])
      && (r == Err(TooLong) <==> t != [] && |Encode(t)| > MaxPasswordBytes)
      && (r == Err(TooShort) <==> t != [] && |Encode(t)| <= MaxPasswordBytes && |t| < MinPasswordChars)
      && (r == Err(NullPassword) <==> Acceptable(password.s) && '\0' in t)
      && (r.Ok? <==> Acceptable(password.s) && '\0' !in t)
      && (r.Ok? ==> r.value == b.hash(Encode(t), salt) && !HasNul(Encode(t)))
  {
    match password
    case NotStr => Err(NotAString)
    case Str(s) =>
      var p := Strip(s);
      EncodeHasNul(p);
      if p == [] then Err(Empty)
      else if |Encode(p)| > 72 then Err(TooLong)
      else if |Encode(p)| > MaxPasswordBytes then Err(TooLong)
      else if |p| < MinPasswordChars then Err(TooShort)
      else if HasNul(Encode(p)) then Err(NullPassword)
      else Ok(b.hash(Encode(p), salt))
  }

  /**
   * `verify_password(plain, password_hash)`: no strip, only the 72-byte
   * truncation; passlib refuses the truncated text when it holds a NUL
   * character, and otherwise gives bcrypt's answer for it.
   */
  function VerifyPassword(b: Bcrypt, plain: string, passwordHash: string): (r: Result<bool, PasswordError>)
    ensures r.Err? <==> '\0' in LongestFittingPrefix(plain, MaxPasswordBytes)
    ensures r.Err? ==> r.error == NullPassword
    ensures r.Ok? ==> r.value == b.verify(Encode(LongestFittingPrefix(plain, MaxPasswordBytes)), passwordHash)
  {
    var trimmed := Encode(TrimForBcrypt(plain));
    EncodeHasNul(TrimForBcrypt(plain));
    if HasNul(trimmed) then Err(NullPassword) else Ok(b.verify(trimmed, passwordHash))
  }

  /**
   * Under the bcrypt contract, a password checks against the hash of an accepted
   * password exactly when its truncation equals that password stripped.
   */
  lemma VerifyAgainstOwnHash(b: Bcrypt, p: string, salt: Salt, plain: string)
    requires Sound(b)
    requires HashPassword(b, Str(p), salt).Ok?
    ensures VerifyPassword(b, plain, HashPassword(b, Str(p), salt).value) == Ok(true) <==> TrimForBcrypt(plain) == Strip(p)
  {
    var t := Strip(p);
    var trimmed := TrimForBcrypt(plain);
    var h := HashPassword(b, Str(p), salt).value;
    if !HasNul(Encode(trimmed)) {
      assert b.verify(Encode(trimmed), b.hash(Encode(t), salt)) <==> Encode(trimmed) == Encode(t);
      if Encode(trimmed) == Encode(t) {
        EncodeInjective(trimmed, t);
      }
    }
  }

  /** An accepted password with no surrounding whitespace verifies against its own hash. */
  lemma HashThenVerify(b: Bcrypt, p: string, salt: Salt)
    requires Sound(b)
    requires HashPassword(b, Str(p), salt).Ok? && Strip(p) == p
    ensures VerifyPassword(b, p, HashPassword(b, Str(p), salt).value) == Ok(true)
  {
    TrimForBcryptFitting(p);
    VerifyAgainstOwnHash(b, p, salt, p);
  }

  /**
   * A different password of at most 72 bytes never verifies against the hash of
   * an accepted password with no surrounding whitespace: it is refused when it
   * holds a NUL character and checks false otherwise.
   */
  lemma OtherPasswordFails(b: Bcrypt, p: string, salt: Salt, other: string)
    requires Sound(b)
    requires HashPassword(b, Str(p), salt).Ok? && Strip(p) == p
    requires other != p && |Encode(other)| <= MaxPasswordBytes
    ensures VerifyPassword(b, other, HashPassword(b, Str(p), salt).value)
      == if '\0' in other then Err(NullPassword) else Ok(false)
  {
    TrimForBcryptFitting(other);
    VerifyAgainstOwnHash(b, p, salt, other);
  }

  /** What `strip()` keeps never takes more bytes than the whole string. */
  lemma StripEncodeLength(s: string)
    ensures |Encode(Strip(s))| <= |Encode(s)|
  {
    StripInfix(s);
    var k := LeadingSpaces(s);
    var m := k + |Strip(s)|;
    assert s == s[..k] + Strip(s) + s[m..];
    EncodeAppend(s[..k], Strip(s));
    EncodeAppend(s[..k] + Strip(s), s[m..]);
  }

  /**
   * A password that fits in 72 bytes and differs from its stripped form, which
   * holds no NUL: both reach bcrypt whole, neither holds a NUL byte, and their
   * encodings differ.
   */
  lemma UnstrippedBytes(raw: string)
    requires Strip(raw) != raw && |Encode(raw)| <= MaxPasswordBytes && '\0' !in Strip(raw)
    ensures LongestFittingPrefix(raw, MaxPasswordBytes) == raw && '\0' !in raw
    ensures !HasNul(Encode(raw)) && !HasNul(Encode(Strip(raw))) && |Encode(Strip(raw))| <= MaxPasswordBytes
    ensures Encode(raw) != Encode(Strip(raw))
  {
    TrimForBcryptFitting(raw);
    StripKeepsNonSpace(raw, '\0');
    EncodeHasNul(raw);
    EncodeHasNul(Strip(raw));
    StripEncodeLength(raw);
    if Encode(raw) == Encode(Strip(raw)) {
      EncodeInjective(raw, Strip(raw));
    }
  }

  /**
   * `verify_password` does not strip: an accepted password that starts with
   * whitespace and fits in 72 bytes checks false against its own hash, which
   * was made from the stripped text.
   */
  lemma LeadingSpaceDoesNotVerify(b: Bcrypt, p: string, salt: Salt)
    requires Sound(b)
    requires HashPassword(b, Str(p), salt).Ok?
    requires |Encode(p)| <= MaxPasswordBytes && p != [] && IsSpace(p[0])
    ensures VerifyPassword(b, p, HashPassword(b, Str(p), salt).value) == Ok(false)
  {
    assert Strip(p) != p by {
      StripShape(p);
      assert Strip(p) != [] && !IsSpace(Strip(p)[0]);
    }
    UnstrippedBytes(p);
    assert !b.verify(Encode(p), b.hash(Encode(Strip(p)), salt));
  }

  /**
   * Every message this file raises names the password (in any case), and the
   * byte-limit message names the limit 72.
   */
  lemma MessagesNameTheirRule(e: PasswordError)
    requires e != NullPassword
    ensures Contains(Lower(Message(e)), "password")
    ensures e == TooLong ==> Contains(Message(e), "72")
  {
    var m := Message(e);
    assert m[..8] == "Password";
    var l := Lower(m);
    forall i | 0 <= i < 8
      ensures l[i] == "password"[i]
    {
      assert l[i] == LowerChar(m[i]) && m[i] == "Password"[i];
    }
    assert l[..8] == "password";
    assert OccursAt(l, "password", 0);
    if e == TooLong {
      assert OccursAt(Message(e), "72", 25);
    }
  }
}
