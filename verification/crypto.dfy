/** `app/utils/crypto.py`: `hash_pass` and `verify_pass`. */
module Crypto {

  import opened Wrappers
  import opened Utf8
  import opened Text
  import opened Bcrypt
  import PasswordService

  /**
   * The `ValueError`s `hash_pass` raises, with no separate empty check, and the
   * `NullPasswordError` passlib raises from `hash` and from `verify`.
   */
  datatype HashPassError = TooLong | TooShort | NullPassword

  /** The text of each `ValueError` this file raises itself; passlib words its own. */
  function Message(e: HashPassError): string
    requires e != NullPassword
  {
    match e
    case TooLong => "Password too long for bcrypt (Max: 72 bytes)"
    case TooShort => "Password too short (Min: 8 chars)"
  }

  /** Each message names its limit with its unit: 72 bytes, or 8 characters. */
  lemma MessagesNameTheirLimits(e: HashPassError)
    requires e != NullPassword
    ensures e == TooLong ==> Contains(Message(e), "72") && Contains(Message(e), "bytes")
    ensures e == TooShort ==> Contains(Message(e), "8") && Contains(Message(e), "chars")
  {
    if e == TooLong {
      assert OccursAt(Message(e), "72", 35) && OccursAt(Message(e), "bytes", 38);
    } else {
      assert OccursAt(Message(e), "8", 25) && OccursAt(Message(e), "chars", 27);
    }
  }

  /**
   * `hash_pass(password)`: strip, byte-length check, character-length check,
   * then passlib's hash of exactly the stripped password, which it refuses when
   * that holds a NUL character.
   */
  function HashPass(b: Bcrypt, password: string, salt: Salt): (r: Result<string, HashPassError>)
    ensures var t := Strip(password);
      && (r == Err(TooLong) <==> |Encode(t)| > MaxPasswordBytes)
      && (r == Err(TooShort) <==> |Encode(t)| <= MaxPasswordBytes && |t| < MinPasswordChars)
      && (r == Err(NullPassword) <==> |Encode(t)| <= MaxPasswordBytes && |t| >= MinPasswordChars && '\0' in t)
      && (r.Ok? ==> r.value == b.hash(Encode(t), salt) && !HasNul(Encode(t)))
  {
    var p := Strip(password);
    var byteLength := |Encode(p)|;
    var charLength := |p|;
    EncodeHasNul(p);
    if byteLength > MaxPasswordBytes then Err(TooLong)
    else if charLength < MinPasswordChars then Err(TooShort)
    else if HasNul(Encode(p)) then Err(NullPassword)
    else Ok(b.hash(Encode(p), salt))
  }

  /**
   * `verify_pass(plain, hashed_password)`: no strip, only the 72-byte
   * truncation; passlib refuses the truncated text when it holds a NUL
   * character, and otherwise gives bcrypt's answer for it.
   */
  function VerifyPass(b: Bcrypt, plain: string, hashedPassword: string): (r: Result<bool, HashPassError>)
    ensures r.Err? <==> '\0' in LongestFittingPrefix(plain, MaxPasswordBytes)
    ensures r.Err? ==> r.error == NullPassword
    ensures r.Ok? ==> r.value == b.verify(Encode(LongestFittingPrefix(plain, MaxPasswordBytes)), hashedPassword)
  {
    var trimmed := TrimForBcrypt(plain);
    EncodeHasNul(trimmed);
    if HasNul(Encode(trimmed)) then Err(NullPassword) else Ok(b.verify(Encode(trimmed), hashedPassword))
  }

  /**
   * `hash_pass` and `hash_password` accept the same strings and hash them the
   * same way; they differ only in how they report an empty password.
   */
  lemma SameAcceptance(b: Bcrypt, password: string, salt: Salt)
    ensures HashPass(b, password, salt).Ok? <==> PasswordService.HashPassword(b, PasswordService.Str(password), salt).Ok?
    ensures HashPass(b, password, salt).Ok? ==>
      HashPass(b, password, salt).value == PasswordService.HashPassword(b, PasswordService.Str(password), salt).value
    ensures Strip(password) == [] ==> HashPass(b, password, salt) == Err(TooShort)
    ensures HashPass(b, password, salt) == Err(NullPassword) <==>
      PasswordService.HashPassword(b, PasswordService.Str(password), salt) == Err(PasswordService.NullPassword)
  {
    if Strip(password) == [] {
      assert Encode(Strip(password)) == [];
    }
  }

  /** `"a" * n`. */
  function Repeat(c: char, n: nat): (r: string)
    ensures |r| == n && forall i :: 0 <= i < n ==> r[i] == c
  {
    seq(n, _ => c)
  }

  /** A run of one ASCII non-space character is its own `strip()` and takes one byte per character. */
  lemma RepeatAscii(c: char, n: nat)
    requires (c as int) < 0x80 && !IsSpace(c)
    ensures Strip(Repeat(c, n)) == Repeat(c, n) && |Encode(Repeat(c, n))| == n
  {
    var s := Repeat(c, n);
    StripUnchanged(s);
    AsciiEncodeLength(s);
  }

  /** `hash_pass("abc")` is too short. */
  lemma RejectsShort(b: Bcrypt, salt: Salt)
    ensures HashPass(b, "abc", salt) == Err(TooShort)
  {
    var short := "abc";
    StripUnchanged(short);
    AsciiEncodeLength(short);
    assert |Strip(short)| == 3;
  }

  /** `hash_pass("a" * n)` is too long for every `n` over 72, `"a" * 100` among them. */
  lemma RejectsLong(b: Bcrypt, salt: Salt, n: nat)
    requires n > MaxPasswordBytes
    ensures HashPass(b, Repeat('a', n), salt) == Err(TooLong)
  {
    RepeatAscii('a', n);
  }

  /** `verify_pass` looks at the first 72 bytes only: for `"a" * 100` (or any longer run) that is `"a" * 72`. */
  lemma VerifyTrimsToSeventyTwo(n: nat)
    requires n >= MaxPasswordBytes
    ensures TrimForBcrypt(Repeat('a', n)) == Repeat('a', MaxPasswordBytes)
  {
    AsciiTrim(Repeat('a', n), MaxPasswordBytes);
  }

  /**
   * Under the bcrypt contract, an accepted password with no surrounding whitespace
   * verifies against its own hash, and any other password of at most 72 bytes
   * (the same one with a character removed, say) does not.
   */
  lemma HashThenVerify(b: Bcrypt, p: string, salt: Salt, other: string)
    requires Sound(b)
    requires HashPass(b, p, salt).Ok? && Strip(p) == p
    requires other != p && |Encode(other)| <= MaxPasswordBytes
    ensures VerifyPass(b, p, HashPass(b, p, salt).value) == Ok(true)
    ensures VerifyPass(b, other, HashPass(b, p, salt).value) == if '\0' in other then Err(NullPassword) else Ok(false)
  {
    SameAcceptance(b, p, salt);
    PasswordService.HashThenVerify(b, p, salt);
    PasswordService.OtherPasswordFails(b, p, salt, other);
  }

  /** The hash of the 72-byte truncation verifies against the untruncated password. */
  lemma TruncatedHashVerifies(b: Bcrypt, plain: string, salt: Salt)
    requires Sound(b)
    requires HashPass(b, TrimForBcrypt(plain), salt).Ok? && Strip(TrimForBcrypt(plain)) == TrimForBcrypt(plain)
    ensures VerifyPass(b, plain, HashPass(b, TrimForBcrypt(plain), salt).value) == Ok(true)
    ensures VerifyPass(b, TrimForBcrypt(plain), HashPass(b, TrimForBcrypt(plain), salt).value) == Ok(true)
  {
    var t := TrimForBcrypt(plain);
    TrimForBcryptFitting(t);
  }

  /**
   * `verify_pass` does not strip: under the bcrypt contract a password that
   * fits in 72 bytes checks false against the hash of its stripped form when
   * the two differ.
   */
  lemma UnstrippedPasswordFails(b: Bcrypt, raw: string, salt: Salt)
    requires Sound(b)
    requires Strip(raw) != raw && |Encode(raw)| <= MaxPasswordBytes && '\0' !in Strip(raw)
    ensures VerifyPass(b, raw, b.hash(Encode(Strip(raw)), salt)) == Ok(false)
  {
    PasswordService.UnstrippedBytes(raw);
    assert !b.verify(Encode(raw), b.hash(Encode(Strip(raw)), salt));
  }
}
