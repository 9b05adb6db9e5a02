/** `OTPService` of `app/auth/services/otp.py`: code generation, hashing and checking. */
module Otp {

  import opened Wrappers
  import opened Utf8
  import opened Text
  import opened Hex

  /** `settings.OTP_LENGTH`, the default length of a code. */
  const OtpLength: int := 6

  /** The digits `generate_otp` draws from. */
  const Digits: string := "0123456789"

  /** A SHA-256 digest (FIPS 180-4): always 32 bytes. */
  type Digest = d: seq<byte> | |d| == 32 witness seq(32, _ => 0)

  /**
   * `generate_otp(length)`: `length` digits, each an independent choice (the
   * choice `secrets.choice` makes is left open); `range` of a negative length is
   * empty.
   */
  method GenerateOtp(length: int := OtpLength) returns (otp: string)
    ensures |otp| == if length > 0 then length else 0
    ensures forall i :: 0 <= i < |otp| ==> IsDigit(otp[i])
  {
    otp := "";
    var k := 0;
    while k < length
      invariant 0 <= k <= (if length > 0 then length else 0)
      invariant |otp| == k
      invariant forall i :: 0 <= i < |otp| ==> IsDigit(otp[i])
    {
      var j :| 0 <= j < |Digits|;
      otp := otp + [Digits[j]];
      k := k + 1;
    }
  }

  /** `hash_token(token)`: the hex digest of SHA-256 over the UTF-8 bytes of `token`. */
  function HashToken(sha256: seq<byte> -> Digest, token: string): (r: string)
    ensures |r| == 64
    ensures forall i :: 0 <= i < |r| ==> IsLowerHex(r[i])
  {
    HexDigest(sha256(Encode(token)))
  }

  /** Two tokens share a hash only if SHA-256 gives their encodings the same digest. */
  lemma HashTokenDistinct(sha256: seq<byte> -> Digest, a: string, b: string)
    requires sha256(Encode(a)) != sha256(Encode(b))
    ensures HashToken(sha256, a) != HashToken(sha256, b)
  {
    if HashToken(sha256, a) == HashToken(sha256, b) {
      HexDigestInjective(sha256(Encode(a)), sha256(Encode(b)));
    }
  }

  /** The `ValueError`s of `verify_input_token`. */
  datatype FormatError = NotDigits | WrongLength(expected: int)

  function Message(e: FormatError): string {
    match e
    case NotDigits => "Token must contain only digits"
    case WrongLength(n) => "Token must be exactly " + DecimalString(n) + " digits long"
  }

  /** The value of a string of decimal digits, read most significant first. */
  function DigitsValue(s: string): int
    requires forall i :: 0 <= i < |s| ==> IsDigit(s[i])
  {
    if s == [] then 0 else 10 * DigitsValue(s[..|s| - 1]) + (s[|s| - 1] as int - '0' as int)
  }

  /** The decimal digit for `0 <= d < 10`, the `d`-th character of `Digits`. */
  function DigitChar(d: int): (c: char)
    requires 0 <= d < 10
    ensures IsDigit(c) && c as int - '0' as int == d
  {
    ('0' as int + d) as char
  }

  /**
   * Python's `str(n)` for an integer: digits with no leading zero, behind a
   * minus sign when `n` is negative, that read back as `n`.
   */
  function DecimalString(n: int): (r: string)
    ensures n >= 0 ==> IsDigitString(r) && DigitsValue(r) == n && (r[0] == '0' <==> n == 0)
    ensures n < 0 ==> |r| >= 2 && r[0] == '-' && IsDigitString(r[1..]) && DigitsValue(r[1..]) == -n && r[1] != '0'
    decreases if n < 0 then 1 - n else n
  {
    if n < 0 then "-" + DecimalString(-n)
    else if n < 10 then [DigitChar(n)]
    else DecimalString(n / 10) + [DigitChar(n % 10)]
  }

  /** `str` is injective on integers. */
  lemma DecimalStringInjective(n: int, m: int)
    requires DecimalString(n) == DecimalString(m)
    ensures n == m
  {
  }

  /**
   * The length message carries `str(expected_length)`, so messages for different
   * lengths differ, and neither is the digits message.
   */
  lemma WrongLengthMessageNamesLength(n: int, m: int)
    ensures OccursAt(Message(WrongLength(n)), DecimalString(n), 22)
    ensures n != m ==> Message(WrongLength(n)) != Message(WrongLength(m))
    ensures Message(NotDigits) != Message(WrongLength(n))
  {
    var prefix, suffix := "Token must be exactly ", " digits long";
    var a := Message(WrongLength(n));
    assert a == prefix + DecimalString(n) + suffix;
    assert a[22..22 + |DecimalString(n)|] == DecimalString(n);
    if a == Message(WrongLength(m)) {
      assert a[22..|a| - 12] == DecimalString(n);
      assert a[22..|a| - 12] == DecimalString(m);
      DecimalStringInjective(n, m);
    }
    assert Message(NotDigits)[11] != a[11];
  }

  /**
   * `verify_input_token(input_token, stored_hash, expected_length)`: the digit
   * check, then the length check, then the hash comparison. Format problems are
   * errors; a well-formed wrong code is `false`.
   */
  function VerifyInputToken(sha256: seq<byte> -> Digest, inputToken: string, storedHash: string,
                            expectedLength: int := OtpLength): (r: Result<bool, FormatError>)
    ensures r == Err(NotDigits) <==> !IsDigitString(inputToken)
    ensures r == Err(WrongLength(expectedLength)) <==> IsDigitString(inputToken) && |inputToken| != expectedLength
    ensures r.Ok? <==> IsDigitString(inputToken) && |inputToken| == expectedLength
    ensures r.Ok? ==> (r.value <==> storedHash == HashToken(sha256, inputToken))
  {
    if !IsDigitString(inputToken) then Err(NotDigits)
    else if |inputToken| != expectedLength then Err(WrongLength(expectedLength))
    else
      var hashedInput := HashToken(sha256, inputToken);
      Ok(storedHash == hashedInput)
  }

  /** A well-formed code checks against its own hash. */
  lemma OwnHashVerifies(sha256: seq<byte> -> Digest, code: string)
    requires IsDigitString(code)
    ensures VerifyInputToken(sha256, code, HashToken(sha256, code), |code|) == Ok(true)
  {
  }

  /**
   * A different well-formed code of the right length yields `false`, not an
   * error, when SHA-256 separates the two codes.
   */
  lemma OtherCodeIsFalse(sha256: seq<byte> -> Digest, code: string, other: string)
    requires IsDigitString(code) && IsDigitString(other) && |code| == |other|
    requires sha256(Encode(code)) != sha256(Encode(other))
    ensures VerifyInputToken(sha256, other, HashToken(sha256, code), |code|) == Ok(false)
  {
    HashTokenDistinct(sha256, code, other);
  }

  /** `"123xyz"` and the empty string are format errors whatever the stored hash. */
  lemma NonDigitsRejected(sha256: seq<byte> -> Digest, storedHash: string)
    ensures VerifyInputToken(sha256, "123xyz", storedHash, 6) == Err(NotDigits)
    ensures VerifyInputToken(sha256, "", storedHash, 6) == Err(NotDigits)
  {
    assert !IsDigit("123xyz"[3]);
  }

  /** What `generate_otp` returns passes the format checks of `verify_input_token`. */
  method GenerateThenVerify(sha256: seq<byte> -> Digest) returns (code: string, ok: Result<bool, FormatError>)
    ensures |code| == OtpLength
    ensures ok == Ok(true)
  {
    code := GenerateOtp();
    ok := VerifyInputToken(sha256, code, HashToken(sha256, code));
  }
}
