/**
 * What both password modules share: the bcrypt primitive behind passlib, kept
 * abstract, its 72-byte input limit, and the truncation applied before verifying.
 */
module Bcrypt {

  import opened Utf8

  /** `MAX_PASSWORD_BYTES`: bcrypt reads at most this many bytes of a password. */
  const MaxPasswordBytes: nat := 72

  /** `MIN_PASSWORD_CHARS`. */
  const MinPasswordChars: nat := 8

  /** The random salt that passlib draws for every hash. */
  type Salt = seq<byte>

  /**
   * passlib's bcrypt context: `hash` turns password bytes and a salt into a
   * self-describing hash string, `verify` checks password bytes against one.
   */
  datatype Bcrypt = Bcrypt(hash: (seq<byte>, Salt) -> string, verify: (seq<byte>, string) -> bool)

  /**
   * True when a secret holds a NUL byte. passlib's bcrypt handler refuses such a
   * secret before bcrypt sees it, raising `NullPasswordError` (a `ValueError`)
   * from `hash` and from `verify` alike.
   */
  predicate HasNul(secret: seq<byte>) {
    0 in secret
  }

  /**
   * The contract assumed of bcrypt on the inputs passlib hands it, which are never
   * longer than 72 bytes here and never hold a NUL byte: a hash verifies the
   * password it was made from and no other.
   */
  ghost predicate Sound(b: Bcrypt) {
    forall p, q, salt {:trigger b.verify(p, b.hash(q, salt))} ::
      && |p| <= MaxPasswordBytes && |q| <= MaxPasswordBytes && !HasNul(p) && !HasNul(q)
      ==> (b.verify(p, b.hash(q, salt)) <==> p == q)
  }

  /**
   * Only the character U+0000 encodes to a NUL byte: every byte of a multi-byte
   * sequence is at least 0x80.
   */
  lemma {:induction false} EncodeHasNul(s: string)
    ensures HasNul(Encode(s)) <==> '\0' in s
  {
    if s != [] {
      EncodeHasNul(s[1..]);
      var e := EncodeChar(s[0]);
      assert Encode(s) == e + Encode(s[1..]);
      assert s == [s[0]] + s[1..];
      assert 0 in e <==> s[0] == '\0' by {
        if |e| > 1 {
          assert forall i :: 1 <= i < |e| ==> e[i] != 0;
          assert e[0] >= 0xC0;
        }
      }
    }
  }

  /** `plain.encode("utf-8")[:MAX_PASSWORD_BYTES].decode("utf-8", errors="ignore")`. */
  function TrimForBcrypt(plain: string): (r: string)
    ensures |Encode(r)| <= MaxPasswordBytes
    ensures r == LongestFittingPrefix(plain, MaxPasswordBytes)
  {
    Truncate(plain, MaxPasswordBytes)
  }

  /** A password whose encoding already fits is verified as it is. */
  lemma TrimForBcryptFitting(plain: string)
    requires |Encode(plain)| <= MaxPasswordBytes
    ensures TrimForBcrypt(plain) == plain
  {
    TruncateFitting(plain, MaxPasswordBytes);
  }

  /** For ASCII text one character is one byte. */
  lemma {:induction false} AsciiEncodeLength(s: string)
    requires forall i :: 0 <= i < |s| ==> (s[i] as int) < 0x80
    ensures |Encode(s)| == |s|
  {
    if s != [] {
      AsciiEncodeLength(s[1..]);
    }
  }

  /** For ASCII text the truncation keeps the first 72 characters. */
  lemma AsciiTrim(s: string, k: nat)
    requires forall i :: 0 <= i < |s| ==> (s[i] as int) < 0x80
    ensures LongestFittingPrefix(s, k) == s[..if |s| <= k then |s| else k]
  {
    var r := LongestFittingPrefix(s, k);
    assert forall i :: 0 <= i < |r| ==> r[i] == s[i];
    AsciiEncodeLength(r);
    if |r| < |s| {
      assert |EncodeChar(s[|r|])| == 1;
    }
  }
}
