/** Python's `hashlib` `hexdigest()`: two lower-case hex digits per byte, high nibble first. */
module Hex {

  import opened Wrappers
  import opened Utf8

  /** The digit for a nibble, from `"0123456789abcdef"`. */
  function HexDigit(n: int): (c: char)
    requires 0 <= n < 16
    ensures IsLowerHex(c)
  {
    if n < 10 then ('0' as int + n) as char else ('a' as int + n - 10) as char
  }

  predicate IsLowerHex(c: char) {
    '0' <= c <= '9' || 'a' <= c <= 'f'
  }

  /** `hexdigest()` of the digest bytes `d`. */
  function HexDigest(d: seq<byte>): (r: string)
    ensures |r| == 2 * |d|
    ensures forall i :: 0 <= i < |r| ==> IsLowerHex(r[i])
  {
    if d == [] then [] else [HexDigit(d[0] / 16), HexDigit(d[0] % 16)] + HexDigest(d[1..])
  }

  /** The value of one lower-case hex digit. */
  function NibbleValue(c: char): (r: Option<int>)
    ensures r.Some? ==> 0 <= r.value < 16 && HexDigit(r.value) == c
    ensures IsLowerHex(c) ==> r.Some?
  {
    if '0' <= c <= '9' then Some(c as int - '0' as int)
    else if 'a' <= c <= 'f' then Some(c as int - 'a' as int + 10)
    else None
  }

  /** The inverse of `HexDigest`: `bytes.fromhex` restricted to lower-case digits. */
  function Unhex(s: string): Option<seq<byte>>
    decreases |s|
  {
    if s == [] then Some([])
    else if |s| == 1 then None
    else match (NibbleValue(s[0]), NibbleValue(s[1]), Unhex(s[2..]))
      case (Some(hi), Some(lo), Some(rest)) => Some([hi * 16 + lo] + rest)
      case _ => None
  }

  lemma NibbleOfDigit(n: int)
    requires 0 <= n < 16
    ensures NibbleValue(HexDigit(n)) == Some(n)
  {
  }

  /** Two digits written for a byte read back as that byte, in front of whatever the rest reads as. */
  lemma UnhexByte(x: byte, t: string)
    ensures Unhex([HexDigit(x / 16), HexDigit(x % 16)] + t) ==
      match Unhex(t) case Some(rest) => Some([x] + rest) case None => None
  {
    var hi: int, lo: int := x / 16, x % 16;
    var s := [HexDigit(hi), HexDigit(lo)] + t;
    NibbleOfDigit(hi);
    NibbleOfDigit(lo);
    assert hi * 16 + lo == x as int;
    assert s[0] == HexDigit(hi) && s[1] == HexDigit(lo) && s[2..] == t;
  }

  /** Reading back a hex digest gives the digest. */
  lemma {:induction false} UnhexHexDigest(d: seq<byte>)
    ensures Unhex(HexDigest(d)) == Some(d)
  {
    if d != [] {
      UnhexByte(d[0], HexDigest(d[1..]));
      UnhexHexDigest(d[1..]);
      assert d == [d[0]] + d[1..];
    }
  }

  /** Distinct digests have distinct hex digests. */
  lemma HexDigestInjective(d: seq<byte>, e: seq<byte>)
    requires HexDigest(d) == HexDigest(e)
    ensures d == e
  {
    UnhexHexDigest(d);
    UnhexHexDigest(e);
  }
}
