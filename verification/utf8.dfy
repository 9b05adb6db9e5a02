/**
 * UTF-8 as Python's `str.encode("utf-8")` and `bytes.decode("utf-8", errors="ignore")`
 * use it (section 3 and section 4 of RFC 3629), and the 72-byte truncation that
 * both password modules apply before bcrypt verification.
 */
module Utf8 {

  import opened Wrappers

  type byte = b: int | 0 <= b < 0x100

  /** True of the bytes 0x80..0xBF, which only ever continue a multi-byte sequence. */
  predicate IsContinuation(b: byte) {
    0x80 <= b < 0xC0
  }

  /** The encoding of one scalar value, 1 to 4 bytes (the table of section 3 of RFC 3629). */
  function EncodeChar(c: char): (r: seq<byte>)
    ensures 1 <= |r| <= 4
    ensures |r| == 1 <==> (c as int) < 0x80
    ensures forall i :: 1 <= i < |r| ==> IsContinuation(r[i])
  {
    var v := c as int;
    if v < 0x80 then [v]
    else if v < 0x800 then [0xC0 + v / 0x40, 0x80 + v % 0x40]
    else if v < 0x1_0000 then [0xE0 + v / 0x1000, 0x80 + (v / 0x40) % 0x40, 0x80 + v % 0x40]
    else [0xF0 + v / 0x4_0000, 0x80 + (v / 0x1000) % 0x40, 0x80 + (v / 0x40) % 0x40, 0x80 + v % 0x40]
  }

  /** `s.encode("utf-8")`: one to four bytes per character. */
  function Encode(s: string): (r: seq<byte>)
    ensures |s| <= |r| <= 4 * |s|
  {
    if s == [] then [] else EncodeChar(s[0]) + Encode(s[1..])
  }

  /**
   * Decodes the well-formed sequence at the start of `b`, if there is one, and
   * says how many bytes it took (the well-formed byte sequences of section 4 of
   * RFC 3629: no overlong forms, no surrogates, nothing above U+10FFFF).
   */
  function DecodeFirst(b: seq<byte>): (r: Option<(char, nat)>)
    requires |b| > 0
    ensures r.Some? ==> 1 <= r.value.1 <= |b|
  {
    var b0: int := b[0];
    if b0 < 0x80 then
      Some((b0 as char, 1))
    else if 0xC2 <= b0 < 0xE0 && |b| >= 2 && IsContinuation(b[1]) then
      Some((Value2(b0, b[1]) as char, 2))
    else if 0xE0 <= b0 < 0xF0 && |b| >= 3 && IsContinuation(b[1]) && IsContinuation(b[2])
      && (b0 == 0xE0 ==> 0xA0 <= b[1]) && (b0 == 0xED ==> b[1] < 0xA0) then
      Some((Value3(b0, b[1], b[2]) as char, 3))
    else if 0xF0 <= b0 < 0xF5 && |b| >= 4 && IsContinuation(b[1]) && IsContinuation(b[2])
      && IsContinuation(b[3]) && (b0 == 0xF0 ==> 0x90 <= b[1]) && (b0 == 0xF4 ==> b[1] < 0x90) then
      Some((Value4(b0, b[1], b[2], b[3]) as char, 4))
    else
      None
  }

  /** The scalar value carried by a two-, three- or four-byte sequence. */
  function Value2(b0: int, b1: int): int { (b0 - 0xC0) * 0x40 + (b1 - 0x80) }

  function Value3(b0: int, b1: int, b2: int): int {
    (b0 - 0xE0) * 0x1000 + (b1 - 0x80) * 0x40 + (b2 - 0x80)
  }

  function Value4(b0: int, b1: int, b2: int, b3: int): int {
    (b0 - 0xF0) * 0x4_0000 + (b1 - 0x80) * 0x1000 + (b2 - 0x80) * 0x40 + (b3 - 0x80)
  }

  /**
   * `b.decode("utf-8", errors="ignore")`: every well-formed sequence becomes its
   * character and every byte that does not start one is dropped.
   */
  function DecodeIgnore(b: seq<byte>): (r: string)
    ensures |r| <= |b|
    decreases |b|
  {
    if b == [] then []
    else match DecodeFirst(b)
      case Some((c, n)) => [c] + DecodeIgnore(b[n..])
      case None => DecodeIgnore(b[1..])
  }

  /** `e[:k]`: the first `k` bytes, or all of them when there are fewer. */
  function Take(e: seq<byte>, k: nat): seq<byte> {
    e[..if |e| <= k then |e| else k]
  }

  /**
   * `s.encode("utf-8")[:k].decode("utf-8", errors="ignore")`: the longest prefix of
   * whole characters whose encoding fits in `k` bytes.
   */
  function Truncate(s: string, k: nat): (r: string)
    ensures r == LongestFittingPrefix(s, k)
  {
    DecodeTakeIsLongestFittingPrefix(s, k);
    DecodeIgnore(Take(Encode(s), k))
  }

  /**
   * The reference definition of the truncation: the longest prefix of `s` made of
   * whole characters whose encoding fits in `k` bytes.
   */
  function LongestFittingPrefix(s: string, k: nat): (r: string)
    ensures |r| <= |s| && r == s[..|r|]
    ensures |Encode(r)| <= k
    ensures |r| < |s| ==> |Encode(r)| + |EncodeChar(s[|r|])| > k
  {
    if s == [] || |EncodeChar(s[0])| > k then []
    else
      var rest := LongestFittingPrefix(s[1..], k - |EncodeChar(s[0])|);
      assert ([s[0]] + rest)[1..] == rest;
      [s[0]] + rest
  }

  lemma {:induction false} EncodeAppend(a: string, b: string)
    ensures Encode(a + b) == Encode(a) + Encode(b)
  {
    if a == [] {
      assert a + b == b;
    } else {
      assert (a + b)[1..] == a[1..] + b;
      EncodeAppend(a[1..], b);
    }
  }

  /** The decoder reads back exactly the character that `EncodeChar` wrote, whatever follows. */
  lemma DecodeFirstEncodeChar(c: char, rest: seq<byte>)
    ensures DecodeFirst(EncodeChar(c) + rest) == Some((c, |EncodeChar(c)|))
  {
    var v := c as int;
    var e := EncodeChar(c);
    var b := e + rest;
    if v < 0x80 {
      assert b[0] == v;
    } else if v < 0x800 {
      TwoBytes(v);
      assert b[0] == e[0] && b[1] == e[1];
    } else if v < 0x1_0000 {
      ThreeBytes(v);
      assert b[0] == e[0] && b[1] == e[1] && b[2] == e[2];
    } else {
      FourBytes(v);
      assert b[0] == e[0] && b[1] == e[1] && b[2] == e[2] && b[3] == e[3];
    }
  }

  /** The two bytes written for `v` start a two-byte sequence that carries `v`. */
  lemma TwoBytes(v: int)
    requires 0x80 <= v < 0x800
    ensures 0xC2 <= 0xC0 + v / 0x40 < 0xE0 && 0x80 <= 0x80 + v % 0x40 < 0xC0
    ensures Value2(0xC0 + v / 0x40, 0x80 + v % 0x40) == v
  {
  }

  /** The three bytes written for a non-surrogate `v` form a well-formed sequence that carries `v`. */
  lemma ThreeBytes(v: int)
    requires 0x800 <= v < 0x1_0000 && !(0xD800 <= v < 0xE000)
    ensures var b0, b1, b2 := 0xE0 + v / 0x1000, 0x80 + (v / 0x40) % 0x40, 0x80 + v % 0x40;
      && 0xE0 <= b0 < 0xF0 && 0x80 <= b1 < 0xC0 && 0x80 <= b2 < 0xC0
      && (b0 == 0xE0 ==> 0xA0 <= b1) && (b0 == 0xED ==> b1 < 0xA0)
      && Value3(b0, b1, b2) == v
  {
    var q := v / 0x40;
    assert q == (v / 0x1000) * 0x40 + q % 0x40;
  }

  /** The four bytes written for `v` above U+FFFF form a well-formed sequence that carries `v`. */
  lemma FourBytes(v: int)
    requires 0x1_0000 <= v < 0x11_0000
    ensures var b0, b1, b2, b3 := 0xF0 + v / 0x4_0000, 0x80 + (v / 0x1000) % 0x40, 0x80 + (v / 0x40) % 0x40, 0x80 + v % 0x40;
      && 0xF0 <= b0 < 0xF5 && 0x80 <= b1 < 0xC0 && 0x80 <= b2 < 0xC0 && 0x80 <= b3 < 0xC0
      && (b0 == 0xF0 ==> 0x90 <= b1) && (b0 == 0xF4 ==> b1 < 0x90)
      && Value4(b0, b1, b2, b3) == v
  {
    var q := v / 0x40;
    var p := v / 0x1000;
    assert q == p * 0x40 + q % 0x40;
    assert p == (v / 0x4_0000) * 0x40 + p % 0x40;
  }

  /** Decoding an encoding gives the string back, so `Encode` is injective. */
  lemma {:induction false} DecodeEncode(s: string)
    ensures DecodeIgnore(Encode(s)) == s
  {
    if s != [] {
      var e := EncodeChar(s[0]);
      DecodeFirstEncodeChar(s[0], Encode(s[1..]));
      assert (e + Encode(s[1..]))[|e|..] == Encode(s[1..]);
      DecodeEncode(s[1..]);
    }
  }

  lemma EncodeInjective(s: string, t: string)
    requires Encode(s) == Encode(t)
    ensures s == t
  {
    DecodeEncode(s);
    DecodeEncode(t);
  }

  /** Stray continuation bytes decode to nothing. */
  lemma {:induction false} ContinuationsDecodeToNothing(b: seq<byte>)
    requires forall i :: 0 <= i < |b| ==> IsContinuation(b[i])
    ensures DecodeIgnore(b) == []
  {
    if b != [] {
      ContinuationsDecodeToNothing(b[1..]);
    }
  }

  /** A character cut short decodes to nothing: the truncation never keeps half a character. */
  lemma CutCharDecodesToNothing(c: char, k: nat)
    requires k < |EncodeChar(c)|
    ensures DecodeIgnore(EncodeChar(c)[..k]) == []
  {
    var e := EncodeChar(c)[..k];
    if k > 0 {
      assert DecodeFirst(e) == None;
      ContinuationsDecodeToNothing(e[1..]);
    }
  }

  /** A first character that does not fit in `k` bytes leaves nothing. */
  lemma CutFirstChar(s: string, k: nat)
    requires s != [] && |EncodeChar(s[0])| > k
    ensures DecodeIgnore(Take(Encode(s), k)) == []
  {
    assert Take(Encode(s), k) == EncodeChar(s[0])[..k];
    CutCharDecodesToNothing(s[0], k);
  }

  /** Cutting the encoding of `s` after its first character's bytes. */
  lemma DecodeCutAfterFirst(s: string, k: nat)
    requires s != [] && |EncodeChar(s[0])| <= k
    ensures DecodeIgnore(Take(Encode(s), k))
      == [s[0]] + DecodeIgnore(Take(Encode(s[1..]), k - |EncodeChar(s[0])|))
  {
    var e := EncodeChar(s[0]);
    var tail := Encode(s[1..]);
    var m := if |tail| <= k - |e| then |tail| else k - |e|;
    var cut := Take(Encode(s), k);
    assert cut == e + tail[..m];
    DecodeFirstEncodeChar(s[0], tail[..m]);
    assert cut[|e|..] == tail[..m];
  }

  /** A first character that fits is kept, and the rest of the budget goes to the rest. */
  lemma FittingPrefixStep(s: string, k: nat)
    requires s != [] && |EncodeChar(s[0])| <= k
    ensures LongestFittingPrefix(s, k) == [s[0]] + LongestFittingPrefix(s[1..], k - |EncodeChar(s[0])|)
  {
  }

  /**
   * Slicing the encoding to `k` bytes and decoding with errors ignored keeps the
   * longest whole-character prefix that fits.
   */
  lemma {:induction false} DecodeTakeIsLongestFittingPrefix(s: string, k: nat)
    ensures DecodeIgnore(Take(Encode(s), k)) == LongestFittingPrefix(s, k)
  {
    if s == [] {
      assert Encode(s) == [];
    } else if |EncodeChar(s[0])| > k {
      CutFirstChar(s, k);
    } else {
      var rest := k - |EncodeChar(s[0])|;
      DecodeCutAfterFirst(s, k);
      DecodeTakeIsLongestFittingPrefix(s[1..], rest);
      FittingPrefixStep(s, k);
    }
  }

  /** A string whose encoding fits in `k` bytes is left as it is. */
  lemma TruncateFitting(s: string, k: nat)
    requires |Encode(s)| <= k
    ensures Truncate(s, k) == s
  {
    assert Take(Encode(s), k) == Encode(s);
    DecodeEncode(s);
  }
}
