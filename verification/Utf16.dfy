/** UTF-16 surrogate pairs and the four-digit hexadecimal codec of `\uXXXX` escapes. */
module Utf16 {
  import opened CStrings
  import Rfc8259
  import Utf8

  predicate IsSurrogate(u: nat) {
    0xD800 <= u <= 0xDFFF
  }

  predicate IsHigh(u: nat) {
    0xD800 <= u <= 0xDBFF
  }

  predicate IsLow(u: nat) {
    0xDC00 <= u <= 0xDFFF
  }

  /** from_surrogate_pair; None is the C function's false. */
  function FromPair(uc: nat, lc: nat): Option<nat> {
    if IsHigh(uc) && IsLow(lc) then Some(0x10000 + 1024 * (uc % 1024) + lc % 1024) else None
  }

  /** to_surrogate_pair */
  function ToPair(u: nat): (nat, nat)
    requires 0x10000 <= u <= 0x10FFFF
  {
    var n := u - 0x10000;
    (0xD800 + n / 1024 % 1024, 0xDC00 + n % 1024)
  }

  /** Splitting a supplementary code point and joining the halves gives it back. */
  lemma FromPairAfterToPair(u: nat)
    requires 0x10000 <= u <= 0x10FFFF
    ensures IsHigh(ToPair(u).0) && IsLow(ToPair(u).1)
    ensures FromPair(ToPair(u).0, ToPair(u).1) == Some(u)
  {
  }

  /** A pair is accepted exactly when it is a high and a low surrogate; it is then its code point's only pair. */
  lemma ToPairAfterFromPair(uc: nat, lc: nat)
    ensures FromPair(uc, lc).Some? <==> IsHigh(uc) && IsLow(lc)
    ensures FromPair(uc, lc).Some? ==>
              var u := FromPair(uc, lc).value;
              0x10000 <= u <= 0x10FFFF && ToPair(u) == (uc, lc)
  {
  }

  /** from_surrogate_pair computes the code point the pair stands for in UTF-16. */
  lemma FromPairIsScalar(uc: nat, lc: nat)
    requires IsHigh(uc) && IsLow(lc)
    ensures FromPair(uc, lc) == Some(Rfc8259.PairScalar(uc, lc))
  {
    assert uc % 1024 == uc - 0xD800 && lc % 1024 == lc - 0xDC00;
  }

  /** The surrogates are the numbers of 16 bits that are no scalar values; the two halves share them. */
  lemma SurrogatesAreNoScalars(u: nat)
    ensures IsSurrogate(u) <==> u <= 0xFFFF && !Utf8.Scalar(u)
    ensures IsSurrogate(u) <==> IsHigh(u) || IsLow(u)
    ensures !(IsHigh(u) && IsLow(u))
  {
  }

  /** The first pair stands for the first supplementary code point, and larger pairs for larger ones. */
  lemma PairsKeepOrder(hi: nat, lo: nat, hi': nat, lo': nat)
    requires IsHigh(hi) && IsLow(lo) && IsHigh(hi') && IsLow(lo')
    ensures FromPair(0xD800, 0xDC00) == Some(0x10000)
    ensures FromPair(hi, lo).value < FromPair(hi', lo').value <==> hi < hi' || (hi == hi' && lo < lo')
  {
    FromPairIsScalar(hi, lo);
    FromPairIsScalar(hi', lo');
  }

  predicate IsHex(c: byte) {
    IsDigit(c) || 0x41 <= c <= 0x46 || 0x61 <= c <= 0x66
  }

  function HexValue(c: byte): (v: nat)
    requires IsHex(c)
    ensures v < 16
  {
    if IsDigit(c) then c - ZERO
    else if c <= 0x46 then c - 0x41 + 10
    else c - 0x61 + 10
  }

  predicate HexDigits(h: bytes) {
    forall i :: 0 <= i < |h| ==> IsHex(h[i])
  }

  /** The number a digit string denotes, most significant digit first. */
  function HexNumber(h: bytes): nat
    requires HexDigits(h)
  {
    if h == [] then 0 else 16 * HexNumber(h[..|h| - 1]) + HexValue(h[|h| - 1])
  }

  /** Of four digits the first counts most. */
  lemma HexNumberOfFour(h: bytes)
    requires |h| == 4 && HexDigits(h)
    ensures HexNumber(h) == 4096 * HexValue(h[0]) + 256 * HexValue(h[1]) + 16 * HexValue(h[2]) + HexValue(h[3])
    ensures HexNumber(h) <= 0xFFFF
  {
    assert h[..3][..2] == h[..2] && h[..2][..1] == h[..1];
    assert HexNumber(h[..1]) == HexValue(h[0]);
    assert HexNumber(h[..2]) == 16 * HexNumber(h[..1]) + HexValue(h[1]);
    assert HexNumber(h[..3]) == 16 * HexNumber(h[..2]) + HexValue(h[2]);
  }

  /** Whether text starts with four hexadecimal digits. */
  predicate StartsWithHex16(t: bytes) {
    |t| >= 4 && HexDigits(t[..4])
  }

  /** The first i bytes are digits; fewer than four of them denote less than 0x1000. */
  predicate HexPrefix(t: bytes, i: nat) {
    i <= |t| && HexDigits(t[..i]) && (i < 4 ==> HexNumber(t[..i]) < 0x1000)
  }

  lemma ShiftedIn(x: nat, v: nat)
    requires x < 0x1000 && v < 16
    ensures (x * 16 % 0x10000 + v) % 0x10000 == 16 * x + v
  {
    assert x * 16 < 0x10000;
    assert x * 16 % 0x10000 == x * 16;
    assert x * 16 + v < 0x10000;
  }

  /** One more digit: in 16 bits nothing is lost. */
  lemma NextHex(t: bytes, i: nat)
    requires i < 4 && HexPrefix(t, i) && i < |t| && IsHex(t[i])
    ensures HexPrefix(t, i + 1)
    ensures HexNumber(t[..i + 1]) == (HexNumber(t[..i]) * 16 % 0x10000 + HexValue(t[i])) % 0x10000
  {
    var next := t[..i + 1];
    assert next[..i] == t[..i] && next[i] == t[i];
    assert HexDigits(next);
    HexNumberBound(next);
    assert HexNumber(next) == 16 * HexNumber(t[..i]) + HexValue(t[i]);
    hide *;
    ShiftedIn(HexNumber(t[..i]), HexValue(t[i]));
  }

  /** So many digits denote less than that power of sixteen. */
  lemma HexNumberBound(h: bytes)
    requires HexDigits(h) && |h| <= 4
    ensures |h| == 0 ==> HexNumber(h) == 0
    ensures |h| == 1 ==> HexNumber(h) < 0x10
    ensures |h| == 2 ==> HexNumber(h) < 0x100
    ensures |h| == 3 ==> HexNumber(h) < 0x1000
    ensures |h| == 4 ==> HexNumber(h) < 0x10000
  {
    if h != [] { HexNumberBound(h[..|h| - 1]); }
  }

  lemma NotHex(t: bytes, i: nat)
    requires i < 4 && !IsHex(At(t, i))
    ensures !StartsWithHex16(t)
  {
    if |t| >= 4 { assert t[..4][i] == t[i]; }
  }

  /**
   * parse_hex16: the loop stops at the first byte that is no digit, the terminator included.
   * `ret <<= 4; ret += tmp` works on a uint16_t.
   */
  method ParseHex16(json: bytes, s: nat) returns (ok: bool, s': nat, val: nat)
    requires NulFree(json) && s <= |json|
    ensures ok <==> StartsWithHex16(json[s..])
    ensures !ok ==> s' == s
    ensures ok ==> s' == s + 4 <= |json| && val == HexNumber(json[s..][..4]) && val <= 0xFFFF
  {
    var ret, i := 0, 0;
    while i < 4
      invariant 0 <= i <= 4 && s + i <= |json| && HexPrefix(json[s..], i) && ret == HexNumber(json[s..][..i])
    {
      var c := Peek(json, s + i);
      var tmp: nat;
      if ZERO <= c <= NINE {
        tmp := c - ZERO;
      } else if 0x41 <= c <= 0x46 {
        tmp := c - 0x41 + 10;
      } else if 0x61 <= c <= 0x66 {
        tmp := c - 0x61 + 10;
      } else {
        NotHex(json[s..], i);
        return false, s, 0;
      }
      NextHex(json[s..], i);
      ret := (ret * 16 % 0x10000 + tmp) % 0x10000;
      i := i + 1;
    }
    HexNumberOfFour(json[s..][..4]);
    return true, s + 4, ret;
  }

  function HexChar(v: nat): (c: byte)
    requires v < 16
    ensures IsHex(c) && HexValue(c) == v && c != 0
  {
    if v < 10 then ZERO + v else 0x41 + (v - 10)
  }

  const UPPER_HEX := "0123456789ABCDEF"
  const LOWER_HEX := "0123456789abcdef"

  /** write_hex16 takes its digits from the upper-case table; parse_hex16 reads both cases, at their places. */
  lemma HexTable(v: nat)
    requires v < 16
    ensures HexChar(v) == UPPER_HEX[v] as int
    ensures forall c: byte :: c == UPPER_HEX[v] as int || c == LOWER_HEX[v] as int ==> IsHex(c) && HexValue(c) == v
  {
    if v < 10 {
      TableDigits(v);
    } else {
      TableLetters(v);
    }
  }

  lemma TableDigits(v: nat)
    requires v < 10
    ensures UPPER_HEX[v] as int == LOWER_HEX[v] as int == 0x30 + v
  {
  }

  lemma TableLetters(v: nat)
    requires 10 <= v < 16
    ensures UPPER_HEX[v] as int == 0x41 + (v - 10) && LOWER_HEX[v] as int == 0x61 + (v - 10)
  {
  }

  /** Every byte parse_hex16 takes for a digit stands in one of the tables. */
  lemma HexIsInTable(c: byte)
    requires IsHex(c)
    ensures c == UPPER_HEX[HexValue(c)] as int || c == LOWER_HEX[HexValue(c)] as int
  {
    if HexValue(c) < 10 { TableDigits(HexValue(c)); } else { TableLetters(HexValue(c)); }
  }

  /** write_hex16 */
  function WriteHex16(v: nat): (h: bytes)
    requires v <= 0xFFFF
    ensures |h| == 4 && NulFree(h)
  {
    [HexChar(v / 4096 % 16), HexChar(v / 256 % 16), HexChar(v / 16 % 16), HexChar(v % 16)]
  }

  /** The four digits written denote the number they were written for. */
  lemma HexNumberAfterWrite(v: nat)
    requires v <= 0xFFFF
    ensures HexDigits(WriteHex16(v)) && HexNumber(WriteHex16(v)) == v
  {
    HexNumberOfFour(WriteHex16(v));
    Base16Digits(v);
  }

  lemma Base16Digits(v: nat)
    requires v <= 0xFFFF
    ensures v == 4096 * (v / 4096 % 16) + 256 * (v / 256 % 16) + 16 * (v / 16 % 16) + v % 16
  {
    assert v / 256 == v / 16 / 16;
    assert v / 4096 == v / 256 / 16;
  }
}
