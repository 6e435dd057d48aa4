/** String literals: their grammar (section 7 of RFC 8259), parse_string's scanner and emit_string's text. */
module Strings {
  import opened CStrings
  import Rfc8259
  import Utf8
  import opened Utf16

  /** The decoded content and the unread rest, or failure. */
  datatype Scan = Bad | Good(content: bytes, rest: bytes)

  /** One character of a literal: as itself, as a two-byte escape, as `\uXXXX` or as a surrogate pair. */
  datatype CharSyntax = Raw(u: nat) | Short(c: byte) | Hex(h: bytes) | Pair(hi: bytes, lo: bytes)

  const SHORT_U: bytes := [BACKSLASH, LOWER_U]

  predicate IsShort(c: byte) {
    c == QUOTE || c == BACKSLASH || c == SLASH
    || c == LOWER_B || c == LOWER_F || c == LOWER_N || c == LOWER_R || c == LOWER_T
  }

  /** The byte a two-byte escape stands for. */
  function ShortValue(c: byte): (v: byte)
    requires IsShort(c)
    ensures v != 0 && v <= 0x7F
  {
    if c == LOWER_B then 0x08
    else if c == LOWER_F then 0x0C
    else if c == LOWER_N then LF
    else if c == LOWER_R then CR
    else if c == LOWER_T then TAB
    else c
  }

  predicate Hex4(h: bytes) {
    |h| == 4 && HexDigits(h)
  }

  /**
   * The characters of section 7, without U+0000 and unpaired surrogates; `lenient` also admits U+001F
   * as itself, which emit_string writes and parse_string refuses.
   */
  predicate CharWf(c: CharSyntax, lenient: bool) {
    match c
    case Raw(u) => Utf8.Scalar(u) && (Rfc8259.Unescaped(u) || (lenient && u == 0x1F))
    case Short(c) => Rfc8259.Escape(c) != 0
    case Hex(h) => Hex4(h) && HexNumber(h) != 0 && Utf8.Scalar(HexNumber(h))
    case Pair(hi, lo) => Hex4(hi) && Hex4(lo) && IsHigh(HexNumber(hi)) && IsLow(HexNumber(lo))
  }

  function CharText(c: CharSyntax): (t: bytes)
    requires CharWf(c, true)
    ensures t != [] && t[0] != QUOTE
  {
    match c
    case Raw(u) => Utf8.WriteChar(u)
    case Short(c) => [BACKSLASH, c]
    case Hex(h) => SHORT_U + h
    case Pair(hi, lo) => SHORT_U + hi + (SHORT_U + lo)
  }

  /** The scalar value a character denotes. */
  function CharScalar(c: CharSyntax): (u: nat)
    requires CharWf(c, true)
    ensures Utf8.Scalar(u) && u != 0
  {
    match c
    case Raw(u) => u
    case Short(c) => Rfc8259.Escape(c)
    case Hex(h) => HexNumberOfFour(h); HexNumber(h)
    case Pair(hi, lo) => Rfc8259.PairScalar(HexNumber(hi), HexNumber(lo))
  }

  function CharValue(c: CharSyntax): (v: bytes)
    requires CharWf(c, true)
    ensures NulFree(v) && 1 <= |v| <= 4
  {
    Utf8.WriteChar(CharScalar(c))
  }

  // ---------------------------------------------------------------- scanning

  /** The escape `\uXXXX[\uXXXX]` with t standing behind the `u`. */
  function ScanUnicode(t: bytes): (r: Scan)
    ensures r.Good? ==> |r.rest| < |t| && NulFree(r.content) && 1 <= |r.content| <= 4
  {
    if !StartsWithHex16(t) then Bad else
    var uc := HexNumber(t[..4]);
    HexNumberOfFour(t[..4]);
    if IsSurrogate(uc) then
      if At(t, 4) != BACKSLASH || At(t, 5) != LOWER_U || !StartsWithHex16(t[6..]) then Bad else
      var u := FromPair(uc, HexNumber(t[6..][..4]));
      if u.None? then Bad else Good(Utf8.WriteChar(u.value), t[10..])
    else if uc == 0 then Bad
    else Good(Utf8.WriteChar(uc), t[4..])
  }

  /** One round of parse_string's loop, for t that does not start with a quotation mark. */
  function ScanChar(t: bytes): (r: Scan)
    ensures r.Good? ==> |r.rest| < |t| && 1 <= |r.content| <= 4 && r.content[0] != 0
  {
    if First(t) == BACKSLASH then
      if At(t, 1) == LOWER_U then ScanUnicode(t[2..])
      else if IsShort(At(t, 1)) then Good([ShortValue(t[1])], t[2..])
      else Bad
    else if First(t) <= 0x1F then Bad
    else if Utf8.CharLen(t) == 0 then Bad
    else Good(t[..Utf8.CharLen(t)], t[Utf8.CharLen(t)..])
  }

  /** The rest of a literal behind its opening quotation mark, with what was decoded so far in front. */
  function ScanChars(t: bytes, acc: bytes): (r: Scan)
    ensures r.Good? ==> |r.rest| < |t|
    decreases |t|
  {
    if First(t) == QUOTE then Good(acc, t[1..]) else
    match ScanChar(t)
    case Bad => Bad
    case Good(content, rest) => ScanChars(rest, acc + content)
  }

  /** parse_string */
  function ScanString(t: bytes): (r: Scan)
    ensures r.Good? ==> |r.rest| < |t|
  {
    if First(t) == QUOTE then ScanChars(t[1..], []) else Bad
  }

  // ------------------------------------------------- completeness and soundness

  lemma ScanHexOver(h: bytes, rest: bytes)
    requires Hex4(h)
    ensures StartsWithHex16(h + rest) && (h + rest)[..4] == h && (h + rest)[4..] == rest
  {
  }

  lemma ScanPairOver(hi: bytes, lo: bytes, rest: bytes)
    requires CharWf(Pair(hi, lo), true)
    ensures ScanUnicode(hi + (SHORT_U + lo + rest)) == Good(CharValue(Pair(hi, lo)), rest)
  {
    var tail := SHORT_U + lo + rest;
    var t := hi + tail;
    ScanHexOver(hi, tail);
    Assoc(SHORT_U, lo, rest);
    assert tail[2..] == lo + rest;
    assert t[6..] == tail[2..] && t[4] == tail[0] && t[5] == tail[1];
    ScanHexOver(lo, rest);
    assert t[10..] == t[6..][4..];
    FromPairIsScalar(HexNumber(hi), HexNumber(lo));
    hide FromPair, Rfc8259.PairScalar, HexNumber, Utf8.WriteChar, HexDigits;
  }

  lemma ScanEscapeOver(c: CharSyntax, rest: bytes)
    requires CharWf(c, true) && !c.Raw?
    ensures ScanChar(CharText(c) + rest) == Good(CharValue(c), rest)
  {
    var t := CharText(c) + rest;
    match c
    case Short(e) =>
      assert t[2..] == rest && t[1] == e;
    case Hex(h) =>
      Assoc(SHORT_U, h, rest);
      assert t[2..] == h + rest;
      ScanHexOver(h, rest);
    case Pair(hi, lo) =>
      Assoc(SHORT_U, hi, SHORT_U + lo);
      Assoc(SHORT_U, hi + (SHORT_U + lo), rest);
      Assoc(hi, SHORT_U + lo, rest);
      assert t[2..] == hi + (SHORT_U + lo + rest);
      ScanPairOver(hi, lo, rest);
  }

  lemma WriteCharLead(u: nat)
    requires Utf8.Scalar(u)
    ensures u <= 0x7F ==> Utf8.WriteChar(u) == [u]
    ensures u > 0x7F ==> Utf8.WriteChar(u)[0] > 0x7F
  {
  }

  lemma ScanRawOver(u: nat, rest: bytes)
    requires CharWf(Raw(u), true)
    ensures ScanChar(Utf8.WriteChar(u) + rest) == if u == 0x1F then Bad else Good(Utf8.WriteChar(u), rest)
  {
    var w := Utf8.WriteChar(u);
    WriteCharLead(u);
    Utf8.ReadAfterWrite(u, rest);
    assert (w + rest)[0] == w[0];
    assert (w + rest)[..|w|] == w && (w + rest)[|w|..] == rest;
  }

  /** Every character of the grammar is scanned whole and decoded to its value. */
  lemma ScanCharComplete(c: CharSyntax, rest: bytes)
    requires CharWf(c, true)
    ensures ScanChar(CharText(c) + rest) == if c == Raw(0x1F) then Bad else Good(CharValue(c), rest)
  {
    if c.Raw? {
      ScanRawOver(c.u, rest);
    } else {
      ScanEscapeOver(c, rest);
    }
  }

  lemma PairSound(t: bytes) returns (c: CharSyntax)
    requires ScanUnicode(t).Good? && IsSurrogate(HexNumber(t[..4]))
    ensures CharWf(c, false) && c.Pair?
    ensures CharText(c) + ScanUnicode(t).rest == SHORT_U + t && CharValue(c) == ScanUnicode(t).content
  {
    hide Rfc8259.PairScalar, HexNumber, Utf8.WriteChar, HexDigits;
    var h, lo, rest := t[..4], t[6..][..4], t[10..];
    var uc, lc := HexNumber(h), HexNumber(lo);
    assert FromPair(uc, lc).Some?;
    FromPairIsScalar(uc, lc);
    hide FromPair;
    c := Pair(h, lo);
    assert lo + rest == t[6..];
    assert SHORT_U + t[6..] == t[4..];
    Assoc(SHORT_U, lo, rest);
    Assoc(h, SHORT_U + lo, rest);
    Assoc(SHORT_U, h, SHORT_U + lo);
    Assoc(SHORT_U, h + (SHORT_U + lo), rest);
    assert h + t[4..] == t;
  }

  lemma UnicodeSound(t: bytes) returns (c: CharSyntax)
    requires ScanUnicode(t).Good?
    ensures CharWf(c, false) && !c.Raw?
    ensures CharText(c) + ScanUnicode(t).rest == SHORT_U + t && CharValue(c) == ScanUnicode(t).content
  {
    var h := t[..4];
    HexNumberOfFour(h);
    hide FromPair, Rfc8259.PairScalar, HexNumber, Utf8.WriteChar, HexDigits;
    var rest := ScanUnicode(t).rest;
    if IsSurrogate(HexNumber(h)) {
      c := PairSound(t);
    } else {
      c := Hex(h);
      assert h + rest == t;
      Assoc(SHORT_U, h, rest);
    }
  }

  lemma RawSound(t: bytes) returns (c: CharSyntax)
    requires First(t) > 0x1F && First(t) != QUOTE && First(t) != BACKSLASH && Utf8.CharLen(t) != 0
    ensures c.Raw? && CharWf(c, false) && CharText(c) == t[..Utf8.CharLen(t)] && CharValue(c) == CharText(c)
  {
    var u := Utf8.ReadChar(t);
    Utf8.WriteAfterRead(t);
    WriteCharLead(u);
    c := Raw(u);
    assert t[..Utf8.CharLen(t)][0] == t[0];
  }

  /** What one round of the scanner consumes is a character of the grammar with the value decoded. */
  lemma ScanCharSound(t: bytes) returns (c: CharSyntax)
    requires First(t) != QUOTE && ScanChar(t).Good?
    ensures CharWf(c, false)
    ensures CharText(c) + ScanChar(t).rest == t && CharValue(c) == ScanChar(t).content
  {
    if First(t) != BACKSLASH {
      c := RawSound(t);
      assert t[..Utf8.CharLen(t)] + t[Utf8.CharLen(t)..] == t;
    } else if At(t, 1) == LOWER_U {
      c := UnicodeSound(t[2..]);
      assert SHORT_U + t[2..] == t;
    } else {
      c := Short(t[1]);
      assert [BACKSLASH, t[1]] + t[2..] == t;
    }
  }

  predicate CharsWf(cs: seq<CharSyntax>, lenient: bool) {
    forall i :: 0 <= i < |cs| ==> CharWf(cs[i], lenient)
  }

  /** No character is a raw U+001F. */
  predicate CharsClean(cs: seq<CharSyntax>) {
    forall i :: 0 <= i < |cs| ==> cs[i] != Raw(0x1F)
  }

  /** Literal text from the first character to the closing quotation mark. */
  function CharsText(cs: seq<CharSyntax>): bytes
    requires CharsWf(cs, true)
  {
    if cs == [] then [QUOTE] else CharText(cs[0]) + CharsText(cs[1..])
  }

  function LiteralText(cs: seq<CharSyntax>): bytes
    requires CharsWf(cs, true)
  {
    [QUOTE] + CharsText(cs)
  }

  /** The decoded content of a literal. */
  function CharsValue(cs: seq<CharSyntax>): (v: bytes)
    requires CharsWf(cs, true)
    ensures NulFree(v)
  {
    if cs == [] then [] else CharValue(cs[0]) + CharsValue(cs[1..])
  }

  lemma {:induction false} ScanCharsComplete(cs: seq<CharSyntax>, acc: bytes, rest: bytes)
    requires CharsWf(cs, true)
    ensures ScanChars(CharsText(cs) + rest, acc) ==
            if CharsClean(cs) then Good(acc + CharsValue(cs), rest) else Bad
  {
    if cs == [] {
      assert acc + [] == acc;
    } else {
      var tail := CharsText(cs[1..]) + rest;
      Assoc(CharText(cs[0]), CharsText(cs[1..]), rest);
      assert (CharText(cs[0]) + tail)[0] == CharText(cs[0])[0];
      ScanCharComplete(cs[0], tail);
      if cs[0] == Raw(0x1F) {
        assert !CharsClean(cs);
      } else {
        var acc' := acc + CharValue(cs[0]);
        ScanCharsComplete(cs[1..], acc', rest);
        Assoc(acc, CharValue(cs[0]), CharsValue(cs[1..]));
        assert CharsClean(cs) <==> CharsClean(cs[1..]) by {
          assert forall i :: 1 <= i < |cs| ==> cs[i] == cs[1..][i - 1];
        }
      }
    }
  }

  /** parse_string decodes every literal of the grammar and refuses those with a raw U+001F, whatever follows. */
  lemma ScanStringComplete(cs: seq<CharSyntax>, rest: bytes)
    requires CharsWf(cs, true)
    ensures ScanString(LiteralText(cs) + rest) == if CharsClean(cs) then Good(CharsValue(cs), rest) else Bad
  {
    Assoc([QUOTE], CharsText(cs), rest);
    ScanCharsComplete(cs, [], rest);
    assert [] + CharsValue(cs) == CharsValue(cs);
  }

  lemma {:induction false} ScanCharsSound(t: bytes, acc: bytes) returns (cs: seq<CharSyntax>)
    requires ScanChars(t, acc).Good?
    ensures CharsWf(cs, false)
    ensures CharsText(cs) + ScanChars(t, acc).rest == t
    ensures acc + CharsValue(cs) == ScanChars(t, acc).content
    decreases |t|
  {
    if First(t) == QUOTE {
      cs := [];
      assert acc + [] == acc;
    } else {
      var c := ScanCharSound(t);
      var r := ScanChar(t);
      var cs' := ScanCharsSound(r.rest, acc + r.content);
      cs := [c] + cs';
      assert cs[1..] == cs';
      Assoc(CharText(c), CharsText(cs'), ScanChars(t, acc).rest);
      Assoc(acc, r.content, CharsValue(cs'));
    }
  }

  /** Whatever parse_string accepts is a literal of the grammar with the content decoded. */
  lemma ScanStringSound(t: bytes) returns (cs: seq<CharSyntax>)
    requires ScanString(t).Good?
    ensures CharsWf(cs, false)
    ensures LiteralText(cs) + ScanString(t).rest == t
    ensures CharsValue(cs) == ScanString(t).content
  {
    cs := ScanCharsSound(t[1..], []);
    assert [] + CharsValue(cs) == CharsValue(cs);
    Assoc([QUOTE], CharsText(cs), ScanString(t).rest);
  }

  /** A decoded content is valid UTF-8: it is the encoding of the scalars its characters denote. */
  lemma {:induction false} CharsValueValid(cs: seq<CharSyntax>)
    requires CharsWf(cs, true)
    ensures Utf8.Valid(CharsValue(cs))
  {
    if cs != [] {
      CharsValueValid(cs[1..]);
      Utf8.ReadAfterWrite(CharScalar(cs[0]), CharsValue(cs[1..]));
      assert CharsValue(cs)[|CharValue(cs[0])|..] == CharsValue(cs[1..]);
    }
  }
}
