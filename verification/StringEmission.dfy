/** The text emit_string writes, and the round trip through parse_string. */
module StringEmission {
  import opened CStrings
  import Rfc8259
  import Utf8
  import opened Utf16
  import opened Strings

  /** The letter of the two-byte escape emit_string has for c, None if it has none. */
  function ShortEscape(c: byte): (r: Option<byte>)
    ensures r.Some? ==> IsShort(r.value) && ShortValue(r.value) == c
  {
    if c == QUOTE then Some(QUOTE)
    else if c == BACKSLASH then Some(BACKSLASH)
    else if c == 0x08 then Some(LOWER_B)
    else if c == 0x0C then Some(LOWER_F)
    else if c == LF then Some(LOWER_N)
    else if c == CR then Some(LOWER_R)
    else if c == TAB then Some(LOWER_T)
    else None
  }

  /** `\uXXXX`, or the surrogate pair of a supplementary code point. */
  function UnicodeEscape(u: nat): bytes
    requires u <= 0x10FFFF
  {
    if u <= 0xFFFF then SHORT_U + WriteHex16(u)
    else SHORT_U + WriteHex16(ToPair(u).0) + (SHORT_U + WriteHex16(ToPair(u).1))
  }

  /** A string emit_string can be called with: a C string of valid UTF-8. */
  predicate Utf8Text(s: bytes) {
    NulFree(s) && Utf8.Valid(s)
  }

  lemma Utf8TextTail(s: bytes)
    requires Utf8Text(s) && s != []
    ensures Utf8.CharLen(s) != 0 && Utf8Text(s[Utf8.CharLen(s)..])
  {
  }

  /** What one round of emit_string's loop writes for the character s starts with. */
  function EmitChar(s: bytes, escapeUnicode: bool): (t: bytes)
    requires s != [] && Utf8.CharLen(s) != 0
    ensures |t| <= 12
  {
    if ShortEscape(s[0]).Some? then [BACKSLASH, ShortEscape(s[0]).value]
    else if s[0] < 0x1F || (s[0] >= 0x80 && escapeUnicode) then
      Utf8.WriteAfterRead(s);
      UnicodeEscape(Utf8.ReadChar(s))
    else s[..Utf8.CharLen(s)]
  }

  function EmitChars(s: bytes, escapeUnicode: bool): bytes
    requires Utf8Text(s)
  {
    if s == [] then [QUOTE] else EmitChar(s, escapeUnicode) + EmitChars(s[Utf8.CharLen(s)..], escapeUnicode)
  }

  lemma EmitCharsStep(s: bytes, escapeUnicode: bool)
    requires Utf8Text(s)
    ensures s == [] ==> EmitChars(s, escapeUnicode) == [QUOTE]
    ensures s != [] ==>
              var n := Utf8.CharLen(s);
              && n != 0 && Utf8Text(s[n..])
              && EmitChars(s, escapeUnicode) == EmitChar(s, escapeUnicode) + EmitChars(s[n..], escapeUnicode)
  {
  }

  /** emit_string, with its local escape_unicode as a parameter. */
  function EmitString(s: bytes, escapeUnicode: bool): bytes
    requires Utf8Text(s)
  {
    [QUOTE] + EmitChars(s, escapeUnicode)
  }

  /** The escape `\uXXXX` or the pair of them that denotes u, as a character of the grammar. */
  function EscapeSyntax(u: nat): CharSyntax
    requires Utf8.Scalar(u)
  {
    if u <= 0xFFFF then Hex(WriteHex16(u)) else Pair(WriteHex16(ToPair(u).0), WriteHex16(ToPair(u).1))
  }

  lemma EscapeDenotes(u: nat)
    requires Utf8.Scalar(u) && u != 0
    ensures CharWf(EscapeSyntax(u), true) && !EscapeSyntax(u).Raw?
    ensures CharText(EscapeSyntax(u)) == UnicodeEscape(u) && CharScalar(EscapeSyntax(u)) == u
  {
    if u <= 0xFFFF {
      HexNumberAfterWrite(u);
    } else {
      FromPairAfterToPair(u);
      FromPairIsScalar(ToPair(u).0, ToPair(u).1);
      HexNumberAfterWrite(ToPair(u).0);
      HexNumberAfterWrite(ToPair(u).1);
    }
    hide HexNumber, WriteHex16, FromPair, ToPair, Rfc8259.PairScalar;
  }

  /** The character of the grammar that emit_string writes for a scalar value. */
  function Spelling(u: nat, escapeUnicode: bool): (c: CharSyntax)
    requires Utf8.Scalar(u)
  {
    if u <= 0x7F && ShortEscape(u).Some? then Short(ShortEscape(u).value)
    else if u < 0x1F || (u >= 0x80 && escapeUnicode) then EscapeSyntax(u)
    else Raw(u)
  }

  /** emit_string's two-byte escapes mean what RFC 8259 says they mean. */
  lemma ShortDenotes(u: nat)
    requires 0 < u <= 0x7F && ShortEscape(u).Some?
    ensures Rfc8259.Escape(ShortEscape(u).value) == u
  {
  }

  lemma SpellingDenotes(u: nat, escapeUnicode: bool)
    requires Utf8.Scalar(u) && u != 0
    ensures CharWf(Spelling(u, escapeUnicode), true) && CharScalar(Spelling(u, escapeUnicode)) == u
    ensures Spelling(u, escapeUnicode) == Raw(0x1F) <==> u == 0x1F
  {
    if u <= 0x7F && ShortEscape(u).Some? {
      hide *;
      ShortDenotes(u);
    } else {
      EscapeDenotes(u);
      hide EscapeSyntax, ShortEscape;
    }
  }

  lemma EmitCharSpells(s: bytes, escapeUnicode: bool)
    requires s != [] && s[0] != 0 && Utf8.CharLen(s) != 0
    ensures var u := Utf8.ReadChar(s);
            && Utf8.Scalar(u) && u != 0
            && CharWf(Spelling(u, escapeUnicode), true)
            && EmitChar(s, escapeUnicode) == CharText(Spelling(u, escapeUnicode))
            && CharValue(Spelling(u, escapeUnicode)) == s[..Utf8.CharLen(s)]
  {
    var u := Utf8.ReadChar(s);
    Utf8.WriteAfterRead(s);
    SpellingDenotes(u, escapeUnicode);
    WriteCharLead(u);
    assert s[..Utf8.CharLen(s)][0] == s[0];
  }

  /** The literal emit_string writes, as a string of characters of the grammar. */
  function Spellings(s: bytes, escapeUnicode: bool): seq<CharSyntax>
    requires Utf8Text(s)
  {
    if s == [] then [] else
    Utf8.WriteAfterRead(s);
    [Spelling(Utf8.ReadChar(s), escapeUnicode)] + Spellings(s[Utf8.CharLen(s)..], escapeUnicode)
  }

  predicate Has1F(s: bytes) {
    exists i :: 0 <= i < |s| && s[i] == 0x1F
  }

  lemma CharHas1F(s: bytes)
    requires s != [] && Utf8.CharLen(s) != 0
    ensures Utf8.ReadChar(s) == 0x1F <==> Has1F(s[..Utf8.CharLen(s)])
  {
    Utf8.LeadByte(s);
    Utf8.WriteAfterRead(s);
    var w := s[..Utf8.CharLen(s)];
    if Utf8.ReadChar(s) == 0x1F {
      assert w[0] == 0x1F;
    }
  }

  lemma Has1FConcat(a: bytes, b: bytes)
    ensures Has1F(a + b) <==> Has1F(a) || Has1F(b)
  {
    forall i | 0 <= i < |a| ensures (a + b)[i] == a[i] {}
    forall i | 0 <= i < |b| ensures (a + b)[|a| + i] == b[i] {}
  }

  lemma CleanCons(c: CharSyntax, cs: seq<CharSyntax>)
    ensures CharsClean([c] + cs) <==> c != Raw(0x1F) && CharsClean(cs)
  {
    assert ([c] + cs)[0] == c;
    assert forall i :: 0 <= i < |cs| ==> ([c] + cs)[i + 1] == cs[i];
  }

  lemma NoSpellings()
    ensures CharsWf([], true) && CharsValue([]) == [] && CharsText([]) == [QUOTE]
  {
  }

  lemma SpellingCons(c: CharSyntax, cs: seq<CharSyntax>)
    requires CharWf(c, true) && CharsWf(cs, true)
    ensures CharsWf([c] + cs, true)
    ensures CharsValue([c] + cs) == CharValue(c) + CharsValue(cs)
    ensures CharsText([c] + cs) == CharText(c) + CharsText(cs)
  {
    hide CharWf, CharText, CharValue;
    var all := [c] + cs;
    assert all[0] == c && all[1..] == cs;
    assert forall i :: 0 <= i < |all| ==> all[i] == if i == 0 then c else cs[i - 1];
  }

  lemma Utf8TextLead(s: bytes)
    requires Utf8Text(s) && s != []
    ensures s[0] != 0
  {
  }

  lemma {:induction false} SpellingsWf(s: bytes, escapeUnicode: bool)
    requires Utf8Text(s)
    ensures CharsWf(Spellings(s, escapeUnicode), true)
    ensures CharsValue(Spellings(s, escapeUnicode)) == s
    ensures CharsText(Spellings(s, escapeUnicode)) == EmitChars(s, escapeUnicode)
  {
    hide CharsWf, CharsValue, CharsText, CharWf, CharValue, CharText, Spelling, EmitChar, Utf8.Scalar;
    if s == [] {
      NoSpellings();
    } else {
      var n := Utf8.CharLen(s);
      Utf8TextTail(s);
      Utf8TextLead(s);
      Utf8.WriteAfterRead(s);
      EmitCharsStep(s, escapeUnicode);
      hide Utf8Text;
      SpellingsWf(s[n..], escapeUnicode);
      EmitCharSpells(s, escapeUnicode);
      SpellingCons(Spelling(Utf8.ReadChar(s), escapeUnicode), Spellings(s[n..], escapeUnicode));
      assert s == s[..n] + s[n..];
    }
  }

  lemma NothingClean()
    ensures CharsClean([]) && !Has1F([])
  {
  }

  lemma {:induction false} SpellingsClean(s: bytes, escapeUnicode: bool)
    requires Utf8Text(s)
    ensures CharsClean(Spellings(s, escapeUnicode)) <==> !Has1F(s)
  {
    hide CharsClean, Has1F;
    if s == [] {
      NothingClean();
    } else {
      var n := Utf8.CharLen(s);
      Utf8.WriteAfterRead(s);
      SpellingsClean(s[n..], escapeUnicode);
      SpellingDenotes(Utf8.ReadChar(s), escapeUnicode);
      CleanCons(Spelling(Utf8.ReadChar(s), escapeUnicode), Spellings(s[n..], escapeUnicode));
      CharHas1F(s);
      Has1FConcat(s[..n], s[n..]);
      assert s == s[..n] + s[n..];
    }
  }

  /** emit_string writes a literal of the grammar for s, except that U+001F stands in it as itself. */
  lemma EmitStringIsLiteral(s: bytes, escapeUnicode: bool)
    requires Utf8Text(s)
    ensures var cs := Spellings(s, escapeUnicode);
            && CharsWf(cs, true)
            && EmitString(s, escapeUnicode) == LiteralText(cs)
            && CharsValue(cs) == s
            && (CharsClean(cs) <==> !Has1F(s))
  {
    SpellingsWf(s, escapeUnicode);
    SpellingsClean(s, escapeUnicode);
  }

  /**
   * In both escaping modes parse_string reads back exactly the string emit_string wrote and stops behind
   * it, whatever follows; it fails exactly for strings with the byte 0x1F.
   */
  lemma StringRoundTrip(s: bytes, escapeUnicode: bool, rest: bytes)
    requires Utf8Text(s)
    ensures ScanString(EmitString(s, escapeUnicode) + rest) == if Has1F(s) then Bad else Good(s, rest)
  {
    EmitStringIsLiteral(s, escapeUnicode);
    ScanStringComplete(Spellings(s, escapeUnicode), rest);
  }

  /** Both escaping modes are read back alike, so a character sent through escapes arrives as the raw one. */
  lemma EscapingIsTransparent(s: bytes, rest: bytes)
    requires Utf8Text(s)
    ensures ScanString(EmitString(s, true) + rest) == ScanString(EmitString(s, false) + rest)
  {
    StringRoundTrip(s, true, rest);
    StringRoundTrip(s, false, rest);
  }

  // ------------------------------------------------------- which text it is

  /** emit_string has two-byte escapes for exactly these seven characters; it leaves the solidus alone. */
  lemma ShortEscapeIff(c: byte)
    ensures ShortEscape(c).Some? <==> c in {QUOTE, BACKSLASH, 0x08, 0x0C, LF, CR, TAB}
    ensures ShortEscape(c).Some? ==> ShortEscape(c).value != SLASH && Rfc8259.Escape(ShortEscape(c).value) == c
  {
    if ShortEscape(c).Some? { ShortDenotes(c); }
  }

  /** The bytes emit_string copies, U+001F among them. */
  predicate Plain(c: byte, escapeUnicode: bool) {
    c >= 0x1F && c != QUOTE && c != BACKSLASH && (escapeUnicode ==> c < 0x80)
  }

  /** A character is written as itself exactly if it starts with such a byte. */
  lemma VerbatimIff(s: bytes, escapeUnicode: bool)
    requires s != [] && Utf8.CharLen(s) != 0
    ensures EmitChar(s, escapeUnicode) == s[..Utf8.CharLen(s)] <==> Plain(s[0], escapeUnicode)
  {
    ShortEscapeIff(s[0]);
    Utf8.LeadByte(s);
    hide ShortEscape, WriteHex16, Utf8.ReadChar;
    if s[0] <= 0x7F {
      assert Utf8.CharLen(s) == 1;
    }
    if !Plain(s[0], escapeUnicode) {
      assert |EmitChar(s, escapeUnicode)| > 1 && EmitChar(s, escapeUnicode)[0] == BACKSLASH;
    }
  }

  /** Behind the first byte of a character come bytes that are as plain as it is. */
  lemma PlainTail(s: bytes, escapeUnicode: bool)
    requires Utf8Text(s) && s != [] && forall i :: 0 <= i < |s| ==> Plain(s[i], escapeUnicode)
    ensures var n := Utf8.CharLen(s);
            0 < n <= |s| && Utf8Text(s[n..]) && forall i :: 0 <= i < |s| - n ==> Plain(s[n..][i], escapeUnicode)
  {
    Utf8TextTail(s);
  }

  /** A string of plain bytes is printed between quotation marks as it stands. */
  lemma {:induction false} PlainIsVerbatim(s: bytes, escapeUnicode: bool)
    requires Utf8Text(s) && forall i :: 0 <= i < |s| ==> Plain(s[i], escapeUnicode)
    ensures EmitString(s, escapeUnicode) == [QUOTE] + s + [QUOTE]
  {
    PlainChars(s, escapeUnicode);
    Assoc([QUOTE], s, [QUOTE]);
  }

  lemma {:induction false} PlainChars(s: bytes, escapeUnicode: bool)
    requires Utf8Text(s) && forall i :: 0 <= i < |s| ==> Plain(s[i], escapeUnicode)
    ensures EmitChars(s, escapeUnicode) == s + [QUOTE]
  {
    EmitCharsStep(s, escapeUnicode);
    if s != [] {
      var n := Utf8.CharLen(s);
      PlainTail(s, escapeUnicode);
      VerbatimIff(s, escapeUnicode);
      PlainChars(s[n..], escapeUnicode);
      hide *;
      Assoc(s[..n], s[n..], [QUOTE]);
      assert s == s[..n] + s[n..];
    }
  }

  predicate IsAscii(t: bytes) {
    forall i :: 0 <= i < |t| ==> t[i] < 0x80
  }

  /** With escape_unicode, nothing but ASCII is written, whatever the string. */
  lemma {:induction false} EscapedIsAscii(s: bytes)
    requires Utf8Text(s)
    ensures IsAscii(EmitString(s, true))
  {
    EscapedCharsAreAscii(s);
  }

  lemma {:induction false} EscapedCharsAreAscii(s: bytes)
    requires Utf8Text(s)
    ensures IsAscii(EmitChars(s, true))
  {
    EmitCharsStep(s, true);
    if s != [] {
      EscapedCharIsAscii(s);
      EscapedCharsAreAscii(s[Utf8.CharLen(s)..]);
    }
  }

  lemma EscapedCharIsAscii(s: bytes)
    requires s != [] && Utf8.CharLen(s) != 0
    ensures IsAscii(EmitChar(s, true))
  {
    ShortEscapeIff(s[0]);
    hide Utf8.ReadChar;
  }

  // ---------------------------------------------------- what parse_string reads

  /** Behind a reverse solidus other than before `u`: the character RFC 8259 assigns, or failure. */
  lemma ScanShortEscape(c: byte, rest: bytes)
    requires c != LOWER_U
    ensures ScanChar([BACKSLASH, c] + rest) ==
            if Rfc8259.Escape(c) != 0 then Good([Rfc8259.Escape(c)], rest) else Bad
  {
    var t := [BACKSLASH, c] + rest;
    assert t[0] == BACKSLASH && t[1] == c && t[2..] == rest;
  }

  /** Every scalar value but U+0000 can be sent as an escape, and arrives as its UTF-8 encoding. */
  lemma EveryScalarByEscape(u: nat, rest: bytes)
    requires Utf8.Scalar(u) && u != 0
    ensures ScanChar(UnicodeEscape(u) + rest) == Good(Utf8.WriteChar(u), rest)
  {
    EscapeDenotes(u);
    ScanEscapeOver(EscapeSyntax(u), rest);
    hide ScanChar, CharWf;
  }

  lemma CharTextNulFree(c: CharSyntax)
    requires CharWf(c, true)
    ensures NulFree(CharText(c))
  {
  }

  lemma {:induction false} LiteralNulFree(cs: seq<CharSyntax>)
    requires CharsWf(cs, true)
    ensures NulFree(CharsText(cs))
  {
    if cs != [] {
      CharTextNulFree(cs[0]);
      LiteralNulFree(cs[1..]);
    }
  }

  /** The emitted literal contains no NUL, so sb_finish's length assertion holds for it. */
  lemma EmitStringNulFree(s: bytes, escapeUnicode: bool)
    requires Utf8Text(s)
    ensures NulFree(EmitString(s, escapeUnicode))
  {
    EmitStringIsLiteral(s, escapeUnicode);
    LiteralNulFree(Spellings(s, escapeUnicode));
  }
}
