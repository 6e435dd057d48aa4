/** emit_string: through a pointer that runs ahead of the buffer's cursor inside reserved headroom. */
module StringPrinter {
  import opened CStrings
  import Utf8
  import opened Utf16
  import opened Strings
  import opened StringEmission
  import opened StringBuffer

  /** `\uXXXX`, or two of them for a supplementary code point */
  method WriteEscape(sb: SB, b: nat, unicode: nat) returns (b': nat)
    requires sb.Valid() && b + 12 <= sb.end && unicode <= 0x10FFFF
    modifies sb.h
    ensures b' == b + |UnicodeEscape(unicode)| <= b + 12 && sb.Valid()
    ensures sb.Upto(b') == old(sb.Upto(b)) + UnicodeEscape(unicode) && sb.Rest() == old(sb.Rest())
  {
    b' := sb.PokeAll(b, SHORT_U);
    if unicode <= 0xFFFF {
      b' := sb.PokeAll(b', WriteHex16(unicode));
    } else {
      var (uc, lc) := ToPair(unicode);
      b' := sb.PokeAll(b', WriteHex16(uc));
      b' := sb.PokeAll(b', SHORT_U);
      b' := sb.PokeAll(b', WriteHex16(lc));
    }
  }

  /** One round of emit_string's loop: at most twelve bytes are written. */
  method WriteChar(sb: SB, text: bytes, s: nat, b: nat, escapeUnicode: bool) returns (s': nat, b': nat)
    requires sb.Valid() && b + 12 <= sb.end && s < |text| && Utf8Text(text[s..]) && NulFree(text)
    modifies sb.h
    ensures sb.Valid() && sb.Rest() == old(sb.Rest()) && s < s' <= |text| && b' <= b + 12
    ensures Utf8.CharLen(text[s..]) != 0 && s' == s + Utf8.CharLen(text[s..])
    ensures sb.Upto(b') == old(sb.Upto(b)) + EmitChar(text[s..], escapeUnicode)
  {
    var t := text[s..];
    Utf8TextTail(t);
    var c := Peek(text, s);
    if ShortEscape(c).Some? {
      assert Utf8.CharLen(t) == 1;
      b' := sb.PokeAll(b, [BACKSLASH, ShortEscape(c).value]);
      return s + 1, b';
    }
    var len := Utf8.ValidateChar(text, s);
    if c < 0x1F || (c >= 0x80 && escapeUnicode) {
      Utf8.WriteAfterRead(t);
      b' := WriteEscape(sb, b, Utf8.ReadChar(t));
    } else {
      b' := sb.PokeAll(b, t[..len]);
    }
    s' := s + len;
  }

  lemma InsideText(text: bytes, s: nat)
    requires s <= |text| && Peek(text, s) != 0
    ensures s < |text|
  {
  }

  lemma AtEnd(text: bytes, s: nat)
    requires NulFree(text) && s <= |text| && Peek(text, s) == 0
    ensures text[s..] == []
  {
  }

  /** The loop's body: a character, and the headroom for the next one. */
  method EmitRound(sb: SB, text: bytes, s: nat, b: nat, escapeUnicode: bool) returns (s': nat, b': nat)
    requires sb.Valid() && b + 13 <= sb.end && s < |text| && Utf8Text(text[s..]) && NulFree(text)
    modifies sb, sb.h
    ensures sb.Valid() && sb.Rest() == old(sb.Rest()) && s < s' <= |text| && Utf8Text(text[s'..]) && b' + 14 <= sb.end
    ensures sb.Upto(b') + EmitChars(text[s'..], escapeUnicode) == old(sb.Upto(b)) + EmitChars(text[s..], escapeUnicode)
  {
    ghost var before, t := sb.Upto(b), text[s..];
    EmitCharsStep(t, escapeUnicode);
    hide *;
    s', b' := WriteChar(sb, text, s, b, escapeUnicode);
    assert t[Utf8.CharLen(t)..] == text[s'..];
    Assoc(before, EmitChar(t, escapeUnicode), EmitChars(text[s'..], escapeUnicode));
    sb.Commit(b');
    sb.Need(14);
    b' := sb.cur;
  }

  /** The loop of emit_string: all characters, and room for the closing quotation mark. */
  method EmitLoop(sb: SB, text: bytes, start: nat, escapeUnicode: bool) returns (b: nat)
    requires sb.Valid() && start + 13 <= sb.end && Utf8Text(text) && NulFree(text)
    modifies sb, sb.h
    ensures sb.Valid() && sb.Rest() == old(sb.Rest()) && b + 13 <= sb.end
    ensures sb.Upto(b) + [QUOTE] == old(sb.Upto(start)) + EmitChars(text, escapeUnicode)
  {
    hide *;
    b := start;
    var s := 0;
    assert text[0..] == text;
    while Peek(text, s) != 0
      invariant 0 <= s <= |text| && Utf8Text(text[s..]) && sb.Valid() && sb.Rest() == old(sb.Rest())
      invariant b + 13 <= sb.end
      invariant sb.Upto(b) + EmitChars(text[s..], escapeUnicode) == old(sb.Upto(start)) + EmitChars(text, escapeUnicode)
      decreases |text| - s
    {
      assert s < |text| by { InsideText(text, s); }
      s, b := EmitRound(sb, text, s, b, escapeUnicode);
    }
    AtEnd(text, s);
    EmitCharsStep([], escapeUnicode);
  }

  /**
   * emit_string. 14 bytes are reserved before the opening quotation mark and after every character, so the
   * twelve bytes of a character and a quotation mark always fit.
   */
  method EmitStringText(sb: SB, text: bytes, escapeUnicode: bool)
    requires sb.Valid() && Utf8Text(text)
    modifies sb, sb.h
    ensures sb.Valid() && sb.Rest() == old(sb.Rest())
    ensures sb.Contents() == old(sb.Contents()) + EmitString(text, escapeUnicode)
  {
    ghost var before := sb.Contents();
    assert before + ([QUOTE] + EmitChars(text, escapeUnicode)) == before + EmitString(text, escapeUnicode);
    assert NulFree(text);
    hide *;
    sb.Need(14);
    var b := sb.cur;
    sb.Poke(b, QUOTE);
    Assoc(before, [QUOTE], EmitChars(text, escapeUnicode));
    b := EmitLoop(sb, text, b + 1, escapeUnicode);
    sb.Poke(b, QUOTE);
    sb.Commit(b + 1);
  }
}
