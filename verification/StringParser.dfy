/** parse_string: from the cursor into a string buffer, or into a four-byte buffer that is thrown away. */
module StringParser {
  import opened CStrings
  import Utf8
  import opened Utf16
  import opened Strings
  import opened CMemory
  import opened Building
  import opened StringBuffer

  /** Where parse_string's pointer b writes: into the buffer's block, or without one into the throwaway bytes. */
  ghost predicate CanWrite(sb: SB?, throwaway: array<byte>, b: nat, n: nat)
    reads sb, if sb == null then {} else {sb.h}
  {
    if sb != null then sb.Valid() && b + n <= sb.end else b + n <= throwaway.Length
  }

  /** `*b++ = c` for every byte in turn; each store is inside the buffer. */
  method WriteBytes(sb: SB?, throwaway: array<byte>, b: nat, content: bytes) returns (b': nat)
    requires CanWrite(sb, throwaway, b, |content|)
    modifies throwaway, if sb == null then {} else {sb.h}
    ensures b' == b + |content| && CanWrite(sb, throwaway, b', 0)
    ensures sb != null ==> sb.Upto(b') == old(sb.Upto(b)) + content && sb.Rest() == old(sb.Rest())
  {
    if sb != null {
      b' := sb.PokeAll(b, content);
    } else {
      b' := b;
      while b' < b + |content|
        invariant b <= b' <= b + |content|
      {
        throwaway[b'] := content[b' - b];
        b' := b' + 1;
      }
    }
  }

  /** The escape behind `\u`: one or two groups of hexadecimal digits. */
  method ParseUnicode(json: bytes, start: nat) returns (ok: bool, s: nat, unicode: nat)
    requires NulFree(json) && start <= |json|
    ensures ok <==> ScanUnicode(json[start..]).Good?
    ensures start <= s <= |json| && (!ok ==> s == start)
    ensures ok ==> Utf8.Scalar(unicode) && ScanUnicode(json[start..]) == Good(Utf8.WriteChar(unicode), json[s..])
  {
    var uc, lc;
    ghost var t := json[start..];
    ok, s, uc := ParseHex16(json, start);
    if !ok {
      return false, start, 0;
    }
    if IsSurrogate(uc) {
      if Peek(json, s) != BACKSLASH {
        return false, start, 0;
      }
      assert At(t, 4) == BACKSLASH;
      if Peek(json, s + 1) != LOWER_U {
        return false, start, 0;
      }
      assert At(t, 5) == LOWER_U && json[s + 2..] == t[6..];
      ok, s, lc := ParseHex16(json, s + 2);
      if !ok {
        return false, start, 0;
      }
      var pair := FromPair(uc, lc);
      if pair.None? {
        return false, start, 0;
      }
      return true, s, pair.value;
    } else if uc == 0 {
      return false, start, 0;
    }
    return true, s, uc;
  }

  /** One round of parse_string's loop: at most four bytes are written. */
  method ParseChar(sb: SB?, throwaway: array<byte>, json: bytes, start: nat, b: nat) returns (ok: bool, s: nat, b': nat)
    requires NulFree(json) && start <= |json| && First(json[start..]) != QUOTE
    requires CanWrite(sb, throwaway, b, 4)
    modifies throwaway, if sb == null then {} else {sb.h}
    ensures ok <==> ScanChar(json[start..]).Good?
    ensures start <= s <= |json| && (!ok ==> s == start)
    ensures sb != null ==> sb.Valid() && sb.Rest() == old(sb.Rest())
    ensures ok ==>
              var r := ScanChar(json[start..]);
              && json[s..] == r.rest && b' == b + |r.content| && b' <= b + 4
              && (sb != null ==> b' <= sb.end && sb.Upto(b') == old(sb.Upto(b)) + r.content)
  {
    s, b' := start, b;
    var c := Peek(json, s);
    if c == BACKSLASH {
      var e := Peek(json, s + 1);
      if e == LOWER_U {
        var unicode;
        ok, s, unicode := ParseUnicode(json, s + 2);
        if !ok {
          return false, start, b;
        }
        b' := WriteBytes(sb, throwaway, b, Utf8.WriteChar(unicode));
        return true, s, b';
      } else if IsShort(e) {
        b' := WriteBytes(sb, throwaway, b, [ShortValue(e)]);
        return true, s + 2, b';
      }
      return false, start, b;
    } else if c <= 0x1F {
      return false, start, b;
    }
    var len := Utf8.ValidateChar(json, s);
    if len == 0 {
      return false, start, b;
    }
    assert json[s..][..len] == json[s..s + len];
    b' := WriteBytes(sb, throwaway, b, json[s..s + len]);
    return true, s + len, b';
  }

  /** The end of parse_string in build mode */
  method FinishString(h: CHeap, sb: SB, ghost m0: Mem) returns (out: Ptr)
    requires sb.h == h && sb.Valid() && sb.Rest() == m0 && m0.Sane() && sb.start !in m0.Live() && NulFree(sb.Contents())
    modifies h
    ensures StringBuilt(m0, h.mem, out, old(sb.Contents()))
  {
    out := sb.Finish();
  }

  /**
   * parse_string. In build mode (out != NULL) success leaves one new block with the decoded string and
   * failure leaves the memory as it was; in validate mode nothing is allocated at all.
   */
  method ParseString(h: CHeap, json: bytes, start: nat, build: bool) returns (ok: bool, s: nat, out: Ptr)
    requires NulFree(json) && start <= |json| && h.mem.Sane()
    modifies h
    ensures ok <==> ScanString(json[start..]).Good?
    ensures start <= s <= |json| && (if ok then json[s..] == ScanString(json[start..]).rest else s == start)
    ensures !build || !ok ==> h.mem == old(h.mem)
    ensures build && ok ==> StringBuilt(old(h.mem), h.mem, out, ScanString(json[start..]).content)
  {
    hide ScanChar, StringBuilt;
    s, out := start, NULL;
    if Peek(json, s) != QUOTE {
      return false, start, NULL;
    }
    s := s + 1;
    var throwaway := new byte[4];
    var sb: SB? := null;
    var b := 0;
    if build {
      sb := new SB(h);
      sb.Need(4);
      b := sb.cur;
    }
    ghost var acc := [];
    while Peek(json, s) != QUOTE
      invariant start < s <= |json|
      invariant ScanString(json[start..]) == ScanChars(json[s..], acc)
      invariant build <==> sb != null
      invariant !build ==> b == 0 && h.mem == old(h.mem)
      invariant sb != null ==> fresh(sb) && sb.h == h && sb.Valid() && sb.Rest() == old(h.mem)
      invariant sb != null ==> b == sb.cur && b + 4 <= sb.end && sb.Contents() == acc
      decreases |json| - s
    {
      ghost var r := ScanChar(json[s..]);
      ok, s, b := ParseChar(sb, throwaway, json, s, b);
      if !ok {
        if build {
          sb.Release();
        }
        return false, start, NULL;
      }
      acc := acc + r.content;
      if build {
        sb.Commit(b);
        sb.Need(4);
        b := sb.cur;
      } else {
        b := 0;
      }
    }
    s := s + 1;
    if build {
      ContentNulFree(json[start..]);
      out := FinishString(h, sb, old(h.mem));
    }
    return true, s, out;
  }

  /** What parse_string decodes has no NUL in it, so sb_finish's assertion holds. */
  lemma ContentNulFree(t: bytes)
    requires ScanString(t).Good?
    ensures NulFree(ScanString(t).content)
  {
    var cs := ScanStringSound(t);
    assert CharsWf(cs, true);
  }
}
