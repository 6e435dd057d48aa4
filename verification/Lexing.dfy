/** The cursor loops of the parser that build nothing: blank space, literals and numbers. */
module Lexing {
  import opened CStrings
  import Rfc8259
  import opened Numbers
  import opened Json

  /** skip_space */
  method SkipSpaces(json: bytes, s: nat) returns (s': nat)
    requires NulFree(json) && s <= |json|
    ensures s <= s' <= |json| && json[s'..] == SkipSpace(json[s..])
    ensures AllSpace(json[s..s']) && (s' < |json| ==> !Rfc8259.Ws(json[s']))
  {
    s' := s;
    while IsSpace(Peek(json, s'))
      invariant s <= s' <= |json| && AllSpace(json[s..s'])
      invariant SkipSpace(json[s'..]) == SkipSpace(json[s..])
      decreases |json| - s'
    {
      SpaceGrows(json, s, s');
      s' := s' + 1;
    }
  }

  lemma SpaceGrows(json: bytes, s: nat, s': nat)
    requires s <= s' < |json| && AllSpace(json[s..s']) && IsSpace(json[s'])
    ensures AllSpace(json[s..s' + 1])
  {
    ClassesOfRfc8259(json[s']);
    assert json[s..s' + 1] == json[s..s'] + [json[s']];
  }

  /** expect_literal: the pointer moves only on success */
  method ExpectLiteral(json: bytes, s: nat, literal: bytes) returns (ok: bool, s': nat)
    requires NulFree(json) && NulFree(literal) && s <= |json|
    ensures ok <==> Expects(json[s..], literal)
    ensures s' == if ok then s + |literal| else s
    ensures s' <= |json|
  {
    var i := 0;
    while i < |literal|
      invariant 0 <= i <= |literal| && s + i <= |json|
      invariant literal[..i] <= json[s..]
    {
      if Peek(json, s + i) != literal[i] {
        assert At(json[s..], i) != literal[i];
        return false, s;
      }
      i := i + 1;
    }
    assert literal[..i] == literal;
    return true, s + i;
  }

  /** `do { s++; } while (is_digit(*s));` behind the test of the first digit */
  method SkipDigitRun(json: bytes, s: nat) returns (s': nat)
    requires NulFree(json) && s <= |json| && IsDigit(First(json[s..]))
    ensures s < s' <= |json| && json[s'..] == SkipDigits(json[s..])
  {
    s' := s + 1;
    while IsDigit(Peek(json, s'))
      invariant s < s' <= |json|
      invariant SkipDigits(json[s'..]) == SkipDigits(json[s..])
      decreases |json| - s'
    {
      s' := s' + 1;
    }
  }

  /** parse_number without the strtod call: where the cursor stops, and whether it is a number at all. */
  method LexNumber(json: bytes, start: nat) returns (ok: bool, s: nat)
    requires NulFree(json) && start <= |json|
    ensures ok <==> ScanNumber(json[start..]).Some?
    ensures start <= s <= |json| && (if ok then json[s..] == ScanNumber(json[start..]).value else s == start)
  {
    hide ScanWhole, ScanFrac, ScanExp;
    ghost var t := json[start..];
    s := start;
    if Peek(json, s) == MINUS {
      s := s + 1;
    }
    assert json[s..] == ScanMinus(t);
    hide ScanMinus;
    ok, s := LexWhole(json, s);
    if !ok {
      return false, start;
    }
    ok, s := LexFraction(json, s);
    if !ok {
      return false, start;
    }
    ok, s := LexExponent(json, s);
    if !ok {
      s := start;
    }
  }

  /** `(0 | [1-9][0-9]*)` */
  method LexWhole(json: bytes, start: nat) returns (ok: bool, s: nat)
    requires NulFree(json) && start <= |json|
    ensures ok <==> ScanWhole(json[start..]).Some?
    ensures start <= s <= |json| && (ok ==> json[s..] == ScanWhole(json[start..]).value)
  {
    s := start;
    if Peek(json, s) == ZERO {
      return true, s + 1;
    }
    if !IsDigit(Peek(json, s)) {
      return false, start;
    }
    s := SkipDigitRun(json, s);
    return true, s;
  }

  /** `('.' [0-9]+)?` */
  method LexFraction(json: bytes, start: nat) returns (ok: bool, s: nat)
    requires NulFree(json) && start <= |json|
    ensures ok <==> ScanFrac(json[start..]).Some?
    ensures start <= s <= |json| && (ok ==> json[s..] == ScanFrac(json[start..]).value)
  {
    s := start;
    if Peek(json, s) == DOT {
      s := s + 1;
      assert json[s..] == json[start..][1..];
      if !IsDigit(Peek(json, s)) {
        return false, start;
      }
      s := SkipDigitRun(json, s);
    }
    return true, s;
  }

  /** `([Ee] [+-]? [0-9]+)?` */
  method LexExponent(json: bytes, start: nat) returns (ok: bool, s: nat)
    requires NulFree(json) && start <= |json|
    ensures ok <==> ScanExp(json[start..]).Some?
    ensures start <= s <= |json| && (ok ==> json[s..] == ScanExp(json[start..]).value)
  {
    s := start;
    if Peek(json, s) == UPPER_E || Peek(json, s) == LOWER_E {
      s := s + 1;
      ghost var t := json[s..];
      assert t == json[start..][1..];
      if Peek(json, s) == PLUS || Peek(json, s) == MINUS {
        s := s + 1;
      }
      assert json[s..] == ScanSign(t);
      if !IsDigit(Peek(json, s)) {
        return false, start;
      }
      s := SkipDigitRun(json, s);
    }
    return true, s;
  }

  /** parse_number: on success the value strtod finds in the whole text from the start of the number on. */
  method ParseNumber(libc: Libc, json: bytes, start: nat, build: bool) returns (ok: bool, s: nat, num: Double)
    requires NulFree(json) && start <= |json|
    ensures ok <==> ScanNumber(json[start..]).Some?
    ensures start <= s <= |json| && (if ok then json[s..] == ScanNumber(json[start..]).value else s == start)
    ensures ok && build ==> num == libc.strtod(json[start..])
  {
    num := 0;
    ok, s := LexNumber(json, start);
    if ok && build {
      num := libc.strtod(json[start..]);
    }
  }

  /** number_is_valid */
  method CheckNumber(num: bytes) returns (ok: bool)
    requires NulFree(num)
    ensures ok <==> NumberIsValid(num)
  {
    var valid, s := LexNumber(num, 0);
    assert num[0..] == num;
    ok := valid && Peek(num, s) == 0;
  }
}
