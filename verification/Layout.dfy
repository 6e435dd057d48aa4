/**
 * How json_stringify lays its text out: the indented text is the compact one with line ends, copies of the
 * space string and blanks put in by a rule that looks at the marks only.
 */
module Layout {
  import opened CStrings
  import opened Numbers
  import opened Utf16
  import Utf8
  import opened Strings
  import opened StringEmission
  import opened Json
  import opened Printing

  /** The indentation is level copies of the space string. */
  lemma {:induction false} IndentIs(space: bytes, level: nat, i: nat)
    requires i < level
    ensures |Indent(space, level)| == level * |space|
    ensures i * |space| + |space| <= |Indent(space, level)|
    ensures Indent(space, level)[i * |space|..i * |space| + |space|] == space
  {
    IndentLength(space, level);
    MoreCopies(i, level, |space|);
    var more := Indent(space, level - 1);
    if i > 0 {
      IndentIs(space, level - 1, i - 1);
      OneCopyLess(i, |space|);
      var a := (i - 1) * |space|;
      assert (space + more)[|space| + a..|space| + a + |space|] == more[a..a + |space|];
    }
  }

  lemma {:induction false} IndentLength(space: bytes, level: nat)
    ensures |Indent(space, level)| == level * |space|
  {
    if level > 0 {
      IndentLength(space, level - 1);
      OneCopyLess(level, |space|);
    }
  }

  lemma OneCopyLess(i: nat, n: nat)
    requires i > 0
    ensures i * n == n + (i - 1) * n
  {
  }

  lemma MoreCopies(i: nat, level: nat, n: nat)
    requires i < level
    ensures i * n + n <= level * n
  {
    assert (level - i - 1) * n >= 0;
    assert level * n == i * n + n + (level - i - 1) * n;
  }

  // ------------------------------------------------------------------- the rule

  predicate Opens(c: byte) {
    c == LBRACKET || c == LBRACE
  }

  predicate Closes(c: byte) {
    c == RBRACKET || c == RBRACE
  }

  /** A byte outside strings at which nothing is put in. */
  predicate Inert(c: byte) {
    !Opens(c) && !Closes(c) && c != COMMA && c != COLON && c != QUOTE
  }

  /** The text t, level brackets deep and outside of strings, laid out with the space string. */
  function LaidOut(t: bytes, space: bytes, level: nat): bytes
    decreases |t|
  {
    if t == [] then []
    else if t[0] == QUOTE then [QUOTE] + InString(t[1..], space, level)
    else if Opens(t[0]) && Closes(First(t[1..])) then t[..2] + LaidOut(t[2..], space, level)
    else if Opens(t[0]) then [t[0], LF] + (Indent(space, level + 1) + LaidOut(t[1..], space, level + 1))
    else if Closes(t[0]) && level > 0 then
      [LF] + (Indent(space, level - 1) + ([t[0]] + LaidOut(t[1..], space, level - 1)))
    else if t[0] == COMMA then [COMMA, LF] + (Indent(space, level) + LaidOut(t[1..], space, level))
    else if t[0] == COLON then [COLON, BLANK] + LaidOut(t[1..], space, level)
    else [t[0]] + LaidOut(t[1..], space, level)
  }

  /** The same inside a string, which ends at a quotation mark without a reverse solidus before it. */
  function InString(t: bytes, space: bytes, level: nat): bytes
    decreases |t|
  {
    if t == [] then []
    else if t[0] == QUOTE then [QUOTE] + LaidOut(t[1..], space, level)
    else if t[0] == BACKSLASH && |t| > 1 then t[..2] + InString(t[2..], space, level)
    else [t[0]] + InString(t[1..], space, level)
  }

  lemma AtQuote(rest: bytes, space: bytes, level: nat)
    ensures LaidOut([QUOTE] + rest, space, level) == [QUOTE] + InString(rest, space, level)
    ensures InString([QUOTE] + rest, space, level) == [QUOTE] + LaidOut(rest, space, level)
  {
    assert ([QUOTE] + rest)[1..] == rest;
  }

  lemma AtOpen(c: byte, rest: bytes, space: bytes, level: nat)
    requires Opens(c) && !Closes(First(rest))
    ensures LaidOut([c] + rest, space, level) == [c, LF] + (Indent(space, level + 1) + LaidOut(rest, space, level + 1))
  {
    assert ([c] + rest)[1..] == rest;
  }

  lemma AtEmpty(c: byte, d: byte, rest: bytes, space: bytes, level: nat)
    requires Opens(c) && Closes(d)
    ensures LaidOut([c] + [d] + rest, space, level) == [c, d] + LaidOut(rest, space, level)
  {
    var t := [c] + [d] + rest;
    assert t[1..][0] == d && t[..2] == [c, d] && t[2..] == rest;
  }

  lemma AtClose(c: byte, rest: bytes, space: bytes, level: nat)
    requires Closes(c) && level > 0
    ensures LaidOut([c] + rest, space, level) ==
            [LF] + (Indent(space, level - 1) + ([c] + LaidOut(rest, space, level - 1)))
  {
    assert ([c] + rest)[1..] == rest;
  }

  lemma AtSeparator(rest: bytes, space: bytes, level: nat)
    ensures LaidOut([COMMA] + rest, space, level) == [COMMA, LF] + (Indent(space, level) + LaidOut(rest, space, level))
    ensures LaidOut([COLON] + rest, space, level) == [COLON, BLANK] + LaidOut(rest, space, level)
  {
    assert ([COMMA] + rest)[1..] == rest && ([COLON] + rest)[1..] == rest;
  }

  predicate AllInert(p: bytes) {
    forall i :: 0 <= i < |p| ==> Inert(p[i])
  }

  lemma {:induction false} OverInert(p: bytes, rest: bytes, space: bytes, level: nat)
    requires AllInert(p)
    ensures LaidOut(p + rest, space, level) == p + LaidOut(rest, space, level)
  {
    if p == [] {
      assert p + rest == rest && p + LaidOut(rest, space, level) == LaidOut(rest, space, level);
    } else {
      assert (p + rest)[1..] == p[1..] + rest;
      OverInert(p[1..], rest, space, level);
      Assoc([p[0]], p[1..], LaidOut(rest, space, level));
      assert p == [p[0]] + p[1..];
    }
  }

  // -------------------------------------------------------------------- strings

  predicate AllPlain(p: bytes) {
    forall i :: 0 <= i < |p| ==> p[i] != QUOTE && p[i] != BACKSLASH
  }

  lemma {:induction false} OverPlain(p: bytes, rest: bytes, space: bytes, level: nat)
    requires AllPlain(p)
    ensures InString(p + rest, space, level) == p + InString(rest, space, level)
  {
    if p == [] {
      assert p + rest == rest && p + InString(rest, space, level) == InString(rest, space, level);
    } else {
      assert (p + rest)[1..] == p[1..] + rest;
      OverPlain(p[1..], rest, space, level);
      Assoc([p[0]], p[1..], InString(rest, space, level));
      assert p == [p[0]] + p[1..];
    }
  }

  lemma OverEscape(c: byte, p: bytes, rest: bytes, space: bytes, level: nat)
    requires AllPlain(p)
    ensures InString([BACKSLASH, c] + p + rest, space, level) == [BACKSLASH, c] + p + InString(rest, space, level)
  {
    var t := [BACKSLASH, c] + p + rest;
    assert t[..2] == [BACKSLASH, c] && t[2..] == p + rest;
    OverPlain(p, rest, space, level);
    Assoc([BACKSLASH, c], p, InString(rest, space, level));
  }

  lemma HexIsPlain(h: bytes)
    requires HexDigits(h)
    ensures AllPlain(h)
  {
  }

  /** A character of a literal is copied. */
  lemma OverChar(c: CharSyntax, rest: bytes, space: bytes, level: nat)
    requires CharWf(c, true)
    ensures InString(CharText(c) + rest, space, level) == CharText(c) + InString(rest, space, level)
  {
    hide InString;
    match c
    case Raw(u) =>
      RawIsPlain(u);
      OverPlain(CharText(c), rest, space, level);
    case Short(e) =>
      OverEscape(e, [], rest, space, level);
      assert [BACKSLASH, e] + [] == [BACKSLASH, e];
    case Hex(h) =>
      HexIsPlain(h);
      OverEscape(LOWER_U, h, rest, space, level);
    case Pair(hi, lo) =>
      HexIsPlain(hi);
      HexIsPlain(lo);
      var second := SHORT_U + lo;
      OverEscape(LOWER_U, hi, second + rest, space, level);
      OverEscape(LOWER_U, lo, rest, space, level);
      Assoc(SHORT_U + hi, second, rest);
      Assoc(SHORT_U + hi, second, InString(rest, space, level));
  }

  lemma RawIsPlain(u: nat)
    requires CharWf(Raw(u), true)
    ensures AllPlain(Utf8.WriteChar(u))
  {
  }

  lemma {:induction false} OverChars(cs: seq<CharSyntax>, rest: bytes, space: bytes, level: nat)
    requires CharsWf(cs, true)
    ensures InString(CharsText(cs) + rest, space, level) == CharsText(cs) + LaidOut(rest, space, level)
  {
    if cs == [] {
      AtQuote(rest, space, level);
    } else {
      var more := CharsText(cs[1..]);
      OverChars(cs[1..], rest, space, level);
      OverChar(cs[0], more + rest, space, level);
      hide *;
      Assoc(CharText(cs[0]), more, rest);
      Assoc(CharText(cs[0]), more, LaidOut(rest, space, level));
    }
  }

  /** A string literal as emit_string writes it is copied, whatever marks it contains. */
  lemma OverString(s: bytes, rest: bytes, space: bytes, level: nat)
    requires Utf8Text(s)
    ensures LaidOut(EmitString(s, false) + rest, space, level) == EmitString(s, false) + LaidOut(rest, space, level)
  {
    EmitStringIsLiteral(s, false);
    var cs := Spellings(s, false);
    OverChars(cs, rest, space, level);
    AtQuote(CharsText(cs) + rest, space, level);
    hide LaidOut, InString, CharsText, EmitString;
    Assoc([QUOTE], CharsText(cs), rest);
    Assoc([QUOTE], CharsText(cs), LaidOut(rest, space, level));
  }

  // --------------------------------------------------------------------- values

  lemma InertConcat(p: bytes, q: bytes)
    ensures AllInert(p + q) <==> AllInert(p) && AllInert(q)
  {
    assert forall i :: 0 <= i < |p| ==> (p + q)[i] == p[i];
    assert forall i :: 0 <= i < |q| ==> (p + q)[|p| + i] == q[i];
  }

  lemma DigitsAreInert(ds: bytes)
    requires Digits(ds)
    ensures AllInert(ds)
  {
  }

  lemma ExpIsInert(x: ExpSyntax)
    requires x.Wf()
    ensures AllInert(x.Text())
  {
    DigitsAreInert(x.digits);
    InertConcat(x.sign, x.digits);
    InertConcat([x.e], x.sign + x.digits);
  }

  lemma NumberIsInert(n: NumberSyntax)
    requires n.Wf()
    ensures AllInert(n.Text())
  {
    var sign := if n.minus then [MINUS] else [];
    DigitsAreInert(n.whole);
    if n.frac.Some? {
      DigitsAreInert(n.frac.value);
      InertConcat([DOT], n.frac.value);
    }
    if n.exp.Some? { ExpIsInert(n.exp.value); }
    hide *;
    InertConcat(n.FracText(), n.ExpText());
    InertConcat(n.whole, n.FracText() + n.ExpText());
    InertConcat(sign, n.whole + (n.FracText() + n.ExpText()));
  }

  lemma PrintedNumberIsInert(libc: Libc, n: Double)
    ensures AllInert(EmitNumber(libc, n))
  {
    if NumberIsValid(libc.sprintf(n)) {
      NumberIsValidIff(libc.sprintf(n));
      var syntax: NumberSyntax :| syntax.Wf() && syntax.Text() == libc.sprintf(n);
      NumberIsInert(syntax);
    }
  }

  /** A printed value does not start with a closing bracket. */
  lemma ValueStart(libc: Libc, v: Json)
    requires Checked(v)
    ensures Encode(libc, v) != [] && !Closes(Encode(libc, v)[0])
  {
    match v
    case Num(n) =>
      PrintedNumberIsInert(libc, n);
      if NumberIsValid(libc.sprintf(n)) { assert libc.sprintf(n) != []; }
    case _ =>
  }

  /** The layout rule makes the indented text out of the compact one, in front of whatever follows. */
  lemma {:induction false} PrettyIsLaidOut(libc: Libc, v: Json, space: bytes, level: nat, rest: bytes)
    requires Checked(v)
    ensures LaidOut(Encode(libc, v) + rest, space, level) ==
            Pretty(libc, v, space, level) + LaidOut(rest, space, level)
    decreases v
  {
    match v
    case Null => OverInert(NULL_TEXT, rest, space, level);
    case Bool(b) => OverInert(if b then TRUE_TEXT else FALSE_TEXT, rest, space, level);
    case Str(s) => OverString(s, rest, space, level);
    case Num(n) =>
      PrintedNumberIsInert(libc, n);
      OverInert(EmitNumber(libc, n), rest, space, level);
    case Arr(es) =>
      if es == [] {
        AtEmpty(LBRACKET, RBRACKET, rest, space, level);
      } else {
        ElemsLaidOut(libc, es, space, level, rest);
        ElemsStart(libc, es, rest);
        hide *;
        Opened(LBRACKET, EncodeElems(libc, es), PrettyElems(libc, es, space, level), space, level, rest);
      }
    case Obj(ms) =>
      if ms == [] {
        AtEmpty(LBRACE, RBRACE, rest, space, level);
      } else {
        MembersLaidOut(libc, ms, space, level, rest);
        MembersStart(libc, ms, rest);
        hide *;
        Opened(LBRACE, EncodeMembers(libc, ms), PrettyMembers(libc, ms, space, level), space, level, rest);
      }
  }

  /** A container's text from its body's. */
  lemma Opened(c: byte, body: bytes, pretty: bytes, space: bytes, level: nat, rest: bytes)
    requires Opens(c) && !Closes(First(body + rest))
    requires Indent(space, level + 1) + LaidOut(body + rest, space, level + 1) == pretty + LaidOut(rest, space, level)
    ensures LaidOut([c] + body + rest, space, level) == [c, LF] + pretty + LaidOut(rest, space, level)
  {
    AtOpen(c, body + rest, space, level);
    hide *;
    Assoc([c], body, rest);
    Assoc([c, LF], pretty, LaidOut(rest, space, level));
  }

  lemma ElemsStart(libc: Libc, es: seq<Json>, rest: bytes)
    requires es != [] && ElemsChecked(es)
    ensures !Closes(First(EncodeElems(libc, es) + rest))
  {
    ValueStart(libc, es[0]);
  }

  lemma MembersStart(libc: Libc, ms: seq<Member>, rest: bytes)
    requires ms != [] && MembersChecked(ms)
    ensures !Closes(First(EncodeMembers(libc, ms) + rest))
  {
  }

  lemma {:induction false} ElemsLaidOut(libc: Libc, es: seq<Json>, space: bytes, level: nat, rest: bytes)
    requires es != [] && ElemsChecked(es)
    ensures Indent(space, level + 1) + LaidOut(EncodeElems(libc, es) + rest, space, level + 1) ==
            PrettyElems(libc, es, space, level) + LaidOut(rest, space, level)
    decreases es
  {
    var compact, pretty := EncodeElems(libc, es[1..]), PrettyElems(libc, es[1..], space, level);
    var more := (if |es| > 1 then [COMMA] else []) + compact;
    var lines := (if |es| > 1 then [COMMA, LF] else [LF]) + pretty;
    PrettyIsLaidOut(libc, es[0], space, level + 1, more + rest);
    if |es| > 1 {
      ElemsLaidOut(libc, es[1..], space, level, rest);
      hide *;
      NextLine(compact, pretty, space, level, rest);
    } else {
      assert es[1..] == [] && compact == [RBRACKET] && pretty == Indent(space, level) + [RBRACKET];
      hide *;
      LastLine(RBRACKET, space, level, rest);
      assert more == [RBRACKET];
    }
    hide *;
    Assoc(Encode(libc, es[0]), more, rest);
    ItemLine(Indent(space, level + 1), Pretty(libc, es[0], space, level + 1), lines, LaidOut(rest, space, level));
  }

  /** What stands behind an item that is not the last. */
  lemma NextLine(compact: bytes, pretty: bytes, space: bytes, level: nat, rest: bytes)
    requires Indent(space, level + 1) + LaidOut(compact + rest, space, level + 1) ==
             pretty + LaidOut(rest, space, level)
    ensures LaidOut([COMMA] + compact + rest, space, level + 1) == [COMMA, LF] + pretty + LaidOut(rest, space, level)
  {
    AtSeparator(compact + rest, space, level + 1);
    hide *;
    Assoc([COMMA], compact, rest);
    Assoc([COMMA, LF], pretty, LaidOut(rest, space, level));
  }

  /** What stands behind the last one. */
  lemma LastLine(c: byte, space: bytes, level: nat, rest: bytes)
    requires Closes(c)
    ensures LaidOut([c] + rest, space, level + 1) ==
            [LF] + (Indent(space, level) + [c]) + LaidOut(rest, space, level)
  {
    AtClose(c, rest, space, level + 1);
    hide *;
    Assoc(Indent(space, level), [c], LaidOut(rest, space, level));
    Assoc([LF], Indent(space, level) + [c], LaidOut(rest, space, level));
  }

  lemma ItemLine(indent: bytes, text: bytes, lines: bytes, rest: bytes)
    ensures indent + (text + (lines + rest)) == indent + (text + lines) + rest
  {
    Assoc(text, lines, rest);
    Assoc(indent, text + lines, rest);
  }

  lemma {:induction false} MembersLaidOut(libc: Libc, ms: seq<Member>, space: bytes, level: nat, rest: bytes)
    requires ms != [] && MembersChecked(ms)
    ensures Indent(space, level + 1) + LaidOut(EncodeMembers(libc, ms) + rest, space, level + 1) ==
            PrettyMembers(libc, ms, space, level) + LaidOut(rest, space, level)
    decreases ms
  {
    var compact, pretty := EncodeMembers(libc, ms[1..]), PrettyMembers(libc, ms[1..], space, level);
    var more := (if |ms| > 1 then [COMMA] else []) + compact;
    var lines := (if |ms| > 1 then [COMMA, LF] else [LF]) + pretty;
    var key, value := EmitString(ms[0].key, false), Encode(libc, ms[0].value);
    PrettyIsLaidOut(libc, ms[0].value, space, level + 1, more + rest);
    OverString(ms[0].key, [COLON] + (value + (more + rest)), space, level + 1);
    if |ms| > 1 {
      MembersLaidOut(libc, ms[1..], space, level, rest);
      hide *;
      NextLine(compact, pretty, space, level, rest);
    } else {
      assert ms[1..] == [] && compact == [RBRACE] && pretty == Indent(space, level) + [RBRACE];
      hide *;
      LastLine(RBRACE, space, level, rest);
      assert more == [RBRACE];
    }
    hide *;
    AtSeparator(value + (more + rest), space, level + 1);
    FieldText(key, value, more, rest);
    FieldLine(Indent(space, level + 1), key, Pretty(libc, ms[0].value, space, level + 1), lines,
        LaidOut(rest, space, level));
  }

  lemma FieldText(key: bytes, value: bytes, more: bytes, rest: bytes)
    ensures key + ([COLON] + (value + more)) + rest == key + ([COLON] + (value + (more + rest)))
  {
    Assoc(value, more, rest);
    Assoc([COLON], value + more, rest);
    Assoc(key, [COLON] + (value + more), rest);
  }

  lemma FieldLine(indent: bytes, key: bytes, text: bytes, lines: bytes, rest: bytes)
    ensures indent + (key + ([COLON, BLANK] + (text + (lines + rest)))) ==
            indent + (key + ([COLON, BLANK] + (text + lines))) + rest
  {
    Assoc(text, lines, rest);
    Assoc([COLON, BLANK], text + lines, rest);
    ItemLine(indent, key, [COLON, BLANK] + (text + lines), rest);
  }

  /** json_stringify with a space string writes the compact text laid out by the rule. */
  lemma StringifyIsLaidOut(libc: Libc, v: Json, space: bytes)
    requires Checked(v)
    ensures Stringify(libc, v, Some(space)) == LaidOut(Stringify(libc, v, None), space, 0)
  {
    PrettyIsLaidOut(libc, v, space, 0, []);
    assert Encode(libc, v) + [] == Encode(libc, v);
    assert Pretty(libc, v, space, 0) + LaidOut([], space, 0) == Pretty(libc, v, space, 0);
  }
}
