/**
 * Both printers write derivations of the grammar; hence what the parser makes of their output.
 */
module RoundTrip {
  import opened CStrings
  import opened Numbers
  import opened Utf16
  import opened Strings
  import opened StringEmission
  import opened Json
  import opened Grammar
  import opened Language
  import opened Printing

  /** Where a printer puts blank space: nowhere, or line ends and copies of a space string. */
  datatype Style = Compact | Indented(space: bytes)

  function LineEnd(style: Style, level: nat): bytes {
    match style
    case Compact => []
    case Indented(space) => [LF] + Indent(space, level)
  }

  predicate StyleOk(style: Style) {
    style.Indented? ==> AllSpace(style.space)
  }

  /** The derivation of a number as the printers write it. */
  ghost function NumberDerivation(libc: Libc, n: Double): (d: ValueSyntax)
    ensures Wf(d) && Clean(d) && Text(d) == EmitNumber(libc, n)
  {
    NumberIsValidIff(libc.sprintf(n));
    if NumberIsValid(libc.sprintf(n)) then
      var syntax: NumberSyntax :| syntax.Wf() && syntax.Text() == libc.sprintf(n);
      NumSyntax(syntax)
    else NullSyntax
  }

  /** The derivation a printer writes for a value. */
  ghost function Derivation(libc: Libc, v: Json, style: Style, level: nat): ValueSyntax
    requires Checked(v)
    decreases v
  {
    match v
    case Null => NullSyntax
    case Bool(b) => BoolSyntax(b)
    case Str(s) => StrSyntax(Spellings(s, false))
    case Num(n) => NumberDerivation(libc, n)
    case Arr(es) => ArrSyntax([], ItemsOf(libc, es, style, level))
    case Obj(ms) => ObjSyntax([], FieldsOf(libc, ms, style, level))
  }

  ghost function ItemsOf(libc: Libc, es: seq<Json>, style: Style, level: nat): (items: seq<Item>)
    requires ElemsChecked(es)
    ensures |items| == |es|
    decreases es
  {
    if es == [] then [] else
    [Item(LineEnd(style, level + 1), Derivation(libc, es[0], style, level + 1),
          if |es| == 1 then LineEnd(style, level) else [])]
    + ItemsOf(libc, es[1..], style, level)
  }

  ghost function FieldsOf(libc: Libc, ms: seq<Member>, style: Style, level: nat): (fields: seq<Field>)
    requires MembersChecked(ms)
    ensures |fields| == |ms|
    decreases ms
  {
    if ms == [] then [] else
    [FieldOf(libc, ms[0], |ms| == 1, style, level)] + FieldsOf(libc, ms[1..], style, level)
  }

  ghost function FieldOf(libc: Libc, m: Member, last: bool, style: Style, level: nat): Field
    requires Utf8Text(m.key) && Checked(m.value)
    decreases m
  {
    Field(LineEnd(style, level + 1), Spellings(m.key, false), [], if style.Compact? then [] else [BLANK],
          Derivation(libc, m.value, style, level + 1), if last then LineEnd(style, level) else [])
  }

  /** Some string or key of the value contains the byte 0x1F. */
  predicate Tainted(v: Json) {
    match v
    case Str(s) => Has1F(s)
    case Arr(es) => ElemsTainted(es)
    case Obj(ms) => MembersTainted(ms)
    case _ => false
  }

  predicate ElemsTainted(es: seq<Json>) {
    es != [] && (Tainted(es[0]) || ElemsTainted(es[1..]))
  }

  predicate MembersTainted(ms: seq<Member>) {
    ms != [] && (Has1F(ms[0].key) || Tainted(ms[0].value) || MembersTainted(ms[1..]))
  }

  /** The value with every number printed and scanned again, or null where the printed text is no number. */
  ghost function Rescanned(libc: Libc, v: Json): Json {
    match v
    case Num(n) => if IsNumber(libc.sprintf(n)) then Num(libc.strtod(libc.sprintf(n))) else Null
    case Arr(es) => Arr(ElemsRescanned(libc, es))
    case Obj(ms) => Obj(MembersRescanned(libc, ms))
    case _ => v
  }

  ghost function ElemsRescanned(libc: Libc, es: seq<Json>): seq<Json> {
    if es == [] then [] else [Rescanned(libc, es[0])] + ElemsRescanned(libc, es[1..])
  }

  ghost function MembersRescanned(libc: Libc, ms: seq<Member>): seq<Member> {
    if ms == [] then [] else [Member(ms[0].key, Rescanned(libc, ms[0].value))] + MembersRescanned(libc, ms[1..])
  }

  lemma {:induction false} IndentSpace(space: bytes, level: nat)
    requires AllSpace(space)
    ensures AllSpace(Indent(space, level))
  {
    if level > 0 { IndentSpace(space, level - 1); }
  }

  lemma LineEndSpace(style: Style, level: nat)
    requires StyleOk(style)
    ensures AllSpace(LineEnd(style, level))
  {
    if style.Indented? { IndentSpace(style.space, level); }
  }

  lemma NumberMeaning(libc: Libc, n: Double)
    ensures Value(libc, NumberDerivation(libc, n)) == Rescanned(libc, Num(n))
  {
    NumberIsValidIff(libc.sprintf(n));
  }

  /** What a printer writes derives from the grammar, means the rescanned value and is clean iff untainted. */
  lemma {:induction false} DerivationMeans(libc: Libc, v: Json, style: Style, level: nat)
    requires Checked(v) && StyleOk(style)
    ensures var d := Derivation(libc, v, style, level);
            Wf(d) && Value(libc, d) == Rescanned(libc, v) && (Clean(d) <==> !Tainted(v))
    decreases v
  {
    match v
    case Null =>
    case Bool(_) =>
    case Str(s) => EmitStringIsLiteral(s, false);
    case Num(n) => NumberMeaning(libc, n);
    case Arr(es) => ItemsMean(libc, es, style, level);
    case Obj(ms) => FieldsMean(libc, ms, style, level);
  }

  lemma {:induction false} ItemsMean(libc: Libc, es: seq<Json>, style: Style, level: nat)
    requires ElemsChecked(es) && StyleOk(style)
    ensures var items := ItemsOf(libc, es, style, level);
            ItemsWf(items) && ItemsValue(libc, items) == ElemsRescanned(libc, es) &&
                (ItemsClean(items) <==> !ElemsTainted(es))
    decreases es
  {
    if es != [] {
      LineEndSpace(style, level);
      LineEndSpace(style, level + 1);
      DerivationMeans(libc, es[0], style, level + 1);
      ItemsMean(libc, es[1..], style, level);
      assert ItemsOf(libc, es, style, level)[1..] == ItemsOf(libc, es[1..], style, level);
    }
  }

  lemma FieldsUnfold(libc: Libc, f: Field, more: seq<Field>)
    requires AllSpace(f.pre) && AllSpace(f.preColon) && AllSpace(f.postColon) && AllSpace(f.post)
    requires CharsWf(f.key, true) && Wf(f.value) && FieldsWf(more)
    ensures var fields := [f] + more;
            && FieldsWf(fields)
            && FieldsValue(libc, fields) == [Member(CharsValue(f.key), Value(libc, f.value))] + FieldsValue(libc, more)
            && (FieldsClean(fields) <==> CharsClean(f.key) && Clean(f.value) && FieldsClean(more))
  {
    hide AllSpace, CharsWf, CharsValue, CharsClean, Wf, Clean, Value;
    assert ([f] + more)[1..] == more;
  }

  lemma {:induction false} FieldMeans(libc: Libc, m: Member, last: bool, style: Style, level: nat)
    requires Utf8Text(m.key) && Checked(m.value) && StyleOk(style)
    ensures var f := FieldOf(libc, m, last, style, level);
            && AllSpace(f.pre) && AllSpace(f.preColon) && AllSpace(f.postColon) && AllSpace(f.post)
            && CharsWf(f.key, true) && Wf(f.value)
            && CharsValue(f.key) == m.key && Value(libc, f.value) == Rescanned(libc, m.value)
            && (CharsClean(f.key) <==> !Has1F(m.key)) && (Clean(f.value) <==> !Tainted(m.value))
    decreases m
  {
    hide CharsWf, CharsClean, CharsValue, Wf, Clean, Value, Has1F, Tainted, Rescanned, Utf8Text, Checked, LineEnd;
    LineEndSpace(style, level);
    LineEndSpace(style, level + 1);
    EmitStringIsLiteral(m.key, false);
    DerivationMeans(libc, m.value, style, level + 1);
  }

  lemma {:induction false} FieldsMean(libc: Libc, ms: seq<Member>, style: Style, level: nat)
    requires MembersChecked(ms) && StyleOk(style)
    ensures var fields := FieldsOf(libc, ms, style, level);
            && FieldsWf(fields) && FieldsValue(libc, fields) == MembersRescanned(libc, ms)
            && (FieldsClean(fields) <==> !MembersTainted(ms))
    decreases ms
  {
    if ms != [] {
      hide FieldOf, FieldsWf, FieldsValue, FieldsClean, CharsWf, CharsClean, CharsValue, AllSpace, Wf, Clean, Value;
      hide Has1F, Tainted, Rescanned, Utf8Text, Checked;
      FieldMeans(libc, ms[0], |ms| == 1, style, level);
      FieldsMean(libc, ms[1..], style, level);
      FieldsUnfold(libc, FieldOf(libc, ms[0], |ms| == 1, style, level), FieldsOf(libc, ms[1..], style, level));
    }
  }

  /** emit_value writes the compact derivation. */
  lemma {:induction false} EncodeIsText(libc: Libc, v: Json, level: nat)
    requires Checked(v)
    ensures Wf(Derivation(libc, v, Compact, level))
    ensures Encode(libc, v) == Text(Derivation(libc, v, Compact, level))
    decreases v
  {
    DerivationMeans(libc, v, Compact, level);
    match v
    case Null =>
    case Bool(_) =>
    case Str(s) => EmitStringIsLiteral(s, false);
    case Num(n) =>
    case Arr(es) => if es != [] { EncodeElemsIsText(libc, es, level); }
    case Obj(ms) => if ms != [] { EncodeMembersIsText(libc, ms, level); }
  }

  lemma {:induction false} EncodeElemsIsText(libc: Libc, es: seq<Json>, level: nat)
    requires es != [] && ElemsChecked(es)
    ensures ItemsWf(ItemsOf(libc, es, Compact, level))
    ensures EncodeElems(libc, es) == ItemsText(ItemsOf(libc, es, Compact, level))
    decreases es
  {
    ItemsMean(libc, es, Compact, level);
    EncodeIsText(libc, es[0], level + 1);
    var items := ItemsOf(libc, es, Compact, level);
    assert items[1..] == ItemsOf(libc, es[1..], Compact, level);
    if |es| > 1 {
      EncodeElemsIsText(libc, es[1..], level);
    } else {
      assert es[1..] == [];
    }
    CompactItem(Encode(libc, es[0]), ItemsTail(items));
  }

  lemma CompactItem(text: bytes, tail: bytes)
    ensures [] + (text + ([] + tail)) == text + tail
    ensures [] + tail == tail
  {
  }

  lemma {:induction false} EncodeMembersIsText(libc: Libc, ms: seq<Member>, level: nat)
    requires ms != [] && MembersChecked(ms)
    ensures FieldsWf(FieldsOf(libc, ms, Compact, level))
    ensures EncodeMembers(libc, ms) == FieldsText(FieldsOf(libc, ms, Compact, level))
    decreases ms
  {
    FieldsMean(libc, ms, Compact, level);
    EmitStringIsLiteral(ms[0].key, false);
    EncodeIsText(libc, ms[0].value, level + 1);
    var fields := FieldsOf(libc, ms, Compact, level);
    assert fields[1..] == FieldsOf(libc, ms[1..], Compact, level);
    if |ms| > 1 {
      EncodeMembersIsText(libc, ms[1..], level);
    } else {
      assert ms[1..] == [];
    }
    CompactField(EmitString(ms[0].key, false), Encode(libc, ms[0].value), FieldsTail(fields));
  }

  lemma CompactField(key: bytes, text: bytes, tail: bytes)
    ensures [] + (key + ([] + ([COLON] + ([] + (text + ([] + tail)))))) == key + ([COLON] + (text + tail))
    ensures [] + tail == tail
  {
    CompactItem(text, tail);
    CompactItem(key, [COLON] + (text + tail));
  }

  /** emit_value_indented writes the indented derivation. */
  lemma {:induction false} PrettyIsText(libc: Libc, v: Json, space: bytes, level: nat)
    requires Checked(v) && AllSpace(space)
    ensures Wf(Derivation(libc, v, Indented(space), level))
    ensures Pretty(libc, v, space, level) == Text(Derivation(libc, v, Indented(space), level))
    decreases v
  {
    match v
    case Arr(es) =>
      ItemsMean(libc, es, Indented(space), level);
      if es != [] {
        PrettyElemsIsText(libc, es, space, level);
        OpeningLine(LBRACKET, PrettyElems(libc, es, space, level));
      }
    case Obj(ms) =>
      FieldsMean(libc, ms, Indented(space), level);
      if ms != [] {
        PrettyMembersIsText(libc, ms, space, level);
        OpeningLine(LBRACE, PrettyMembers(libc, ms, space, level));
      }
    case _ => EncodeIsText(libc, v, level);
  }

  lemma OpeningLine(mark: byte, body: bytes)
    ensures [mark, LF] + body == [mark] + ([LF] + body)
  {
  }

  /** The blank space and the mark behind the last element, and the comma and line end behind the others. */
  lemma IndentedTail(indent: bytes, close: byte, more: bytes)
    ensures [LF] + indent + [close] == [LF] + (indent + [close])
    ensures [] + ([COMMA] + ([LF] + more)) == [COMMA, LF] + more
  {
  }

  lemma {:induction false} PrettyElemsIsText(libc: Libc, es: seq<Json>, space: bytes, level: nat)
    requires es != [] && ElemsChecked(es) && AllSpace(space)
    ensures ItemsWf(ItemsOf(libc, es, Indented(space), level))
    ensures [LF] + PrettyElems(libc, es, space, level) == ItemsText(ItemsOf(libc, es, Indented(space), level))
    decreases es
  {
    var style := Indented(space);
    ItemsMean(libc, es, style, level);
    PrettyIsText(libc, es[0], space, level + 1);
    var items := ItemsOf(libc, es, style, level);
    var text := Pretty(libc, es[0], space, level + 1);
    assert items[1..] == ItemsOf(libc, es[1..], style, level);
    if |es| > 1 {
      PrettyElemsIsText(libc, es[1..], space, level);
    } else {
      assert es[1..] == [];
    }
    IndentedTail(Indent(space, level), RBRACKET, PrettyElems(libc, es[1..], space, level));
    Assoc([LF], Indent(space, level + 1), text + (items[0].post + ItemsTail(items)));
  }

  lemma {:induction false} PrettyMembersIsText(libc: Libc, ms: seq<Member>, space: bytes, level: nat)
    requires ms != [] && MembersChecked(ms) && AllSpace(space)
    ensures FieldsWf(FieldsOf(libc, ms, Indented(space), level))
    ensures [LF] + PrettyMembers(libc, ms, space, level) == FieldsText(FieldsOf(libc, ms, Indented(space), level))
    decreases ms
  {
    var style := Indented(space);
    FieldsMean(libc, ms, style, level);
    EmitStringIsLiteral(ms[0].key, false);
    PrettyIsText(libc, ms[0].value, space, level + 1);
    var fields := FieldsOf(libc, ms, style, level);
    assert fields[1..] == FieldsOf(libc, ms[1..], style, level);
    if |ms| > 1 {
      PrettyMembersIsText(libc, ms[1..], space, level);
    } else {
      assert ms[1..] == [];
    }
    IndentedTail(Indent(space, level), RBRACE, PrettyMembers(libc, ms[1..], space, level));
    IndentedField(Indent(space, level + 1), EmitString(ms[0].key, false), Pretty(libc, ms[0].value, space, level + 1),
                  fields[0].post + FieldsTail(fields));
  }

  lemma IndentedField(indent: bytes, key: bytes, text: bytes, tail: bytes)
    ensures [LF] + indent + (key + ([] + ([COLON] + ([BLANK] + (text + tail)))))
            == [LF] + (indent + (key + ([COLON, BLANK] + (text + tail))))
  {
    var colon := [COLON, BLANK] + (text + tail);
    assert [] + ([COLON] + ([BLANK] + (text + tail))) == colon;
    Assoc([LF], indent, key + colon);
  }

  // -------------------------------------------------------------- the round trip

  /** The value prints as a number, which what follows the text could carry further. */
  ghost predicate PrintsNumber(libc: Libc, v: Json) {
    v.Num? && IsNumber(libc.sprintf(v.n))
  }

  /**
   * parse_value on the output of either printer, followed by anything that does not carry a number further:
   * it stops right behind the output with the rescanned value, or fails if some string or key contains 0x1F.
   * A number in front of an x is the one case where strtod may see another number than the printed one.
   */
  lemma PrintedValueParses(libc: Libc, v: Json, space: Option<bytes>, level: nat, rest: bytes)
    requires Checked(v) && (space.Some? ==> AllSpace(space.value))
    requires PrintsNumber(libc, v) ==> !Continues(First(rest))
    ensures var text := if space.None? then Encode(libc, v) else Pretty(libc, v, space.value, level);
            && ScanValue(libc, text + rest) ==
               (if Tainted(v) then Fail
                else Ok(if PrintsNumber(libc, v) then Num(libc.strtod(text + rest)) else Rescanned(libc, v), rest))
            && (PrintsNumber(libc, v) && Ends(rest) ==> Num(libc.strtod(text + rest)) == Rescanned(libc, v))
  {
    var style := if space.None? then Compact else Indented(space.value);
    if space.None? {
      EncodeIsText(libc, v, level);
    } else {
      PrettyIsText(libc, v, space.value, level);
    }
    DerivationMeans(libc, v, style, level);
    var d := Derivation(libc, v, style, level);
    NumberPrinted(libc, v, style, level);
    ValueComplete(libc, d, rest);
    if CutOff(d, rest) { CutOffValue(libc, d, rest); }
  }

  /** Only what prints as a number has the derivation of a number. */
  lemma NumberPrinted(libc: Libc, v: Json, style: Style, level: nat)
    requires Checked(v)
    ensures Derivation(libc, v, style, level).NumSyntax? <==> PrintsNumber(libc, v)
  {
    if v.Num? { NumberIsValidIff(libc.sprintf(v.n)); }
  }

  /**
   * json_decode(json_stringify(v, space)), for the compact printer and every space string of blanks: v with
   * its numbers rescanned, and NULL exactly when some string or key contains the byte 0x1F.
   */
  lemma StringifyRoundTrip(libc: Libc, v: Json, space: Option<bytes>)
    requires Checked(v) && (space.Some? ==> AllSpace(space.value))
    ensures Decode(libc, Stringify(libc, v, space)) == if Tainted(v) then None else Some(Rescanned(libc, v))
  {
    var text := Stringify(libc, v, space);
    var style := if space.None? then Compact else Indented(space.value);
    PrintedValueParses(libc, v, space, 0, []);
    assert text + [] == text;
    DerivationMeans(libc, v, style, 0);
    TextStart(Derivation(libc, v, style, 0));
    if space.None? {
      EncodeIsText(libc, v, 0);
    } else {
      PrettyIsText(libc, v, space.value, 0);
    }
  }

  /** Indenting changes nothing of what the text means to the parser. */
  lemma PrettyPreservesMeaning(libc: Libc, v: Json, space: bytes)
    requires Checked(v) && AllSpace(space)
    ensures Decode(libc, Stringify(libc, v, Some(space))) == Decode(libc, Stringify(libc, v, None))
  {
    StringifyRoundTrip(libc, v, Some(space));
    StringifyRoundTrip(libc, v, None);
  }

  /** emit_number always writes a JSON value of its own. */
  lemma EmitNumberIsValue(libc: Libc, n: Double)
    ensures exists d :: Wf(d) && Clean(d) && Text(d) == EmitNumber(libc, n)
    ensures Decode(libc, EmitNumber(libc, n)) == Some(Rescanned(libc, Num(n)))
  {
    var d := NumberDerivation(libc, n);
    StringifyRoundTrip(libc, Num(n), None);
  }

  /** `"\u001f"` */
  const UNIT_SEPARATOR_TEXT: bytes := [0x22, 0x5C, 0x75, 0x30, 0x30, 0x31, 0x66, 0x22]

  lemma UnitSeparatorIsRead(libc: Libc)
    ensures Decode(libc, UNIT_SEPARATOR_TEXT) == Some(Str([0x1F]))
  {
    var h: bytes := UNIT_SEPARATOR_TEXT[3..7];
    HexNumberOfFour(h);
    var c := Hex(h);
    assert CharText(c) == UNIT_SEPARATOR_TEXT[1..7];
    assert LiteralText([c]) == UNIT_SEPARATOR_TEXT by {
      assert CharsText([c]) == CharText(c) + CharsText([]);
    }
    assert CharValue(c) == [0x1F];
    assert CharsValue([c]) == [0x1F] by {
      assert CharsValue([c]) == CharValue(c) + CharsValue([]);
    }
    var doc := Document([], StrSyntax([c]), []);
    assert DocumentText(doc) == UNIT_SEPARATOR_TEXT;
    hide Decode, CharsText, CharsValue, LiteralText;
    DecodeDocument(libc, doc);
  }

  /** The smallest string whose JSON text is not JSON: the single byte 0x1F, which the parser itself produces. */
  lemma UnitSeparatorDoesNotSurvive(libc: Libc)
    ensures Decode(libc, UNIT_SEPARATOR_TEXT) == Some(Str([0x1F]))
    ensures Checked(Str([0x1F]))
    ensures Decode(libc, Encode(libc, Str([0x1F]))) == None
  {
    UnitSeparatorIsRead(libc);
    var s: bytes := [0x1F];
    assert Utf8Text(s);
    assert s[0] == 0x1F;
    StringifyRoundTrip(libc, Str(s), None);
  }
}
