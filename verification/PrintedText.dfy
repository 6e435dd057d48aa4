/** Printed text is a C string, and parsed values are printable. */
module PrintedText {
  import opened CStrings
  import opened Numbers
  import opened Strings
  import opened StringEmission
  import opened Json
  import opened Grammar
  import opened Language
  import opened Printing

  lemma NulFree3(a: bytes, b: bytes, c: bytes)
    requires NulFree(a) && NulFree(b) && NulFree(c)
    ensures NulFree(a + (b + c))
  {
    NulFreeConcat(b, c);
    NulFreeConcat(a, b + c);
  }

  lemma {:induction false} IndentNulFree(space: bytes, level: nat)
    requires NulFree(space)
    ensures NulFree(Indent(space, level))
  {
    if level > 0 {
      IndentNulFree(space, level - 1);
      NulFreeConcat(space, Indent(space, level - 1));
    }
  }

  /** The compact text has no NUL in it: sb_finish's assertion holds and the caller gets all of it. */
  lemma {:induction false} EncodeNulFree(libc: Libc, v: Json)
    requires Checked(v)
    ensures NulFree(Encode(libc, v))
    decreases v
  {
    match v
    case Null =>
    case Bool(_) =>
    case Str(s) => EmitStringNulFree(s, false);
    case Num(n) =>
    case Arr(es) => EncodeElemsNulFree(libc, es); NulFreeConcat([LBRACKET], EncodeElems(libc, es));
    case Obj(ms) => EncodeMembersNulFree(libc, ms); NulFreeConcat([LBRACE], EncodeMembers(libc, ms));
  }

  lemma {:induction false} EncodeElemsNulFree(libc: Libc, es: seq<Json>)
    requires ElemsChecked(es)
    ensures NulFree(EncodeElems(libc, es))
    decreases es
  {
    if es != [] {
      EncodeNulFree(libc, es[0]);
      EncodeElemsNulFree(libc, es[1..]);
      NulFree3(Encode(libc, es[0]), if |es| > 1 then [COMMA] else [], EncodeElems(libc, es[1..]));
    }
  }

  lemma {:induction false} EncodeMembersNulFree(libc: Libc, ms: seq<Member>)
    requires MembersChecked(ms)
    ensures NulFree(EncodeMembers(libc, ms))
    decreases ms
  {
    if ms != [] {
      var comma := if |ms| > 1 then [COMMA] else [];
      EmitStringNulFree(ms[0].key, false);
      EncodeNulFree(libc, ms[0].value);
      EncodeMembersNulFree(libc, ms[1..]);
      NulFree3(Encode(libc, ms[0].value), comma, EncodeMembers(libc, ms[1..]));
      NulFree3(EmitString(ms[0].key, false), [COLON], Encode(libc, ms[0].value) +
          (comma + EncodeMembers(libc, ms[1..])));
    }
  }

  /** So has the indented text, for every space string. */
  lemma {:induction false} PrettyNulFree(libc: Libc, v: Json, space: bytes, level: nat)
    requires Checked(v) && NulFree(space)
    ensures NulFree(Pretty(libc, v, space, level))
    decreases v
  {
    match v
    case Arr(es) => PrettyElemsNulFree(libc, es, space, level); NulFreeConcat([LBRACKET, LF],
        PrettyElems(libc, es, space, level));
    case Obj(ms) => PrettyMembersNulFree(libc, ms, space, level); NulFreeConcat([LBRACE, LF],
        PrettyMembers(libc, ms, space, level));
    case _ => EncodeNulFree(libc, v);
  }

  lemma {:induction false} PrettyElemsNulFree(libc: Libc, es: seq<Json>, space: bytes, level: nat)
    requires ElemsChecked(es) && NulFree(space)
    ensures NulFree(PrettyElems(libc, es, space, level))
    decreases es
  {
    IndentNulFree(space, level);
    if es == [] {
      NulFreeConcat(Indent(space, level), [RBRACKET]);
    } else {
      var line := if |es| > 1 then [COMMA, LF] else [LF];
      var text := Pretty(libc, es[0], space, level + 1);
      IndentNulFree(space, level + 1);
      PrettyNulFree(libc, es[0], space, level + 1);
      PrettyElemsNulFree(libc, es[1..], space, level);
      NulFreeConcat(line, PrettyElems(libc, es[1..], space, level));
      NulFree3(Indent(space, level + 1), text, line + PrettyElems(libc, es[1..], space, level));
    }
  }

  lemma {:induction false} PrettyMembersNulFree(libc: Libc, ms: seq<Member>, space: bytes, level: nat)
    requires MembersChecked(ms) && NulFree(space)
    ensures NulFree(PrettyMembers(libc, ms, space, level))
    decreases ms
  {
    IndentNulFree(space, level);
    if ms == [] {
      NulFreeConcat(Indent(space, level), [RBRACE]);
    } else {
      var line := if |ms| > 1 then [COMMA, LF] else [LF];
      var text := Pretty(libc, ms[0].value, space, level + 1);
      var tail := text + (line + PrettyMembers(libc, ms[1..], space, level));
      IndentNulFree(space, level + 1);
      EmitStringNulFree(ms[0].key, false);
      PrettyNulFree(libc, ms[0].value, space, level + 1);
      PrettyMembersNulFree(libc, ms[1..], space, level);
      NulFree3(text, line, PrettyMembers(libc, ms[1..], space, level));
      NulFree3(EmitString(ms[0].key, false), [COLON, BLANK], tail);
      NulFreeConcat(Indent(space, level + 1), EmitString(ms[0].key, false) + ([COLON, BLANK] + tail));
    }
  }

  lemma StringifyNulFree(libc: Libc, v: Json, space: Option<bytes>)
    requires Checked(v) && (space.Some? ==> NulFree(space.value))
    ensures NulFree(Stringify(libc, v, space))
  {
    if space.None? { EncodeNulFree(libc, v); } else { PrettyNulFree(libc, v, space.value, 0); }
  }

  /** The value of every derivation has valid UTF-8 in all its strings and keys. */
  lemma {:induction false} ValueChecked(libc: Libc, d: ValueSyntax)
    requires Wf(d)
    ensures Checked(Value(libc, d))
    decreases d
  {
    match d
    case StrSyntax(cs) => CharsValueValid(cs);
    case ArrSyntax(_, items) => ItemsChecked(libc, items);
    case ObjSyntax(_, fields) => FieldsChecked(libc, fields);
    case _ =>
  }

  lemma {:induction false} ItemsChecked(libc: Libc, items: seq<Item>)
    requires ItemsWf(items)
    ensures ElemsChecked(ItemsValue(libc, items))
    decreases items
  {
    if items != [] {
      ValueChecked(libc, items[0].value);
      ItemsChecked(libc, items[1..]);
      assert ItemsValue(libc, items)[1..] == ItemsValue(libc, items[1..]);
    }
  }

  lemma {:induction false} FieldsChecked(libc: Libc, fields: seq<Field>)
    requires FieldsWf(fields)
    ensures MembersChecked(FieldsValue(libc, fields))
    decreases fields
  {
    if fields != [] {
      CharsValueValid(fields[0].key);
      ValueChecked(libc, fields[0].value);
      FieldsChecked(libc, fields[1..]);
      assert FieldsValue(libc, fields)[1..] == FieldsValue(libc, fields[1..]);
    }
  }

  /** Whatever json_decode builds passes json_check: all its strings and keys are valid UTF-8. */
  lemma DecodedIsChecked(libc: Libc, json: bytes)
    requires NulFree(json) && Decode(libc, json).Some?
    ensures Checked(Decode(libc, json).value)
  {
    var doc := DecodeSound(libc, json);
    DecodeDocument(libc, doc);
    ValueChecked(libc, doc.value);
  }
}
