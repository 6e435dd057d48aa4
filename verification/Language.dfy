/** Soundness of the parser against the grammar, and the language json_decode accepts. */
module Language {
  import opened CStrings
  import opened Numbers
  import opened Strings
  import opened Json
  import opened Grammar

  /** The items with blank space in front of the first. */
  function SpacedItems(ws: bytes, items: seq<Item>): seq<Item>
    requires items != []
  {
    [items[0].(pre := ws)] + items[1..]
  }

  function SpacedFields(ws: bytes, fields: seq<Field>): seq<Field>
    requires fields != []
  {
    [fields[0].(pre := ws)] + fields[1..]
  }

  lemma SpacedItemsText(libc: Libc, ws: bytes, items: seq<Item>)
    requires AllSpace(ws) && items != [] && ItemsWf(items) && items[0].pre == []
    ensures var s := SpacedItems(ws, items);
            && ItemsWf(s) && (ItemsClean(s) <==> ItemsClean(items))
            && ItemsText(s) == ws + ItemsText(items) && ItemsValue(libc, s) == ItemsValue(libc, items)
  {
    var s := SpacedItems(ws, items);
    assert s[1..] == items[1..];
    var body := Text(items[0].value) + (items[0].post + ItemsTail(items));
    assert ItemsText(items) == [] + body == body;
    assert ItemsText(s) == ws + body;
  }

  lemma SpacedFieldsText(libc: Libc, ws: bytes, fields: seq<Field>)
    requires AllSpace(ws) && fields != [] && FieldsWf(fields) && fields[0].pre == []
    ensures var s := SpacedFields(ws, fields);
            && FieldsWf(s) && (FieldsClean(s) <==> FieldsClean(fields))
            && FieldsText(s) == ws + FieldsText(fields) && FieldsValue(libc, s) == FieldsValue(libc, fields)
  {
    var s := SpacedFields(ws, fields);
    assert s[1..] == fields[1..];
    FieldsSplit(fields, []);
    FieldsSplit(s, []);
    var body := LiteralText(fields[0].key) + (fields[0].preColon + FieldColonText(fields, []));
    assert FieldsText(s) + [] == FieldsText(s);
    assert FieldsText(fields) + [] == FieldsText(fields);
    assert [] + body == body;
  }

  /** Putting an element in front of the items behind its comma. */
  lemma ItemsCons(libc: Libc, d: ValueSyntax, post: bytes, more: seq<Item>, rest: bytes)
    requires Wf(d) && AllSpace(post) && ItemsWf(more)
    ensures var items := [Item([], d, post)] + more;
            && ItemsWf(items) && (ItemsClean(items) <==> Clean(d) && ItemsClean(more))
            && ItemsValue(libc, items) == [Value(libc, d)] + ItemsValue(libc, more)
            && ItemsText(items) + rest == Text(d) + (post +
                ((if more == [] then [RBRACKET] else [COMMA] + ItemsText(more)) + rest))
  {
    var items := [Item([], d, post)] + more;
    assert items[1..] == more;
    ItemsSplit(items, rest);
  }

  lemma FieldsCons(libc: Libc, f: Field, more: seq<Field>, rest: bytes)
    requires f.pre == [] && FieldsWf([f]) && FieldsWf(more)
    ensures var fields := [f] + more;
            && FieldsWf(fields) && (FieldsClean(fields) <==> FieldsClean([f]) && FieldsClean(more))
            && FieldsValue(libc, fields) == [Member(CharsValue(f.key), Value(libc, f.value))] + FieldsValue(libc, more)
            && FieldsText(fields) + rest ==
               LiteralText(f.key) + (f.preColon + ([COLON] + (f.postColon + (Text(f.value) + (f.post +
               ((if more == [] then [RBRACE] else [COMMA] + FieldsText(more)) + rest))))))
  {
    var fields := [f] + more;
    assert fields[1..] == more;
    FieldsSplit(fields, rest);
  }

  lemma NumberSound(libc: Libc, t: bytes) returns (d: ValueSyntax)
    requires ScanNumber(t).Some?
    ensures Wf(d) && Clean(d) && Text(d) + ScanNumber(t).value == t
    ensures d.NumSyntax?
  {
    var n := ScanSound(t);
    d := NumSyntax(n);
  }

  lemma KeywordSound(libc: Libc, t: bytes) returns (d: ValueSyntax)
    requires First(t) == LOWER_N || First(t) == LOWER_F || First(t) == LOWER_T
    requires ScanValue(libc, t).Ok?
    ensures Wf(d) && Clean(d) && Text(d) + ScanValue(libc, t).rest == t && Value(libc, d) == ScanValue(libc, t).value
  {
    d := if First(t) == LOWER_N then NullSyntax else BoolSyntax(First(t) == LOWER_T);
    assert Text(d) <= t;
    assert Text(d) + t[|Text(d)|..] == t;
  }

  lemma NoSpace()
    ensures AllSpace([])
  {
  }

  lemma MarkFirst(t: bytes)
    ensures First(t) != 0 ==> t != [] && t[0] == First(t)
    ensures First(t) == COMMA || First(t) == RBRACE || First(t) == RBRACKET || First(t) == COLON ==>
              Ends(t) && t != [] && t[0] == First(t)
  {
  }

  lemma HeadTail(t: bytes)
    requires t != []
    ensures [t[0]] + t[1..] == t
  {
  }

  lemma Regroup<T>(a: seq<T>, x: T, b: seq<T>)
    ensures a + [x] + b == a + ([x] + b)
  {
  }

  lemma CutOffByEnd(d: ValueSyntax, rest: bytes)
    requires Ends(rest)
    ensures CutOff(d, rest)
  {
  }

  lemma BehindEnds(rest: bytes)
    requires Ends(SkipSpace(rest))
    ensures Ends(rest)
  {
  }

  /** Everything the parser accepts derives from the grammar, with the value it builds. */
  lemma {:induction false} ValueSound(libc: Libc, t: bytes) returns (d: ValueSyntax)
    requires ScanValue(libc, t).Ok?
    ensures Wf(d) && Clean(d) && Text(d) + ScanValue(libc, t).rest == t
    ensures ValueBefore(libc, d, ScanValue(libc, t).rest) == ScanValue(libc, t).value
    ensures CutOff(d, ScanValue(libc, t).rest) ==> Value(libc, d) == ScanValue(libc, t).value
    decreases |t|, 0
  {
    var c := First(t);
    if c == LOWER_N || c == LOWER_F || c == LOWER_T {
      d := KeywordSound(libc, t);
    } else if c == QUOTE {
      d := LiteralSound(libc, t);
    } else if c == LBRACKET {
      HeadTail(t);
      d := ArraySound(libc, t[1..]);
    } else if c == LBRACE {
      HeadTail(t);
      d := ObjectSound(libc, t[1..]);
    } else {
      d := NumberSound(libc, t);
    }
    hide ScanValue, Text, Value, Wf, Clean;
    var rest := ScanValue(libc, t).rest;
    if CutOff(d, rest) { CutOffValue(libc, d, rest); }
  }

  lemma LiteralSound(libc: Libc, t: bytes) returns (d: ValueSyntax)
    requires ScanString(t).Good?
    ensures d.StrSyntax? && Wf(d) && Clean(d) && Text(d) + ScanString(t).rest == t
    ensures Value(libc, d) == Str(ScanString(t).content)
  {
    hide ScanString, CharsWf, CharsClean, CharsValue, LiteralText;
    var cs := ScanStringSound(t);
    StrictIsLenient(cs);
    d := StrSyntax(cs);
  }

  lemma StrictIsLenient(cs: seq<CharSyntax>)
    requires CharsWf(cs, false)
    ensures CharsWf(cs, true) && CharsClean(cs)
  {
  }

  lemma ArrayStep(libc: Libc, t: bytes)
    ensures ScanArray(libc, t) ==
            var u := SkipSpace(t);
            if First(u) == RBRACKET then Ok(Arr([]), u[1..]) else ScanElems(libc, u, [])
  {
    hide ScanElems, SkipSpace;
  }

  lemma EmptyArray(libc: Libc, ws: bytes, rest: bytes) returns (d: ValueSyntax)
    requires AllSpace(ws)
    ensures Wf(d) && Clean(d) && Value(libc, d) == Arr([])
    ensures Text(d) + rest == [LBRACKET] + (ws + ([RBRACKET] + rest))
  {
    hide AllSpace;
    d := ArrSyntax(ws, []);
    Assoc(ws, [RBRACKET], rest);
    Assoc([LBRACKET], ws + [RBRACKET], rest);
  }

  lemma FilledArray(libc: Libc, ws: bytes, items: seq<Item>, rest: bytes) returns (d: ValueSyntax)
    requires AllSpace(ws) && items != [] && ItemsWf(items) && ItemsClean(items) && items[0].pre == []
    ensures Wf(d) && Clean(d) && Value(libc, d) == Arr(ItemsValue(libc, items))
    ensures Text(d) + rest == [LBRACKET] + (ws + (ItemsText(items) + rest))
  {
    hide AllSpace, ItemsWf, ItemsClean, ItemsText, ItemsValue;
    assert AllSpace([]) by { NoSpace(); }
    SpacedItemsText(libc, ws, items);
    d := ArrSyntax([], SpacedItems(ws, items));
    Assoc(ws, ItemsText(items), rest);
    Assoc([LBRACKET], ws + ItemsText(items), rest);
  }

  lemma {:induction false} ArraySound(libc: Libc, t: bytes) returns (d: ValueSyntax)
    requires ScanArray(libc, t).Ok?
    ensures Wf(d) && Clean(d) && Text(d) + ScanArray(libc, t).rest == [LBRACKET] + t
    ensures Value(libc, d) == ScanArray(libc, t).value
    decreases |t|, 2
  {
    ArrayStep(libc, t);
    hide *;
    var ws := SpaceSkipped(t);
    var rest := ScanArray(libc, t).rest;
    if First(SkipSpace(t)) == RBRACKET {
      MarkFirst(SkipSpace(t));
      HeadTail(SkipSpace(t));
      d := EmptyArray(libc, ws, rest);
    } else {
      var items := ElemsSound(libc, SkipSpace(t), []);
      d := FilledArray(libc, ws, items, rest);
      assert [] + ItemsValue(libc, items) == ItemsValue(libc, items);
    }
  }

  lemma {:induction false} ElemsSound(libc: Libc, t: bytes, acc: seq<Json>) returns (items: seq<Item>)
    requires ScanElems(libc, t, acc).Ok?
    ensures items != [] && ItemsWf(items) && ItemsClean(items) && items[0].pre == []
    ensures ItemsText(items) + ScanElems(libc, t, acc).rest == t
    ensures ScanElems(libc, t, acc).value == Arr(acc + ItemsValue(libc, items))
    decreases |t|, 1
  {
    var rest := ScanElems(libc, t, acc).rest;
    var v := ScanValue(libc, t);
    ScanElemsStep(libc, t, acc);
    hide *;
    var d := ValueSound(libc, t);
    var post := SpaceSkipped(v.rest);
    var tail := SkipSpace(v.rest);
    MarkFirst(tail);
    BehindEnds(v.rest);
    CutOffByEnd(d, v.rest);
    if First(tail) == RBRACKET {
      items := LastItem(libc, d, post, rest);
      HeadTail(tail);
    } else {
      HeadTail(tail);
      var ws := SpaceSkipped(tail[1..]);
      var more := ElemsSound(libc, SkipSpace(tail[1..]), acc + [v.value]);
      items := MoreItems(libc, d, post, ws, more, rest);
      Regroup(acc, v.value, ItemsValue(libc, more));
    }
  }

  lemma LastItem(libc: Libc, d: ValueSyntax, post: bytes, rest: bytes) returns (items: seq<Item>)
    requires Wf(d) && Clean(d) && AllSpace(post)
    ensures items != [] && ItemsWf(items) && ItemsClean(items) && items[0].pre == []
    ensures ItemsText(items) + rest == Text(d) + (post + ([RBRACKET] + rest))
    ensures ItemsValue(libc, items) == [Value(libc, d)]
  {
    ItemsCons(libc, d, post, [], rest);
    items := [Item([], d, post)] + [];
  }

  lemma MoreItems(libc: Libc, d: ValueSyntax, post: bytes, ws: bytes, more: seq<Item>, rest: bytes)
    returns (items: seq<Item>)
    requires Wf(d) && Clean(d) && AllSpace(post) && AllSpace(ws)
    requires more != [] && ItemsWf(more) && ItemsClean(more) && more[0].pre == []
    ensures items != [] && ItemsWf(items) && ItemsClean(items) && items[0].pre == []
    ensures ItemsText(items) + rest == Text(d) + (post + ([COMMA] + (ws + (ItemsText(more) + rest))))
    ensures ItemsValue(libc, items) == [Value(libc, d)] + ItemsValue(libc, more)
  {
    SpacedItemsText(libc, ws, more);
    var spaced := SpacedItems(ws, more);
    ItemsCons(libc, d, post, spaced, rest);
    items := [Item([], d, post)] + spaced;
    Assoc([COMMA], ItemsText(spaced), rest);
    Assoc(ws, ItemsText(more), rest);
  }

  lemma ObjectStep(libc: Libc, t: bytes)
    ensures ScanObject(libc, t) ==
            var u := SkipSpace(t);
            if First(u) == RBRACE then Ok(Obj([]), u[1..]) else ScanMembers(libc, u, [])
  {
    hide ScanMembers, SkipSpace;
  }

  lemma EmptyObject(libc: Libc, ws: bytes, rest: bytes) returns (d: ValueSyntax)
    requires AllSpace(ws)
    ensures Wf(d) && Clean(d) && Value(libc, d) == Obj([])
    ensures Text(d) + rest == [LBRACE] + (ws + ([RBRACE] + rest))
  {
    hide AllSpace;
    d := ObjSyntax(ws, []);
    Assoc(ws, [RBRACE], rest);
    Assoc([LBRACE], ws + [RBRACE], rest);
  }

  lemma FilledObject(libc: Libc, ws: bytes, fields: seq<Field>, rest: bytes) returns (d: ValueSyntax)
    requires AllSpace(ws) && fields != [] && FieldsWf(fields) && FieldsClean(fields) && fields[0].pre == []
    ensures Wf(d) && Clean(d) && Value(libc, d) == Obj(FieldsValue(libc, fields))
    ensures Text(d) + rest == [LBRACE] + (ws + (FieldsText(fields) + rest))
  {
    hide AllSpace, FieldsWf, FieldsClean, FieldsText, FieldsValue;
    assert AllSpace([]) by { NoSpace(); }
    SpacedFieldsText(libc, ws, fields);
    d := ObjSyntax([], SpacedFields(ws, fields));
    Assoc(ws, FieldsText(fields), rest);
    Assoc([LBRACE], ws + FieldsText(fields), rest);
  }

  lemma {:induction false} ObjectSound(libc: Libc, t: bytes) returns (d: ValueSyntax)
    requires ScanObject(libc, t).Ok?
    ensures Wf(d) && Clean(d) && Text(d) + ScanObject(libc, t).rest == [LBRACE] + t
    ensures Value(libc, d) == ScanObject(libc, t).value
    decreases |t|, 3
  {
    ObjectStep(libc, t);
    hide *;
    var ws := SpaceSkipped(t);
    var rest := ScanObject(libc, t).rest;
    if First(SkipSpace(t)) == RBRACE {
      MarkFirst(SkipSpace(t));
      HeadTail(SkipSpace(t));
      d := EmptyObject(libc, ws, rest);
    } else {
      var fields := MembersSound(libc, SkipSpace(t), []);
      d := FilledObject(libc, ws, fields, rest);
      assert [] + FieldsValue(libc, fields) == FieldsValue(libc, fields);
    }
  }

  /** The key and colon of a member, with the blank space around the colon. */
  lemma KeySound(t: bytes) returns (cs: seq<CharSyntax>, preColon: bytes, postColon: bytes)
    requires ScanKey(t).Good?
    ensures CharsWf(cs, true) && CharsClean(cs) && CharsValue(cs) == ScanKey(t).content
    ensures AllSpace(preColon) && AllSpace(postColon)
    ensures LiteralText(cs) + (preColon + ([COLON] + (postColon + ScanKey(t).rest))) == t
  {
    ScanKeyStep(t);
    hide *;
    cs := ScanStringSound(t);
    StrictIsLenient(cs);
    var behind := ScanString(t).rest;
    preColon := SpaceSkipped(behind);
    var colon := SkipSpace(behind);
    MarkFirst(colon);
    HeadTail(colon);
    postColon := SpaceSkipped(colon[1..]);
  }

  /** One member up to the mark behind it. */
  lemma {:induction false} FieldSound(libc: Libc, t: bytes) returns (f: Field)
    requires ScanKey(t).Good?
    requires var v := ScanValue(libc, ScanKey(t).rest); v.Ok? && Ends(SkipSpace(v.rest))
    ensures f.pre == [] && FieldsWf([f]) && FieldsClean([f])
    ensures var v := ScanValue(libc, ScanKey(t).rest);
            && t == LiteralText(f.key) + (f.preColon + ([COLON] +
                (f.postColon + (Text(f.value) + (f.post + SkipSpace(v.rest))))))
            && Member(CharsValue(f.key), Value(libc, f.value)) == Member(ScanKey(t).content, v.value)
    decreases |t|, 1
  {
    hide ScanKey, CharsWf, CharsClean, CharsValue, LiteralText, AllSpace, ScanValue;
    var key, preColon, postColon := KeySound(t);
    var v := ScanValue(libc, ScanKey(t).rest);
    var d := ValueSound(libc, ScanKey(t).rest);
    var post := SpaceSkipped(v.rest);
    BehindEnds(v.rest);
    hide Ends, SkipSpace;
    f := Field([], key, preColon, postColon, d, post);
    OneField(f);
  }

  lemma OneField(f: Field)
    requires AllSpace(f.preColon) && AllSpace(f.postColon) && AllSpace(f.post) && f.pre == []
    requires CharsWf(f.key, true) && CharsClean(f.key) && Wf(f.value) && Clean(f.value)
    ensures FieldsWf([f]) && FieldsClean([f])
  {
    hide CharsWf, CharsClean, Wf, Clean;
    assert [f][1..] == [];
  }

  lemma {:induction false} MembersSound(libc: Libc, t: bytes, acc: seq<Member>) returns (fields: seq<Field>)
    requires ScanMembers(libc, t, acc).Ok?
    ensures fields != [] && FieldsWf(fields) && FieldsClean(fields) && fields[0].pre == []
    ensures FieldsText(fields) + ScanMembers(libc, t, acc).rest == t
    ensures ScanMembers(libc, t, acc).value == Obj(acc + FieldsValue(libc, fields))
    decreases |t|, 2
  {
    var rest := ScanMembers(libc, t, acc).rest;
    var v := ScanValue(libc, ScanKey(t).rest);
    var tail := SkipSpace(v.rest);
    ScanMembersStep(libc, t, acc);
    hide *;
    MarkFirst(tail);
    var f := FieldSound(libc, t);
    HeadTail(tail);
    if First(tail) == RBRACE {
      fields := LastField(libc, f, rest);
    } else {
      var m := Member(ScanKey(t).content, v.value);
      var ws := SpaceSkipped(tail[1..]);
      var more := MembersSound(libc, SkipSpace(tail[1..]), acc + [m]);
      fields := MoreFields(libc, f, ws, more, rest);
      Regroup(acc, m, FieldsValue(libc, more));
    }
  }

  lemma LastField(libc: Libc, f: Field, rest: bytes) returns (fields: seq<Field>)
    requires f.pre == [] && FieldsWf([f]) && FieldsClean([f])
    ensures fields != [] && FieldsWf(fields) && FieldsClean(fields) && fields[0].pre == []
    ensures FieldsText(fields) + rest ==
            LiteralText(f.key) + (f.preColon + ([COLON] +
                (f.postColon + (Text(f.value) + (f.post + ([RBRACE] + rest))))))
    ensures FieldsValue(libc, fields) == [Member(CharsValue(f.key), Value(libc, f.value))]
  {
    FieldsCons(libc, f, [], rest);
    fields := [f] + [];
  }

  lemma MoreFields(libc: Libc, f: Field, ws: bytes, more: seq<Field>, rest: bytes) returns (fields: seq<Field>)
    requires f.pre == [] && FieldsWf([f]) && FieldsClean([f]) && AllSpace(ws)
    requires more != [] && FieldsWf(more) && FieldsClean(more) && more[0].pre == []
    ensures fields != [] && FieldsWf(fields) && FieldsClean(fields) && fields[0].pre == []
    ensures FieldsText(fields) + rest ==
            LiteralText(f.key) + (f.preColon + ([COLON] + (f.postColon + (Text(f.value) + (f.post +
            ([COMMA] + (ws + (FieldsText(more) + rest))))))))
    ensures FieldsValue(libc, fields) == [Member(CharsValue(f.key), Value(libc, f.value))] + FieldsValue(libc, more)
  {
    SpacedFieldsText(libc, ws, more);
    var spaced := SpacedFields(ws, more);
    FieldsCons(libc, f, spaced, rest);
    fields := [f] + spaced;
    Assoc([COMMA], FieldsText(spaced), rest);
    Assoc(ws, FieldsText(more), rest);
  }

  // ------------------------------------------------------------------ documents

  /** A JSON text: one value with blank space around it. */
  datatype Document = Document(pre: bytes, value: ValueSyntax, post: bytes)

  predicate DocumentWf(doc: Document) {
    AllSpace(doc.pre) && Wf(doc.value) && AllSpace(doc.post)
  }

  function DocumentText(doc: Document): bytes
    requires DocumentWf(doc)
  {
    doc.pre + (Text(doc.value) + doc.post)
  }

  /** json_decode on the text of a document: its value, or NULL when U+001F stands as itself in a string. */
  lemma DecodeDocument(libc: Libc, doc: Document)
    requires DocumentWf(doc)
    ensures Decode(libc, DocumentText(doc)) == if Clean(doc.value) then Some(Value(libc, doc.value)) else None
  {
    TextStart(doc.value);
    SkipSpaceOver(doc.pre, Text(doc.value) + doc.post);
    assert doc.post + [] == doc.post;
    SpaceEnds(doc.post, []);
    ValueComplete(libc, doc.value, doc.post);
    SkipSpaceOver(doc.post, []);
  }

  lemma DecodeSound(libc: Libc, json: bytes) returns (doc: Document)
    requires NulFree(json) && Decode(libc, json).Some?
    ensures DocumentWf(doc) && Clean(doc.value) && DocumentText(doc) == json
  {
    var pre := SpaceSkipped(json);
    var t := SkipSpace(json);
    var d := ValueSound(libc, t);
    var r := ScanValue(libc, t).rest;
    var post := SpaceSkipped(r);
    doc := Document(pre, d, post);
    NulFreeConcat(pre, t);
    NulFreeConcat(Text(d), r);
    NulFreeConcat(post, SkipSpace(r));
    assert SkipSpace(r) == [];
  }

  /**
   * The language json_decode accepts is exactly that of the grammar, and the tree it builds is the value
   * of whatever derivation the text has: all derivations of one text have the same value.
   */
  lemma DecodeIffDerivable(libc: Libc, json: bytes)
    requires NulFree(json)
    ensures Decode(libc, json).Some? <==>
            exists doc :: DocumentWf(doc) && Clean(doc.value) && DocumentText(doc) == json
    ensures forall doc :: DocumentWf(doc) && Clean(doc.value) && DocumentText(doc) == json ==>
              Decode(libc, json) == Some(Value(libc, doc.value))
  {
    if Decode(libc, json).Some? {
      var doc := DecodeSound(libc, json);
    }
    forall doc | DocumentWf(doc) && Clean(doc.value) && DocumentText(doc) == json
      ensures Decode(libc, json) == Some(Value(libc, doc.value))
    {
      DecodeDocument(libc, doc);
    }
  }
}
