/**
 * The JSON grammar (sections 2 to 7 of RFC 8259) as derivation trees, and the proof that the parser
 * accepts exactly the derivable texts and builds the value of their derivation.
 */
module Grammar {
  import opened CStrings
  import opened Numbers
  import opened Strings
  import opened Json

  datatype ValueSyntax =
    | NullSyntax
    | BoolSyntax(b: bool)
    | NumSyntax(n: NumberSyntax)
    | StrSyntax(cs: seq<CharSyntax>)
    | ArrSyntax(ws: bytes, items: seq<Item>)    // ws: the blank space of an empty array
    | ObjSyntax(ws: bytes, fields: seq<Field>)

  /** An array element with the blank space around it. */
  datatype Item = Item(pre: bytes, value: ValueSyntax, post: bytes)

  /** An object member with the blank space around its key, colon and value. */
  datatype Field = Field(pre: bytes, key: seq<CharSyntax>, preColon: bytes, postColon: bytes, value: ValueSyntax,
      post: bytes)

  /** The derivations of the grammar; U+001F may stand as itself in a string (see Clean). */
  predicate Wf(d: ValueSyntax) {
    match d
    case NullSyntax => true
    case BoolSyntax(_) => true
    case NumSyntax(n) => n.Wf()
    case StrSyntax(cs) => CharsWf(cs, true)
    case ArrSyntax(ws, items) => AllSpace(ws) && ItemsWf(items)
    case ObjSyntax(ws, fields) => AllSpace(ws) && FieldsWf(fields)
  }

  predicate ItemsWf(items: seq<Item>) {
    items != [] ==>
      && AllSpace(items[0].pre) && AllSpace(items[0].post)
      && Wf(items[0].value) && ItemsWf(items[1..])
  }

  predicate FieldsWf(fields: seq<Field>) {
    fields != [] ==>
      && AllSpace(fields[0].pre) && AllSpace(fields[0].preColon)
      && AllSpace(fields[0].postColon) && AllSpace(fields[0].post)
      && CharsWf(fields[0].key, true) && Wf(fields[0].value) && FieldsWf(fields[1..])
  }

  /** No string and no key contains U+001F as itself: the derivations of RFC 8259. */
  predicate Clean(d: ValueSyntax) {
    match d
    case StrSyntax(cs) => CharsClean(cs)
    case ArrSyntax(_, items) => ItemsClean(items)
    case ObjSyntax(_, fields) => FieldsClean(fields)
    case _ => true
  }

  predicate ItemsClean(items: seq<Item>) {
    items != [] ==> Clean(items[0].value) && ItemsClean(items[1..])
  }

  predicate FieldsClean(fields: seq<Field>) {
    fields != [] ==> CharsClean(fields[0].key) && Clean(fields[0].value) && FieldsClean(fields[1..])
  }

  function Text(d: ValueSyntax): bytes
    requires Wf(d)
  {
    match d
    case NullSyntax => NULL_TEXT
    case BoolSyntax(b) => if b then TRUE_TEXT else FALSE_TEXT
    case NumSyntax(n) => n.Text()
    case StrSyntax(cs) => LiteralText(cs)
    case ArrSyntax(ws, items) => [LBRACKET] + (if items == [] then ws + [RBRACKET] else ItemsText(items))
    case ObjSyntax(ws, fields) => [LBRACE] + (if fields == [] then ws + [RBRACE] else FieldsText(fields))
  }

  /** The items, their commas and the closing bracket. */
  function ItemsText(items: seq<Item>): bytes
    requires items != [] && ItemsWf(items)
  {
    items[0].pre + (Text(items[0].value) + (items[0].post +
    (if |items| == 1 then [RBRACKET] else [COMMA] + ItemsText(items[1..]))))
  }

  function FieldsText(fields: seq<Field>): bytes
    requires fields != [] && FieldsWf(fields)
  {
    fields[0].pre + (LiteralText(fields[0].key) + (fields[0].preColon + ([COLON] + (fields[0].postColon +
    (Text(fields[0].value) + (fields[0].post +
    (if |fields| == 1 then [RBRACE] else [COMMA] + FieldsText(fields[1..]))))))))
  }

  function Value(libc: Libc, d: ValueSyntax): Json
    requires Wf(d)
  {
    match d
    case NullSyntax => Null
    case BoolSyntax(b) => Bool(b)
    case NumSyntax(n) => Num(libc.strtod(n.Text()))
    case StrSyntax(cs) => Str(CharsValue(cs))
    case ArrSyntax(_, items) => Arr(ItemsValue(libc, items))
    case ObjSyntax(_, fields) => Obj(FieldsValue(libc, fields))
  }

  function ItemsValue(libc: Libc, items: seq<Item>): seq<Json>
    requires ItemsWf(items)
  {
    if items == [] then [] else [Value(libc, items[0].value)] + ItemsValue(libc, items[1..])
  }

  function FieldsValue(libc: Libc, fields: seq<Field>): seq<Member>
    requires FieldsWf(fields)
  {
    if fields == [] then []
    else [Member(CharsValue(fields[0].key), Value(libc, fields[0].value))] + FieldsValue(libc, fields[1..])
  }

  // -------------------------------------------------------------- completeness

  lemma NumberStart(n: NumberSyntax)
    requires n.Wf()
    ensures n.Text() != [] && (n.Text()[0] == MINUS || IsDigit(n.Text()[0]))
  {
  }

  /** A value starts with a mark that no blank space and no closing bracket can be taken for. */
  lemma TextStart(d: ValueSyntax)
    requires Wf(d)
    ensures Text(d) != [] && !IsSpace(Text(d)[0]) && Text(d)[0] != RBRACKET && Text(d)[0] != 0
  {
    if d.NumSyntax? { NumberStart(d.n); }
  }

  /** parse_value hands strtod the whole text from a number on. */
  lemma NumberComplete(libc: Libc, n: NumberSyntax, rest: bytes)
    requires n.Wf() && !Continues(First(rest))
    ensures ScanValue(libc, n.Text() + rest) == Ok(Num(libc.strtod(n.Text() + rest)), rest)
  {
    NumberStart(n);
    ScanComplete(n, rest);
    var t := n.Text() + rest;
    assert t[0] == n.Text()[0];
  }

  /** Nothing behind d is read as part of it: only a number could be carried further. */
  predicate CutOff(d: ValueSyntax, rest: bytes) {
    d.NumSyntax? ==> Ends(rest)
  }

  /** The value parse_value builds for d in front of rest. */
  function ValueBefore(libc: Libc, d: ValueSyntax, rest: bytes): Json
    requires Wf(d)
  {
    if d.NumSyntax? then Num(libc.strtod(Text(d) + rest)) else Value(libc, d)
  }

  lemma CutOffValue(libc: Libc, d: ValueSyntax, rest: bytes)
    requires Wf(d) && CutOff(d, rest)
    ensures ValueBefore(libc, d, rest) == Value(libc, d)
  {
    if d.NumSyntax? { assert IsNumber(d.n.Text()); }
  }

  lemma StringComplete(libc: Libc, cs: seq<CharSyntax>, rest: bytes)
    requires CharsWf(cs, true)
    ensures ScanValue(libc, LiteralText(cs) + rest) == if CharsClean(cs) then Ok(Str(CharsValue(cs)), rest) else Fail
  {
    ScanStringComplete(cs, rest);
  }

  lemma KeywordComplete(libc: Libc, d: ValueSyntax, rest: bytes)
    requires d.NullSyntax? || d.BoolSyntax?
    ensures ScanValue(libc, Text(d) + rest) == Ok(Value(libc, d), rest)
  {
    var t := Text(d) + rest;
    assert Text(d) <= t && t[|Text(d)|..] == rest;
  }

  /**
   * In front of whatever cannot carry a number further, the parser reads every derivable value to its end
   * and builds its value, unless U+001F stands as itself in a string or key: then it fails.
   */
  lemma {:induction false} ValueComplete(libc: Libc, d: ValueSyntax, rest: bytes)
    requires Wf(d) && (d.NumSyntax? ==> !Continues(First(rest)))
    ensures ScanValue(libc, Text(d) + rest) == if Clean(d) then Ok(ValueBefore(libc, d, rest), rest) else Fail
    ensures CutOff(d, rest) ==>
              ScanValue(libc, Text(d) + rest) == if Clean(d) then Ok(Value(libc, d), rest) else Fail
    decreases d, 2
  {
    if CutOff(d, rest) { CutOffValue(libc, d, rest); }
    match d
    case NullSyntax => KeywordComplete(libc, d, rest);
    case BoolSyntax(_) => KeywordComplete(libc, d, rest);
    case NumSyntax(n) => NumberComplete(libc, n, rest);
    case StrSyntax(cs) => StringComplete(libc, cs, rest);
    case ArrSyntax(ws, items) => ArrayComplete(libc, ws, items, rest);
    case ObjSyntax(ws, fields) => ObjectComplete(libc, ws, fields, rest);
  }

  lemma Mark(c: byte, body: bytes, rest: bytes)
    ensures First([c] + body + rest) == c && ([c] + body + rest)[1..] == body + rest
    ensures First([c] + rest) == c && ([c] + rest)[1..] == rest
  {
  }

  lemma OpeningMark(libc: Libc, body: bytes, rest: bytes)
    ensures ScanValue(libc, [LBRACKET] + body + rest) == ScanArray(libc, body + rest)
    ensures ScanValue(libc, [LBRACE] + body + rest) == ScanObject(libc, body + rest)
  {
    Mark(LBRACKET, body, rest);
    Mark(LBRACE, body, rest);
  }

  lemma EmptyBody(libc: Libc, ws: bytes, rest: bytes)
    requires AllSpace(ws)
    ensures ScanArray(libc, ws + [RBRACKET] + rest) == Ok(Arr([]), rest)
    ensures ScanObject(libc, ws + [RBRACE] + rest) == Ok(Obj([]), rest)
  {
    Assoc(ws, [RBRACKET], rest);
    Assoc(ws, [RBRACE], rest);
    SkipSpaceOver(ws, [RBRACKET] + rest);
    SkipSpaceOver(ws, [RBRACE] + rest);
  }

  /** Arrays are read whole in front of anything. */
  lemma {:induction false} ArrayComplete(libc: Libc, ws: bytes, items: seq<Item>, rest: bytes)
    requires AllSpace(ws) && ItemsWf(items)
    ensures ScanValue(libc, Text(ArrSyntax(ws, items)) + rest) ==
            if ItemsClean(items) then Ok(Arr(ItemsValue(libc, items)), rest) else Fail
    decreases items, 1
  {
    if items != [] { ItemsComplete(libc, items, [], rest); }
    hide *;
    ArrayFromItems(libc, ws, items, rest);
  }

  /** The same for objects. */
  lemma {:induction false} ObjectComplete(libc: Libc, ws: bytes, fields: seq<Field>, rest: bytes)
    requires AllSpace(ws) && FieldsWf(fields)
    ensures ScanValue(libc, Text(ObjSyntax(ws, fields)) + rest) ==
            if FieldsClean(fields) then Ok(Obj(FieldsValue(libc, fields)), rest) else Fail
    decreases fields, 1
  {
    if fields != [] { FieldsComplete(libc, fields, [], rest); }
    hide *;
    ObjectFromFields(libc, ws, fields, rest);
  }

  lemma NoItems(libc: Libc)
    ensures ItemsClean([]) && ItemsValue(libc, []) == []
  {
  }

  lemma ArrayText(ws: bytes, items: seq<Item>)
    requires AllSpace(ws) && ItemsWf(items)
    ensures Text(ArrSyntax(ws, items)) == [LBRACKET] + (if items == [] then ws + [RBRACKET] else ItemsText(items))
  {
  }

  lemma ArrayBody(libc: Libc, t: bytes)
    requires First(SkipSpace(t)) != RBRACKET
    ensures ScanArray(libc, t) == ScanElems(libc, SkipSpace(t), [])
  {
    hide SkipSpace;
  }

  /** An array, given what parse_array's loop makes of its elements. */
  lemma ArrayFromItems(libc: Libc, ws: bytes, items: seq<Item>, rest: bytes)
    requires AllSpace(ws) && ItemsWf(items)
    requires items != [] ==>
      ScanElems(libc, SkipSpace(ItemsText(items) + rest), []) ==
      if ItemsClean(items) then Ok(Arr([] + ItemsValue(libc, items)), rest) else Fail
    ensures ScanValue(libc, Text(ArrSyntax(ws, items)) + rest) ==
            if ItemsClean(items) then Ok(Arr(ItemsValue(libc, items)), rest) else Fail
  {
    ArrayText(ws, items);
    if items == [] {
      OpeningMark(libc, ws + [RBRACKET], rest);
      EmptyBody(libc, ws, rest);
      NoItems(libc);
      hide *;
    } else {
      OpeningMark(libc, ItemsText(items), rest);
      ItemsStart(items, rest);
      ArrayBody(libc, ItemsText(items) + rest);
      hide *;
      assert [] + ItemsValue(libc, items) == ItemsValue(libc, items);
    }
  }

  lemma ObjectText(ws: bytes, fields: seq<Field>)
    requires AllSpace(ws) && FieldsWf(fields)
    ensures Text(ObjSyntax(ws, fields)) == [LBRACE] + (if fields == [] then ws + [RBRACE] else FieldsText(fields))
  {
  }

  lemma ObjectBody(libc: Libc, t: bytes)
    requires First(SkipSpace(t)) != RBRACE
    ensures ScanObject(libc, t) == ScanMembers(libc, SkipSpace(t), [])
  {
    hide SkipSpace;
  }

  /** An object, given what parse_object's loop makes of its members. */
  lemma ObjectFromFields(libc: Libc, ws: bytes, fields: seq<Field>, rest: bytes)
    requires AllSpace(ws) && FieldsWf(fields)
    requires fields != [] ==>
      ScanMembers(libc, SkipSpace(FieldsText(fields) + rest), []) ==
      if FieldsClean(fields) then Ok(Obj([] + FieldsValue(libc, fields)), rest) else Fail
    ensures ScanValue(libc, Text(ObjSyntax(ws, fields)) + rest) ==
            if FieldsClean(fields) then Ok(Obj(FieldsValue(libc, fields)), rest) else Fail
  {
    ObjectText(ws, fields);
    if fields == [] {
      OpeningMark(libc, ws + [RBRACE], rest);
      EmptyBody(libc, ws, rest);
      NoFields(libc);
      hide *;
    } else {
      OpeningMark(libc, FieldsText(fields), rest);
      FieldsStart(fields, rest);
      ObjectBody(libc, FieldsText(fields) + rest);
      hide *;
      assert [] + FieldsValue(libc, fields) == FieldsValue(libc, fields);
    }
  }

  /** What follows the first item's blank space and value. */
  function ItemsTail(items: seq<Item>): bytes
    requires items != [] && ItemsWf(items)
  {
    if |items| == 1 then [RBRACKET] else [COMMA] + ItemsText(items[1..])
  }

  lemma ItemsSplit(items: seq<Item>, rest: bytes)
    requires items != [] && ItemsWf(items)
    ensures ItemsText(items) + rest == items[0].pre +
        (Text(items[0].value) + (items[0].post + (ItemsTail(items) + rest)))
  {
    Assoc(items[0].post, ItemsTail(items), rest);
    Assoc(Text(items[0].value), items[0].post + ItemsTail(items), rest);
    Assoc(items[0].pre, Text(items[0].value) + (items[0].post + ItemsTail(items)), rest);
  }

  lemma ItemsStart(items: seq<Item>, rest: bytes)
    requires items != [] && ItemsWf(items)
    ensures SkipSpace(ItemsText(items) + rest) == Text(items[0].value) + (items[0].post + (ItemsTail(items) + rest))
    ensures First(SkipSpace(ItemsText(items) + rest)) != RBRACKET
  {
    ItemsSplit(items, rest);
    TextStart(items[0].value);
    SkipSpaceOver(items[0].pre, Text(items[0].value) + (items[0].post + (ItemsTail(items) + rest)));
  }

  lemma SpaceEnds(ws: bytes, rest: bytes)
    requires AllSpace(ws) && Ends(rest)
    ensures Ends(ws + rest)
  {
    if ws == [] { assert ws + rest == rest; }
  }

  /** One round of parse_array's loop, given what parse_value does on the element. */
  lemma ElemsRound(libc: Libc, t: bytes, scan: ValueScan, post: bytes, tail: bytes, acc: seq<Json>)
    requires AllSpace(post) && !IsSpace(First(tail))
    requires ScanValue(libc, t) == scan && (scan.Ok? ==> scan.rest == post + tail)
    ensures ScanElems(libc, t, acc) ==
            if scan.Fail? then Fail
            else if First(tail) == RBRACKET then Ok(Arr(acc + [scan.value]), tail[1..])
            else if First(tail) == COMMA then ScanElems(libc, SkipSpace(tail[1..]), acc + [scan.value])
            else Fail
  {
    SkipSpaceOver(post, tail);
  }

  lemma ItemsTailIs(items: seq<Item>, rest: bytes)
    requires items != [] && ItemsWf(items)
    ensures var tail := ItemsTail(items) + rest;
            if |items| == 1 then First(tail) == RBRACKET && tail[1..] == rest
            else First(tail) == COMMA && tail[1..] == ItemsText(items[1..]) + rest
  {
    if |items| == 1 { Mark(RBRACKET, [], rest); } else { Mark(COMMA, ItemsText(items[1..]), rest); }
  }

  lemma {:induction false} ItemsComplete(libc: Libc, items: seq<Item>, acc: seq<Json>, rest: bytes)
    requires items != [] && ItemsWf(items)
    ensures ScanElems(libc, SkipSpace(ItemsText(items) + rest), acc) ==
            if ItemsClean(items) then Ok(Arr(acc + ItemsValue(libc, items)), rest) else Fail
    decreases items, 0
  {
    var v := Value(libc, items[0].value);
    var tail := ItemsTail(items) + rest;
    var t := Text(items[0].value) + (items[0].post + tail);
    ItemsTailIs(items, rest);
    SpaceEnds(items[0].post, tail);
    ValueComplete(libc, items[0].value, items[0].post + tail);
    ElemsRound(libc, t, ScanValue(libc, t), items[0].post, tail, acc);
    ItemsStart(items, rest);
    if |items| == 1 {
      assert ItemsValue(libc, items) == [v];
    } else {
      ItemsComplete(libc, items[1..], acc + [v], rest);
      assert acc + [v] + ItemsValue(libc, items[1..]) == acc + ItemsValue(libc, items);
    }
  }

  function FieldsTail(fields: seq<Field>): bytes
    requires fields != [] && FieldsWf(fields)
  {
    if |fields| == 1 then [RBRACE] else [COMMA] + FieldsText(fields[1..])
  }

  /** The member's value and what follows it. */
  function FieldValueText(fields: seq<Field>, rest: bytes): bytes
    requires fields != [] && FieldsWf(fields)
  {
    Text(fields[0].value) + (fields[0].post + (FieldsTail(fields) + rest))
  }

  function FieldColonText(fields: seq<Field>, rest: bytes): bytes
    requires fields != [] && FieldsWf(fields)
  {
    [COLON] + (fields[0].postColon + FieldValueText(fields, rest))
  }

  lemma FieldsSplit(fields: seq<Field>, rest: bytes)
    requires fields != [] && FieldsWf(fields)
    ensures FieldsText(fields) + rest ==
            fields[0].pre + (LiteralText(fields[0].key) + (fields[0].preColon + FieldColonText(fields, rest)))
  {
    var f := fields[0];
    var t1 := f.post + FieldsTail(fields);
    var t2 := Text(f.value) + t1;
    var t3 := f.postColon + t2;
    var t4 := [COLON] + t3;
    var t5 := f.preColon + t4;
    Assoc(f.post, FieldsTail(fields), rest);
    Assoc(Text(f.value), t1, rest);
    Assoc(f.postColon, t2, rest);
    Assoc([COLON], t3, rest);
    Assoc(f.preColon, t4, rest);
    Assoc(LiteralText(f.key), t5, rest);
    Assoc(f.pre, LiteralText(f.key) + t5, rest);
  }

  lemma FieldsStart(fields: seq<Field>, rest: bytes)
    requires fields != [] && FieldsWf(fields)
    ensures SkipSpace(FieldsText(fields) + rest) ==
        LiteralText(fields[0].key) + (fields[0].preColon + FieldColonText(fields, rest))
    ensures First(SkipSpace(FieldsText(fields) + rest)) != RBRACE
  {
    FieldsSplit(fields, rest);
    SkipSpaceOver(fields[0].pre, LiteralText(fields[0].key) + (fields[0].preColon + FieldColonText(fields, rest)));
  }

  lemma KeyComplete(fields: seq<Field>, rest: bytes)
    requires fields != [] && FieldsWf(fields)
    ensures ScanKey(SkipSpace(FieldsText(fields) + rest)) ==
            if CharsClean(fields[0].key) then Good(CharsValue(fields[0].key), FieldValueText(fields, rest)) else Bad
  {
    var f := fields[0];
    FieldsStart(fields, rest);
    ScanStringComplete(f.key, f.preColon + FieldColonText(fields, rest));
    SkipSpaceOver(f.preColon, FieldColonText(fields, rest));
    TextStart(f.value);
    SkipSpaceOver(f.postColon, FieldValueText(fields, rest));
  }

  /** One round of parse_object's loop, given what the key and parse_value do. */
  lemma MembersRound(libc: Libc, t: bytes, key: bytes, t': bytes, scan: ValueScan, post: bytes, tail: bytes,
      acc: seq<Member>)
    requires AllSpace(post) && !IsSpace(First(tail))
    requires ScanKey(t) == Good(key, t')
    requires ScanValue(libc, t') == scan && (scan.Ok? ==> scan.rest == post + tail)
    ensures ScanMembers(libc, t, acc) ==
            if scan.Fail? then Fail
            else if First(tail) == RBRACE then Ok(Obj(acc + [Member(key, scan.value)]), tail[1..])
            else if First(tail) == COMMA then ScanMembers(libc, SkipSpace(tail[1..]), acc + [Member(key, scan.value)])
            else Fail
  {
    SkipSpaceOver(post, tail);
  }

  lemma FieldsTailIs(fields: seq<Field>, rest: bytes)
    requires fields != [] && FieldsWf(fields)
    ensures var tail := FieldsTail(fields) + rest;
            if |fields| == 1 then First(tail) == RBRACE && tail[1..] == rest
            else First(tail) == COMMA && tail[1..] == FieldsText(fields[1..]) + rest
  {
    if |fields| == 1 { Mark(RBRACE, [], rest); } else { Mark(COMMA, FieldsText(fields[1..]), rest); }
  }

  /** The first member of a list, given what parse_value makes of its value. */
  lemma FirstField(libc: Libc, fields: seq<Field>, acc: seq<Member>, rest: bytes)
    requires fields != [] && FieldsWf(fields)
    requires var f := fields[0]; var behind := f.post + (FieldsTail(fields) + rest);
             ScanValue(libc, Text(f.value) + behind) ==
             if Clean(f.value) then Ok(Value(libc, f.value), behind) else Fail
    ensures var f := fields[0]; var acc' := acc + [Member(CharsValue(f.key), Value(libc, f.value))];
            ScanMembers(libc, SkipSpace(FieldsText(fields) + rest), acc) ==
            if !CharsClean(f.key) || !Clean(f.value) then Fail
            else if |fields| == 1 then Ok(Obj(acc'), rest)
            else ScanMembers(libc, SkipSpace(FieldsText(fields[1..]) + rest), acc')
  {
    FieldsParts(libc, fields);
    FieldsTailIs(fields, rest);
    TailEnds(fields, rest);
    KeyComplete(fields, rest);
    var f := fields[0];
    var t := SkipSpace(FieldsText(fields) + rest);
    hide ScanValue, SkipSpace, Text, FieldsText, FieldsTail, CharsClean, CharsValue, Clean, Value, AllSpace, ScanKey;
    if CharsClean(f.key) {
      hide ScanMembers;
      var t' := FieldValueText(fields, rest);
      MembersRound(libc, t, CharsValue(f.key), t', ScanValue(libc, t'), f.post, FieldsTail(fields) + rest, acc);
    }
  }

  lemma FieldsParts(libc: Libc, fields: seq<Field>)
    requires fields != [] && FieldsWf(fields)
    ensures var f := fields[0];
            && AllSpace(f.pre) && AllSpace(f.preColon) && AllSpace(f.postColon) && AllSpace(f.post)
            && CharsWf(f.key, true) && Wf(f.value) && FieldsWf(fields[1..])
            && FieldsValue(libc, fields) ==
               [Member(CharsValue(f.key), Value(libc, f.value))] + FieldsValue(libc, fields[1..])
            && (FieldsClean(fields) <==> CharsClean(f.key) && Clean(f.value) && FieldsClean(fields[1..]))
  {
    hide AllSpace, CharsWf, CharsValue, CharsClean, Wf, Clean, Value;
  }

  lemma NoFields(libc: Libc)
    ensures FieldsWf([]) && FieldsValue(libc, []) == [] && FieldsClean([])
  {
  }

  /** No number goes on behind a member's value. */
  lemma TailEnds(fields: seq<Field>, rest: bytes)
    requires fields != [] && FieldsWf(fields)
    ensures var behind := fields[0].post + (FieldsTail(fields) + rest);
            && !IsSpace(First(FieldsTail(fields) + rest))
            && Ends(behind) && !Continues(First(behind)) && CutOff(fields[0].value, behind)
  {
    FieldsTailIs(fields, rest);
    hide FieldsTail;
    SpaceEnds(fields[0].post, FieldsTail(fields) + rest);
  }

  lemma {:induction false} FieldsComplete(libc: Libc, fields: seq<Field>, acc: seq<Member>, rest: bytes)
    requires fields != [] && FieldsWf(fields)
    ensures ScanMembers(libc, SkipSpace(FieldsText(fields) + rest), acc) ==
            if FieldsClean(fields) then Ok(Obj(acc + FieldsValue(libc, fields)), rest) else Fail
    decreases fields, 0
  {
    FieldsParts(libc, fields);
    FieldsTailIs(fields, rest);
    TailEnds(fields, rest);
    hide *;
    var f := fields[0];
    var m := Member(CharsValue(f.key), Value(libc, f.value));
    ValueComplete(libc, f.value, f.post + (FieldsTail(fields) + rest));
    FirstField(libc, fields, acc, rest);
    if |fields| > 1 {
      FieldsComplete(libc, fields[1..], acc + [m], rest);
      assert acc + [m] + FieldsValue(libc, fields[1..]) == acc + ([m] + FieldsValue(libc, fields[1..]));
    } else {
      assert fields[1..] == [];
      NoFields(libc);
      assert [m] + [] == [m];
    }
  }
}
