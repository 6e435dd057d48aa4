/** The text of the compact and of the indented printer. */
module Printing {
  import opened CStrings
  import opened Numbers
  import opened StringEmission
  import opened Json

  /** What json_check demands of a tree beyond its links: every string and key is valid UTF-8. */
  predicate Checked(v: Json) {
    match v
    case Str(s) => Utf8Text(s)
    case Arr(es) => ElemsChecked(es)
    case Obj(ms) => MembersChecked(ms)
    case _ => true
  }

  predicate ElemsChecked(es: seq<Json>) {
    es != [] ==> Checked(es[0]) && ElemsChecked(es[1..])
  }

  predicate MembersChecked(ms: seq<Member>) {
    ms != [] ==> Utf8Text(ms[0].key) && Checked(ms[0].value) && MembersChecked(ms[1..])
  }

  /** emit_number */
  function EmitNumber(libc: Libc, n: Double): bytes {
    if NumberIsValid(libc.sprintf(n)) then libc.sprintf(n) else NULL_TEXT
  }

  /** emit_value */
  function Encode(libc: Libc, v: Json): bytes
    requires Checked(v)
  {
    match v
    case Null => NULL_TEXT
    case Bool(b) => if b then TRUE_TEXT else FALSE_TEXT
    case Str(s) => EmitString(s, false)
    case Num(n) => EmitNumber(libc, n)
    case Arr(es) => [LBRACKET] + EncodeElems(libc, es)
    case Obj(ms) => [LBRACE] + EncodeMembers(libc, ms)
  }

  /** emit_array behind the opening bracket */
  function EncodeElems(libc: Libc, es: seq<Json>): bytes
    requires ElemsChecked(es)
  {
    if es == [] then [RBRACKET]
    else Encode(libc, es[0]) + ((if |es| > 1 then [COMMA] else []) + EncodeElems(libc, es[1..]))
  }

  /** emit_object behind the opening brace */
  function EncodeMembers(libc: Libc, ms: seq<Member>): bytes
    requires MembersChecked(ms)
  {
    if ms == [] then [RBRACE]
    else EmitString(ms[0].key, false) + ([COLON] + (Encode(libc, ms[0].value) +
         ((if |ms| > 1 then [COMMA] else []) + EncodeMembers(libc, ms[1..]))))
  }

  /** `for (i = 0; i < level; i++) sb_puts(out, space)` */
  function Indent(space: bytes, level: nat): bytes {
    if level == 0 then [] else space + Indent(space, level - 1)
  }

  /** emit_value_indented */
  function Pretty(libc: Libc, v: Json, space: bytes, level: nat): bytes
    requires Checked(v)
    decreases v
  {
    match v
    case Null => NULL_TEXT
    case Bool(b) => if b then TRUE_TEXT else FALSE_TEXT
    case Str(s) => EmitString(s, false)
    case Num(n) => EmitNumber(libc, n)
    case Arr(es) => if es == [] then [LBRACKET, RBRACKET] else [LBRACKET, LF] + PrettyElems(libc, es, space, level)
    case Obj(ms) => if ms == [] then [LBRACE, RBRACE] else [LBRACE, LF] + PrettyMembers(libc, ms, space, level)
  }

  /** emit_array_indented behind the opening bracket and its line end */
  function PrettyElems(libc: Libc, es: seq<Json>, space: bytes, level: nat): bytes
    requires ElemsChecked(es)
    decreases es
  {
    if es == [] then Indent(space, level) + [RBRACKET]
    else Indent(space, level + 1) + (Pretty(libc, es[0], space, level + 1) +
         ((if |es| > 1 then [COMMA, LF] else [LF]) + PrettyElems(libc, es[1..], space, level)))
  }

  /** emit_object_indented behind the opening brace and its line end */
  function PrettyMembers(libc: Libc, ms: seq<Member>, space: bytes, level: nat): bytes
    requires MembersChecked(ms)
    decreases ms
  {
    if ms == [] then Indent(space, level) + [RBRACE]
    else Indent(space, level + 1) + (EmitString(ms[0].key, false) + ([COLON, BLANK] +
         (Pretty(libc, ms[0].value, space, level + 1) +
         ((if |ms| > 1 then [COMMA, LF] else [LF]) + PrettyMembers(libc, ms[1..], space, level)))))
  }

  /** json_stringify: compact without a space string, indented with one. */
  function Stringify(libc: Libc, v: Json, space: Option<bytes>): bytes
    requires Checked(v)
  {
    match space
    case None => Encode(libc, v)
    case Some(sp) => Pretty(libc, v, sp, 0)
  }
}
