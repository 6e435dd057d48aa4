/** The compact and the indented printer: a walk over the linked nodes that appends to a string buffer. */
module Printer {
  import opened CStrings
  import opened StringEmission
  import opened Json
  import opened Printing
  import opened CMemory
  import opened Shapes
  import opened ChildLists
  import opened StringBuffer
  import opened StringPrinter
  import opened Lexing

  /** A tree to print: well linked in the memory beside the buffer, with nothing json_check would refuse. */
  ghost predicate Printable(sb: SB, sh: Shape, v: Json)
    reads sb, sb.h
  {
    sb.Valid() && Linked(sb.Rest(), sh) && ValueOf(sb.Rest(), sh) == v && Checked(v)
  }

  /** What the buffer holds afterwards; the memory beside it is untouched. */
  twostate predicate Wrote(sb: SB, text: bytes)
    reads sb, sb.h
  {
    old(sb.Valid()) && sb.Valid() && sb.Rest() == old(sb.Rest()) && sb.Contents() == old(sb.Contents()) + text
  }

  /** emit_number */
  method EmitNumberText(sb: SB, libc: Libc, num: Double)
    requires sb.Valid()
    modifies sb, sb.h
    ensures Wrote(sb, EmitNumber(libc, num))
  {
    var buf := libc.sprintf(num);
    var valid := CheckNumber(buf);
    if valid {
      sb.Put(buf);
    } else {
      sb.Put(NULL_TEXT);
    }
  }

  /** The cases of emit_value and emit_value_indented that have no children */
  method EmitScalar(sb: SB, libc: Libc, node: Ptr, ghost sh: Shape, ghost v: Json)
    requires sh.p == node && Printable(sb, sh, v) && !v.Arr? && !v.Obj?
    modifies sb, sb.h
    ensures Wrote(sb, Encode(libc, v))
  {
    hide Addrs, AddrsOf;
    assert NodeOk(sb.Rest(), sh);
    var n := sb.h.At(node);
    match n.tag {
      case JsonNull => sb.Put(NULL_TEXT);
      case JsonBool => sb.Put(if n.bool_ then TRUE_TEXT else FALSE_TEXT);
      case JsonString =>
        assert sb.Rest().blocks[n.string_] == sb.h.mem.blocks[n.string_];
        EmitStringText(sb, CStr(sb.h.mem.blocks[n.string_]), false);
      case JsonNumber => EmitNumberText(sb, libc, n.number_);
    }
  }

  /** emit_value */
  method EmitValue(sb: SB, libc: Libc, node: Ptr, ghost sh: Shape, ghost v: Json)
    requires sh.p == node && Printable(sb, sh, v)
    modifies sb, sb.h
    ensures Wrote(sb, Encode(libc, v))
    decreases sh, 3
  {
    match sb.h.At(node).tag {
      case JsonArray => EmitArray(sb, libc, node, sh, v.elems);
      case JsonObject => EmitObject(sb, libc, node, sh, v.members);
      case _ => EmitScalar(sb, libc, node, sh, v);
    }
  }

  /** A child of a linked container: a tree of its own that knows its successor and its key. */
  lemma KidOf(m: Mem, sh: Shape, k: nat)
    requires Linked(m, sh) && IsContainer(m.nodes[sh.p].tag) && k < |sh.kids|
    ensures var c := sh.kids[k];
            && Linked(m, c) && c.p in m.nodes && c.p != NULL
            && m.nodes[c.p].next == PtrAt(sh.kids, k + 1) && m.nodes[c.p].key == c.key
            && (m.nodes[sh.p].tag.JsonObject? ==> c.key != NULL && c.key in m.blocks)
    ensures k + 1 < |sh.kids| ==> PtrAt(sh.kids, k + 1) != NULL
  {
    hide Addrs, AddrsOf;
    assert ChildAt(m, sh, k);
    assert Linked(m, sh.kids[k]);
    assert NodeOk(m, sh.kids[k]);
    if k + 1 < |sh.kids| { assert Linked(m, sh.kids[k + 1]); }
  }

  /** What a walk over the children starts from. */
  lemma ArrayStart(libc: Libc, m: Mem, sh: Shape, es: seq<Json>, space: bytes, level: nat)
    requires Linked(m, sh) && ValueOf(m, sh) == Arr(es) && Checked(Arr(es))
    ensures sh.p in m.nodes && m.nodes[sh.p].head == PtrAt(sh.kids, 0) && IsContainer(m.nodes[sh.p].tag)
    ensures |es| == |sh.kids| && (sh.kids != [] ==> PtrAt(sh.kids, 0) != NULL)
    ensures ElemsChecked(es[0..]) && es[0..] == es
    ensures Encode(libc, Arr(es)) == [LBRACKET] + EncodeElems(libc, es)
    ensures es != [] ==> Pretty(libc, Arr(es), space, level) == [LBRACKET, LF] + PrettyElems(libc, es, space, level)
    ensures es == [] ==> Pretty(libc, Arr(es), space, level) == [LBRACKET, RBRACKET]
  {
    FirstKid(m, sh);
  }

  lemma ObjectStart(libc: Libc, m: Mem, sh: Shape, ms: seq<Member>, space: bytes, level: nat)
    requires Linked(m, sh) && ValueOf(m, sh) == Obj(ms) && Checked(Obj(ms))
    ensures sh.p in m.nodes && m.nodes[sh.p].head == PtrAt(sh.kids, 0) && IsContainer(m.nodes[sh.p].tag)
    ensures |ms| == |sh.kids| && (sh.kids != [] ==> PtrAt(sh.kids, 0) != NULL)
    ensures MembersChecked(ms[0..]) && ms[0..] == ms
    ensures Encode(libc, Obj(ms)) == [LBRACE] + EncodeMembers(libc, ms)
    ensures ms != [] ==> Pretty(libc, Obj(ms), space, level) == [LBRACE, LF] + PrettyMembers(libc, ms, space, level)
    ensures ms == [] ==> Pretty(libc, Obj(ms), space, level) == [LBRACE, RBRACE]
  {
    FirstKid(m, sh);
  }

  lemma PtrInside(kids: seq<Shape>, k: nat)
    requires PtrAt(kids, k) != NULL
    ensures k < |kids|
  {
  }

  lemma LastLine(libc: Libc, space: bytes, level: nat)
    ensures EncodeElems(libc, []) == [RBRACKET] && EncodeMembers(libc, []) == [RBRACE]
    ensures PrettyElems(libc, [], space, level) == Indent(space, level) + [RBRACKET]
    ensures PrettyMembers(libc, [], space, level) == Indent(space, level) + [RBRACE]
  {
  }

  /** What one round of the loop writes for the k-th element. */
  ghost function EncodeElemText(libc: Libc, es: seq<Json>, k: nat): bytes
    requires k < |es| && Checked(es[k])
  {
    Encode(libc, es[k]) + (if k + 1 < |es| then [COMMA] else [])
  }

  lemma EncodeElemsUnfold(libc: Libc, es: seq<Json>, k: nat)
    requires k < |es| && ElemsChecked(es[k..])
    ensures Checked(es[k]) && ElemsChecked(es[k + 1..])
    ensures EncodeElems(libc, es[k..]) == EncodeElemText(libc, es, k) + EncodeElems(libc, es[k + 1..])
  {
    var tail := EncodeElems(libc, es[k + 1..]);
    var sep := (if k + 1 < |es| then [COMMA] else []);
    assert es[k..][0] == es[k] && es[k..][1..] == es[k + 1..];
    Assoc(Encode(libc, es[k]), sep, tail);
  }

  /** One round of the loop; the next child is read before the separator is written. */
  method EmitElement(sb: SB, libc: Libc, element: Ptr, ghost m: Mem, ghost sh: Shape, ghost es: seq<Json>, ghost k: nat)
    returns (next: Ptr)
    requires sb.Valid() && sb.Rest() == m && Linked(m, sh) && ValueOf(m, sh) == Arr(es) && k < |es|
    requires element == PtrAt(sh.kids, k) && Checked(es[k])
    modifies sb, sb.h
    ensures sb.Valid() && sb.Rest() == m && sb.Contents() == old(sb.Contents()) + EncodeElemText(libc, es, k)
    ensures next == PtrAt(sh.kids, k + 1)
    ensures k + 1 < |sh.kids| ==> next != NULL
    decreases sh, 0
  {
    ghost var before := sb.Contents();
    KidOf(m, sh, k);
    hide Linked, Pretty, Encode, EmitString, Indent, Checked;
    EmitValue(sb, libc, element, sh.kids[k], es[k]);
    next := sb.h.At(element).next;
    if next != NULL {
      sb.PutChar(COMMA);
    }
    ghost var sep := if next != NULL then [COMMA] else [];
    Assoc(before, Encode(libc, es[k]), sep);
    assert next == NULL ==> before + Encode(libc, es[k]) + sep == before + Encode(libc, es[k]);
  }

  /** The loop of emit_array */
  method EmitElements(sb: SB, libc: Libc, first: Ptr, ghost m: Mem, ghost sh: Shape, ghost es: seq<Json>)
    requires sb.Valid() && sb.Rest() == m && Linked(m, sh) && ValueOf(m, sh) == Arr(es) && |es| == |sh.kids|
    requires first == PtrAt(sh.kids, 0) && (sh.kids != [] ==> first != NULL) && ElemsChecked(es)
    modifies sb, sb.h
    ensures sb.Valid() && sb.Rest() == m
    ensures sb.Contents() + [RBRACKET] == old(sb.Contents()) + EncodeElems(libc, es)
    decreases sh, 1
  {
    hide *;
    var element, k := first, 0;
    ghost var done := sb.Contents();
    ghost var target := done + EncodeElems(libc, es);
    assert es[0..] == es;
    while element != NULL
      invariant 0 <= k <= |es| && element == PtrAt(sh.kids, k) && (k < |es| ==> element != NULL)
      invariant sb.Valid() && sb.Rest() == m && ElemsChecked(es[k..])
      invariant sb.Contents() == done && done + EncodeElems(libc, es[k..]) == target
      decreases |es| - k
    {
      PtrInside(sh.kids, k);
      EncodeElemsUnfold(libc, es, k);
      Assoc(done, EncodeElemText(libc, es, k), EncodeElems(libc, es[k + 1..]));
      element := EmitElement(sb, libc, element, m, sh, es, k);
      done := done + EncodeElemText(libc, es, k);
      k := k + 1;
    }
    assert es[k..] == [];
    LastLine(libc, [], 0);
  }

  /** emit_array */
  method EmitArray(sb: SB, libc: Libc, node: Ptr, ghost sh: Shape, ghost es: seq<Json>)
    requires sh.p == node && Printable(sb, sh, Arr(es))
    modifies sb, sb.h
    ensures Wrote(sb, Encode(libc, Arr(es)))
    decreases sh, 2
  {
    ghost var m := sb.Rest();
    ArrayStart(libc, m, sh, es, [], 0);
    hide Linked, ValueOf, Checked, EncodeElems, Encode;
    var first := sb.h.At(node).head;
    Assoc(sb.Contents(), [LBRACKET], EncodeElems(libc, es));
    sb.PutChar(LBRACKET);
    EmitElements(sb, libc, first, m, sh, es);
    sb.PutChar(RBRACKET);
  }

  /** The key of a member, read from its own block. */
  method EmitKey(sb: SB, member_: Ptr, ghost m: Mem, ghost sh: Shape, ghost ms: seq<Member>, ghost k: nat)
    requires sb.Valid() && sb.Rest() == m && Linked(m, sh) && ValueOf(m, sh) == Obj(ms) && k < |ms|
    requires member_ == PtrAt(sh.kids, k) && Utf8Text(ms[k].key)
    modifies sb, sb.h
    ensures Wrote(sb, EmitString(ms[k].key, false))
  {
    hide Addrs, AddrsOf;
    KidOf(m, sh, k);
    var key := sb.h.At(member_).key;
    assert m.blocks[key] == sb.h.mem.blocks[key];
    EmitStringText(sb, CStr(sb.h.mem.blocks[key]), false);
  }

  /** What one round of the loop writes for the k-th member. */
  ghost function EncodeMemberText(libc: Libc, ms: seq<Member>, k: nat): bytes
    requires k < |ms| && Utf8Text(ms[k].key) && Checked(ms[k].value)
  {
    EmitString(ms[k].key, false) + ([COLON] + (Encode(libc, ms[k].value) + (if k + 1 < |ms| then [COMMA] else [])))
  }

  lemma EncodeMembersUnfold(libc: Libc, ms: seq<Member>, k: nat)
    requires k < |ms| && MembersChecked(ms[k..])
    ensures Utf8Text(ms[k].key) && Checked(ms[k].value) && MembersChecked(ms[k + 1..])
    ensures EncodeMembers(libc, ms[k..]) == EncodeMemberText(libc, ms, k) + EncodeMembers(libc, ms[k + 1..])
  {
    var tail := EncodeMembers(libc, ms[k + 1..]);
    var sep := (if k + 1 < |ms| then [COMMA] else []);
    assert ms[k..][0] == ms[k] && ms[k..][1..] == ms[k + 1..];
    Assoc(EmitString(ms[k].key, false), [COLON] + (Encode(libc, ms[k].value) + sep), tail);
    Assoc([COLON], Encode(libc, ms[k].value) + sep, tail);
    Assoc(Encode(libc, ms[k].value), sep, tail);
  }

  lemma MemberOf(m: Mem, sh: Shape, ms: seq<Member>, k: nat)
    requires Linked(m, sh) && ValueOf(m, sh) == Obj(ms) && k < |ms|
    ensures |ms| == |sh.kids| && m.nodes[sh.p].tag.JsonObject? && ValueOf(m, sh.kids[k]) == ms[k].value
  {
    hide Addrs, AddrsOf, Linked;
  }

  lemma Regroup(a: bytes, b: bytes, c: bytes, d: bytes, e: bytes)
    ensures a + b + c + d + e == a + (b + (c + (d + e)))
    ensures e == [] ==> a + b + c + d == a + (b + (c + (d + e)))
  {
    Assoc(a, b, c + (d + e));
    Assoc(a + b, c, d + e);
    Assoc(a + b + c, d, e);
    assert e == [] ==> d + e == d;
  }

  /** One round of the loop; the next child is read before the separator is written. */
  method EmitMember(sb: SB, libc: Libc, member_: Ptr, ghost m: Mem, ghost sh: Shape, ghost ms: seq<Member>,
      ghost k: nat)
    returns (next: Ptr)
    requires sb.Valid() && sb.Rest() == m && Linked(m, sh) && ValueOf(m, sh) == Obj(ms) && k < |ms|
    requires member_ == PtrAt(sh.kids, k) && Utf8Text(ms[k].key) && Checked(ms[k].value)
    modifies sb, sb.h
    ensures sb.Valid() && sb.Rest() == m && sb.Contents() == old(sb.Contents()) + EncodeMemberText(libc, ms, k)
    ensures next == PtrAt(sh.kids, k + 1)
    ensures k + 1 < |sh.kids| ==> next != NULL
    decreases sh, 0
  {
    ghost var before := sb.Contents();
    MemberOf(m, sh, ms, k);
    KidOf(m, sh, k);
    hide Linked, ValueOf, Pretty, Encode, EmitString, Indent, Checked, Utf8Text, AfterPut;
    EmitKey(sb, member_, m, sh, ms, k);
    sb.PutChar(COLON);
    EmitValue(sb, libc, member_, sh.kids[k], ms[k].value);
    next := sb.h.At(member_).next;
    if next != NULL {
      sb.PutChar(COMMA);
    }
    ghost var sep := if next != NULL then [COMMA] else [];
    Regroup(before, EmitString(ms[k].key, false), [COLON], Encode(libc, ms[k].value), sep);
  }

  /** The loop of emit_object */
  method EmitMembers(sb: SB, libc: Libc, first: Ptr, ghost m: Mem, ghost sh: Shape, ghost ms: seq<Member>)
    requires sb.Valid() && sb.Rest() == m && Linked(m, sh) && ValueOf(m, sh) == Obj(ms) && |ms| == |sh.kids|
    requires first == PtrAt(sh.kids, 0) && (sh.kids != [] ==> first != NULL) && MembersChecked(ms)
    modifies sb, sb.h
    ensures sb.Valid() && sb.Rest() == m
    ensures sb.Contents() + [RBRACE] == old(sb.Contents()) + EncodeMembers(libc, ms)
    decreases sh, 1
  {
    hide *;
    var member_, k := first, 0;
    ghost var done := sb.Contents();
    ghost var target := done + EncodeMembers(libc, ms);
    assert ms[0..] == ms;
    while member_ != NULL
      invariant 0 <= k <= |ms| && member_ == PtrAt(sh.kids, k) && (k < |ms| ==> member_ != NULL)
      invariant sb.Valid() && sb.Rest() == m && MembersChecked(ms[k..])
      invariant sb.Contents() == done && done + EncodeMembers(libc, ms[k..]) == target
      decreases |ms| - k
    {
      PtrInside(sh.kids, k);
      EncodeMembersUnfold(libc, ms, k);
      Assoc(done, EncodeMemberText(libc, ms, k), EncodeMembers(libc, ms[k + 1..]));
      member_ := EmitMember(sb, libc, member_, m, sh, ms, k);
      done := done + EncodeMemberText(libc, ms, k);
      k := k + 1;
    }
    assert ms[k..] == [];
    LastLine(libc, [], 0);
  }

  /** emit_object */
  method EmitObject(sb: SB, libc: Libc, node: Ptr, ghost sh: Shape, ghost ms: seq<Member>)
    requires sh.p == node && Printable(sb, sh, Obj(ms))
    modifies sb, sb.h
    ensures Wrote(sb, Encode(libc, Obj(ms)))
    decreases sh, 2
  {
    ghost var m := sb.Rest();
    ObjectStart(libc, m, sh, ms, [], 0);
    hide Linked, ValueOf, Checked, EncodeMembers, Encode;
    var first := sb.h.At(node).head;
    Assoc(sb.Contents(), [LBRACE], EncodeMembers(libc, ms));
    sb.PutChar(LBRACE);
    EmitMembers(sb, libc, first, m, sh, ms);
    sb.PutChar(RBRACE);
  }

  // ------------------------------------------------------------------ indented

  /** `for (i = 0; i < level; i++) sb_puts(out, space)` */
  method EmitIndent(sb: SB, space: bytes, level: nat)
    requires sb.Valid()
    modifies sb, sb.h
    ensures Wrote(sb, Indent(space, level))
  {
    ghost var target := sb.Contents() + Indent(space, level);
    var i := 0;
    while i < level
      invariant 0 <= i <= level && sb.Valid() && sb.Rest() == old(sb.Rest())
      invariant sb.Contents() + Indent(space, level - i) == target
    {
      Assoc(sb.Contents(), space, Indent(space, level - i - 1));
      sb.Put(space);
      i := i + 1;
    }
  }

  /** emit_value_indented */
  method EmitValueIndented(sb: SB, libc: Libc, node: Ptr, space: bytes, level: nat, ghost sh: Shape, ghost v: Json)
    requires sh.p == node && Printable(sb, sh, v)
    modifies sb, sb.h
    ensures Wrote(sb, Pretty(libc, v, space, level))
    decreases sh, 3
  {
    match sb.h.At(node).tag {
      case JsonArray => EmitArrayIndented(sb, libc, node, space, level, sh, v.elems);
      case JsonObject => EmitObjectIndented(sb, libc, node, space, level, sh, v.members);
      case _ => EmitScalar(sb, libc, node, sh, v);
    }
  }

  /** What one round of the loop writes for the k-th element. */
  ghost function PrettyElemText(libc: Libc, es: seq<Json>, space: bytes, level: nat, k: nat): bytes
    requires k < |es| && Checked(es[k])
  {
    Indent(space, level + 1) + (Pretty(libc, es[k], space, level + 1) + (if k + 1 < |es| then [COMMA, LF] else [LF]))
  }

  lemma PrettyElemsUnfold(libc: Libc, es: seq<Json>, space: bytes, level: nat, k: nat)
    requires k < |es| && ElemsChecked(es[k..])
    ensures Checked(es[k]) && ElemsChecked(es[k + 1..])
    ensures PrettyElems(libc, es[k..], space, level) ==
        PrettyElemText(libc, es, space, level, k) + PrettyElems(libc, es[k + 1..], space, level)
  {
    var tail := PrettyElems(libc, es[k + 1..], space, level);
    var sep := (if k + 1 < |es| then [COMMA, LF] else [LF]);
    assert es[k..][0] == es[k] && es[k..][1..] == es[k + 1..];
    Assoc(Indent(space, level + 1), Pretty(libc, es[k], space, level + 1) + sep, tail);
    Assoc(Pretty(libc, es[k], space, level + 1), sep, tail);
  }

  /** One round of the loop; the next child is read before the separator is written. */
  method EmitElementIndented(sb: SB, libc: Libc, element: Ptr, space: bytes, level: nat, ghost m: Mem,
      ghost sh: Shape, ghost es: seq<Json>, ghost k: nat)
    returns (next: Ptr)
    requires sb.Valid() && sb.Rest() == m && Linked(m, sh) && ValueOf(m, sh) == Arr(es) && k < |es|
    requires element == PtrAt(sh.kids, k) && Checked(es[k])
    modifies sb, sb.h
    ensures sb.Valid() && sb.Rest() == m
    ensures sb.Contents() == old(sb.Contents()) + PrettyElemText(libc, es, space, level, k)
    ensures next == PtrAt(sh.kids, k + 1)
    ensures k + 1 < |sh.kids| ==> next != NULL
    decreases sh, 0
  {
    ghost var before := sb.Contents();
    KidOf(m, sh, k);
    hide Linked, Pretty, Encode, EmitString, Indent, Checked;
    EmitIndent(sb, space, level + 1);
    EmitValueIndented(sb, libc, element, space, level + 1, sh.kids[k], es[k]);
    next := sb.h.At(element).next;
    sb.Put(if next != NULL then [COMMA, LF] else [LF]);
    ghost var sep := if next != NULL then [COMMA, LF] else [LF];
    Assoc(before, Indent(space, level + 1), Pretty(libc, es[k], space, level + 1) + sep);
    Assoc(before + Indent(space, level + 1), Pretty(libc, es[k], space, level + 1), sep);
  }

  /** The loop of emit_array_indented */
  method EmitElementsIndented(sb: SB, libc: Libc, first: Ptr, space: bytes, level: nat, ghost m: Mem,
      ghost sh: Shape, ghost es: seq<Json>)
    requires sb.Valid() && sb.Rest() == m && Linked(m, sh) && ValueOf(m, sh) == Arr(es) && |es| == |sh.kids|
    requires first == PtrAt(sh.kids, 0) && (sh.kids != [] ==> first != NULL) && ElemsChecked(es)
    modifies sb, sb.h
    ensures sb.Valid() && sb.Rest() == m
    ensures sb.Contents() + (Indent(space, level) + [RBRACKET]) ==
        old(sb.Contents()) + PrettyElems(libc, es, space, level)
    decreases sh, 1
  {
    hide *;
    var element, k := first, 0;
    ghost var done := sb.Contents();
    ghost var target := done + PrettyElems(libc, es, space, level);
    assert es[0..] == es;
    while element != NULL
      invariant 0 <= k <= |es| && element == PtrAt(sh.kids, k) && (k < |es| ==> element != NULL)
      invariant sb.Valid() && sb.Rest() == m && ElemsChecked(es[k..])
      invariant sb.Contents() == done && done + PrettyElems(libc, es[k..], space, level) == target
      decreases |es| - k
    {
      PtrInside(sh.kids, k);
      PrettyElemsUnfold(libc, es, space, level, k);
      Assoc(done, PrettyElemText(libc, es, space, level, k), PrettyElems(libc, es[k + 1..], space, level));
      element := EmitElementIndented(sb, libc, element, space, level, m, sh, es, k);
      done := done + PrettyElemText(libc, es, space, level, k);
      k := k + 1;
    }
    assert es[k..] == [];
    LastLine(libc, space, level);
  }

  /** emit_array_indented */
  method EmitArrayIndented(sb: SB, libc: Libc, node: Ptr, space: bytes, level: nat, ghost sh: Shape,
      ghost es: seq<Json>)
    requires sh.p == node && Printable(sb, sh, Arr(es))
    modifies sb, sb.h
    ensures Wrote(sb, Pretty(libc, Arr(es), space, level))
    decreases sh, 2
  {
    ghost var m := sb.Rest();
    ArrayStart(libc, m, sh, es, space, level);
    hide Linked, ValueOf, Checked, PrettyElems, Pretty;
    var first := sb.h.At(node).head;
    if first == NULL {
      sb.Put([LBRACKET, RBRACKET]);
      return;
    }
    Assoc(sb.Contents(), [LBRACKET, LF], PrettyElems(libc, es, space, level));
    sb.Put([LBRACKET, LF]);
    EmitElementsIndented(sb, libc, first, space, level, m, sh, es);
    Assoc(sb.Contents(), Indent(space, level), [RBRACKET]);
    EmitIndent(sb, space, level);
    sb.PutChar(RBRACKET);
  }

  /** What one round of the loop writes for the k-th member. */
  ghost function PrettyMemberText(libc: Libc, ms: seq<Member>, space: bytes, level: nat, k: nat): bytes
    requires k < |ms| && Utf8Text(ms[k].key) && Checked(ms[k].value)
  {
    Indent(space, level + 1) + (EmitString(ms[k].key, false) +
        ([COLON, BLANK] + (Pretty(libc, ms[k].value, space, level + 1) + (if k + 1 < |ms| then [COMMA, LF] else [LF]))))
  }

  lemma PrettyMembersUnfold(libc: Libc, ms: seq<Member>, space: bytes, level: nat, k: nat)
    requires k < |ms| && MembersChecked(ms[k..])
    ensures Utf8Text(ms[k].key) && Checked(ms[k].value) && MembersChecked(ms[k + 1..])
    ensures PrettyMembers(libc, ms[k..], space, level) ==
        PrettyMemberText(libc, ms, space, level, k) + PrettyMembers(libc, ms[k + 1..], space, level)
  {
    var tail := PrettyMembers(libc, ms[k + 1..], space, level);
    var sep := (if k + 1 < |ms| then [COMMA, LF] else [LF]);
    assert ms[k..][0] == ms[k] && ms[k..][1..] == ms[k + 1..];
    Assoc(Indent(space, level + 1), EmitString(ms[k].key, false) +
        ([COLON, BLANK] + (Pretty(libc, ms[k].value, space, level + 1) + sep)), tail);
    Assoc(EmitString(ms[k].key, false), [COLON, BLANK] + (Pretty(libc, ms[k].value, space, level + 1) + sep), tail);
    Assoc([COLON, BLANK], Pretty(libc, ms[k].value, space, level + 1) + sep, tail);
    Assoc(Pretty(libc, ms[k].value, space, level + 1), sep, tail);
  }

  /** One round of the loop; the next child is read before the separator is written. */
  method EmitMemberIndented(sb: SB, libc: Libc, member_: Ptr, space: bytes, level: nat, ghost m: Mem,
      ghost sh: Shape, ghost ms: seq<Member>, ghost k: nat)
    returns (next: Ptr)
    requires sb.Valid() && sb.Rest() == m && Linked(m, sh) && ValueOf(m, sh) == Obj(ms) && k < |ms|
    requires member_ == PtrAt(sh.kids, k) && Utf8Text(ms[k].key) && Checked(ms[k].value)
    modifies sb, sb.h
    ensures sb.Valid() && sb.Rest() == m
    ensures sb.Contents() == old(sb.Contents()) + PrettyMemberText(libc, ms, space, level, k)
    ensures next == PtrAt(sh.kids, k + 1)
    ensures k + 1 < |sh.kids| ==> next != NULL
    decreases sh, 0
  {
    ghost var before := sb.Contents();
    hide Linked, ValueOf, Pretty, Encode, EmitString, Indent, Checked, Utf8Text, AfterPut, Reserved;
    MemberOf(m, sh, ms, k);
    KidOf(m, sh, k);
    EmitIndent(sb, space, level + 1);
    EmitKey(sb, member_, m, sh, ms, k);
    sb.Put([COLON, BLANK]);
    EmitValueIndented(sb, libc, member_, space, level + 1, sh.kids[k], ms[k].value);
    next := sb.h.At(member_).next;
    sb.Put(if next != NULL then [COMMA, LF] else [LF]);
    ghost var sep := if next != NULL then [COMMA, LF] else [LF];
    ghost var indent, key, text := Indent(space, level + 1), EmitString(ms[k].key, false),
        Pretty(libc, ms[k].value, space, level + 1);
    Regroup(before + indent, key, [COLON, BLANK], text, sep);
    Assoc(before, indent, key + ([COLON, BLANK] + (text + sep)));
  }

  /** The loop of emit_object_indented */
  method EmitMembersIndented(sb: SB, libc: Libc, first: Ptr, space: bytes, level: nat, ghost m: Mem, ghost sh: Shape,
      ghost ms: seq<Member>)
    requires sb.Valid() && sb.Rest() == m && Linked(m, sh) && ValueOf(m, sh) == Obj(ms) && |ms| == |sh.kids|
    requires first == PtrAt(sh.kids, 0) && (sh.kids != [] ==> first != NULL) && MembersChecked(ms)
    modifies sb, sb.h
    ensures sb.Valid() && sb.Rest() == m
    ensures sb.Contents() + (Indent(space, level) + [RBRACE]) ==
        old(sb.Contents()) + PrettyMembers(libc, ms, space, level)
    decreases sh, 1
  {
    hide *;
    var member_, k := first, 0;
    ghost var done := sb.Contents();
    ghost var target := done + PrettyMembers(libc, ms, space, level);
    assert ms[0..] == ms;
    while member_ != NULL
      invariant 0 <= k <= |ms| && member_ == PtrAt(sh.kids, k) && (k < |ms| ==> member_ != NULL)
      invariant sb.Valid() && sb.Rest() == m && MembersChecked(ms[k..])
      invariant sb.Contents() == done && done + PrettyMembers(libc, ms[k..], space, level) == target
      decreases |ms| - k
    {
      PtrInside(sh.kids, k);
      PrettyMembersUnfold(libc, ms, space, level, k);
      Assoc(done, PrettyMemberText(libc, ms, space, level, k), PrettyMembers(libc, ms[k + 1..], space, level));
      member_ := EmitMemberIndented(sb, libc, member_, space, level, m, sh, ms, k);
      done := done + PrettyMemberText(libc, ms, space, level, k);
      k := k + 1;
    }
    assert ms[k..] == [];
    LastLine(libc, space, level);
  }

  /** emit_object_indented */
  method EmitObjectIndented(sb: SB, libc: Libc, node: Ptr, space: bytes, level: nat, ghost sh: Shape,
      ghost ms: seq<Member>)
    requires sh.p == node && Printable(sb, sh, Obj(ms))
    modifies sb, sb.h
    ensures Wrote(sb, Pretty(libc, Obj(ms), space, level))
    decreases sh, 2
  {
    ghost var m := sb.Rest();
    ObjectStart(libc, m, sh, ms, space, level);
    hide Linked, ValueOf, Checked, PrettyMembers, Pretty;
    var first := sb.h.At(node).head;
    if first == NULL {
      sb.Put([LBRACE, RBRACE]);
      return;
    }
    Assoc(sb.Contents(), [LBRACE, LF], PrettyMembers(libc, ms, space, level));
    sb.Put([LBRACE, LF]);
    EmitMembersIndented(sb, libc, first, space, level, m, sh, ms);
    Assoc(sb.Contents(), Indent(space, level), [RBRACE]);
    EmitIndent(sb, space, level);
    sb.PutChar(RBRACE);
  }
}
