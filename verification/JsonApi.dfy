/** The entry points: json_decode, json_validate, json_stringify, json_encode, json_encode_string. */
module JsonApi {
  import opened CStrings
  import opened StringEmission
  import opened Json
  import opened Printing
  import opened PrintedText
  import opened CMemory
  import opened Shapes
  import opened Building
  import opened Lexing
  import opened Parser
  import opened StringBuffer
  import opened StringPrinter
  import opened Printer
  import opened NodeQueries

  /**
   * json_decode: NULL exactly for the texts that are no JSON, and then, trailing garbage included, the
   * memory is as before; otherwise exactly the cells of a well-linked tree for the decoded value are new,
   * and the tree passes json_check.
   */
  method JsonDecode(h: CHeap, libc: Libc, json: bytes) returns (ret: Ptr, ghost sh: Shape)
    requires NulFree(json) && h.mem.Sane()
    modifies h
    ensures ret == NULL <==> Decode(libc, json).None?
    ensures ret == NULL ==> h.mem == old(h.mem)
    ensures ret != NULL ==>
              && Built(old(h.mem), h.mem, ret, sh, Decode(libc, json).value)
              && Checked(Decode(libc, json).value)
  {
    hide Linked, Addrs, AddrsOf, ScanValue;
    var ok;
    assert json[0..] == json;
    var s := SkipSpaces(json, 0);
    ghost var v := ScanValue(libc, json[s..]);
    ok, s, ret, sh := ParseValue(h, libc, json, s, true);
    if !ok {
      return NULL, sh;
    }
    s := SkipSpaces(json, s);
    if Peek(json, s) != 0 {
      Discard(h, ret, old(h.mem), sh, v.value);
      return NULL, sh;
    }
    DecodedIsChecked(libc, json);
  }

  /** Whatever json_decode builds is a tree that json_check can walk and accepts. */
  lemma DecodedIsWellFormed(m0: Mem, m1: Mem, libc: Libc, json: bytes, ret: Ptr, sh: Shape)
    requires NulFree(json) && Decode(libc, json).Some? && Built(m0, m1, ret, sh, Decode(libc, json).value)
    ensures Walkable(m1, sh) && WellFormed(m1, sh)
  {
    DecodedIsChecked(libc, json);
    LinkedIsWalkable(m1, sh);
  }

  /** json_validate: the same answer without a tree, and without touching the memory. */
  method JsonValidate(h: CHeap, libc: Libc, json: bytes) returns (ok: bool)
    requires NulFree(json) && h.mem.Sane()
    modifies h
    ensures ok <==> Decode(libc, json).Some?
    ensures h.mem == old(h.mem)
  {
    assert json[0..] == json;
    var s := SkipSpaces(json, 0);
    var out;
    ghost var sh;
    ok, s, out, sh := ParseValue(h, libc, json, s, false);
    if ok {
      s := SkipSpaces(json, s);
      ok := Peek(json, s) == 0;
    }
  }

  /** json_stringify: one new block with the text, everything else as it was. */
  method JsonStringify(h: CHeap, libc: Libc, node: Ptr, space: Option<bytes>, ghost sh: Shape,
      ghost v: Json) returns (text: Ptr)
    requires sh.p == node && Linked(h.mem, sh) && ValueOf(h.mem, sh) == v && Checked(v) && h.mem.Sane()
    requires space.Some? ==> NulFree(space.value)
    modifies h
    ensures StringBuilt(old(h.mem), h.mem, text, Stringify(libc, v, space))
  {
    hide Linked, Addrs, AddrsOf, ValueOf;
    var sb := new SB(h);
    match space {
      case None => EmitValue(sb, libc, node, sh, v);
      case Some(sp) => EmitValueIndented(sb, libc, node, sp, 0, sh, v);
    }
    StringifyNulFree(libc, v, space);
    text := sb.Finish();
  }

  /** json_encode is json_stringify without a space string. */
  method JsonEncode(h: CHeap, libc: Libc, node: Ptr, ghost sh: Shape, ghost v: Json) returns (text: Ptr)
    requires sh.p == node && Linked(h.mem, sh) && ValueOf(h.mem, sh) == v && Checked(v) && h.mem.Sane()
    modifies h
    ensures StringBuilt(old(h.mem), h.mem, text, Encode(libc, v))
  {
    text := JsonStringify(h, libc, node, None, sh, v);
  }

  /** json_encode_string */
  method JsonEncodeString(h: CHeap, str: bytes) returns (text: Ptr)
    requires Utf8Text(str) && h.mem.Sane()
    modifies h
    ensures StringBuilt(old(h.mem), h.mem, text, EmitString(str, false))
  {
    var sb := new SB(h);
    EmitStringText(sb, str, false);
    EmitStringNulFree(str, false);
    text := sb.Finish();
  }
}
