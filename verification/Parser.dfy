/** parse_value, parse_array, parse_object, json_decode and json_validate. */
module Parser {
  import opened CStrings
  import opened Numbers
  import opened Strings
  import opened Json
  import opened CMemory
  import opened Shapes
  import opened Nodes
  import opened Building
  import opened Lexing
  import opened StringParser

  /**
   * What every parse call promises, in build mode and in validate mode: it succeeds exactly if the scan of
   * the text does, its cursor stops where the scan does and otherwise stays, and the memory is as it was before
   * unless a tree was built: then it holds exactly that tree in addition.
   */
  ghost predicate Parsed(r: ValueScan, json: bytes, start: nat, m0: Mem, m1: Mem, build: bool, ok: bool, s: nat,
                         out: Ptr, sh: Shape) {
    && (ok <==> r.Ok?)
    && s <= |json|
    && (if ok then json[s..] == r.rest else s == start)
    && (if build && ok then Built(m0, m1, out, sh, r.value) else m1 == m0)
  }

  /** json_append_element on an array under construction */
  method AppendParsedElement(h: CHeap, array_: Ptr, element: Ptr, ghost m0: Mem, ghost m1: Mem,
                           ghost sh: Shape, ghost acc: seq<Json>, ghost csh: Shape, ghost v: Json)
    requires Built(m0, m1, array_, sh, Arr(acc)) && m1.nodes[array_].tag.JsonArray?
    requires Built(m1, h.mem, element, csh, v)
    modifies h
    ensures Built(m0, h.mem, array_, sh.(kids := sh.kids + [csh]), Arr(acc + [v]))
    ensures h.mem.nodes[array_].tag.JsonArray?
  {
    hide Addrs, AddrsOf;
    ghost var m2 := h.mem;
    BuiltCanAdopt(m0, m1, m2, array_, sh, Arr(acc), element, csh, v);
    AppendNode(h, array_, element, sh, csh);
    BuiltAppended(m0, m2, h.mem, array_, sh, csh, Arr(acc + [v]), {array_, element, m2.nodes[array_].tail});
  }

  /** append_member on an object under construction */
  method AppendParsedMember(h: CHeap, object_: Ptr, key: Ptr, value: Ptr, ghost m0: Mem, ghost m1: Mem, ghost mk: Mem,
                            ghost sh: Shape, ghost acc: seq<Member>, ghost m: Member, ghost csh: Shape)
    requires Built(m0, m1, object_, sh, Obj(acc)) && m1.nodes[object_].tag.JsonObject?
    requires StringBuilt(m1, mk, key, m.key) && Built(mk, h.mem, value, csh, m.value)
    modifies h
    ensures Built(m0, h.mem, object_, sh.(kids := sh.kids + [csh.(key := key)]), Obj(acc + [m]))
    ensures h.mem.nodes[object_].tag.JsonObject?
  {
    hide Addrs, AddrsOf;
    ghost var m2 := h.mem;
    BuiltCanTake(m0, m1, mk, m2, object_, sh, Obj(acc), key, m.key, value, csh, m.value);
    KeyedAddrs(csh, key);
    AppendMember(h, object_, key, value, sh, csh);
    BuiltAppended(m0, m2, h.mem, object_, sh, csh.(key := key), Obj(acc + [m]),
        {object_, value, m2.nodes[object_].tail});
  }

  /** `failure: json_delete(ret); return false;` gives the memory before the call back. */
  method Discard(h: CHeap, ret: Ptr, ghost m0: Mem, ghost sh: Shape, ghost v: Json)
    requires if ret == NULL then h.mem == m0 else Built(m0, h.mem, ret, sh, v)
    modifies h
    ensures h.mem == m0
  {
    hide Addrs, AddrsOf;
    JsonDelete(h, ret, sh);
  }

  /** parse_value's cases that build a node without children or string */
  method ParseKeyword(h: CHeap, json: bytes, start: nat, build: bool, literal: bytes, tag: Tag, b: bool)
    returns (ok: bool, s: nat, out: Ptr, ghost sh: Shape)
    requires NulFree(json) && NulFree(literal) && start <= |json| && h.mem.Sane()
    requires tag.JsonNull? || tag.JsonBool?
    modifies h
    ensures var r := if Expects(json[start..], literal)
                     then Ok(if tag.JsonNull? then Null else Bool(b), json[start..][|literal|..]) else Fail;
            Parsed(r, json, start, old(h.mem), h.mem, build, ok, s, out, sh)
  {
    out, sh := NULL, Shape(NULL, NULL, NULL, []);
    ok, s := ExpectLiteral(json, start, literal);
    if ok && build {
      out := h.MakeNode(tag);
      h.Set(out, h.At(out).(bool_ := tag.JsonBool? && b));
      sh := Shape(out, NULL, NULL, []);
      LeafBuilt(old(h.mem), out, h.mem.nodes[out]);
      assert h.mem == old(h.mem).PutNode(out, h.mem.nodes[out]);
    }
  }

  method ParseStringValue(h: CHeap, json: bytes, start: nat, build: bool)
    returns (ok: bool, s: nat, out: Ptr, ghost sh: Shape)
    requires NulFree(json) && start <= |json| && h.mem.Sane()
    modifies h
    ensures var r := match ScanString(json[start..]) case Bad => Fail case Good(c, rest) => Ok(Str(c), rest);
            Parsed(r, json, start, old(h.mem), h.mem, build, ok, s, out, sh)
  {
    out, sh := NULL, Shape(NULL, NULL, NULL, []);
    var str;
    ok, s, str := ParseString(h, json, start, build);
    if ok && build {
      ghost var m1 := h.mem;
      out := h.MakeNode(JsonString);
      h.Set(out, h.At(out).(string_ := str));
      sh := Shape(out, NULL, str, []);
      StringNodeBuilt(old(h.mem), m1, str, ScanString(json[start..]).content, out, h.mem.nodes[out]);
      assert h.mem == m1.PutNode(out, h.mem.nodes[out]);
    }
  }

  method ParseNumberValue(h: CHeap, libc: Libc, json: bytes, start: nat, build: bool)
    returns (ok: bool, s: nat, out: Ptr, ghost sh: Shape)
    requires NulFree(json) && start <= |json| && h.mem.Sane()
    modifies h
    ensures var r := match ScanNumber(json[start..])
                     case None => Fail
                     case Some(rest) => Ok(Num(libc.strtod(json[start..])), rest);
            Parsed(r, json, start, old(h.mem), h.mem, build, ok, s, out, sh)
  {
    out, sh := NULL, Shape(NULL, NULL, NULL, []);
    var num;
    ok, s, num := ParseNumber(libc, json, start, build);
    if ok && build {
      out := h.MakeNode(JsonNumber);
      h.Set(out, h.At(out).(number_ := num));
      sh := Shape(out, NULL, NULL, []);
      LeafBuilt(old(h.mem), out, h.mem.nodes[out]);
      assert h.mem == old(h.mem).PutNode(out, h.mem.nodes[out]);
    }
  }

  /** parse_value */
  method ParseValue(h: CHeap, libc: Libc, json: bytes, start: nat, build: bool)
    returns (ok: bool, s: nat, out: Ptr, ghost sh: Shape)
    requires NulFree(json) && start <= |json| && h.mem.Sane()
    modifies h
    ensures Parsed(ScanValue(libc, json[start..]), json, start, old(h.mem), h.mem, build, ok, s, out, sh)
    decreases |json| - start, 1
  {
    var c := Peek(json, start);
    if c == LOWER_N {
      ok, s, out, sh := ParseKeyword(h, json, start, build, NULL_TEXT, JsonNull, false);
    } else if c == LOWER_F {
      ok, s, out, sh := ParseKeyword(h, json, start, build, FALSE_TEXT, JsonBool, false);
    } else if c == LOWER_T {
      ok, s, out, sh := ParseKeyword(h, json, start, build, TRUE_TEXT, JsonBool, true);
    } else if c == QUOTE {
      ok, s, out, sh := ParseStringValue(h, json, start, build);
    } else if c == LBRACKET {
      ok, s, out, sh := ParseArray(h, libc, json, start, build);
    } else if c == LBRACE {
      ok, s, out, sh := ParseObject(h, libc, json, start, build);
    } else {
      ok, s, out, sh := ParseNumberValue(h, libc, json, start, build);
    }
  }

  /** The tree under construction: in validate mode there is none. */
  ghost predicate Partial(build: bool, m0: Mem, m1: Mem, ret: Ptr, sh: Shape, v: Json) {
    if build then ret != NULL && Built(m0, m1, ret, sh, v) && (v.Arr? || v.Obj?) else ret == NULL && m1 == m0
  }

  /** `out ? json_mkarray() : NULL`, or json_mkobject */
  method NewContainer(h: CHeap, tag: Tag, build: bool) returns (out: Ptr, ghost sh: Shape)
    requires h.mem.Sane() && IsContainer(tag)
    modifies h
    ensures h.mem.Sane()
    ensures Partial(build, old(h.mem), h.mem, out, sh, if tag.JsonArray? then Arr([]) else Obj([]))
  {
    out, sh := NULL, Shape(NULL, NULL, NULL, []);
    if build {
      out := h.MakeNode(tag);
      sh := Shape(out, NULL, NULL, []);
      LeafBuilt(old(h.mem), out, ZeroNode(tag));
    }
  }

  lemma PartialIs(build: bool, m0: Mem, m1: Mem, ret: Ptr, sh: Shape, v: Json)
    requires Partial(build, m0, m1, ret, sh, v)
    ensures if build then ret != NULL && Built(m0, m1, ret, sh, v) else ret == NULL && m1 == m0
  {
    hide Built;
  }

  /** parse_array */
  method ParseArray(h: CHeap, libc: Libc, json: bytes, start: nat, build: bool)
    returns (ok: bool, s: nat, out: Ptr, ghost sh: Shape)
    requires NulFree(json) && start <= |json| && h.mem.Sane()
    modifies h
    ensures var t := json[start..];
            var r := if First(t) == LBRACKET then ScanArray(libc, t[1..]) else Fail;
            Parsed(r, json, start, old(h.mem), h.mem, build, ok, s, out, sh)
    decreases |json| - start, 0
  {
    hide Partial, ScanElems, ScanMembers, Built;
    ghost var m0 := h.mem;
    ghost var v := Arr([]);
    s := start;
    out, sh := NewContainer(h, JsonArray, build);
    ok := Peek(json, s) == LBRACKET;
    if ok {
      assert json[s + 1..] == json[start..][1..];
      s := SkipSpaces(json, s + 1);
      if Peek(json, s) == RBRACKET {
        s := s + 1;
      } else {
        ok, s, sh, v := ParseElements(h, libc, json, s, build, out, m0, sh);
      }
    }
    PartialIs(build, m0, h.mem, out, sh, v);
    if !ok {
      Discard(h, out, m0, sh, v);
      s := start;
    }
  }

  /** One element with the blank space behind it, appended to the array. */
  method ParseElement(h: CHeap, libc: Libc, json: bytes, start: nat, build: bool, ret: Ptr,
                      ghost m0: Mem, ghost sh0: Shape, ghost acc: seq<Json>)
    returns (ok: bool, s: nat, ghost sh: Shape)
    requires NulFree(json) && start <= |json| && h.mem.Sane() && Partial(build, m0, h.mem, ret, sh0, Arr(acc))
    modifies h
    ensures var r := ScanValue(libc, json[start..]);
            && (ok <==> r.Ok?) && s <= |json| && (ok ==> json[s..] == SkipSpace(r.rest))
            && Partial(build, m0, h.mem, ret, sh, Arr(if ok then acc + [r.value] else acc))
    ensures h.mem.Sane()
    decreases |json| - start, 2
  {
    hide Addrs, AddrsOf, Linked;
    sh := sh0;
    ghost var m1 := h.mem;
    var element;
    ghost var csh;
    ok, s, element, csh := ParseValue(h, libc, json, start, build);
    if ok {
      s := SkipSpaces(json, s);
      if build {
        AppendParsedElement(h, ret, element, m0, m1, sh, acc, csh, ScanValue(libc, json[start..]).value);
        sh := sh.(kids := sh.kids + [csh]);
      }
    }
  }

  /** The loop of parse_array; the array holds the elements parsed so far, also on failure. */
  method ParseElements(h: CHeap, libc: Libc, json: bytes, start: nat, build: bool, ret: Ptr, ghost m0: Mem,
      ghost sh0: Shape)
    returns (ok: bool, s: nat, ghost sh: Shape, ghost v: Json)
    requires NulFree(json) && start <= |json| && h.mem.Sane() && Partial(build, m0, h.mem, ret, sh0, Arr([]))
    modifies h
    ensures var r := ScanElems(libc, json[start..], []);
            && (ok <==> r.Ok?) && s <= |json| && (ok ==> json[s..] == r.rest && v == r.value)
    ensures Partial(build, m0, h.mem, ret, sh, v)
    decreases |json| - start, 3
  {
    hide Partial, ScanElems, ScanValue;
    s, sh := start, sh0;
    ghost var acc := [];
    while true
      invariant start <= s <= |json| && h.mem.Sane()
      invariant ScanElems(libc, json[start..], []) == ScanElems(libc, json[s..], acc)
      invariant Partial(build, m0, h.mem, ret, sh, Arr(acc))
      decreases |json| - s
    {
      ghost var r := ScanValue(libc, json[s..]);
      ScanElemsStep(libc, json[s..], acc);
      ok, s, sh := ParseElement(h, libc, json, s, build, ret, m0, sh, acc);
      if !ok {
        return false, s, sh, Arr(acc);
      }
      acc := acc + [r.value];
      if Peek(json, s) == RBRACKET {
        return true, s + 1, sh, Arr(acc);
      }
      if Peek(json, s) != COMMA {
        return false, s, sh, Arr(acc);
      }
      s := SkipSpaces(json, s + 1);
    }
  }

  /** parse_object */
  method ParseObject(h: CHeap, libc: Libc, json: bytes, start: nat, build: bool)
    returns (ok: bool, s: nat, out: Ptr, ghost sh: Shape)
    requires NulFree(json) && start <= |json| && h.mem.Sane()
    modifies h
    ensures var t := json[start..];
            var r := if First(t) == LBRACE then ScanObject(libc, t[1..]) else Fail;
            Parsed(r, json, start, old(h.mem), h.mem, build, ok, s, out, sh)
    decreases |json| - start, 0
  {
    hide Partial, ScanElems, ScanMembers, Built;
    ghost var m0 := h.mem;
    ghost var v := Obj([]);
    s := start;
    out, sh := NewContainer(h, JsonObject, build);
    ok := Peek(json, s) == LBRACE;
    if ok {
      assert json[s + 1..] == json[start..][1..];
      s := SkipSpaces(json, s + 1);
      if Peek(json, s) == RBRACE {
        s := s + 1;
      } else {
        ok, s, sh, v := ParseMembers(h, libc, json, s, build, out, m0, sh);
      }
    }
    PartialIs(build, m0, h.mem, out, sh, v);
    if !ok {
      Discard(h, out, m0, sh, v);
      s := start;
    }
  }

  lemma BuiltSane(m0: Mem, m1: Mem, p: Ptr, s: bytes)
    requires StringBuilt(m0, m1, p, s)
    ensures m1.Sane() && p in m1.blocks && p != NULL
  {
  }

  /** The key of a member, its colon and the blank space around it; without the colon the key is freed. */
  method ParseKey(h: CHeap, json: bytes, start: nat, build: bool) returns (ok: bool, s: nat, key: Ptr)
    requires NulFree(json) && start <= |json| && h.mem.Sane()
    modifies h
    ensures var k := ScanKey(json[start..]);
            && (ok <==> k.Good?) && start <= s <= |json| && (ok ==> json[s..] == k.rest)
            && (if build && ok then StringBuilt(old(h.mem), h.mem, key, k.content) else h.mem == old(h.mem))
    ensures h.mem.Sane()
  {
    hide ScanString, ScanKey, StringBuilt;
    ScanKeyStep(json[start..]);
    ok, s, key := ParseString(h, json, start, build);
    if ok {
      ghost var m1, content := h.mem, ScanString(json[start..]).content;
      if build { BuiltSane(old(h.mem), m1, key, content); }
      s := SkipSpaces(json, s);
      if Peek(json, s) != COLON {
        if build {
          FreedKey(old(h.mem), m1, key, content);
          h.Free(key);
        }
        return false, s, NULL;
      }
      s := SkipSpaces(json, s + 1);
    }
  }

  /** Freeing the only new block gives the memory before it back. */
  lemma FreedKey(m0: Mem, m1: Mem, key: Ptr, s: bytes)
    requires StringBuilt(m0, m1, key, s)
    ensures m1.(blocks := m1.blocks - {key}) == m0
  {
    assert m1.nodes - {key} == m1.nodes;
  }

  /** The loop of parse_object; the object holds the members parsed so far, also on failure. */
  method ParseMembers(h: CHeap, libc: Libc, json: bytes, start: nat, build: bool, ret: Ptr, ghost m0: Mem,
      ghost sh0: Shape)
    returns (ok: bool, s: nat, ghost sh: Shape, ghost v: Json)
    requires NulFree(json) && start <= |json| && h.mem.Sane() && Partial(build, m0, h.mem, ret, sh0, Obj([]))
    modifies h
    ensures var r := ScanMembers(libc, json[start..], []);
            && (ok <==> r.Ok?) && s <= |json| && (ok ==> json[s..] == r.rest && v == r.value)
    ensures Partial(build, m0, h.mem, ret, sh, v)
    decreases |json| - start, 3
  {
    hide Partial, ScanMembers, ScanValue, ScanKey;
    s, sh := start, sh0;
    ghost var acc := [];
    while true
      invariant start <= s <= |json| && h.mem.Sane()
      invariant ScanMembers(libc, json[start..], []) == ScanMembers(libc, json[s..], acc)
      invariant Partial(build, m0, h.mem, ret, sh, Obj(acc))
      decreases |json| - s
    {
      ghost var k := ScanKey(json[s..]);
      ScanMembersStep(libc, json[s..], acc);
      ok, s, sh := ParseMember(h, libc, json, s, build, ret, m0, sh, acc);
      if !ok {
        return false, s, sh, Obj(acc);
      }
      acc := acc + [Member(k.content, ScanValue(libc, k.rest).value)];
      if Peek(json, s) == RBRACE {
        return true, s + 1, sh, Obj(acc);
      }
      if Peek(json, s) != COMMA {
        return false, s, sh, Obj(acc);
      }
      s := SkipSpaces(json, s + 1);
    }
  }

  /** One member with the blank space behind it, appended to the object; a key without a value is freed. */
  method ParseMember(h: CHeap, libc: Libc, json: bytes, start: nat, build: bool, ret: Ptr,
                     ghost m0: Mem, ghost sh0: Shape, ghost acc: seq<Member>)
    returns (ok: bool, s: nat, ghost sh: Shape)
    requires NulFree(json) && start <= |json| && h.mem.Sane() && Partial(build, m0, h.mem, ret, sh0, Obj(acc))
    modifies h
    ensures var k := ScanKey(json[start..]);
            var r := if k.Good? then ScanValue(libc, k.rest) else Fail;
            && (ok <==> r.Ok?) && s <= |json| && (ok ==> json[s..] == SkipSpace(r.rest))
            && Partial(build, m0, h.mem, ret, sh, Obj(if ok then acc + [Member(k.content, r.value)] else acc))
    ensures h.mem.Sane()
    decreases |json| - start, 2
  {
    hide Addrs, AddrsOf, Linked;
    sh := sh0;
    ghost var m1 := h.mem;
    var key, value;
    ghost var csh;
    ok, s, key := ParseKey(h, json, start, build);
    if ok {
      ghost var k := ScanKey(json[start..]);
      ghost var mk := h.mem;
      ghost var r := ScanValue(libc, json[s..]);
      ok, s, value, csh := ParseValue(h, libc, json, s, build);
      if ok {
        s := SkipSpaces(json, s);
        if build {
          AppendParsedMember(h, ret, key, value, m0, m1, mk, sh, acc, Member(k.content, r.value), csh);
          sh := sh.(kids := sh.kids + [csh.(key := key)]);
        }
      } else if build {
        FreedKey(m1, mk, key, k.content);
        h.Free(key);
      }
    }
  }
}
