/**
 * json_mk*, json_append_*, json_prepend_*, json_remove_from_parent and json_delete as calls on a forest: each
 * leaves the memory that the step of the same name describes.
 */
module TreeApi {
  import opened CStrings
  import opened Json
  import opened CMemory
  import opened Shapes
  import opened ChildLists
  import opened Removal
  import opened Nodes
  import opened Building
  import opened Documents
  import opened Forests

  // ------------------------------------------------------------------ new nodes

  /** json_mknull */
  method JsonMkNull(h: CHeap) returns (p: Ptr, ghost sh: Shape)
    requires h.mem.Sane()
    modifies h
    ensures Built(old(h.mem), h.mem, p, sh, Null)
  {
    p, sh := MakeLeaf(h, JsonNull);
  }

  /** json_mkbool */
  method JsonMkBool(h: CHeap, b: bool) returns (p: Ptr, ghost sh: Shape)
    requires h.mem.Sane()
    modifies h
    ensures Built(old(h.mem), h.mem, p, sh, Bool(b))
  {
    p := h.MakeNode(JsonBool);
    h.Set(p, h.At(p).(bool_ := b));
    sh := Leaf(p);
    LeafBuilt(old(h.mem), p, h.mem.nodes[p]);
    SetOver(old(h.mem), p, ZeroNode(JsonBool), h.mem.nodes[p]);
  }

  /** json_mknumber */
  method JsonMkNumber(h: CHeap, n: Double) returns (p: Ptr, ghost sh: Shape)
    requires h.mem.Sane()
    modifies h
    ensures Built(old(h.mem), h.mem, p, sh, Num(n))
  {
    p := h.MakeNode(JsonNumber);
    h.Set(p, h.At(p).(number_ := n));
    sh := Leaf(p);
    LeafBuilt(old(h.mem), p, h.mem.nodes[p]);
    SetOver(old(h.mem), p, ZeroNode(JsonNumber), h.mem.nodes[p]);
  }

  /** json_mkarray */
  method JsonMkArray(h: CHeap) returns (p: Ptr, ghost sh: Shape)
    requires h.mem.Sane()
    modifies h
    ensures Built(old(h.mem), h.mem, p, sh, Arr([]))
  {
    p, sh := MakeLeaf(h, JsonArray);
  }

  /** json_mkobject */
  method JsonMkObject(h: CHeap) returns (p: Ptr, ghost sh: Shape)
    requires h.mem.Sane()
    modifies h
    ensures Built(old(h.mem), h.mem, p, sh, Obj([]))
  {
    p, sh := MakeLeaf(h, JsonObject);
  }

  /** json_mkstring */
  method JsonMkString(h: CHeap, s: bytes) returns (p: Ptr, ghost sh: Shape)
    requires h.mem.Sane() && NulFree(s)
    modifies h
    ensures Built(old(h.mem), h.mem, p, sh, Str(s))
  {
    var str := JsonStrdup(h, s);
    ghost var m1 := h.mem;
    StrdupBuilt(old(h.mem), str, s);
    p := h.MakeNode(JsonString);
    h.Set(p, h.At(p).(string_ := str));
    sh := Shape(p, NULL, str, []);
    StringNodeBuilt(old(h.mem), m1, str, s, p, h.mem.nodes[p]);
    SetOver(m1, p, ZeroNode(JsonString), h.mem.nodes[p]);
  }

  ghost function Leaf(p: Ptr): Shape {
    Shape(p, NULL, NULL, [])
  }

  /** The value of a node as mknode zeroes it. */
  function ZeroValue(tag: Tag): Json {
    match tag
    case JsonBool => Bool(false)
    case JsonNumber => Num(0)
    case JsonArray => Arr([])
    case JsonObject => Obj([])
    case _ => Null
  }

  method MakeLeaf(h: CHeap, tag: Tag) returns (p: Ptr, ghost sh: Shape)
    requires h.mem.Sane() && !tag.JsonString?
    modifies h
    ensures Built(old(h.mem), h.mem, p, sh, ZeroValue(tag))
  {
    p := h.MakeNode(tag);
    sh := Leaf(p);
    LeafBuilt(old(h.mem), p, ZeroNode(tag));
  }

  lemma SetOver(m: Mem, p: Ptr, n: Node, n': Node)
    ensures m.PutNode(p, n).PutNode(p, n') == m.PutNode(p, n')
  {
  }

  /** json_strdup: a new block with the bytes and their terminator */
  method JsonStrdup(h: CHeap, str: bytes) returns (ret: Ptr)
    requires NulFree(str)
    modifies h
    ensures ret != NULL && ret !in old(h.mem.Live()) && h.mem == old(h.mem).PutBlock(ret, str + [0])
  {
    ret := h.Malloc(|str| + 1);
    var i := 0;
    while i < |str|   // strcpy
      invariant 0 <= i <= |str| && ret in h.mem.blocks && |h.mem.blocks[ret]| == |str| + 1
      invariant h.mem == old(h.mem).PutBlock(ret, h.mem.blocks[ret]) && h.mem.blocks[ret][..i] == str[..i]
    {
      h.Store(ret, i, str[i]);
      i := i + 1;
    }
    h.Store(ret, i, 0);
    assert h.mem.blocks[ret] == str + [0];
  }

  lemma StrdupBuilt(m: Mem, p: Ptr, s: bytes)
    requires m.Sane() && p != NULL && p !in m.Live() && NulFree(s)
    ensures StringBuilt(m, m.PutBlock(p, s + [0]), p, s)
  {
    var m1 := m.PutBlock(p, s + [0]);
    StrdupHolds(s);
    assert m1.nodes - {p} == m.nodes;
    assert m1.blocks - {p} == m.blocks;
  }

  // -------------------------------------------------------- append and prepend

  /** json_append_element */
  method JsonAppendElement(h: CHeap, array_: Ptr, element: Ptr, ghost f: Forest, ghost doc: Ptr, ghost path: Path)
    requires Tidy(f) && h.mem == f.m && Enabled(f, AddElement(doc, path, element, true))
    requires array_ == Below(f.trees[doc], path).p
    modifies h
    ensures h.mem == Step(f, AddElement(doc, path, element, true)).m
  {
    ElementCall(f, doc, path, element);
    hide Tidy, CanAdopt, Linked, Added;
    AppendNode(h, array_, element, Below(f.trees[doc], path), f.trees[element]);
  }

  /** json_prepend_element */
  method JsonPrependElement(h: CHeap, array_: Ptr, element: Ptr, ghost f: Forest, ghost doc: Ptr, ghost path: Path)
    requires Tidy(f) && h.mem == f.m && Enabled(f, AddElement(doc, path, element, false))
    requires array_ == Below(f.trees[doc], path).p
    modifies h
    ensures h.mem == Step(f, AddElement(doc, path, element, false)).m
  {
    ElementCall(f, doc, path, element);
    hide Tidy, CanAdopt, Linked, Added;
    PrependNode(h, array_, element, Below(f.trees[doc], path), f.trees[element]);
  }

  /** The assertions of the C functions hold: the element has no parent. */
  lemma ElementCall(f: Forest, doc: Ptr, path: Path, element: Ptr)
    requires Tidy(f) && Inside(f, doc, path) && element in f.trees && element != doc
    requires var p := Below(f.trees[doc], path).p; p in f.m.nodes && f.m.nodes[p].tag.JsonArray?
    ensures CanAdopt(f.m, Below(f.trees[doc], path), f.trees[element]) && f.trees[element].p == element
    ensures element in f.m.nodes && f.m.nodes[element].parent == NULL
    ensures Adoptable(f.m, Below(f.trees[doc], path).p, element)
  {
    hide Linked, Addrs, AddrsOf;
    ElementDefined(f, doc, path, element);
    TreeDefined(f, element);
    RootFacts(f, element);
  }

  /** json_append_member */
  method JsonAppendMember(h: CHeap, object_: Ptr, key: bytes, value: Ptr, ghost f: Forest, ghost doc: Ptr,
                          ghost path: Path)
    returns (ghost block: Ptr)
    requires Tidy(f) && h.mem == f.m && NulFree(key) && Takes(f, doc, path, value)
    requires object_ == Below(f.trees[doc], path).p
    modifies h
    ensures Enabled(f, AddMember(doc, path, value, true, block, key))
    ensures h.mem == Step(f, AddMember(doc, path, value, true, block, key)).m
  {
    var dup := JsonStrdup(h, key);
    block := dup;
    MemberStep(f, doc, path, value, true, dup, key);
    MemberCall(f, doc, path, value, dup, key);
    hide *;
    AppendMember(h, object_, dup, value, Below(f.trees[doc], path), f.trees[value]);
  }

  /** json_prepend_member */
  method JsonPrependMember(h: CHeap, object_: Ptr, key: bytes, value: Ptr, ghost f: Forest, ghost doc: Ptr,
                           ghost path: Path)
    returns (ghost block: Ptr)
    requires Tidy(f) && h.mem == f.m && NulFree(key) && Takes(f, doc, path, value)
    requires object_ == Below(f.trees[doc], path).p
    modifies h
    ensures Enabled(f, AddMember(doc, path, value, false, block, key))
    ensures h.mem == Step(f, AddMember(doc, path, value, false, block, key)).m
  {
    var dup := JsonStrdup(h, key);
    block := dup;
    MemberStep(f, doc, path, value, false, dup, key);
    hide *;
    h.Set(value, h.At(value).(key := dup));
    PrependNode(h, object_, value, Below(f.trees[doc], path), f.trees[value].(key := dup));
  }

  /** A loose tree and an object to put it into. */
  ghost predicate Takes(f: Forest, doc: Ptr, path: Path, value: Ptr) {
    && Inside(f, doc, path) && value in f.trees && value != doc
    && var p := Below(f.trees[doc], path).p; p in f.m.nodes && f.m.nodes[p].tag.JsonObject?
  }

  /** The step that the calls make, once the block for the key is there. */
  lemma MemberStep(f: Forest, doc: Ptr, path: Path, value: Ptr, last: bool, block: Ptr, key: bytes)
    requires Tidy(f) && Takes(f, doc, path, value) && block != NULL && block !in f.m.Live() && NulFree(key)
    ensures var psh := Below(f.trees[doc], path);
            && Enabled(f, AddMember(doc, path, value, last, block, key))
            && value in f.m.nodes && f.m.nodes[value].parent == NULL && f.trees[value].p == value
            && var m := WithKey(f.m, value, block, key);
            && CanAdopt(m, psh, f.trees[value].(key := block)) && Adoptable(m, psh.p, value)
            && m == Keyed(f.m.PutBlock(block, key + [0]), value, block)
            && Step(f, AddMember(doc, path, value, last, block, key)).m == Added(m, psh.p, value, last)
  {
    hide Tidy, Sound, Linked, Addrs, AddrsOf, RootOk, CanAdopt, Added, Values, StringIn;
    MemberDefined(f, doc, path, value, block, key);
    LooseRootOf(f, value);
  }

  lemma LooseRootOf(f: Forest, p: Ptr)
    requires Tidy(f) && p in f.trees
    ensures f.trees[p].p == p && f.trees[p].key == NULL && p in f.m.nodes && f.m.nodes[p].parent == NULL
  {
    hide Linked, Addrs, AddrsOf, Disjoint, Owned;
    RootFacts(f, p);
    LooseTree(f.m, p, f.trees[p]);
  }

  /** The new block changes nothing for the object and the value. */
  lemma MemberCall(f: Forest, doc: Ptr, path: Path, value: Ptr, block: Ptr, key: bytes)
    requires Tidy(f) && Takes(f, doc, path, value) && block != NULL && block !in f.m.Live() && NulFree(key)
    ensures var m := f.m.PutBlock(block, key + [0]);
            var psh := Below(f.trees[doc], path);
            var csh := f.trees[value];
            && csh.p == value && csh.key == NULL
            && Linked(m, psh) && Linked(m, csh) && Addrs(psh) !! Addrs(csh) && m.nodes[psh.p].tag.JsonObject?
            && m.HoldsString(block) && block !in m.nodes && block !in Addrs(csh) && block !in Addrs(psh)
  {
    hide Tidy, Sound, Linked, Addrs, AddrsOf, RootOk, Disjoint, Owned, OnlyAt;
    var m := f.m.PutBlock(block, key + [0]);
    var d := f.trees[doc];
    LooseRootOf(f, value);
    StrdupHolds(key);
    NewBlock(f.m, block, key + [0]);
    TreeBesideBlock(f, doc, m, block);
    TreeBesideBlock(f, value, m, block);
    TidyApart(f, doc, value);
    PathLinked(m, d, path);
    RootLive(m, Below(d, path));
  }

  lemma NewBlock(m: Mem, p: Ptr, b: bytes)
    ensures OnlyAt(m, m.PutBlock(p, b), {p})
  {
  }

  lemma TidyApart(f: Forest, p: Ptr, q: Ptr)
    requires Tidy(f) && p in f.trees && q in f.trees && p != q
    ensures Addrs(f.trees[p]) !! Addrs(f.trees[q])
  {
    hide Addrs, AddrsOf, Linked;
    RootFacts(f, p);
  }

  lemma TreeBesideBlock(f: Forest, p: Ptr, m: Mem, block: Ptr)
    requires Tidy(f) && p in f.trees && OnlyAt(f.m, m, {block}) && block !in f.m.Live()
    ensures Linked(m, f.trees[p]) && block !in Addrs(f.trees[p])
  {
    hide Addrs, AddrsOf, Linked, OnlyAt, Disjoint, Owned;
    RootFacts(f, p);
    AddrsLive(f.m, f.trees[p]);
    Kept(f.m, m, p, f.trees[p], {block});
  }

  lemma LooseTree(m: Mem, p: Ptr, t: Shape)
    requires RootOk(m, p, t)
    ensures t.p == p && p in m.nodes && Linked(m, t) && m.nodes[p].parent == NULL
  {
    hide Addrs, AddrsOf;
    RootLive(m, t);
  }

  // --------------------------------------------------------- remove and delete

  /** json_remove_from_parent on a node below the root of a tree */
  method JsonRemoveFromParent(h: CHeap, node: Ptr, ghost f: Forest, ghost doc: Ptr, ghost path: Path, ghost k: nat)
    requires Tidy(f) && h.mem == f.m && Enabled(f, Remove(doc, path, k, node))
    modifies h
    ensures h.mem == Step(f, Remove(doc, path, k, node)).m
  {
    hide Tidy, Unlinked, CanUnlink;
    NodeGone(f, doc, path, k, node);
    RemoveFromParent(h, node);
  }

  /** json_delete on a node below the root of a tree */
  method JsonDeleteNode(h: CHeap, node: Ptr, ghost f: Forest, ghost doc: Ptr, ghost path: Path, ghost k: nat)
    requires Tidy(f) && h.mem == f.m && Enabled(f, Delete(doc, path, k))
    requires node == Below(f.trees[doc], path).kids[k].p
    modifies h
    ensures h.mem == Step(f, Delete(doc, path, k)).m
  {
    ghost var gone := NodeDeletable(f, doc, path, k);
    NodeDeleted(f, doc, path, k, gone);
    hide *;
    JsonDelete(h, node, gone);
  }

  /** json_delete on the root of a tree */
  method JsonDeleteTree(h: CHeap, node: Ptr, ghost f: Forest)
    requires Tidy(f) && h.mem == f.m && Enabled(f, DeleteTree(node))
    modifies h
    ensures h.mem == Step(f, DeleteTree(node)).m
  {
    TreeDeletable(f, node);
    hide *;
    JsonDelete(h, node, f.trees[node]);
  }

  lemma NodeGone(f: Forest, doc: Ptr, path: Path, k: nat, node: Ptr)
    requires Tidy(f) && Enabled(f, Remove(doc, path, k, node))
    ensures CanUnlink(f.m, node) && Step(f, Remove(doc, path, k, node)).m == Unlinked(f.m, node)
  {
    hide Linked, Addrs, AddrsOf, RootOk, Disjoint, Owned, Unlinked, CanUnlink;
    NodeDefined(f, doc, path, k);
  }

  /** What json_delete does to the memory. */
  ghost predicate Deletes(m: Mem, c: Shape, m': Mem) {
    CanUnlink(m, c.p) && m' == Unlinked(m, c.p).Without(Addrs(c))
  }

  lemma NodeDeleted(f: Forest, doc: Ptr, path: Path, k: nat, c: Shape)
    requires Inside(f, doc, path) && k < |Below(f.trees[doc], path).kids| && c == Below(f.trees[doc], path).kids[k]
    requires Tidy(f) && Enabled(f, Delete(doc, path, k))
    ensures Deletes(f.m, c, Step(f, Delete(doc, path, k)).m)
  {
    hide Linked, Addrs, AddrsOf, RootOk, Disjoint, Owned, Unlinked, CanUnlink;
    NodeDefined(f, doc, path, k);
  }

  lemma NodeDeletable(f: Forest, doc: Ptr, path: Path, k: nat) returns (c: Shape)
    requires Tidy(f) && Inside(f, doc, path) && k < |Below(f.trees[doc], path).kids|
    ensures c == Below(f.trees[doc], path).kids[k] && Deletable(f.m, c) && c.p != NULL
  {
    hide Linked, Addrs, AddrsOf, Deletable;
    c := Below(f.trees[doc], path).kids[k];
    RootFacts(f, doc);
    DeleteAnywhere(f.m, f.trees[doc], path, k);
    PathLinked(f.m, f.trees[doc], path);
    KidLinked(f.m, Below(f.trees[doc], path), k);
    RootNotNull(f.m, c);
  }

  lemma TreeDeletable(f: Forest, p: Ptr)
    requires Tidy(f) && p in f.trees
    ensures Deletable(f.m, f.trees[p]) && f.trees[p].p == p && p != NULL
  {
    hide Linked, Addrs, AddrsOf;
    RootFacts(f, p);
    TreeDefined(f, p);
    RootNotNull(f.m, f.trees[p]);
  }

  lemma RootNotNull(m: Mem, t: Shape)
    requires Linked(m, t)
    ensures t.p != NULL
  {
    hide Addrs, AddrsOf;
  }
}
