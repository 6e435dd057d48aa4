/** Trees under construction: what a successful parse call adds to the memory. */
module Building {
  import opened CStrings
  import opened Json
  import opened CMemory
  import opened Shapes
  import opened ChildLists

  /**
   * m1 is m0 plus exactly the cells of the tree sh, a root of its own that stands for v: nothing else is
   * allocated, freed or changed.
   */
  ghost predicate Built(m0: Mem, m1: Mem, p: Ptr, sh: Shape, v: Json) {
    && sh.p == p && p != NULL && sh.key == NULL && Linked(m1, sh) && ValueOf(m1, sh) == v
    && m1.nodes[p].parent == m1.nodes[p].prev == m1.nodes[p].next == NULL
    && Grown(m0, m1, Addrs(sh)) && m1.Sane()
  }

  /** m1 is m0 plus one block with the string s. */
  ghost predicate StringBuilt(m0: Mem, m1: Mem, p: Ptr, s: bytes) {
    && p != NULL && p !in m1.nodes && m1.HoldsString(p) && StringIn(m1, p) == s
    && Grown(m0, m1, {p}) && m1.Sane()
  }

  lemma SingleAddrs(p: Ptr, str: Ptr)
    ensures Addrs(Shape(p, NULL, str, [])) == if str == NULL then {p} else {p} + {str}
    ensures AddrsOf([]) == {}
  {
  }

  lemma NodeGrown(m0: Mem, p: Ptr, n: Node)
    requires m0.Sane() && p != NULL && p !in m0.Live()
    ensures Grown(m0, m0.PutNode(p, n), {p}) && m0.PutNode(p, n).Sane()
  {
    var m1 := m0.PutNode(p, n);
    assert m1.nodes - {p} == m0.nodes;
    assert m1.blocks - {p} == m0.blocks;
  }

  /** A fresh node without string and children. */
  lemma LeafBuilt(m0: Mem, p: Ptr, n: Node)
    requires m0.Sane() && p != NULL && p !in m0.Live()
    requires n.parent == n.prev == n.next == n.key == n.head == n.tail == NULL && !n.tag.JsonString?
    ensures var v := match n.tag case JsonBool => Bool(n.bool_) case JsonNumber => Num(n.number_)
                     case JsonArray => Arr([]) case JsonObject => Obj([]) case _ => Null;
            Built(m0, m0.PutNode(p, n), p, Shape(p, NULL, NULL, []), v)
  {
    SingleAddrs(p, NULL);
    NodeGrown(m0, p, n);
    hide Addrs, AddrsOf;
    var sh := Shape(p, NULL, NULL, []);
    assert NodeOk(m0.PutNode(p, n), sh);
  }

  /** A fresh string node around a fresh string. */
  lemma StringNodeBuilt(m0: Mem, m1: Mem, str: Ptr, s: bytes, p: Ptr, n: Node)
    requires StringBuilt(m0, m1, str, s) && p != NULL && p !in m1.Live()
    requires n.parent == n.prev == n.next == n.key == NULL && n.tag.JsonString? && n.string_ == str
    ensures Built(m0, m1.PutNode(p, n), p, Shape(p, NULL, str, []), Str(s))
  {
    SingleAddrs(p, str);
    NodeGrown(m1, p, n);
    hide Addrs, AddrsOf;
    var m2 := m1.PutNode(p, n);
    GrownTrans(m0, m1, m2, {str}, {p});
    assert {str} + {p} == {p} + {str};
    assert NodeOk(m2, Shape(p, NULL, str, []));
  }

  /** A built tree is untouched by further allocations. */
  lemma BuiltCarry(m0: Mem, m1: Mem, m2: Mem, p: Ptr, sh: Shape, v: Json, a: set<Ptr>)
    requires Built(m0, m1, p, sh, v) && Grown(m1, m2, a)
    ensures Linked(m2, sh) && ValueOf(m2, sh) == v && m2.nodes[p] == m1.nodes[p]
    ensures Addrs(sh) !! a && Grown(m0, m2, Addrs(sh) + a)
  {
    hide Addrs, AddrsOf;
    GrownTrans(m0, m1, m2, Addrs(sh), a);
    GrownSame(m1, m2, a, Addrs(sh));
    AddrsParts(sh);
    LinkedSame(m1, m2, sh);
  }

  lemma GrownSame(m1: Mem, m2: Mem, a: set<Ptr>, b: set<Ptr>)
    requires Grown(m1, m2, a) && b <= m1.Live()
    ensures Same(m1, m2, b)
  {
    assert m2.nodes - a == m1.nodes && m2.blocks - a == m1.blocks;
  }

  lemma GrownOver(m0: Mem, m2: Mem, m3: Mem, a: set<Ptr>, t: set<Ptr>)
    requires Grown(m0, m2, a) && OnlyNodes(m2, m3, t) && m2.Sane() && t - {NULL} <= a
    ensures Grown(m0, m3, a) && m3.Sane()
  {
    assert m3.Without(a) == m2.Without(a);
  }

  /** The array or object under construction after its next element is appended. */
  lemma BuiltAppended(m0: Mem, m2: Mem, m3: Mem, p: Ptr, sh: Shape, csh: Shape, v: Json, t: set<Ptr>)
    requires sh.p == p && sh.key == NULL && p in m2.nodes && m2.Sane()
    requires Grown(m0, m2, Addrs(sh) + Addrs(csh)) && OnlyNodes(m2, m3, t) && t - {NULL} <= Addrs(sh) + Addrs(csh)
    requires EndsOnly(m2, m3, sh) && m2.nodes[p].parent == m2.nodes[p].prev == m2.nodes[p].next == NULL
    requires var sh' := sh.(kids := sh.kids + [csh]);
             Linked(m3, sh') && ValueOf(m3, sh') == v && Addrs(sh') == Addrs(sh) + Addrs(csh)
    ensures Built(m0, m3, p, sh.(kids := sh.kids + [csh]), v)
  {
    hide Addrs, AddrsOf, Linked, ValueOf;
    GrownOver(m0, m2, m3, Addrs(sh) + Addrs(csh), t);
  }

  /** A finished tree can take the next one as its last child. */
  lemma BuiltCanAdopt(m0: Mem, m1: Mem, m2: Mem, p: Ptr, sh: Shape, v: Json, q: Ptr, csh: Shape, w: Json)
    requires Built(m0, m1, p, sh, v) && Built(m1, m2, q, csh, w) && m1.nodes[p].tag.JsonArray?
    ensures CanAdopt(m2, sh, csh) && ValueOf(m2, sh) == v && m2.nodes[p] == m1.nodes[p]
    ensures Grown(m0, m2, Addrs(sh) + Addrs(csh))
    ensures {p, q, m2.nodes[p].tail} - {NULL} <= Addrs(sh) + Addrs(csh)
  {
    hide Addrs, AddrsOf;
    BuiltCarry(m0, m1, m2, p, sh, v, Addrs(csh));
    TailInside(m2, sh);
    AddrsParts(csh);
  }

  lemma KeyedAddrs(sh: Shape, key: Ptr)
    requires sh.key == NULL && key != NULL
    ensures Addrs(sh.(key := key)) == Addrs(sh) + {key}
  {
    hide Addrs, AddrsOf;
    AddrsParts(sh);
    AddrsParts(sh.(key := key));
  }

  /** An object under construction, a key and a value parsed after it can be put together. */
  lemma BuiltCanTake(m0: Mem, m1: Mem, mk: Mem, m2: Mem, p: Ptr, sh: Shape, v: Json, key: Ptr, ks: bytes, q: Ptr,
      csh: Shape, w: Json)
    requires Built(m0, m1, p, sh, v) && StringBuilt(m1, mk, key, ks) && Built(mk, m2, q, csh, w)
    requires m1.nodes[p].tag.JsonObject?
    ensures Linked(m2, sh) && ValueOf(m2, sh) == v && m2.nodes[p] == m1.nodes[p]
    ensures key !in m2.nodes && m2.HoldsString(key) && StringIn(m2, key) == ks
    ensures key !in Addrs(sh) && key !in Addrs(csh)
    ensures Addrs(sh) !! Addrs(csh) && Grown(m0, m2, Addrs(sh) + (Addrs(csh) + {key}))
    ensures {p, q, m2.nodes[p].tail} - {NULL} <= Addrs(sh) + (Addrs(csh) + {key})
  {
    hide Addrs, AddrsOf;
    GrownTrans(m1, mk, m2, {key}, Addrs(csh));
    assert {key} + Addrs(csh) == Addrs(csh) + {key};
    BuiltCarry(m0, m1, m2, p, sh, v, Addrs(csh) + {key});
    GrownSame(mk, m2, Addrs(csh), {key});
    TailInside(m2, sh);
    AddrsParts(csh);
  }

  lemma TailInside(m: Mem, sh: Shape)
    requires Linked(m, sh) && IsContainer(m.nodes[sh.p].tag)
    ensures {sh.p, m.nodes[sh.p].tail} - {NULL} <= Addrs(sh)
  {
    hide Addrs, AddrsOf;
    AddrsParts(sh);
    if sh.kids != [] { KidSubset(sh.kids, |sh.kids| - 1); }
  }
}
