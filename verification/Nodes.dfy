/** The operations that change trees of JsonNode structs: linking, removal and deletion. */
module Nodes {
  import opened CMemory
  import opened Shapes
  import opened ChildLists
  import opened Removal

  // --------------------------------------------------------------------- linking

  /** append_node */
  method AppendNode(h: CHeap, parent: Ptr, child: Ptr, ghost psh: Shape, ghost csh: Shape)
    requires psh.p == parent && csh.p == child && CanAdopt(h.mem, psh, csh)
    modifies h
    ensures Linked(h.mem, psh.(kids := psh.kids + [csh]))
    ensures Addrs(psh.(kids := psh.kids + [csh])) == Addrs(psh) + Addrs(csh)
    ensures ValueOf(h.mem, psh.(kids := psh.kids + [csh])) ==
            WithLast(old(ValueOf(h.mem, psh)), old(StringIn(h.mem, csh.key)), old(ValueOf(h.mem, csh)))
    ensures OnlyNodes(old(h.mem), h.mem, {parent, child, old(h.mem.nodes[parent].tail)})
    ensures EndsOnly(old(h.mem), h.mem, psh)
    ensures Adoptable(old(h.mem), parent, child) && h.mem == Added(old(h.mem), parent, child, true)
  {
    CanAdoptIsAdoptable(h.mem, psh, csh);
    assert Added(h.mem, parent, child, true) == Appended(h.mem, parent, child);
    AppendRefines(h.mem, psh, csh);
    hide *;
    var tail := h.At(parent).tail;
    h.Set(child, h.At(child).(parent := parent, prev := tail, next := NULL));
    if tail != NULL {
      h.Set(tail, h.At(tail).(next := child));
    } else {
      h.Set(parent, h.At(parent).(head := child));
    }
    h.Set(parent, h.At(parent).(tail := child));
  }

  /** The memory after `value->key = key`. */
  function Keyed(m: Mem, value: Ptr, key: Ptr): Mem
    requires value in m.nodes
  {
    m.PutNode(value, m.nodes[value].(key := key))
  }

  /** The memory between `value->key = key` and the call of append_node. */
  lemma KeySet(m: Mem, psh: Shape, csh: Shape, key: Ptr)
    requires Linked(m, psh) && Linked(m, csh) && Addrs(psh) !! Addrs(csh) && m.nodes[psh.p].tag.JsonObject?
    requires csh.key == NULL && key != NULL && m.HoldsString(key) && key !in m.nodes && key !in Addrs(csh) &&
        key !in Addrs(psh)
    ensures var m1 := m.PutNode(csh.p, m.nodes[csh.p].(key := key));
            && CanAdopt(m1, psh, csh.(key := key))
            && ValueOf(m1, psh) == ValueOf(m, psh) && ValueOf(m1, csh.(key := key)) == ValueOf(m, csh)
            && Addrs(csh.(key := key)) == Addrs(csh) + {key} && m1.nodes[psh.p] == m.nodes[psh.p]
  {
    hide Linked, ValueOf, Addrs, AddrsOf;
    LinkedParts(m, psh);
    LinkedParts(m, csh);
    var m1 := m.PutNode(csh.p, m.nodes[csh.p].(key := key));
    AddrsParts(psh);
    AddrsParts(csh);
    NoNull(m, csh);
    hide Separate, NodeOk, Chained, Own;
    LinkedSame(m, m1, psh);
    LinkedRekey(m, m1, csh, key);
  }

  /** append_member */
  method AppendMember(h: CHeap, object_: Ptr, key: Ptr, value: Ptr, ghost psh: Shape, ghost csh: Shape)
    requires psh.p == object_ && csh.p == value && csh.key == NULL
    requires Linked(h.mem, psh) && Linked(h.mem, csh) && Addrs(psh) !! Addrs(csh) &&
        h.mem.nodes[object_].tag.JsonObject?
    requires key != NULL && h.mem.HoldsString(key) && key !in h.mem.nodes && key !in Addrs(csh) && key !in Addrs(psh)
    modifies h
    ensures var sh' := psh.(kids := psh.kids + [csh.(key := key)]);
            && Linked(h.mem, sh') && Addrs(sh') == Addrs(psh) + (Addrs(csh) + {key})
            && ValueOf(h.mem, sh') == WithLast(old(ValueOf(h.mem, psh)), old(StringIn(h.mem, key)),
                old(ValueOf(h.mem, csh)))
    ensures OnlyNodes(old(h.mem), h.mem, {object_, value, old(h.mem.nodes[object_].tail)})
    ensures EndsOnly(old(h.mem), h.mem, psh)
    ensures var m1 := Keyed(old(h.mem), value, key);
            Adoptable(m1, object_, value) && h.mem == Added(m1, object_, value, true)
  {
    KeySet(h.mem, psh, csh, key);
    SetThenAppend(h.mem, psh, csh, key);
    hide *;
    h.Set(value, h.At(value).(key := key));
    AppendNode(h, object_, value, psh, csh.(key := key));
  }

  /** Setting the key first leaves the frame of append_node as it is. */
  lemma SetThenAppend(m: Mem, psh: Shape, csh: Shape, key: Ptr)
    requires Linked(m, psh) && Linked(m, csh) && Addrs(psh) !! Addrs(csh)
    ensures var m1 := m.PutNode(csh.p, m.nodes[csh.p].(key := key));
            forall m2: Mem, tail: Ptr {:trigger OnlyNodes(m1, m2, {psh.p, csh.p, tail})} ::
              OnlyNodes(m1, m2, {psh.p, csh.p, tail}) && EndsOnly(m1, m2, psh) ==>
              OnlyNodes(m, m2, {psh.p, csh.p, tail}) && EndsOnly(m, m2, psh)
  {
    hide Addrs, AddrsOf;
    AddrsParts(psh);
    AddrsParts(csh);
  }

  /** prepend_node */
  method PrependNode(h: CHeap, parent: Ptr, child: Ptr, ghost psh: Shape, ghost csh: Shape)
    requires psh.p == parent && csh.p == child && CanAdopt(h.mem, psh, csh)
    modifies h
    ensures Linked(h.mem, psh.(kids := [csh] + psh.kids))
    ensures Addrs(psh.(kids := [csh] + psh.kids)) == Addrs(psh) + Addrs(csh)
    ensures ValueOf(h.mem, psh.(kids := [csh] + psh.kids)) ==
            WithFirst(old(ValueOf(h.mem, psh)), old(StringIn(h.mem, csh.key)), old(ValueOf(h.mem, csh)))
    ensures OnlyNodes(old(h.mem), h.mem, {parent, child, old(h.mem.nodes[parent].head)})
    ensures EndsOnly(old(h.mem), h.mem, psh)
    ensures Adoptable(old(h.mem), parent, child) && h.mem == Added(old(h.mem), parent, child, false)
  {
    CanAdoptIsAdoptable(h.mem, psh, csh);
    assert Added(h.mem, parent, child, false) == Prepended(h.mem, parent, child);
    PrependRefines(h.mem, psh, csh);
    hide *;
    var head := h.At(parent).head;
    h.Set(child, h.At(child).(parent := parent, prev := NULL, next := head));
    if head != NULL {
      h.Set(head, h.At(head).(prev := child));
    } else {
      h.Set(parent, h.At(parent).(tail := child));
    }
    h.Set(parent, h.At(parent).(head := child));
  }

  /** json_remove_from_parent */
  method RemoveFromParent(h: CHeap, node: Ptr)
    requires CanUnlink(h.mem, node)
    modifies h
    ensures h.mem == Unlinked(old(h.mem), node)
  {
    var n := h.At(node);
    if n.parent != NULL {
      if n.prev != NULL {
        h.Set(n.prev, h.At(n.prev).(next := n.next));
      } else {
        h.Set(n.parent, h.At(n.parent).(head := n.next));
      }
      if n.next != NULL {
        h.Set(n.next, h.At(n.next).(prev := n.prev));
      } else {
        h.Set(n.parent, h.At(n.parent).(tail := n.prev));
      }
      h.Free(n.key);
      h.Set(node, h.At(node).(parent := NULL, prev := NULL, next := NULL, key := NULL));
    }
  }

  // --------------------------------------------------------------------- delete

  /** Freeing one node is removing its address. */
  lemma FreedNode(m: Mem, p: Ptr)
    requires m.Sane() && p in m.nodes
    ensures m.(nodes := m.nodes - {p}) == m.Without({p})
  {
    assert m.blocks - {p} == m.blocks;
  }

  lemma FreedBlock(m: Mem, p: Ptr)
    requires m.Sane() && p in m.blocks
    ensures m.(blocks := m.blocks - {p}) == m.Without({p}) && m.Without({p}).Sane()
  {
    assert m.nodes - {p} == m.nodes;
  }

  lemma ChildlessAddrs(m: Mem, sh: Shape)
    requires Linked(m, sh) && sh.key == NULL && sh.kids == []
    ensures Addrs(sh) == if m.nodes[sh.p].tag.JsonString? then {sh.p} + {sh.str} else {sh.p}
    ensures m.nodes[sh.p].tag.JsonString? ==> m.nodes[sh.p].string_ == sh.str && sh.str in m.blocks
  {
    assert NodeOk(m, sh);
    assert AddrsOf(sh.kids) == {};
  }

  /**
   * json_delete: frees exactly the addresses of the subtree, each while it is live and hence once, and
   * changes nothing but the links of the parent and the neighbours it is taken from.
   */
  method JsonDelete(h: CHeap, node: Ptr, ghost sh: Shape)
    requires node != NULL ==> sh.p == node && Deletable(h.mem, sh)
    modifies h
    ensures h.mem == if node == NULL then old(h.mem) else Unlinked(old(h.mem), node).Without(Addrs(sh))
    decreases sh.kids, 1
  {
    if node != NULL {
      DeleteRoot(h.mem, sh);
      RemoveFromParent(h, node);
      FreeTree(h, node, sh.(key := NULL));
    }
  }

  /** json_delete behind the call of json_remove_from_parent */
  method FreeTree(h: CHeap, node: Ptr, ghost sh: Shape)
    requires sh.p == node && sh.key == NULL && Linked(h.mem, sh) && h.mem.Sane()
    modifies h
    ensures h.mem == old(h.mem).Without(Addrs(sh))
    decreases sh.kids, 0, 1
  {
    hide Addrs, AddrsOf;
    var n := h.At(node);
    if IsContainer(n.tag) {
      FreeChildren(h, node, sh);
      ChildlessAddrs(h.mem, sh.(kids := []));
    } else {
      ChildlessAddrs(h.mem, sh);
      if n.tag.JsonString? {
        FreedBlock(h.mem, n.string_);
        h.Free(n.string_);
        WithoutWithout(old(h.mem), {sh.str}, {node});
        assert {sh.str} + {node} == {node} + {sh.str};
      }
    }
    FreedNode(h.mem, node);
    h.FreeNode(node);
  }

  /** The loop of json_delete: every child unlinks itself from the node, its next pointer is saved before. */
  method FreeChildren(h: CHeap, node: Ptr, ghost sh: Shape)
    requires sh.p == node && Linked(h.mem, sh) && IsContainer(h.mem.nodes[node].tag) && h.mem.Sane()
    modifies h
    ensures Linked(h.mem, sh.(kids := [])) && h.mem.Sane()
    ensures h.mem.nodes[node].tag == old(h.mem.nodes[node].tag)
    ensures h.mem.Without(Addrs(sh.(kids := []))) == old(h.mem).Without(Addrs(sh))
    decreases sh.kids, 0, 0
  {
    hide Addrs, AddrsOf;
    FirstKid(h.mem, sh);
    var child := h.At(node).head;
    ghost var k := 0;
    assert sh.kids[0..] == sh.kids;
    while child != NULL
      invariant k <= |sh.kids| && child == PtrAt(sh.kids, k)
      invariant Linked(h.mem, sh.(kids := sh.kids[k..])) && h.mem.Sane()
      invariant h.mem.nodes[node].tag == old(h.mem.nodes[node].tag)
      invariant h.mem.Without(Addrs(sh.(kids := sh.kids[k..]))) == old(h.mem).Without(Addrs(sh))
      decreases |sh.kids| - k
    {
      ghost var cur := sh.(kids := sh.kids[k..]);
      assert ChildAt(h.mem, cur, 0);
      DeleteChildRefines(h.mem, cur, 0);
      var next := h.At(child).next;
      JsonDelete(h, child, cur.kids[0]);
      assert Dropped(cur.kids, 0) == sh.kids[k + 1..];
      child := next;
      k := k + 1;
    }
    FirstKid(h.mem, sh.(kids := sh.kids[k..]));
    assert sh.kids[k..] == [];
  }
}
