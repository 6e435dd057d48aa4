/** append_node, prepend_node and json_remove_from_parent refine operations on sequences of children. */
module ChildLists {
  import opened CStrings
  import opened Json
  import opened CMemory
  import opened Shapes

  /** Only the sibling links of the children's own nodes differ, and nothing below them. */
  ghost predicate RootsOnly(m: Mem, m': Mem, kids: seq<Shape>) {
    forall i :: 0 <= i < |kids| ==> RootOnly(m, m', kids[i])
  }

  ghost predicate RootOnly(m: Mem, m': Mem, sh: Shape) {
    && sh.p in m.nodes && sh.p in m'.nodes && Core(m'.nodes[sh.p]) == Core(m.nodes[sh.p])
    && Same(m, m', Addrs(sh) - {sh.p})
  }

  lemma KidsFrame(m: Mem, m': Mem, kids: seq<Shape>)
    requires AllLinked(m, kids) && RootsOnly(m, m', kids)
    ensures AllLinked(m', kids)
    ensures ElemsOf(m', kids) == ElemsOf(m, kids) && MembersOf(m', kids) == MembersOf(m, kids)
  {
    hide Addrs, AddrsOf;
    forall i | 0 <= i < |kids|
      ensures Linked(m', kids[i]) && ValueOf(m', kids[i]) == ValueOf(m, kids[i])
      ensures StringIn(m', kids[i].key) == StringIn(m, kids[i].key)
    {
      assert RootOnly(m, m', kids[i]);
      LinkedFrame(m, m', kids[i]);
    }
    SameKids(m, m', kids);
  }

  /** The container's own node keeps everything but head and tail. */
  ghost predicate EndsOnly(m: Mem, m': Mem, sh: Shape) {
    && sh.p in m.nodes && sh.p in m'.nodes
    && m'.nodes[sh.p] == m.nodes[sh.p].(head := m'.nodes[sh.p].head, tail := m'.nodes[sh.p].tail)
    && Same(m, m', Own(sh) - {sh.p})
  }

  lemma RebuiltNode(m: Mem, m': Mem, sh: Shape, kids: seq<Shape>)
    requires Linked(m, sh) && IsContainer(m.nodes[sh.p].tag) && EndsOnly(m, m', sh)
    ensures NodeOk(m', sh.(kids := kids))
  {
    hide Addrs, AddrsOf;
    assert NodeOk(m, sh);
  }

  /** A container with a new child list is a well-linked tree again. */
  lemma Rebuilt(m: Mem, m': Mem, sh: Shape, kids: seq<Shape>)
    requires NodeOk(m', sh.(kids := kids)) && IsContainer(m'.nodes[sh.p].tag)
    requires AllLinked(m', kids) && Separate(sh.(kids := kids)) && Chained(m', sh.(kids := kids))
    ensures Linked(m', sh.(kids := kids))
    ensures ValueOf(m', sh.(kids := kids)) ==
            if m'.nodes[sh.p].tag.JsonArray? then Arr(ElemsOf(m', kids)) else Obj(MembersOf(m', kids))
  {
    hide Addrs, AddrsOf;
    var sh' := sh.(kids := kids);
    assert sh'.kids == kids;
    assert Linked(m', sh');
  }

  /** Cells that are live before and after, and equal except at the addresses a. */
  ghost predicate OnlyNodes(m: Mem, m': Mem, a: set<Ptr>) {
    && m'.blocks == m.blocks && m'.nodes.Keys == m.nodes.Keys
    && forall q :: q in m.nodes && q !in a ==> m'.nodes[q] == m.nodes[q]
  }

  /** Every cell outside a is as it was. */
  ghost predicate OnlyAt(m: Mem, m': Mem, a: set<Ptr>) {
    && (forall q :: q !in a ==> (q in m.nodes <==> q in m'.nodes) && (q in m.blocks <==> q in m'.blocks))
    && (forall q :: q !in a && q in m.nodes && q in m'.nodes ==> m'.nodes[q] == m.nodes[q])
    && (forall q :: q !in a && q in m.blocks && q in m'.blocks ==> m'.blocks[q] == m.blocks[q])
  }

  lemma ElsewhereSame(m: Mem, m': Mem, a: set<Ptr>, b: set<Ptr>)
    requires OnlyAt(m, m', a) && a !! b
    ensures Same(m, m', b)
  {
  }

  /** With no cell below the roots touched, and the roots only in their links, every child keeps its subtree. */
  lemma RootsFrom(m: Mem, m': Mem, kids: seq<Shape>, a: set<Ptr>)
    requires AllLinked(m, kids) && OnlyAt(m, m', a)
    requires forall i, q :: 0 <= i < |kids| && q in Addrs(kids[i]) && q != kids[i].p ==> q !in a
    requires forall i :: 0 <= i < |kids| ==>
               kids[i].p in m.nodes && kids[i].p in m'.nodes && Core(m'.nodes[kids[i].p]) == Core(m.nodes[kids[i].p])
    ensures RootsOnly(m, m', kids)
  {
    forall i | 0 <= i < |kids| ensures RootOnly(m, m', kids[i]) {
    }
  }

  lemma AddrsOfSnoc(kids: seq<Shape>, c: Shape)
    ensures AddrsOf(kids + [c]) == AddrsOf(kids) + Addrs(c)
  {
    var all := kids + [c];
    forall q | q in AddrsOf(kids) + Addrs(c) ensures q in AddrsOf(all) {
      if q in Addrs(c) {
        assert all[|kids|] == c;
      } else {
        var i :| 0 <= i < |kids| && q in Addrs(kids[i]);
        assert all[i] == kids[i];
      }
    }
    forall q | q in AddrsOf(all) ensures q in AddrsOf(kids) + Addrs(c) {
      var i :| 0 <= i < |all| && q in Addrs(all[i]);
      if i < |kids| { assert all[i] == kids[i]; }
    }
  }

  lemma AddrsOfCons(c: Shape, kids: seq<Shape>)
    ensures AddrsOf([c] + kids) == Addrs(c) + AddrsOf(kids)
  {
    var all := [c] + kids;
    forall q | q in AddrsOf(kids) + Addrs(c) ensures q in AddrsOf(all) {
      if q in Addrs(c) {
        assert all[0] == c;
      } else {
        var i :| 0 <= i < |kids| && q in Addrs(kids[i]);
        assert all[i + 1] == kids[i];
      }
    }
    forall q | q in AddrsOf(all) ensures q in AddrsOf(kids) + Addrs(c) {
      var i :| 0 <= i < |all| && q in Addrs(all[i]);
      if i > 0 { assert all[i] == kids[i - 1]; }
    }
  }

  lemma ApartSnoc(kids: seq<Shape>, c: Shape)
    requires Apart(kids) && AddrsOf(kids) !! Addrs(c)
    ensures Apart(kids + [c])
  {
    hide Addrs, AddrsOf;
    var all := kids + [c];
    forall i, j | 0 <= i < j < |all| ensures Addrs(all[i]) !! Addrs(all[j]) {
      KidSubset(kids, i);
    }
  }

  lemma ApartCons(c: Shape, kids: seq<Shape>)
    requires Apart(kids) && Addrs(c) !! AddrsOf(kids)
    ensures Apart([c] + kids)
  {
    hide Addrs, AddrsOf;
    var all := [c] + kids;
    forall i, j | 0 <= i < j < |all| ensures Addrs(all[i]) !! Addrs(all[j]) {
      KidSubset(kids, j - 1);
      assert all[j] == kids[j - 1];
      if i > 0 {
        assert all[i] == kids[i - 1];
      }
    }
  }

  /** What append_node demands: two separate trees, the child without a key exactly if the parent is an array. */
  ghost predicate CanAdopt(m: Mem, psh: Shape, csh: Shape) {
    && Linked(m, psh) && Linked(m, csh) && Addrs(psh) !! Addrs(csh)
    && IsContainer(m.nodes[psh.p].tag)
    && (m.nodes[psh.p].tag.JsonArray? <==> csh.key == NULL)
  }

  // --------------------------------------------------------------------- append

  /** The memory after append_node's assignments. */
  function Appended(m: Mem, parent: Ptr, child: Ptr): Mem
    requires parent in m.nodes && child in m.nodes
    requires m.nodes[parent].tail != NULL ==> m.nodes[parent].tail in m.nodes
  {
    var tail := m.nodes[parent].tail;
    var m1 := m.PutNode(child, m.nodes[child].(parent := parent, prev := tail, next := NULL));
    var m2 := if tail != NULL then m1.PutNode(tail, m1.nodes[tail].(next := child))
              else m1.PutNode(parent, m1.nodes[parent].(head := child));
    m2.PutNode(parent, m2.nodes[parent].(tail := child))
  }

  lemma LastKid(m: Mem, psh: Shape)
    requires Linked(m, psh) && IsContainer(m.nodes[psh.p].tag)
    ensures m.nodes[psh.p].tail == PtrAt(psh.kids, |psh.kids| - 1)
    ensures psh.kids == [] ==> m.nodes[psh.p].tail == NULL
    ensures psh.kids != [] ==> m.nodes[psh.p].tail in m.nodes && m.nodes[psh.p].tail != NULL
    ensures m.nodes[psh.p].tail != NULL ==> psh.kids != []
  {
    hide Addrs, AddrsOf;
    if psh.kids != [] { assert Linked(m, psh.kids[|psh.kids| - 1]); }
  }

  lemma AppendedNodes(m: Mem, psh: Shape, csh: Shape)
    requires CanAdopt(m, psh, csh) && m.nodes[psh.p].tail == PtrAt(psh.kids, |psh.kids| - 1)
    requires m.nodes[psh.p].tail != NULL ==> m.nodes[psh.p].tail in m.nodes
    ensures var m' := Appended(m, psh.p, csh.p);
            var tail := m.nodes[psh.p].tail;
            && psh.p != csh.p && tail != psh.p && tail != csh.p
            && OnlyNodes(m, m', {psh.p, csh.p, tail}) && EndsOnly(m, m', psh)
            && m'.nodes[csh.p] == m.nodes[csh.p].(parent := psh.p, prev := tail, next := NULL)
            && (tail != NULL ==> m'.nodes[tail] == m.nodes[tail].(next := csh.p))
            && m'.nodes[psh.p].head == (if tail == NULL then csh.p else m.nodes[psh.p].head)
            && m'.nodes[psh.p].tail == csh.p
  {
    hide Addrs, AddrsOf;
    AddrsParts(psh);
    AddrsParts(csh);
    if psh.kids != [] { KidSubset(psh.kids, |psh.kids| - 1); }
  }

  lemma AppendedCells(m: Mem, psh: Shape, csh: Shape)
    requires CanAdopt(m, psh, csh)
    requires m.nodes[psh.p].tail != NULL ==> m.nodes[psh.p].tail in m.nodes
    ensures RootsOnly(m, Appended(m, psh.p, csh.p), psh.kids + [csh])
  {
    hide Linked, Addrs, AddrsOf;
    LinkedParts(m, psh);
    LinkedParts(m, csh);
    var m' := Appended(m, psh.p, csh.p);
    var all := psh.kids + [csh];
    var tail := m.nodes[psh.p].tail;
    LastKid(m, psh);
    AppendedNodes(m, psh, csh);
    forall i, q | 0 <= i < |all| && q in Addrs(all[i]) && q != all[i].p ensures q !in {psh.p, csh.p, tail} {
      AppendedInner(m, psh, csh, i, q);
    }
    forall i | 0 <= i < |psh.kids|
      ensures psh.kids[i].p in m.nodes && psh.kids[i].p != psh.p && psh.kids[i].p != csh.p
    {
      KidNode(m, psh.kids, i);
      OldRoots(psh, csh, i, i);
    }
    hide Separate, NodeOk, Chained, EndsOnly, Appended;
    RootsFrom(m, m', all, {psh.p, csh.p, tail});
  }

  /** append_node touches no cell below the roots of the children. */
  lemma AppendedInner(m: Mem, psh: Shape, csh: Shape, i: nat, q: Ptr)
    requires CanAdopt(m, psh, csh) && i <= |psh.kids|
    requires var c := (psh.kids + [csh])[i]; q in Addrs(c) && q != c.p
    ensures q !in {psh.p, csh.p, PtrAt(psh.kids, |psh.kids| - 1)}
  {
    hide Addrs, AddrsOf;
    var n := |psh.kids|;
    AddrsParts(psh);
    AddrsParts(csh);
    NoNull(m, csh);
    if n > 0 { KidSubset(psh.kids, n - 1); }
    if i < n {
      KidSubset(psh.kids, i);
      assert i < n - 1 ==> Addrs(psh.kids[i]) !! Addrs(psh.kids[n - 1]);
    }
  }

  /** The roots of the old children are neither the parent nor the new child, nor each other. */
  lemma OldRoots(psh: Shape, csh: Shape, i: nat, j: nat)
    requires Separate(psh) && Addrs(psh) !! Addrs(csh) && i < |psh.kids| && j < |psh.kids|
    ensures psh.kids[i].p != psh.p && psh.kids[i].p != csh.p && (i != j ==> psh.kids[i].p != psh.kids[j].p)
  {
    hide Addrs, AddrsOf;
    AddrsParts(psh);
    AddrsParts(csh);
    KidSubset(psh.kids, i);
    RootsDiffer(psh, i, j);
  }

  lemma AppendedOld(m: Mem, psh: Shape, csh: Shape, i: nat)
    requires CanAdopt(m, psh, csh) && i < |psh.kids|
    requires m.nodes[psh.p].tail != NULL ==> m.nodes[psh.p].tail in m.nodes
    ensures ChildAt(Appended(m, psh.p, csh.p), psh.(kids := psh.kids + [csh]), i)
  {
    hide Linked, Addrs, AddrsOf;
    var n, sh' := |psh.kids|, psh.(kids := psh.kids + [csh]);
    LinkedParts(m, psh);
    LinkedParts(m, csh);
    LastKid(m, psh);
    AppendedNodes(m, psh, csh);
    assert ChildAt(m, psh, i);
    OldRoots(psh, csh, i, n - 1);
    hide Appended, EndsOnly, Separate, NodeOk;
    assert PtrAt(sh'.kids, i - 1) == PtrAt(psh.kids, i - 1);
    assert i + 1 < n ==> PtrAt(sh'.kids, i + 1) == PtrAt(psh.kids, i + 1);
  }

  lemma AppendedChain(m: Mem, psh: Shape, csh: Shape)
    requires CanAdopt(m, psh, csh)
    requires m.nodes[psh.p].tail != NULL ==> m.nodes[psh.p].tail in m.nodes
    ensures Chained(Appended(m, psh.p, csh.p), psh.(kids := psh.kids + [csh]))
  {
    hide Linked, Addrs, AddrsOf;
    LinkedParts(m, psh);
    LinkedParts(m, csh);
    var m' := Appended(m, psh.p, csh.p);
    var sh' := psh.(kids := psh.kids + [csh]);
    LastKid(m, psh);
    AppendedNodes(m, psh, csh);
    hide Appended, EndsOnly, Separate, NodeOk;
    assert ChildAt(m', sh', |psh.kids|);
    hide ChildAt;
    forall i | 0 <= i < |psh.kids| ensures ChildAt(m', sh', i) {
      AppendedOld(m, psh, csh, i);
    }
  }

  lemma AppendedSeparate(psh: Shape, csh: Shape)
    requires Separate(psh) && Addrs(psh) !! Addrs(csh)
    ensures Separate(psh.(kids := psh.kids + [csh]))
    ensures Addrs(psh.(kids := psh.kids + [csh])) == Addrs(psh) + Addrs(csh)
  {
    hide Addrs, AddrsOf;
    AddrsParts(psh);
    AddrsParts(csh);
    AddrsParts(psh.(kids := psh.kids + [csh]));
    AddrsOfSnoc(psh.kids, csh);
    ApartSnoc(psh.kids, csh);
  }

  lemma AppendLinked(m: Mem, psh: Shape, csh: Shape)
    requires CanAdopt(m, psh, csh)
    requires m.nodes[psh.p].tail != NULL ==> m.nodes[psh.p].tail in m.nodes
    ensures var m' := Appended(m, psh.p, csh.p);
            var all := psh.kids + [csh];
            var sh' := psh.(kids := all);
            && Linked(m', sh') && AllLinked(m, all) && Addrs(sh') == Addrs(psh) + Addrs(csh)
            && OnlyNodes(m, m', {psh.p, csh.p, m.nodes[psh.p].tail}) && EndsOnly(m, m', psh)
            && ValueOf(m', sh') == if m.nodes[psh.p].tag.JsonArray? then Arr(ElemsOf(m, all)) else Obj(MembersOf(m,
                all))
  {
    hide Addrs, AddrsOf;
    var m' := Appended(m, psh.p, csh.p);
    var all := psh.kids + [csh];
    LastKid(m, psh);
    AppendedNodes(m, psh, csh);
    AppendedCells(m, psh, csh);
    KidsFrame(m, m', all);
    AppendedChain(m, psh, csh);
    AppendedSeparate(psh, csh);
    RebuiltNode(m, m', psh, all);
    Rebuilt(m, m', psh, all);
  }

  /** The value of a container with one more child. */
  function WithLast(v: Json, key: bytes, child: Json): Json {
    match v
    case Arr(es) => Arr(es + [child])
    case Obj(ms) => Obj(ms + [Member(key, child)])
    case _ => v
  }

  lemma ElemsSnoc(m: Mem, kids: seq<Shape>, c: Shape)
    ensures ElemsOf(m, kids + [c]) == ElemsOf(m, kids) + [ValueOf(m, c)]
    ensures MembersOf(m, kids + [c]) == MembersOf(m, kids) + [Member(StringIn(m, c.key), ValueOf(m, c))]
  {
    var all := kids + [c];
    assert all[|kids|] == c;
    assert forall i :: 0 <= i < |kids| ==> all[i] == kids[i];
  }

  /** append_node on two separate trees: the child sequence s becomes s + [c], nothing else changes. */
  lemma AppendRefines(m: Mem, psh: Shape, csh: Shape)
    requires CanAdopt(m, psh, csh)
    ensures m.nodes[psh.p].tail != NULL ==> m.nodes[psh.p].tail in m.nodes
    ensures var m' := Appended(m, psh.p, csh.p);
            var sh' := psh.(kids := psh.kids + [csh]);
            && Linked(m', sh') && Addrs(sh') == Addrs(psh) + Addrs(csh)
            && OnlyNodes(m, m', {psh.p, csh.p, m.nodes[psh.p].tail}) && EndsOnly(m, m', psh)
            && ValueOf(m', sh') == WithLast(ValueOf(m, psh), StringIn(m, csh.key), ValueOf(m, csh))
  {
    hide Addrs, AddrsOf;
    LastKid(m, psh);
    AppendLinked(m, psh, csh);
    AppendValue(m, psh, csh);
  }

  lemma AppendValue(m: Mem, psh: Shape, csh: Shape)
    requires psh.p in m.nodes && IsContainer(m.nodes[psh.p].tag)
    ensures WithLast(ValueOf(m, psh), StringIn(m, csh.key), ValueOf(m, csh)) ==
            if m.nodes[psh.p].tag.JsonArray? then Arr(ElemsOf(m, psh.kids + [csh]))
            else Obj(MembersOf(m, psh.kids + [csh]))
  {
    ElemsSnoc(m, psh.kids, csh);
  }

  // -------------------------------------------------------------------- prepend

  /** The memory after prepend_node's assignments. */
  function Prepended(m: Mem, parent: Ptr, child: Ptr): Mem
    requires parent in m.nodes && child in m.nodes
    requires m.nodes[parent].head != NULL ==> m.nodes[parent].head in m.nodes
  {
    var head := m.nodes[parent].head;
    var m1 := m.PutNode(child, m.nodes[child].(parent := parent, prev := NULL, next := head));
    var m2 := if head != NULL then m1.PutNode(head, m1.nodes[head].(prev := child))
              else m1.PutNode(parent, m1.nodes[parent].(tail := child));
    m2.PutNode(parent, m2.nodes[parent].(head := child))
  }

  lemma FirstKid(m: Mem, psh: Shape)
    requires Linked(m, psh) && IsContainer(m.nodes[psh.p].tag)
    ensures m.nodes[psh.p].head == PtrAt(psh.kids, 0)
    ensures psh.kids == [] ==> m.nodes[psh.p].head == NULL
    ensures psh.kids != [] ==> m.nodes[psh.p].head in m.nodes && m.nodes[psh.p].head != NULL
  {
    hide Addrs, AddrsOf;
    if psh.kids != [] { assert Linked(m, psh.kids[0]); }
  }

  lemma PrependedNodes(m: Mem, psh: Shape, csh: Shape)
    requires CanAdopt(m, psh, csh) && m.nodes[psh.p].head == PtrAt(psh.kids, 0)
    requires m.nodes[psh.p].head != NULL ==> m.nodes[psh.p].head in m.nodes
    ensures var m' := Prepended(m, psh.p, csh.p);
            var head := m.nodes[psh.p].head;
            && psh.p != csh.p && head != psh.p && head != csh.p
            && OnlyNodes(m, m', {psh.p, csh.p, head}) && EndsOnly(m, m', psh)
            && m'.nodes[csh.p] == m.nodes[csh.p].(parent := psh.p, prev := NULL, next := head)
            && (head != NULL ==> m'.nodes[head] == m.nodes[head].(prev := csh.p))
            && m'.nodes[psh.p].tail == (if head == NULL then csh.p else m.nodes[psh.p].tail)
            && m'.nodes[psh.p].head == csh.p
  {
    hide Addrs, AddrsOf;
    AddrsParts(psh);
    AddrsParts(csh);
    if psh.kids != [] { KidSubset(psh.kids, 0); }
  }

  /** prepend_node touches no cell below the roots of the children. */
  lemma PrependedInner(m: Mem, psh: Shape, csh: Shape, i: nat, q: Ptr)
    requires CanAdopt(m, psh, csh) && i <= |psh.kids|
    requires var c := ([csh] + psh.kids)[i]; q in Addrs(c) && q != c.p
    ensures q !in {psh.p, csh.p, PtrAt(psh.kids, 0)}
  {
    hide Addrs, AddrsOf;
    AddrsParts(psh);
    AddrsParts(csh);
    NoNull(m, csh);
    if psh.kids != [] { KidSubset(psh.kids, 0); }
    if i > 0 {
      KidSubset(psh.kids, i - 1);
      assert i > 1 ==> Addrs(psh.kids[0]) !! Addrs(psh.kids[i - 1]);
    }
  }

  lemma PrependedCells(m: Mem, psh: Shape, csh: Shape)
    requires CanAdopt(m, psh, csh)
    requires m.nodes[psh.p].head != NULL ==> m.nodes[psh.p].head in m.nodes
    ensures RootsOnly(m, Prepended(m, psh.p, csh.p), [csh] + psh.kids)
  {
    hide Linked, Addrs, AddrsOf;
    LinkedParts(m, psh);
    LinkedParts(m, csh);
    var m' := Prepended(m, psh.p, csh.p);
    var all := [csh] + psh.kids;
    var head := m.nodes[psh.p].head;
    FirstKid(m, psh);
    PrependedNodes(m, psh, csh);
    forall i, q | 0 <= i < |all| && q in Addrs(all[i]) && q != all[i].p ensures q !in {psh.p, csh.p, head} {
      PrependedInner(m, psh, csh, i, q);
    }
    forall i | 0 <= i < |psh.kids|
      ensures psh.kids[i].p in m.nodes && psh.kids[i].p != psh.p && psh.kids[i].p != csh.p
    {
      KidNode(m, psh.kids, i);
      OldRoots(psh, csh, i, i);
    }
    hide Separate, NodeOk, Chained, EndsOnly, Prepended;
    RootsFrom(m, m', all, {psh.p, csh.p, head});
  }

  lemma PrependedOld(m: Mem, psh: Shape, csh: Shape, i: nat)
    requires CanAdopt(m, psh, csh) && 1 <= i <= |psh.kids|
    requires m.nodes[psh.p].head != NULL ==> m.nodes[psh.p].head in m.nodes
    ensures ChildAt(Prepended(m, psh.p, csh.p), psh.(kids := [csh] + psh.kids), i)
  {
    hide Linked, Addrs, AddrsOf;
    var sh' := psh.(kids := [csh] + psh.kids);
    LinkedParts(m, psh);
    LinkedParts(m, csh);
    FirstKid(m, psh);
    PrependedNodes(m, psh, csh);
    assert ChildAt(m, psh, i - 1);
    OldRoots(psh, csh, i - 1, 0);
    hide Prepended, EndsOnly, Separate, NodeOk;
    assert i > 1 ==> PtrAt(sh'.kids, i - 1) == PtrAt(psh.kids, i - 2);
    assert PtrAt(sh'.kids, i + 1) == PtrAt(psh.kids, i);
  }

  lemma PrependedChain(m: Mem, psh: Shape, csh: Shape)
    requires CanAdopt(m, psh, csh)
    requires m.nodes[psh.p].head != NULL ==> m.nodes[psh.p].head in m.nodes
    ensures Chained(Prepended(m, psh.p, csh.p), psh.(kids := [csh] + psh.kids))
  {
    hide Linked, Addrs, AddrsOf;
    LinkedParts(m, psh);
    LinkedParts(m, csh);
    var m' := Prepended(m, psh.p, csh.p);
    var sh' := psh.(kids := [csh] + psh.kids);
    FirstKid(m, psh);
    PrependedNodes(m, psh, csh);
    hide Prepended, EndsOnly, Separate, NodeOk;
    assert PtrAt(sh'.kids, 1) == PtrAt(psh.kids, 0);
    assert ChildAt(m', sh', 0);
    assert PtrAt(sh'.kids, |psh.kids|) == if psh.kids == [] then csh.p else PtrAt(psh.kids, |psh.kids| - 1);
    hide ChildAt;
    forall i | 1 <= i <= |psh.kids| ensures ChildAt(m', sh', i) {
      PrependedOld(m, psh, csh, i);
    }
  }

  lemma PrependedSeparate(psh: Shape, csh: Shape)
    requires Separate(psh) && Addrs(psh) !! Addrs(csh)
    ensures Separate(psh.(kids := [csh] + psh.kids))
    ensures Addrs(psh.(kids := [csh] + psh.kids)) == Addrs(psh) + Addrs(csh)
  {
    hide Addrs, AddrsOf;
    AddrsParts(psh);
    AddrsParts(csh);
    AddrsParts(psh.(kids := [csh] + psh.kids));
    AddrsOfCons(csh, psh.kids);
    ApartCons(csh, psh.kids);
  }

  lemma PrependLinked(m: Mem, psh: Shape, csh: Shape)
    requires CanAdopt(m, psh, csh)
    requires m.nodes[psh.p].head != NULL ==> m.nodes[psh.p].head in m.nodes
    ensures var m' := Prepended(m, psh.p, csh.p);
            var all := [csh] + psh.kids;
            var sh' := psh.(kids := all);
            && Linked(m', sh') && AllLinked(m, all) && Addrs(sh') == Addrs(psh) + Addrs(csh)
            && OnlyNodes(m, m', {psh.p, csh.p, m.nodes[psh.p].head}) && EndsOnly(m, m', psh)
            && ValueOf(m', sh') == if m.nodes[psh.p].tag.JsonArray? then Arr(ElemsOf(m, all)) else Obj(MembersOf(m,
                all))
  {
    hide Addrs, AddrsOf;
    var m' := Prepended(m, psh.p, csh.p);
    var all := [csh] + psh.kids;
    FirstKid(m, psh);
    PrependedNodes(m, psh, csh);
    PrependedCells(m, psh, csh);
    KidsFrame(m, m', all);
    PrependedChain(m, psh, csh);
    PrependedSeparate(psh, csh);
    RebuiltNode(m, m', psh, all);
    Rebuilt(m, m', psh, all);
  }

  /** The value of a container with one more child in front. */
  function WithFirst(v: Json, key: bytes, child: Json): Json {
    match v
    case Arr(es) => Arr([child] + es)
    case Obj(ms) => Obj([Member(key, child)] + ms)
    case _ => v
  }

  lemma ElemsCons(m: Mem, kids: seq<Shape>, c: Shape)
    ensures ElemsOf(m, [c] + kids) == [ValueOf(m, c)] + ElemsOf(m, kids)
    ensures MembersOf(m, [c] + kids) == [Member(StringIn(m, c.key), ValueOf(m, c))] + MembersOf(m, kids)
  {
    hide ValueOf;
    var all := [c] + kids;
    assert forall i :: 0 < i <= |kids| ==> all[i] == kids[i - 1];
  }

  lemma PrependValue(m: Mem, psh: Shape, csh: Shape)
    requires psh.p in m.nodes && IsContainer(m.nodes[psh.p].tag)
    ensures WithFirst(ValueOf(m, psh), StringIn(m, csh.key), ValueOf(m, csh)) ==
            if m.nodes[psh.p].tag.JsonArray? then Arr(ElemsOf(m, [csh] + psh.kids))
            else Obj(MembersOf(m, [csh] + psh.kids))
  {
    ElemsCons(m, psh.kids, csh);
    hide ElemsOf, MembersOf;
  }

  /** prepend_node on two separate trees: the child sequence s becomes [c] + s, nothing else changes. */
  lemma PrependRefines(m: Mem, psh: Shape, csh: Shape)
    requires CanAdopt(m, psh, csh)
    ensures m.nodes[psh.p].head != NULL ==> m.nodes[psh.p].head in m.nodes
    ensures var m' := Prepended(m, psh.p, csh.p);
            var sh' := psh.(kids := [csh] + psh.kids);
            && Linked(m', sh') && Addrs(sh') == Addrs(psh) + Addrs(csh)
            && OnlyNodes(m, m', {psh.p, csh.p, m.nodes[psh.p].head}) && EndsOnly(m, m', psh)
            && ValueOf(m', sh') == WithFirst(ValueOf(m, psh), StringIn(m, csh.key), ValueOf(m, csh))
  {
    hide Addrs, AddrsOf;
    FirstKid(m, psh);
    PrependLinked(m, psh, csh);
    PrependValue(m, psh, csh);
  }

  // ------------------------------------------------------------------ both ends

  /** The pointers that append_node and prepend_node follow are live. */
  predicate Adoptable(m: Mem, parent: Ptr, child: Ptr) {
    && parent in m.nodes && child in m.nodes
    && (m.nodes[parent].tail != NULL ==> m.nodes[parent].tail in m.nodes)
    && (m.nodes[parent].head != NULL ==> m.nodes[parent].head in m.nodes)
  }

  /** append_node or prepend_node */
  function Added(m: Mem, parent: Ptr, child: Ptr, last: bool): Mem
    requires Adoptable(m, parent, child)
  {
    if last then Appended(m, parent, child) else Prepended(m, parent, child)
  }

  function WithKid(psh: Shape, csh: Shape, last: bool): Shape {
    psh.(kids := if last then psh.kids + [csh] else [csh] + psh.kids)
  }

  function WithChild(v: Json, key: bytes, child: Json, last: bool): Json {
    if last then WithLast(v, key, child) else WithFirst(v, key, child)
  }

  lemma CanAdoptIsAdoptable(m: Mem, psh: Shape, csh: Shape)
    requires CanAdopt(m, psh, csh)
    ensures Adoptable(m, psh.p, csh.p)
  {
    hide Addrs, AddrsOf;
    LastKid(m, psh);
    FirstKid(m, psh);
  }
}
