/**
 * Whole documents: a list operation on a container anywhere inside a tree leaves the whole tree well
 * linked, and edits its value at that place only.
 */
module Documents {
  import opened Json
  import opened CMemory
  import opened Shapes
  import opened ChildLists
  import opened Removal

  /** The child indices that lead from a root to a node below it. */
  type Path = seq<nat>

  predicate Leads(sh: Shape, path: Path)
    decreases |path|
  {
    path != [] ==> path[0] < |sh.kids| && Leads(sh.kids[path[0]], path[1..])
  }

  function Below(sh: Shape, path: Path): Shape
    requires Leads(sh, path)
    decreases |path|
  {
    if path == [] then sh else Below(sh.kids[path[0]], path[1..])
  }

  /** The tree with the subtree at the path replaced. */
  function Replaced(sh: Shape, path: Path, c: Shape): Shape
    requires Leads(sh, path)
    decreases |path|
  {
    if path == [] then c else
    sh.(kids := sh.kids[path[0] := Replaced(sh.kids[path[0]], path[1..], c)])
  }

  /** The value with the value at the path replaced; keys stay. */
  function Edited(v: Json, path: Path, w: Json): Json
    decreases |path|
  {
    if path == [] then w else
    var k := path[0];
    match v
    case Arr(es) => if k < |es| then Arr(es[k := Edited(es[k], path[1..], w)]) else v
    case Obj(ms) => if k < |ms| then Obj(ms[k := Member(ms[k].key, Edited(ms[k].value, path[1..], w))]) else v
    case _ => v
  }

  predicate SameLinks(m: Mem, m': Mem, p: Ptr) {
    && p in m.nodes && p in m'.nodes && m'.nodes[p].parent == m.nodes[p].parent
    && m'.nodes[p].prev == m.nodes[p].prev && m'.nodes[p].next == m.nodes[p].next
  }

  /**
   * From m to m' the subtree c became c', with the same root and key and the same links of the root to the
   * tree around it. Of the addresses u of that tree nothing outside c changed, and none moved into c'.
   */
  ghost predicate Swapped(m: Mem, m': Mem, c: Shape, c': Shape, u: set<Ptr>) {
    && c'.p == c.p && c'.key == c.key && SameLinks(m, m', c.p) && Linked(m', c')
    && StringIn(m', c.key) == StringIn(m, c.key)
    && Same(m, m', u - Addrs(c)) && Addrs(c') * u <= Addrs(c)
  }

  lemma SwappedPointers(kids: seq<Shape>, k: nat, c': Shape, i: int)
    requires k < |kids| && c'.p == kids[k].p
    ensures PtrAt(kids[k := c'], i) == PtrAt(kids, i)
  {
  }

  lemma SwappedAddrs(sh: Shape, k: nat, c': Shape, u: set<Ptr>)
    requires Separate(sh) && k < |sh.kids| && c'.p == sh.kids[k].p && c'.key == sh.kids[k].key
    requires Addrs(sh) <= u && Addrs(c') * u <= Addrs(sh.kids[k])
    ensures Separate(sh.(kids := sh.kids[k := c'])) && Addrs(sh.(kids := sh.kids[k := c'])) * u <= Addrs(sh)
  {
    hide Addrs, AddrsOf;
    var kids := sh.kids[k := c'];
    var sh' := sh.(kids := kids);
    AddrsParts(sh);
    AddrsParts(sh');
    KidSubset(sh.kids, k);
    forall q | q in AddrsOf(kids) ensures q in AddrsOf(sh.kids) || (q in Addrs(c') && q !in u) {
      KidOfAddr(kids, q);
      var i :| 0 <= i < |kids| && q in Addrs(kids[i]);
      if i != k { KidSubset(sh.kids, i); }
    }
    forall i, j | 0 <= i < j < |kids| ensures Addrs(kids[i]) !! Addrs(kids[j]) {
      KidSubset(sh.kids, i);
      KidSubset(sh.kids, j);
      assert Addrs(sh.kids[i]) !! Addrs(sh.kids[j]);
    }
  }

  lemma KidOfAddr(kids: seq<Shape>, q: Ptr)
    requires q in AddrsOf(kids)
    ensures exists i :: 0 <= i < |kids| && q in Addrs(kids[i])
  {
    hide Addrs;
  }

  /** A child beside the swapped one lies outside it and stays as it is. */
  lemma OtherKid(m: Mem, m': Mem, sh: Shape, k: nat, a: set<Ptr>, i: nat)
    requires Linked(m, sh) && k < |sh.kids| && i < |sh.kids| && i != k
    requires Same(m, m', a) && Addrs(sh) - Addrs(sh.kids[k]) <= a
    ensures Linked(m', sh.kids[i]) && ValueOf(m', sh.kids[i]) == ValueOf(m, sh.kids[i])
    ensures StringIn(m', sh.kids[i].key) == StringIn(m, sh.kids[i].key)
    ensures sh.kids[i].p in m.nodes && sh.kids[i].p in m'.nodes
    ensures m'.nodes[sh.kids[i].p] == m.nodes[sh.kids[i].p]
  {
    hide Addrs, AddrsOf, ValueOf, StringIn;
    AddrsParts(sh);
    KidSubset(sh.kids, i);
    KidsApart(sh.kids, i, k);
    KidNode(m, sh.kids, i);
    LinkedSame(m, m', sh.kids[i]);
  }

  /** The other children, and the root itself, lie outside the swapped child. */
  lemma SwappedOthers(m: Mem, m': Mem, sh: Shape, k: nat, c': Shape, u: set<Ptr>)
    requires Linked(m, sh) && k < |sh.kids| && Addrs(sh) <= u && Swapped(m, m', sh.kids[k], c', u)
    ensures sh.p in m'.nodes && m'.nodes[sh.p] == m.nodes[sh.p] && Same(m, m', Own(sh))
    ensures forall i :: 0 <= i < |sh.kids| && i != k ==>
              && Linked(m', sh.kids[i]) && ValueOf(m', sh.kids[i]) == ValueOf(m, sh.kids[i])
              && StringIn(m', sh.kids[i].key) == StringIn(m, sh.kids[i].key)
              && sh.kids[i].p in m.nodes && sh.kids[i].p in m'.nodes
              && m'.nodes[sh.kids[i].p] == m.nodes[sh.kids[i].p]
  {
    AddrsParts(sh);
    hide Addrs, AddrsOf, ValueOf, StringIn;
    KidSubset(sh.kids, k);
    forall i | 0 <= i < |sh.kids| && i != k
      ensures Linked(m', sh.kids[i]) && ValueOf(m', sh.kids[i]) == ValueOf(m, sh.kids[i])
      ensures StringIn(m', sh.kids[i].key) == StringIn(m, sh.kids[i].key)
      ensures sh.kids[i].p in m.nodes && sh.kids[i].p in m'.nodes
      ensures m'.nodes[sh.kids[i].p] == m.nodes[sh.kids[i].p]
    {
      OtherKid(m, m', sh, k, u - Addrs(sh.kids[k]), i);
    }
  }

  lemma SwappedChild(m: Mem, m': Mem, sh: Shape, k: nat, c': Shape, i: nat)
    requires sh.p in m.nodes && sh.p in m'.nodes && k < |sh.kids| && i < |sh.kids| && ChildAt(m, sh, i)
    requires m'.nodes[sh.p] == m.nodes[sh.p] && c'.p == sh.kids[k].p && c'.key == sh.kids[k].key
    requires SameLinks(m, m', sh.kids[i].p)
    ensures ChildAt(m', sh.(kids := sh.kids[k := c']), i)
  {
    SwappedPointers(sh.kids, k, c', i - 1);
    SwappedPointers(sh.kids, k, c', i + 1);
  }

  lemma SwappedLinked(m: Mem, m': Mem, sh: Shape, k: nat, c': Shape, u: set<Ptr>)
    requires Linked(m, sh) && k < |sh.kids| && Addrs(sh) <= u && Swapped(m, m', sh.kids[k], c', u)
    ensures Linked(m', sh.(kids := sh.kids[k := c']))
  {
    hide Addrs, AddrsOf, ValueOf;
    var sh' := sh.(kids := sh.kids[k := c']);
    SwappedOthers(m, m', sh, k, c', u);
    SwappedAddrs(sh, k, c', u);
    assert NodeOk(m, sh);
    assert NodeOk(m', sh');
    SwappedPointers(sh.kids, k, c', 0);
    SwappedPointers(sh.kids, k, c', |sh.kids| - 1);
    hide ChildAt, NodeOk, Separate, PtrAt, StringIn;
    forall i | 0 <= i < |sh'.kids| ensures ChildAt(m', sh', i) {
      SwappedChild(m, m', sh, k, c', i);
    }
  }

  lemma SwappedElems(m: Mem, m': Mem, kids: seq<Shape>, k: nat, c': Shape)
    requires k < |kids| && c'.key == kids[k].key && StringIn(m', c'.key) == StringIn(m, c'.key)
    requires forall i :: 0 <= i < |kids| && i != k ==>
               ValueOf(m', kids[i]) == ValueOf(m, kids[i]) && StringIn(m', kids[i].key) == StringIn(m, kids[i].key)
    ensures var new_ := kids[k := c'];
            && ElemsOf(m', new_) == ElemsOf(m, kids)[k := ValueOf(m', c')]
            && MembersOf(m', new_) == MembersOf(m, kids)[k := Member(StringIn(m, kids[k].key), ValueOf(m', c'))]
  {
    hide ValueOf, StringIn;
  }

  /** The value of a node that has children. */
  lemma ContainerValue(m: Mem, sh: Shape)
    requires sh.p in m.nodes
    ensures m.nodes[sh.p].tag.JsonArray? ==> ValueOf(m, sh) == Arr(ElemsOf(m, sh.kids))
    ensures m.nodes[sh.p].tag.JsonObject? ==> ValueOf(m, sh) == Obj(MembersOf(m, sh.kids))
    ensures !IsContainer(m.nodes[sh.p].tag) ==> !ValueOf(m, sh).Arr? && !ValueOf(m, sh).Obj?
  {
  }

  lemma SwappedValue(m: Mem, m': Mem, sh: Shape, k: nat, c': Shape, u: set<Ptr>)
    requires Linked(m, sh) && k < |sh.kids| && Addrs(sh) <= u && Swapped(m, m', sh.kids[k], c', u)
    ensures ValueOf(m', sh.(kids := sh.kids[k := c'])) ==
            match ValueOf(m, sh)
            case Arr(es) => Arr(es[k := ValueOf(m', c')])
            case Obj(ms) => Obj(ms[k := Member(ms[k].key, ValueOf(m', c'))])
            case v => v
  {
    hide Linked, Addrs, AddrsOf, ValueOf;
    LinkedParts(m, sh);
    SwappedOthers(m, m', sh, k, c', u);
    hide Separate, Chained;
    assert IsContainer(m.nodes[sh.p].tag);
    hide NodeOk;
    SwappedElems(m, m', sh.kids, k, c');
    ContainerValue(m, sh);
    ContainerValue(m', sh.(kids := sh.kids[k := c']));
  }

  /** A swap deep inside a tree is a swap of the whole tree, and edits its value at that place only. */
  lemma {:induction false} SwappedAt(m: Mem, m': Mem, sh: Shape, path: Path, c': Shape, u: set<Ptr>)
    requires Linked(m, sh) && Leads(sh, path) && Addrs(sh) <= u && Swapped(m, m', Below(sh, path), c', u)
    ensures Swapped(m, m', sh, Replaced(sh, path, c'), u)
    ensures ValueOf(m', Replaced(sh, path, c')) == Edited(ValueOf(m, sh), path, ValueOf(m', c'))
    decreases |path|
  {
    if path != [] {
      var k := path[0];
      var c, d := sh.kids[k], Replaced(sh.kids[k], path[1..], c');
      KidLinked(m, sh, k);
      hide Addrs, AddrsOf, Linked, Swapped;
      SwappedAt(m, m', c, path[1..], c', u);
      SwappedUp(m, m', sh, k, d, u);
      SwappedValue(m, m', sh, k, d, u);
      KidValue(m, sh, k);
    }
  }

  lemma KidLinked(m: Mem, sh: Shape, k: nat)
    requires Linked(m, sh) && k < |sh.kids|
    ensures Linked(m, sh.kids[k]) && Addrs(sh.kids[k]) <= Addrs(sh)
  {
    hide Addrs, AddrsOf;
    AddrsParts(sh);
    KidSubset(sh.kids, k);
  }

  lemma KidValue(m: Mem, sh: Shape, k: nat)
    requires Linked(m, sh) && k < |sh.kids|
    ensures match ValueOf(m, sh)
            case Arr(es) => k < |es| && es[k] == ValueOf(m, sh.kids[k])
            case Obj(ms) => k < |ms| && ms[k].value == ValueOf(m, sh.kids[k])
            case _ => false
  {
    hide Addrs, AddrsOf;
    assert NodeOk(m, sh);
  }

  lemma SwappedUp(m: Mem, m': Mem, sh: Shape, k: nat, c': Shape, u: set<Ptr>)
    requires Linked(m, sh) && k < |sh.kids| && Addrs(sh) <= u && Swapped(m, m', sh.kids[k], c', u)
    ensures Swapped(m, m', sh, sh.(kids := sh.kids[k := c']), u)
  {
    hide Addrs, AddrsOf, ValueOf;
    SwappedLinked(m, m', sh, k, c', u);
    SwappedOthers(m, m', sh, k, c', u);
    SwappedAddrs(sh, k, c', u);
    KidLinked(m, sh, k);
    assert NodeOk(m, sh);
    hide Linked, Separate, NodeOk;
  }

  lemma {:induction false} PathLinked(m: Mem, sh: Shape, path: Path)
    requires Linked(m, sh) && Leads(sh, path)
    ensures Linked(m, Below(sh, path)) && Addrs(Below(sh, path)) <= Addrs(sh)
    decreases |path|
  {
    if path != [] {
      KidLinked(m, sh, path[0]);
      hide Linked, Addrs, AddrsOf;
      PathLinked(m, sh.kids[path[0]], path[1..]);
    }
  }

  /** The addresses of a document in which a subtree was replaced. */
  lemma {:induction false} ReplacedAddrs(m: Mem, sh: Shape, path: Path, c': Shape)
    requires Linked(m, sh) && Leads(sh, path)
    ensures Addrs(Replaced(sh, path, c')) == Addrs(sh) - Addrs(Below(sh, path)) + Addrs(c')
    decreases |path|
  {
    if path != [] {
      var k := path[0];
      KidLinked(m, sh, k);
      PathLinked(m, sh.kids[k], path[1..]);
      ReplacedAddrs(m, sh.kids[k], path[1..], c');
      hide Linked;
      ReplacedKidAddrs(sh, k, Replaced(sh.kids[k], path[1..], c'));
      hide Addrs, AddrsOf;
    }
  }

  lemma ReplacedKidAddrs(sh: Shape, k: nat, c': Shape)
    requires Separate(sh) && k < |sh.kids|
    ensures Addrs(sh.(kids := sh.kids[k := c'])) == Addrs(sh) - Addrs(sh.kids[k]) + Addrs(c')
  {
    hide Addrs, AddrsOf;
    var kids := sh.kids[k := c'];
    AddrsParts(sh);
    AddrsParts(sh.(kids := kids));
    KidSubset(sh.kids, k);
    KidSubset(kids, k);
    forall q | q in AddrsOf(kids) ensures q in AddrsOf(sh.kids) - Addrs(sh.kids[k]) + Addrs(c') {
      KidOfAddr(kids, q);
      var i :| 0 <= i < |kids| && q in Addrs(kids[i]);
      if i != k { KidSubset(sh.kids, i); KidsApart(sh.kids, i, k); }
    }
    forall q | q in AddrsOf(sh.kids) && q !in Addrs(sh.kids[k]) ensures q in AddrsOf(kids) {
      KidOfAddr(sh.kids, q);
      var i :| 0 <= i < |sh.kids| && q in Addrs(sh.kids[i]);
      assert kids[i] == sh.kids[i];
      KidSubset(kids, i);
    }
  }

  // ------------------------------------------------------------ the operations

  /** What the tree around a node sees of an operation on its child list. */
  lemma ListEditSwaps(m: Mem, m': Mem, sh: Shape, sh': Shape, u: set<Ptr>)
    requires Linked(m, sh) && EndsOnly(m, m', sh) && Same(m, m', u - Addrs(sh)) && NULL !in u
    requires sh'.p == sh.p && sh'.key == sh.key && Linked(m', sh') && Addrs(sh') * u <= Addrs(sh)
    ensures Swapped(m, m', sh, sh', u)
  {
    hide Addrs, AddrsOf;
    assert NodeOk(m, sh);
  }

  /** The document doc became doc', with its root linked as before; only cells at the addresses a changed. */
  ghost predicate Edit(m: Mem, m': Mem, doc: Shape, doc': Shape, a: set<Ptr>) {
    doc'.p == doc.p && doc'.key == doc.key && SameLinks(m, m', doc.p) && Linked(m', doc') && OnlyAt(m, m', a)
  }

  /** An operation on the child list of the node at the path, seen from the whole document. */
  lemma EditAnywhere(m: Mem, m': Mem, doc: Shape, path: Path, sh': Shape, a: set<Ptr>)
    requires Linked(m, doc) && Leads(doc, path) && EndsOnly(m, m', Below(doc, path)) && OnlyAt(m, m', a)
    requires sh'.p == Below(doc, path).p && sh'.key == Below(doc, path).key && Linked(m', sh')
    requires Same(m, m', Addrs(doc) - Addrs(Below(doc, path))) && Addrs(sh') * Addrs(doc) <= Addrs(Below(doc, path))
    ensures Edit(m, m', doc, Replaced(doc, path, sh'), a)
    ensures ValueOf(m', Replaced(doc, path, sh')) == Edited(ValueOf(m, doc), path, ValueOf(m', sh'))
    ensures Addrs(Replaced(doc, path, sh')) == Addrs(doc) - Addrs(Below(doc, path)) + Addrs(sh')
  {
    hide Addrs, AddrsOf;
    NoNull(m, doc);
    PathLinked(m, doc, path);
    ListEditSwaps(m, m', Below(doc, path), sh', Addrs(doc));
    hide Linked, ValueOf;
    SwappedAt(m, m', doc, path, sh', Addrs(doc));
    ReplacedAddrs(m, doc, path, sh');
  }

  lemma OutsideSame(m: Mem, m': Mem, a: set<Ptr>, b: set<Ptr>)
    requires OnlyNodes(m, m', a) && a !! b
    ensures Same(m, m', b)
  {
  }

  lemma RootAddr(sh: Shape)
    ensures sh.p in Addrs(sh)
  {
    AddrsParts(sh);
  }

  /** The root of a child is an address of its parent's tree. */
  lemma ChildAddr(sh: Shape, i: int)
    ensures PtrAt(sh.kids, i) == NULL || PtrAt(sh.kids, i) in Addrs(sh)
  {
    hide Addrs, AddrsOf;
    AddrsParts(sh);
    if 0 <= i < |sh.kids| { KidSubset(sh.kids, i); }
  }

  /** Adding a child at an end of the list writes to no cell of the document outside the container. */
  lemma AddingStaysInside(m: Mem, m': Mem, doc: set<Ptr>, psh: Shape, csh: Shape, end: Ptr)
    requires m.Sane() && OnlyNodes(m, m', {psh.p, csh.p, end}) && Addrs(csh) !! doc && NULL !in doc
    requires (end == NULL || end in Addrs(psh)) && Addrs(psh) <= doc
    ensures Same(m, m', doc - Addrs(psh)) && OnlyAt(m, m', doc + Addrs(csh))
    ensures m'.Live() == m.Live() && m'.Sane()
  {
    hide Addrs, AddrsOf;
    RootAddr(psh);
    RootAddr(csh);
    OutsideSame(m, m', {psh.p, csh.p, end}, doc - Addrs(psh));
  }

  /**
   * append_node on a container anywhere in a document: the document stays well linked and its value changes
   * at that place only, where the new child comes last.
   */
  lemma AppendAnywhere(m: Mem, doc: Shape, path: Path, csh: Shape)
    requires Linked(m, doc) && m.Sane() && Leads(doc, path)
    requires CanAdopt(m, Below(doc, path), csh) && Addrs(csh) !! Addrs(doc)
    ensures var tail := m.nodes[Below(doc, path).p].tail; tail != NULL ==> tail in m.nodes
    ensures var psh := Below(doc, path);
            var m' := Appended(m, psh.p, csh.p);
            var doc' := Replaced(doc, path, psh.(kids := psh.kids + [csh]));
            var w := WithLast(ValueOf(m, psh), StringIn(m, csh.key), ValueOf(m, csh));
            && Edit(m, m', doc, doc', Addrs(doc) + Addrs(csh)) && ValueOf(m', doc') == Edited(ValueOf(m, doc), path, w)
            && Addrs(doc') == Addrs(doc) + Addrs(csh) && m'.Live() == m.Live() && m'.Sane()
  {
    var psh := Below(doc, path);
    hide Addrs, AddrsOf;
    LastKid(m, psh);
    ChildAddr(psh, |psh.kids| - 1);
    NoNull(m, doc);
    PathLinked(m, doc, path);
    AppendRefines(m, psh, csh);
    hide Linked, Appended, ValueOf;
    var m' := Appended(m, psh.p, csh.p);
    var psh' := psh.(kids := psh.kids + [csh]);
    AddingStaysInside(m, m', Addrs(doc), psh, csh, m.nodes[psh.p].tail);
    hide *;
    EditAnywhere(m, m', doc, path, psh', Addrs(doc) + Addrs(csh));
    AddedSet(Addrs(doc), Addrs(psh), Addrs(csh));
  }

  /** prepend_node on a container anywhere in a document: likewise, with the new child first. */
  lemma PrependAnywhere(m: Mem, doc: Shape, path: Path, csh: Shape)
    requires Linked(m, doc) && m.Sane() && Leads(doc, path)
    requires CanAdopt(m, Below(doc, path), csh) && Addrs(csh) !! Addrs(doc)
    ensures var head := m.nodes[Below(doc, path).p].head; head != NULL ==> head in m.nodes
    ensures var psh := Below(doc, path);
            var m' := Prepended(m, psh.p, csh.p);
            var doc' := Replaced(doc, path, psh.(kids := [csh] + psh.kids));
            var w := WithFirst(ValueOf(m, psh), StringIn(m, csh.key), ValueOf(m, csh));
            && Edit(m, m', doc, doc', Addrs(doc) + Addrs(csh)) && ValueOf(m', doc') == Edited(ValueOf(m, doc), path, w)
            && Addrs(doc') == Addrs(doc) + Addrs(csh) && m'.Live() == m.Live() && m'.Sane()
  {
    var psh := Below(doc, path);
    hide Addrs, AddrsOf;
    FirstKid(m, psh);
    ChildAddr(psh, 0);
    NoNull(m, doc);
    PathLinked(m, doc, path);
    PrependRefines(m, psh, csh);
    hide Linked, Prepended, ValueOf;
    var m' := Prepended(m, psh.p, csh.p);
    var psh' := psh.(kids := [csh] + psh.kids);
    AddingStaysInside(m, m', Addrs(doc), psh, csh, m.nodes[psh.p].head);
    hide *;
    EditAnywhere(m, m', doc, path, psh', Addrs(doc) + Addrs(csh));
    AddedSet(Addrs(doc), Addrs(psh), Addrs(csh));
  }

  /**
   * json_remove_from_parent on any node below the root of a document: the document loses exactly that node,
   * which becomes a tree of its own with the same value, without a key and apart from the document.
   */
  lemma RemoveAnywhere(m: Mem, doc: Shape, path: Path, k: nat)
    requires Linked(m, doc) && m.Sane() && Leads(doc, path) && k < |Below(doc, path).kids|
    ensures CanUnlink(m, Below(doc, path).kids[k].p)
    ensures var sh := Below(doc, path);
            var c := sh.kids[k].(key := NULL);
            var m' := Unlinked(m, sh.kids[k].p);
            var doc' := Replaced(doc, path, sh.(kids := Dropped(sh.kids, k)));
            && Edit(m, m', doc, doc', Addrs(doc))
            && ValueOf(m', doc') == Edited(ValueOf(m, doc), path, WithoutChild(ValueOf(m, sh), k))
            && Linked(m', c) && ValueOf(m', c) == ValueOf(m, sh.kids[k])
            && m'.nodes[c.p].parent == m'.nodes[c.p].prev == m'.nodes[c.p].next == NULL
            && Addrs(doc') == Addrs(doc) - Addrs(sh.kids[k]) && Addrs(c) == Addrs(sh.kids[k]) - {sh.kids[k].key}
            && m'.Live() == m.Live() - {sh.kids[k].key} && m'.Sane()
  {
    var sh := Below(doc, path);
    hide Addrs, AddrsOf;
    NoNull(m, doc);
    PathLinked(m, doc, path);
    ContainerHere(m, sh, k);
    UnlinkRefines(m, sh, k);
    UnlinkCells(m, sh, k);
    UnlinkChild(m, sh, k);
    UnlinkedLive(m, sh, k);
    var m' := Unlinked(m, sh.kids[k].p);
    var sh' := sh.(kids := Dropped(sh.kids, k));
    EndsOnlyAfterUnlink(m, m', sh, k);
    RemovedSeparate(sh, k);
    hide Linked, Unlinked, ValueOf, UnlinkedCells, EndsOnly;
    TouchedInside(sh, k);
    ElsewhereSame(m, m', Touched(sh, k), Addrs(doc) - Addrs(sh));
    OnlyAtWider(m, m', Touched(sh, k), Addrs(doc));
    hide *;
    EditAnywhere(m, m', doc, path, sh', Addrs(doc));
    RemovedSet(Addrs(doc), Addrs(sh), Addrs(sh.kids[k]));
  }

  /** Unlinking frees the key and nothing else. */
  lemma UnlinkedLive(m: Mem, sh: Shape, k: nat)
    requires Linked(m, sh) && IsContainer(m.nodes[sh.p].tag) && k < |sh.kids| && m.Sane()
    requires CanUnlink(m, sh.kids[k].p)
    ensures Unlinked(m, sh.kids[k].p).Live() == m.Live() - {sh.kids[k].key} && Unlinked(m, sh.kids[k].p).Sane()
    ensures OnlyAt(m, Unlinked(m, sh.kids[k].p), Touched(sh, k))
  {
    hide Addrs, AddrsOf;
    UnlinkCells(m, sh, k);
    KeyLive(m, sh, k);
    hide Linked;
  }

  lemma KeyLive(m: Mem, sh: Shape, k: nat)
    requires Linked(m, sh) && k < |sh.kids| && m.Sane()
    ensures sh.kids[k].key !in m.nodes
  {
    hide Addrs, AddrsOf;
    assert Linked(m, sh.kids[k]);
    assert NodeOk(m, sh.kids[k]);
  }

  lemma KeyInside(m: Mem, sh: Shape, k: nat)
    requires k < |sh.kids| && m.Sane()
    ensures sh.kids[k].key in Addrs(sh.kids[k]) || sh.kids[k].key !in m.Live()
  {
    AddrsParts(sh.kids[k]);
  }

  lemma FreedLive(m: Mem, m1: Mem, key: Ptr, freed: set<Ptr>)
    requires m1.Live() == m.Live() - {key} && (key in freed || key !in m.Live())
    ensures m1.Without(freed).Live() == m.Live() - freed
  {
    assert m1.Without(freed).Live() == m1.Live() - freed;
  }

  lemma OnlyAtWider(m: Mem, m': Mem, a: set<Ptr>, b: set<Ptr>)
    requires OnlyAt(m, m', a) && a <= b
    ensures OnlyAt(m, m', b)
  {
  }

  lemma AddedSet(d: set<Ptr>, p: set<Ptr>, c: set<Ptr>)
    requires p <= d
    ensures d - p + (p + c) == d + c
  {
  }

  lemma RemovedSet(d: set<Ptr>, s: set<Ptr>, c: set<Ptr>)
    requires c <= s <= d
    ensures d - s + (s - c) == d - c
  {
  }

  lemma OnlyAtFreed(m: Mem, m1: Mem, a: set<Ptr>, freed: set<Ptr>, b: set<Ptr>)
    requires OnlyAt(m, m1, a) && a <= b && freed <= b
    ensures OnlyAt(m, m1.Without(freed), b)
  {
  }

  lemma ContainerHere(m: Mem, sh: Shape, k: nat)
    requires Linked(m, sh) && k < |sh.kids|
    ensures IsContainer(m.nodes[sh.p].tag) && Separate(sh)
  {
    hide Addrs, AddrsOf;
    assert NodeOk(m, sh);
  }

  /**
   * json_delete on any node below the root of a document: the document loses exactly that node and stays
   * well linked, although the cells of the whole subtree are gone.
   */
  lemma DeleteAnywhere(m: Mem, doc: Shape, path: Path, k: nat)
    requires Linked(m, doc) && m.Sane() && Leads(doc, path) && k < |Below(doc, path).kids|
    ensures Deletable(m, Below(doc, path).kids[k])
    ensures var sh := Below(doc, path);
            var m' := Unlinked(m, sh.kids[k].p).Without(Addrs(sh.kids[k]));
            var doc' := Replaced(doc, path, sh.(kids := Dropped(sh.kids, k)));
            && Edit(m, m', doc, doc', Addrs(doc))
            && ValueOf(m', doc') == Edited(ValueOf(m, doc), path, WithoutChild(ValueOf(m, sh), k))
            && Addrs(doc') == Addrs(doc) - Addrs(sh.kids[k])
            && m'.Live() == m.Live() - Addrs(sh.kids[k]) && m'.Sane()
  {
    var sh := Below(doc, path);
    hide Addrs, AddrsOf;
    NoNull(m, doc);
    PathLinked(m, doc, path);
    ContainerHere(m, sh, k);
    DeleteChildRefines(m, sh, k);
    UnlinkCells(m, sh, k);
    var m1 := Unlinked(m, sh.kids[k].p);
    var m' := m1.Without(Addrs(sh.kids[k]));
    var sh' := sh.(kids := Dropped(sh.kids, k));
    EndsOnlyAfterUnlink(m, m1, sh, k);
    RemovedSeparate(sh, k);
    UnlinkedLive(m, sh, k);
    KeyInside(m, sh, k);
    EndsKept(m, m1, sh, k);
    hide Linked, Unlinked, ValueOf, UnlinkedCells, EndsOnly;
    TouchedInside(sh, k);
    WithoutSame(m, m', Addrs(sh), Addrs(sh'), Addrs(doc) - Addrs(sh));
    OnlyAtFreed(m, m1, Touched(sh, k), Addrs(sh.kids[k]), Addrs(doc));
    FreedLive(m, m1, sh.kids[k].key, Addrs(sh.kids[k]));
    hide *;
    EditAnywhere(m, m', doc, path, sh', Addrs(doc));
    RemovedSet(Addrs(doc), Addrs(sh), Addrs(sh.kids[k]));
  }

  /** Freeing a child's cells keeps the parent's own. */
  lemma EndsKept(m: Mem, m1: Mem, sh: Shape, k: nat)
    requires Separate(sh) && k < |sh.kids| && EndsOnly(m, m1, sh)
    ensures EndsOnly(m, m1.Without(Addrs(sh.kids[k])), sh)
  {
    hide Addrs, AddrsOf;
    KidSubset(sh.kids, k);
  }

  lemma WithoutSame(m: Mem, m': Mem, a: set<Ptr>, a': set<Ptr>, b: set<Ptr>)
    requires m'.Without(a') == m.Without(a) && a' <= a && a !! b
    ensures Same(m, m', b)
  {
    forall q | q in b && q in m.nodes ensures q in m'.nodes && m'.nodes[q] == m.nodes[q] {
      assert q in m.Without(a).nodes;
    }
    forall q | q in b && q in m.blocks ensures q in m'.blocks && m'.blocks[q] == m.blocks[q] {
      assert q in m.Without(a).blocks;
    }
  }
}
