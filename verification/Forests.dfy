/**
 * Any number of trees in one memory, and whole runs of the operations on them: in every reachable state all
 * trees are well linked, share no cell and own every live cell, and the run does to the memory what it does
 * to plain values.
 */
module Forests {
  import opened CStrings
  import opened Json
  import opened CMemory
  import opened Shapes
  import opened ChildLists
  import opened Removal
  import opened Nodes
  import opened Building
  import opened Documents

  /** The memory and the trees in it, by the address of their root. */
  datatype Forest = Forest(m: Mem, trees: map<Ptr, Shape>)

  /** A tree that hangs nowhere. */
  ghost predicate RootOk(m: Mem, p: Ptr, t: Shape) {
    t.p == p && Linked(m, t) && m.nodes[p].parent == m.nodes[p].prev == m.nodes[p].next == NULL
  }

  ghost predicate Disjoint(trees: map<Ptr, Shape>) {
    forall p, q :: p in trees && q in trees && p != q ==> Addrs(trees[p]) !! Addrs(trees[q])
  }

  /** Every live cell belongs to a tree: nothing is leaked. */
  ghost predicate Owned(m: Mem, trees: map<Ptr, Shape>) {
    forall a :: a in m.Live() ==> exists p :: p in trees && a in Addrs(trees[p])
  }

  ghost predicate Sound(f: Forest) {
    && f.m.Sane() && (forall p :: p in f.trees ==> RootOk(f.m, p, f.trees[p]))
    && Disjoint(f.trees) && Owned(f.m, f.trees)
  }

  /** Between two calls of the library no root has a key. */
  ghost predicate Tidy(f: Forest) {
    Sound(f) && forall p :: p in f.trees ==> f.trees[p].key == NULL
  }

  ghost function Values(f: Forest): map<Ptr, Json> {
    map p | p in f.trees :: ValueOf(f.m, f.trees[p])
  }

  // ---------------------------------------------------------------- operations

  /** The calls of the library that change trees. `last` chooses append or prepend. */
  datatype Op =
    | Build(m': Mem, root: Ptr, sh: Shape, v: Json)   // json_decode and json_mk*
    | AddElement(doc: Ptr, path: Path, child: Ptr, last: bool)
    | AddMember(doc: Ptr, path: Path, child: Ptr, last: bool, key: Ptr, name: bytes)   // key: json_strdup's block
    | Remove(doc: Ptr, path: Path, k: nat, node: Ptr)
    | Delete(doc: Ptr, path: Path, k: nat)
    | DeleteTree(doc: Ptr)

  /** A node of a tree, found by a path. */
  ghost predicate Inside(f: Forest, doc: Ptr, path: Path) {
    doc in f.trees && Leads(f.trees[doc], path)
  }

  /** What the operations demand of their callers. */
  ghost predicate Enabled(f: Forest, op: Op) {
    match op
    case Build(m', root, sh, v) => Built(f.m, m', root, sh, v)
    case AddElement(doc, path, child, _) =>
      && Inside(f, doc, path) && child in f.trees && child != doc
      && var p := Below(f.trees[doc], path).p; p in f.m.nodes && f.m.nodes[p].tag.JsonArray?
    case AddMember(doc, path, child, _, key, name) =>
      && Inside(f, doc, path) && child in f.trees && child != doc
      && key != NULL && key !in f.m.Live() && NulFree(name)
      && var p := Below(f.trees[doc], path).p; p in f.m.nodes && f.m.nodes[p].tag.JsonObject?
    case Remove(doc, path, k, node) =>
      Inside(f, doc, path) && k < |Below(f.trees[doc], path).kids| && node == Below(f.trees[doc], path).kids[k].p
    case Delete(doc, path, k) => Inside(f, doc, path) && k < |Below(f.trees[doc], path).kids|
    case DeleteTree(doc) => doc in f.trees
  }

  /** The memory after json_append_member's json_strdup and `value->key = key`. */
  function WithKey(m: Mem, child: Ptr, key: Ptr, name: bytes): Mem
    requires child in m.nodes
  {
    Keyed(m.PutBlock(key, name + [0]), child, key)
  }

  /** The operations as the library's functions leave the memory. */
  ghost function Step(f: Forest, op: Op): Forest
    requires Tidy(f) && Enabled(f, op)
  {
    hide Linked, Addrs, AddrsOf, RootOk, Disjoint, Owned;
    match op
    case Build(m', root, sh, v) => Forest(m', f.trees[root := sh])
    case AddElement(doc, path, child, last) => AfterAddElement(f, doc, path, child, last)
    case AddMember(doc, path, child, last, key, name) => AfterAddMember(f, doc, path, child, last, key, name)
    case Remove(doc, path, k, node) => AfterRemove(f, doc, path, k)
    case Delete(doc, path, k) => AfterDelete(f, doc, path, k)
    case DeleteTree(doc) => AfterDeleteTree(f, doc)
  }

  ghost function AfterAddElement(f: Forest, doc: Ptr, path: Path, child: Ptr, last: bool): Forest
    requires Tidy(f) && Enabled(f, AddElement(doc, path, child, last))
  {
    ElementDefined(f, doc, path, child);
    Adding(f, doc, path, child, last)
  }

  ghost function AfterAddMember(f: Forest, doc: Ptr, path: Path, child: Ptr, last: bool, key: Ptr, name: bytes): Forest
    requires Tidy(f) && Enabled(f, AddMember(doc, path, child, last, key, name))
  {
    MemberDefined(f, doc, path, child, key, name);
    Adding(KeyedForest(f, child, key, name), doc, path, child, last)
  }

  ghost function AfterRemove(f: Forest, doc: Ptr, path: Path, k: nat): Forest
    requires Sound(f) && Inside(f, doc, path) && k < |Below(f.trees[doc], path).kids|
  {
    NodeDefined(f, doc, path, k);
    var sh := Below(f.trees[doc], path);
    var c := sh.kids[k];
    Forest(Unlinked(f.m, c.p), Dropping(f, doc, path, k)[c.p := c.(key := NULL)])
  }

  ghost function AfterDelete(f: Forest, doc: Ptr, path: Path, k: nat): Forest
    requires Sound(f) && Inside(f, doc, path) && k < |Below(f.trees[doc], path).kids|
  {
    NodeDefined(f, doc, path, k);
    var c := Below(f.trees[doc], path).kids[k];
    Forest(Unlinked(f.m, c.p).Without(Addrs(c)), Dropping(f, doc, path, k))
  }

  ghost function AfterDeleteTree(f: Forest, doc: Ptr): Forest
    requires Sound(f) && doc in f.trees
  {
    TreeDefined(f, doc);
    Forest(Unlinked(f.m, doc).Without(Addrs(f.trees[doc])), f.trees - {doc})
  }

  /** The trees after the k-th child of a node is taken out. */
  ghost function Dropping(f: Forest, doc: Ptr, path: Path, k: nat): map<Ptr, Shape>
    requires Inside(f, doc, path) && k < |Below(f.trees[doc], path).kids|
  {
    var sh := Below(f.trees[doc], path);
    f.trees[doc := Replaced(f.trees[doc], path, sh.(kids := Dropped(sh.kids, k)))]
  }

  ghost function KeyedForest(f: Forest, child: Ptr, key: Ptr, name: bytes): Forest
    requires child in f.trees && child in f.m.nodes
  {
    Forest(WithKey(f.m, child, key, name), f.trees[child := f.trees[child].(key := key)])
  }

  ghost function Adding(g: Forest, doc: Ptr, path: Path, child: Ptr, last: bool): Forest
    requires Inside(g, doc, path) && child in g.trees && Adoptable(g.m, Below(g.trees[doc], path).p, child)
  {
    var psh := Below(g.trees[doc], path);
    Forest(Added(g.m, psh.p, child, last),
           (g.trees - {child})[doc := Replaced(g.trees[doc], path, WithKid(psh, g.trees[child], last))])
  }

  // ------------------------------------------------------ the same on plain values

  /** The value at the path. */
  function ValueAt(v: Json, path: Path): Json
    decreases |path|
  {
    if path == [] then v else
    match v
    case Arr(es) => if path[0] < |es| then ValueAt(es[path[0]], path[1..]) else Null
    case Obj(ms) => if path[0] < |ms| then ValueAt(ms[path[0]].value, path[1..]) else Null
    case _ => Null
  }

  function ChildValue(v: Json, k: nat): Json {
    match v
    case Arr(es) => if k < |es| then es[k] else Null
    case Obj(ms) => if k < |ms| then ms[k].value else Null
    case _ => Null
  }

  function Find(vs: map<Ptr, Json>, p: Ptr): Json {
    if p in vs then vs[p] else Null
  }

  /** What an operation does to the values, without pointers. */
  function SpecStep(vs: map<Ptr, Json>, op: Op): map<Ptr, Json> {
    match op
    case Build(_, root, _, v) => vs[root := v]
    case AddElement(doc, path, child, last) => SpecAdd(vs, doc, path, child, [], last)
    case AddMember(doc, path, child, last, _, name) => SpecAdd(vs, doc, path, child, name, last)
    case Remove(doc, path, k, node) =>
      SpecDrop(vs, doc, path, k)[node := ChildValue(ValueAt(Find(vs, doc), path), k)]
    case Delete(doc, path, k) => SpecDrop(vs, doc, path, k)
    case DeleteTree(doc) => vs - {doc}
  }

  function SpecAdd(vs: map<Ptr, Json>, doc: Ptr, path: Path, child: Ptr, name: bytes, last: bool): map<Ptr, Json> {
    var v := Find(vs, doc);
    (vs - {child})[doc := Edited(v, path, WithChild(ValueAt(v, path), name, Find(vs, child), last))]
  }

  function SpecDrop(vs: map<Ptr, Json>, doc: Ptr, path: Path, k: nat): map<Ptr, Json> {
    var v := Find(vs, doc);
    vs[doc := Edited(v, path, WithoutChild(ValueAt(v, path), k))]
  }

  // ----------------------------------------------------------- facts about one tree

  lemma {:induction false} ValueAtIs(m: Mem, sh: Shape, path: Path)
    requires Linked(m, sh) && Leads(sh, path)
    ensures ValueAt(ValueOf(m, sh), path) == ValueOf(m, Below(sh, path))
    decreases |path|
  {
    if path != [] {
      KidValue(m, sh, path[0]);
      KidLinked(m, sh, path[0]);
      ValueAtIs(m, sh.kids[path[0]], path[1..]);
    }
  }

  /** A tree beside the cells that changed. */
  lemma Kept(m: Mem, m': Mem, p: Ptr, t: Shape, a: set<Ptr>)
    requires RootOk(m, p, t) && OnlyAt(m, m', a) && Addrs(t) !! a
    ensures RootOk(m', p, t) && ValueOf(m', t) == ValueOf(m, t)
  {
    hide Addrs, AddrsOf;
    RootAddr(t);
    assert Linked(m, t);
    ElsewhereSame(m, m', a, Addrs(t));
    LinkedSame(m, m', t);
    RootLive(m, t);
  }

  lemma RootLive(m: Mem, t: Shape)
    requires Linked(m, t)
    ensures t.p in m.nodes
  {
  }

  // ---------------------------------------------------- the operations are defined

  lemma TreeDefined(f: Forest, p: Ptr)
    requires Sound(f) && p in f.trees
    ensures p in f.m.nodes && CanUnlink(f.m, p) && Linked(f.m, f.trees[p])
  {
    hide Addrs, AddrsOf;
    assert RootOk(f.m, p, f.trees[p]);
  }

  lemma NodeDefined(f: Forest, doc: Ptr, path: Path, k: nat)
    requires Sound(f) && Inside(f, doc, path) && k < |Below(f.trees[doc], path).kids|
    ensures CanUnlink(f.m, Below(f.trees[doc], path).kids[k].p)
  {
    TreeDefined(f, doc);
    RemoveAnywhere(f.m, f.trees[doc], path, k);
  }

  lemma ElementDefined(f: Forest, doc: Ptr, path: Path, child: Ptr)
    requires Tidy(f) && Inside(f, doc, path) && child in f.trees
    requires child != doc
    requires var p := Below(f.trees[doc], path).p; p in f.m.nodes && f.m.nodes[p].tag.JsonArray?
    ensures CanAdopt(f.m, Below(f.trees[doc], path), f.trees[child])
    ensures Adoptable(f.m, Below(f.trees[doc], path).p, child)
  {
    hide Addrs, AddrsOf, Linked;
    TreeDefined(f, doc);
    TreeDefined(f, child);
    PathLinked(f.m, f.trees[doc], path);
    assert Addrs(f.trees[doc]) !! Addrs(f.trees[child]);
    assert RootOk(f.m, child, f.trees[child]);
    CanAdoptIsAdoptable(f.m, Below(f.trees[doc], path), f.trees[child]);
  }

  lemma {:induction false} AddrsLive(m: Mem, t: Shape)
    requires Linked(m, t)
    ensures Addrs(t) <= m.Live()
    decreases t
  {
    assert NodeOk(m, t);
    forall i | 0 <= i < |t.kids| ensures Addrs(t.kids[i]) <= m.Live() {
      AddrsLive(m, t.kids[i]);
    }
  }

  lemma StrdupHolds(name: bytes)
    requires NulFree(name)
    ensures Terminated(name + [0]) && CStr(name + [0]) == name
  {
    assert (name + [0])[..|name|] == name;
    StrLenIs(name + [0], |name|);
  }

  lemma KeyedCells(m: Mem, p: Ptr, key: Ptr, name: bytes)
    requires m.Sane() && p in m.nodes && key != NULL && key !in m.Live() && NulFree(name)
    ensures var m2 := WithKey(m, p, key, name);
            && OnlyAt(m, m2, {p, key}) && m2.Sane() && m2.Live() == m.Live() + {key}
            && m2.HoldsString(key) && StringIn(m2, key) == name && m2.nodes.Keys == m.nodes.Keys
            && m2.nodes[p] == m.nodes[p].(key := key)
  {
    StrdupHolds(name);
  }

  /** The node gets its key; the block and the node are all that changes. */
  lemma KeyedTree(m: Mem, c: Shape, key: Ptr, name: bytes)
    requires m.Sane() && RootOk(m, c.p, c) && c.key == NULL && key != NULL && key !in m.Live() && NulFree(name)
    ensures c.p in m.nodes
    ensures var m2 := WithKey(m, c.p, key, name);
            && RootOk(m2, c.p, c.(key := key)) && ValueOf(m2, c.(key := key)) == ValueOf(m, c)
            && Addrs(c.(key := key)) == Addrs(c) + {key} && StringIn(m2, key) == name
            && OnlyAt(m, m2, {c.p, key}) && m2.Sane() && m2.Live() == m.Live() + {key}
  {
    hide WithKey, StringIn, ValueOf, Linked, Addrs, AddrsOf;
    LinkedParts(m, c);
    AddrsLive(m, c);
    NoNull(m, c);
    KeyedCells(m, c.p, key, name);
    hide NodeOk, Separate, Chained;
    var m2 := WithKey(m, c.p, key, name);
    ElsewhereSame(m, m2, {c.p, key}, Addrs(c) - {c.p, c.key});
    hide OnlyAt, Mem.Live;
    LinkedRekey(m, m2, c, key);
  }

  /** The state in json_append_member between setting the key and linking the node in. */
  lemma MemberDefined(f: Forest, doc: Ptr, path: Path, child: Ptr, key: Ptr, name: bytes)
    requires Tidy(f) && Inside(f, doc, path) && child in f.trees && child != doc
    requires key != NULL && key !in f.m.Live() && NulFree(name)
    requires var p := Below(f.trees[doc], path).p; p in f.m.nodes && f.m.nodes[p].tag.JsonObject?
    ensures child in f.m.nodes
    ensures var g := KeyedForest(f, child, key, name);
            && Sound(g) && g.trees.Keys == f.trees.Keys && Values(g) == Values(f) && Inside(g, doc, path)
            && CanAdopt(g.m, Below(g.trees[doc], path), g.trees[child])
            && Adoptable(g.m, Below(g.trees[doc], path).p, child) && StringIn(g.m, g.trees[child].key) == name
  {
    hide Sound, Addrs, AddrsOf, Linked, ValueOf, CanAdopt, StringIn, RootOk, OnlyAt, Disjoint, Owned, WithKey;
    RootFacts(f, child);
    RootLive(f.m, f.trees[child]);
    var c := f.trees[child];
    assert c.key == NULL && c.p == child;
    hide Tidy;
    KeyedTree(f.m, c, key, name);
    var g := KeyedForest(f, child, key, name);
    KeyElsewhere(f, child, key);
    KeyedOwned(f, g, child, key);
    assert RootOk(g.m, child, g.trees[child]);
    Reassembled(f, g, {child, key});
    SameValues(f, g);
    KeyedAdopts(f, g, doc, path, child);
  }

  lemma SameValues(f: Forest, g: Forest)
    requires g.trees.Keys == f.trees.Keys
    requires forall p :: p in f.trees ==> ValueOf(g.m, g.trees[p]) == ValueOf(f.m, f.trees[p])
    ensures Values(g) == Values(f)
  {
    hide ValueOf;
  }

  /** The new key's block and the child are cells of no other tree. */
  lemma KeyElsewhere(f: Forest, child: Ptr, key: Ptr)
    requires Sound(f) && child in f.trees && key !in f.m.Live()
    ensures forall p :: p in f.trees && p != child ==> Addrs(f.trees[p]) !! {child, key}
    ensures key !in Addrs(f.trees[child])
  {
    hide Addrs, AddrsOf;
    RootAddr(f.trees[child]);
    assert RootOk(f.m, child, f.trees[child]);
    forall p | p in f.trees ensures key !in Addrs(f.trees[p]) {
      assert RootOk(f.m, p, f.trees[p]);
      AddrsLive(f.m, f.trees[p]);
    }
    forall p | p in f.trees && p != child ensures child !in Addrs(f.trees[p]) {
      assert Addrs(f.trees[p]) !! Addrs(f.trees[child]);
    }
  }

  lemma KeyedDisjoint(trees: map<Ptr, Shape>, trees': map<Ptr, Shape>, child: Ptr, key: Ptr)
    requires Disjoint(trees) && child in trees
    requires trees'.Keys == trees.Keys && Addrs(trees'[child]) == Addrs(trees[child]) + {key}
    requires forall p :: p in trees && p != child ==> trees'[p] == trees[p] && key !in Addrs(trees[p])
    ensures Disjoint(trees')
  {
    hide Addrs, AddrsOf;
    forall p, q | p in trees' && q in trees' && p != q ensures Addrs(trees'[p]) !! Addrs(trees'[q]) {
      assert Addrs(trees[p]) !! Addrs(trees[q]);
    }
  }

  lemma KeyedOwned(f: Forest, g: Forest, child: Ptr, key: Ptr)
    requires Disjoint(f.trees) && Owned(f.m, f.trees) && child in f.trees && g.m.Live() == f.m.Live() + {key}
    requires g.trees.Keys == f.trees.Keys && Addrs(g.trees[child]) == Addrs(f.trees[child]) + {key}
    requires forall p :: p in f.trees && p != child ==> g.trees[p] == f.trees[p] && key !in Addrs(f.trees[p])
    ensures Disjoint(g.trees) && Owned(g.m, g.trees)
  {
    hide Addrs, AddrsOf;
    KeyedDisjoint(f.trees, g.trees, child, key);
    hide Disjoint;
    forall a | a in g.m.Live() ensures exists p :: p in g.trees && a in Addrs(g.trees[p]) {
      if a == key {
        assert a in Addrs(g.trees[child]);
      } else {
        var p :| p in f.trees && a in Addrs(f.trees[p]);
        assert a in Addrs(g.trees[p]);
      }
    }
  }

  lemma KeyedAdopts(f: Forest, g: Forest, doc: Ptr, path: Path, child: Ptr)
    requires Sound(f) && Sound(g) && Inside(f, doc, path) && child in g.trees && child != doc
    requires doc in g.trees && g.trees[doc] == f.trees[doc] && g.trees[child].key != NULL
    requires OnlyAt(f.m, g.m, {child, g.trees[child].key})
    requires var p := Below(f.trees[doc], path).p; p in f.m.nodes && f.m.nodes[p].tag.JsonObject?
    ensures CanAdopt(g.m, Below(g.trees[doc], path), g.trees[child])
    ensures Adoptable(g.m, Below(g.trees[doc], path).p, child)
  {
    hide Sound, Addrs, AddrsOf, Linked, RootOk, Disjoint, Owned;
    var d, c := g.trees[doc], g.trees[child];
    RootFacts(g, doc);
    RootFacts(g, child);
    PathLinked(g.m, d, path);
    RootAddr(Below(d, path));
    RootAddr(c);
    AddrsParts(c);
    OthersApart(g.trees, doc, child);
    RootLive(g.m, Below(d, path));
    CanAdoptIsAdoptable(g.m, Below(d, path), c);
  }

  // ------------------------------------------------------------- append and prepend

  lemma AddAnywhere(m: Mem, doc: Shape, path: Path, csh: Shape, last: bool)
    requires Linked(m, doc) && m.Sane() && Leads(doc, path)
    requires CanAdopt(m, Below(doc, path), csh) && Addrs(csh) !! Addrs(doc)
    ensures Adoptable(m, Below(doc, path).p, csh.p)
    ensures var psh := Below(doc, path);
            var m' := Added(m, psh.p, csh.p, last);
            var doc' := Replaced(doc, path, WithKid(psh, csh, last));
            var w := WithChild(ValueOf(m, psh), StringIn(m, csh.key), ValueOf(m, csh), last);
            && Edit(m, m', doc, doc', Addrs(doc) + Addrs(csh)) && ValueOf(m', doc') == Edited(ValueOf(m, doc), path, w)
            && Addrs(doc') == Addrs(doc) + Addrs(csh) && m'.Live() == m.Live() && m'.Sane()
  {
    CanAdoptIsAdoptable(m, Below(doc, path), csh);
    hide Linked, Addrs, AddrsOf, ValueOf, Edit;
    if last {
      AppendAnywhere(m, doc, path, csh);
    } else {
      PrependAnywhere(m, doc, path, csh);
    }
  }

  /** The changed tree and the trees beside it, after an operation that only changed cells at a. */
  lemma Reassembled(f: Forest, f': Forest, a: set<Ptr>)
    requires Sound(f) && f'.m.Sane() && OnlyAt(f.m, f'.m, a)
    requires forall p :: p in f'.trees ==>
               RootOk(f'.m, p, f'.trees[p]) || (p in f.trees && f'.trees[p] == f.trees[p] && Addrs(f.trees[p]) !! a)
    requires Disjoint(f'.trees) && Owned(f'.m, f'.trees)
    ensures Sound(f')
    ensures forall p :: p in f'.trees && p in f.trees && f'.trees[p] == f.trees[p] && Addrs(f.trees[p]) !! a ==>
              ValueOf(f'.m, f'.trees[p]) == ValueOf(f.m, f.trees[p])
  {
    hide Addrs, AddrsOf, OnlyAt, Linked, ValueOf;
    forall p | p in f'.trees && p in f.trees && f'.trees[p] == f.trees[p] && Addrs(f.trees[p]) !! a
      ensures RootOk(f'.m, p, f'.trees[p]) && ValueOf(f'.m, f'.trees[p]) == ValueOf(f.m, f.trees[p])
    {
      Kept(f.m, f'.m, p, f.trees[p], a);
    }
  }

  lemma OthersApart(trees: map<Ptr, Shape>, doc: Ptr, child: Ptr)
    requires Disjoint(trees) && doc in trees && child in trees
    ensures doc != child ==> Addrs(trees[doc]) !! Addrs(trees[child])
    ensures forall p :: p in trees && p != doc && p != child ==>
              Addrs(trees[p]) !! Addrs(trees[doc]) + Addrs(trees[child])
  {
    hide Addrs, AddrsOf;
  }

  lemma RootFacts(f: Forest, p: Ptr)
    requires Sound(f) && p in f.trees
    ensures RootOk(f.m, p, f.trees[p]) && f.trees[p].p == p && Linked(f.m, f.trees[p]) && f.m.Sane()
    ensures Disjoint(f.trees) && Owned(f.m, f.trees)
  {
  }

  /** A document edited in place is a root as before. */
  lemma EditedRoot(m: Mem, m': Mem, p: Ptr, d: Shape, d': Shape, a: set<Ptr>)
    requires RootOk(m, p, d) && Edit(m, m', d, d', a)
    ensures RootOk(m', p, d') && d'.key == d.key && OnlyAt(m, m', a)
  {
    hide Addrs, AddrsOf, Linked;
  }

  lemma AddKeeps(f: Forest, doc: Ptr, path: Path, child: Ptr, last: bool)
    requires Sound(f) && Inside(f, doc, path) && child in f.trees && child != doc
    requires CanAdopt(f.m, Below(f.trees[doc], path), f.trees[child])
    ensures Adoptable(f.m, Below(f.trees[doc], path).p, child)
    ensures var f' := Adding(f, doc, path, child, last);
            && Sound(f') && f'.trees.Keys == f.trees.Keys - {child} && f'.trees[doc].key == f.trees[doc].key
            && (forall p :: p in f'.trees && p != doc ==> f'.trees[p] == f.trees[p])
            && Values(f') == SpecAdd(Values(f), doc, path, child, StringIn(f.m, f.trees[child].key), last)
  {
    hide Sound, Addrs, AddrsOf, Linked, ValueOf, CanAdopt, Added, StringIn, RootOk, OnlyAt, Disjoint, Owned, Edit;
    hide Values, SpecAdd, ValueAt, Edited, WithChild;
    RootFacts(f, doc);
    RootFacts(f, child);
    var d, c := f.trees[doc], f.trees[child];
    OthersApart(f.trees, doc, child);
    AddAnywhere(f.m, d, path, c, last);
    ValueAtIs(f.m, d, path);
    var f' := Adding(f, doc, path, child, last);
    EditedRoot(f.m, f'.m, doc, d, f'.trees[doc], Addrs(d) + Addrs(c));
    AddOwned(f, f', doc, child);
    Reassembled(f, f', Addrs(d) + Addrs(c));
    AddedValues(f, f', doc, path, child, StringIn(f.m, c.key), last);
  }

  lemma AddedValues(f: Forest, f': Forest, doc: Ptr, path: Path, child: Ptr, name: bytes, last: bool)
    requires doc in f.trees && child in f.trees && doc != child && f'.trees.Keys == f.trees.Keys - {child}
    requires forall p :: p in f'.trees && p != doc ==> ValueOf(f'.m, f'.trees[p]) == ValueOf(f.m, f.trees[p])
    requires var v := ValueOf(f.m, f.trees[doc]);
             ValueOf(f'.m, f'.trees[doc]) ==
             Edited(v, path, WithChild(ValueAt(v, path), name, ValueOf(f.m, f.trees[child]), last))
    ensures Values(f') == SpecAdd(Values(f), doc, path, child, name, last)
  {
    hide ValueOf, ValueAt, Edited, WithChild;
  }

  lemma AddOwned(f: Forest, f': Forest, doc: Ptr, child: Ptr)
    requires Owned(f.m, f.trees) && f'.m.Live() == f.m.Live() && doc in f.trees && child in f.trees && doc != child
    requires f'.trees.Keys == f.trees.Keys - {child}
    requires Addrs(f'.trees[doc]) == Addrs(f.trees[doc]) + Addrs(f.trees[child])
    requires forall p :: p in f'.trees && p != doc ==> f'.trees[p] == f.trees[p]
    requires Disjoint(f.trees)
    ensures Owned(f'.m, f'.trees) && Disjoint(f'.trees)
  {
    hide Addrs, AddrsOf;
    forall p, q | p in f'.trees && q in f'.trees && p != q ensures Addrs(f'.trees[p]) !! Addrs(f'.trees[q]) {
      assert Addrs(f.trees[p]) !! Addrs(f.trees[q]);
      assert p == doc ==> Addrs(f.trees[child]) !! Addrs(f.trees[q]);
      assert q == doc ==> Addrs(f.trees[child]) !! Addrs(f.trees[p]);
    }
    forall a | a in f'.m.Live() ensures exists p :: p in f'.trees && a in Addrs(f'.trees[p]) {
      var p :| p in f.trees && a in Addrs(f.trees[p]);
      assert a in Addrs(f'.trees[if p == child then doc else p]);
    }
  }

  // -------------------------------------------------------------- remove and delete

  /** A node below the root of a tree is the root of no tree. */
  lemma ChildIsNoRoot(f: Forest, doc: Ptr, path: Path, k: nat)
    requires Sound(f) && Inside(f, doc, path) && k < |Below(f.trees[doc], path).kids|
    ensures Below(f.trees[doc], path).kids[k].p !in f.trees
  {
    hide Addrs, AddrsOf;
    var d := f.trees[doc];
    var sh := Below(d, path);
    RootFacts(f, doc);
    PathLinked(f.m, d, path);
    KidLinked(f.m, sh, k);
    var q := sh.kids[k].p;
    RootAddr(sh.kids[k]);
    NotTheRoot(f.m, d, path, k);
    if q in f.trees {
      RootFacts(f, q);
      RootAddr(f.trees[q]);
    }
  }

  lemma {:induction false} NotTheRoot(m: Mem, d: Shape, path: Path, k: nat)
    requires Linked(m, d) && Leads(d, path) && k < |Below(d, path).kids|
    ensures Below(d, path).kids[k].p != d.p
    decreases |path|
  {
    hide Addrs, AddrsOf;
    if path == [] {
      RootsDiffer(d, k, k);
    } else {
      KidLinked(m, d, path[0]);
      PathLinked(m, d.kids[path[0]], path[1..]);
      var sh := Below(d, path);
      KidLinked(m, sh, k);
      RootAddr(sh.kids[k]);
      KidSubset(d.kids, path[0]);
      AddrsParts(d);
    }
  }

  lemma RemoveKeeps(f: Forest, doc: Ptr, path: Path, k: nat)
    requires Sound(f) && Inside(f, doc, path) && k < |Below(f.trees[doc], path).kids|
    ensures var f' := AfterRemove(f, doc, path, k);
            var c := Below(f.trees[doc], path).kids[k];
            && Sound(f') && f'.trees.Keys == f.trees.Keys + {c.p} && c.p !in f.trees
            && f'.trees[doc].key == f.trees[doc].key && f'.trees[c.p].key == NULL
            && (forall p :: p in f.trees && p != doc ==> f'.trees[p] == f.trees[p])
            && Values(f') ==
               SpecDrop(Values(f), doc, path, k)[c.p := ChildValue(ValueAt(Find(Values(f), doc), path), k)]
  {
    hide Sound, Addrs, AddrsOf, Linked, ValueOf, StringIn, RootOk, OnlyAt, Disjoint, Owned, Edit, Unlinked;
    var d := f.trees[doc];
    var sh := Below(d, path);
    RootFacts(f, doc);
    ChildIsNoRoot(f, doc, path, k);
    RemoveAnywhere(f.m, d, path, k);
    PathLinked(f.m, d, path);
    KidLinked(f.m, sh, k);
    ValueAtIs(f.m, d, path);
    KidValue(f.m, sh, k);
    var f' := AfterRemove(f, doc, path, k);
    var c := sh.kids[k];
    EditedRoot(f.m, f'.m, doc, d, f'.trees[doc], Addrs(d));
    LooseRoot(f'.m, c.(key := NULL));
    RemovedOwned(f, f', doc, c, c.(key := NULL));
    DocApart(f.trees, doc);
    Reassembled(f, f', Addrs(d));
    RemovedValues(f, f', doc, path, k, c.p);
  }

  lemma LooseRoot(m: Mem, c: Shape)
    requires Linked(m, c) && m.nodes[c.p].parent == m.nodes[c.p].prev == m.nodes[c.p].next == NULL
    ensures RootOk(m, c.p, c)
  {
    hide Linked;
  }

  lemma DocApart(trees: map<Ptr, Shape>, doc: Ptr)
    requires Disjoint(trees) && doc in trees
    ensures forall p :: p in trees && p != doc ==> Addrs(trees[p]) !! Addrs(trees[doc])
  {
    hide Addrs, AddrsOf;
  }

  lemma RemovedOwned(f: Forest, f': Forest, doc: Ptr, old_: Shape, c: Shape)
    requires Disjoint(f.trees) && Owned(f.m, f.trees) && doc in f.trees && c.p !in f.trees
    requires f'.trees.Keys == f.trees.Keys + {c.p} && f'.trees[c.p] == c
    requires forall p :: p in f.trees && p != doc ==> f'.trees[p] == f.trees[p]
    requires Addrs(old_) <= Addrs(f.trees[doc]) && Addrs(f'.trees[doc]) == Addrs(f.trees[doc]) - Addrs(old_)
    requires Addrs(c) == Addrs(old_) - {old_.key} && f'.m.Live() == f.m.Live() - {old_.key}
    ensures Disjoint(f'.trees) && Owned(f'.m, f'.trees)
  {
    hide Addrs, AddrsOf;
    forall p, q | p in f'.trees && q in f'.trees && p != q ensures Addrs(f'.trees[p]) !! Addrs(f'.trees[q]) {
      var p0, q0 := if p == c.p then doc else p, if q == c.p then doc else q;
      assert p0 != q0 ==> Addrs(f.trees[p0]) !! Addrs(f.trees[q0]);
    }
    forall a | a in f'.m.Live() ensures exists p :: p in f'.trees && a in Addrs(f'.trees[p]) {
      var p :| p in f.trees && a in Addrs(f.trees[p]);
      assert a in Addrs(f'.trees[if p == doc && a in Addrs(old_) then c.p else p]);
    }
  }

  lemma RemovedValues(f: Forest, f': Forest, doc: Ptr, path: Path, k: nat, node: Ptr)
    requires doc in f.trees && node !in f.trees && f'.trees.Keys == f.trees.Keys + {node}
    requires forall p :: p in f.trees && p != doc ==> ValueOf(f'.m, f'.trees[p]) == ValueOf(f.m, f.trees[p])
    requires var v := ValueOf(f.m, f.trees[doc]);
             && ValueOf(f'.m, f'.trees[doc]) == Edited(v, path, WithoutChild(ValueAt(v, path), k))
             && ValueOf(f'.m, f'.trees[node]) == ChildValue(ValueAt(v, path), k)
    ensures Values(f') == SpecDrop(Values(f), doc, path, k)[node := ChildValue(ValueAt(Find(Values(f), doc), path), k)]
  {
    hide ValueOf, ValueAt, Edited, WithoutChild, ChildValue;
  }

  lemma DeleteKeeps(f: Forest, doc: Ptr, path: Path, k: nat)
    requires Sound(f) && Inside(f, doc, path) && k < |Below(f.trees[doc], path).kids|
    ensures var f' := AfterDelete(f, doc, path, k);
            && Sound(f') && f'.trees.Keys == f.trees.Keys && f'.trees[doc].key == f.trees[doc].key
            && (forall p :: p in f.trees && p != doc ==> f'.trees[p] == f.trees[p])
            && Values(f') == SpecDrop(Values(f), doc, path, k)
  {
    hide Sound, Addrs, AddrsOf, Linked, ValueOf, StringIn, RootOk, OnlyAt, Disjoint, Owned, Edit, Unlinked;
    var d := f.trees[doc];
    var sh := Below(d, path);
    RootFacts(f, doc);
    DeleteAnywhere(f.m, d, path, k);
    PathLinked(f.m, d, path);
    KidLinked(f.m, sh, k);
    ValueAtIs(f.m, d, path);
    var f' := AfterDelete(f, doc, path, k);
    EditedRoot(f.m, f'.m, doc, d, f'.trees[doc], Addrs(d));
    DeletedOwned(f, f', doc, Addrs(sh.kids[k]));
    DocApart(f.trees, doc);
    Reassembled(f, f', Addrs(d));
    DeletedValues(f, f', doc, path, k);
  }

  lemma DeletedOwned(f: Forest, f': Forest, doc: Ptr, freed: set<Ptr>)
    requires Disjoint(f.trees) && Owned(f.m, f.trees) && doc in f.trees && f'.trees.Keys == f.trees.Keys
    requires forall p :: p in f.trees && p != doc ==> f'.trees[p] == f.trees[p]
    requires Addrs(f'.trees[doc]) == Addrs(f.trees[doc]) - freed && f'.m.Live() == f.m.Live() - freed
    ensures Disjoint(f'.trees) && Owned(f'.m, f'.trees)
  {
    hide Addrs, AddrsOf;
    forall p, q | p in f'.trees && q in f'.trees && p != q ensures Addrs(f'.trees[p]) !! Addrs(f'.trees[q]) {
      assert Addrs(f.trees[p]) !! Addrs(f.trees[q]);
    }
    forall a | a in f'.m.Live() ensures exists p :: p in f'.trees && a in Addrs(f'.trees[p]) {
      var p :| p in f.trees && a in Addrs(f.trees[p]);
      assert a in Addrs(f'.trees[p]);
    }
  }

  lemma DeletedValues(f: Forest, f': Forest, doc: Ptr, path: Path, k: nat)
    requires doc in f.trees && f'.trees.Keys == f.trees.Keys
    requires forall p :: p in f.trees && p != doc ==> ValueOf(f'.m, f'.trees[p]) == ValueOf(f.m, f.trees[p])
    requires var v := ValueOf(f.m, f.trees[doc]);
             ValueOf(f'.m, f'.trees[doc]) == Edited(v, path, WithoutChild(ValueAt(v, path), k))
    ensures Values(f') == SpecDrop(Values(f), doc, path, k)
  {
    hide ValueOf, ValueAt, Edited, WithoutChild;
  }

  lemma DeleteTreeKeeps(f: Forest, doc: Ptr)
    requires Sound(f) && doc in f.trees
    ensures var f' := AfterDeleteTree(f, doc);
            Sound(f') && f'.trees == f.trees - {doc} && Values(f') == Values(f) - {doc}
  {
    hide Sound, Addrs, AddrsOf, Linked, ValueOf, StringIn, OnlyAt, Disjoint, Owned;
    RootFacts(f, doc);
    TreeDefined(f, doc);
    var f' := AfterDeleteTree(f, doc);
    var a := Addrs(f.trees[doc]);
    assert f'.m == f.m.Without(a);
    FreedTree(f, f', doc);
    hide RootOk;
    DocApart(f.trees, doc);
    Reassembled(f, f', a);
    assert Values(f') == Values(f) - {doc};
  }

  lemma FreedOnly(m: Mem, a: set<Ptr>)
    ensures OnlyAt(m, m.Without(a), a) && m.Without(a).Live() == m.Live() - a
    ensures m.Sane() ==> m.Without(a).Sane()
  {
  }

  lemma FreedTree(f: Forest, f': Forest, doc: Ptr)
    requires Disjoint(f.trees) && Owned(f.m, f.trees) && f.m.Sane() && doc in f.trees
    requires f' == Forest(f.m.Without(Addrs(f.trees[doc])), f.trees - {doc})
    ensures f'.m.Sane() && OnlyAt(f.m, f'.m, Addrs(f.trees[doc])) && Disjoint(f'.trees) && Owned(f'.m, f'.trees)
  {
    hide Addrs, AddrsOf;
    FreedOnly(f.m, Addrs(f.trees[doc]));
    hide OnlyAt;
    forall a | a in f'.m.Live() ensures exists p :: p in f'.trees && a in Addrs(f'.trees[p]) {
      var p :| p in f.trees && a in Addrs(f.trees[p]);
      assert a in Addrs(f'.trees[p]);
    }
  }

  // ------------------------------------------------------------------------ build

  lemma BuildKeeps(f: Forest, m': Mem, root: Ptr, sh: Shape, v: Json)
    requires Sound(f) && Built(f.m, m', root, sh, v)
    ensures var f' := Forest(m', f.trees[root := sh]);
            Sound(f') && root !in f.trees && sh.key == NULL && Values(f') == Values(f)[root := v]
  {
    hide Sound, Addrs, AddrsOf, Linked, ValueOf, RootOk, OnlyAt, Disjoint, Owned, Built, Grown;
    var f' := Forest(m', f.trees[root := sh]);
    BuiltParts(f.m, m', root, sh, v);
    TreesLive(f);
    RootAddr(sh);
    FreshRoot(f, root, Addrs(sh));
    BuiltOnly(f.m, m', Addrs(sh));
    SoundParts(f);
    BuiltOwned(f, f', root);
    Reassembled(f, f', Addrs(sh));
    BuiltValues(f, f', root, sh);
  }

  lemma FreshRoot(f: Forest, root: Ptr, a: set<Ptr>)
    requires root in a && a !! f.m.Live()
    requires forall p :: p in f.trees ==> Addrs(f.trees[p]) <= f.m.Live() && p in f.m.Live()
    ensures root !in f.trees && forall p :: p in f.trees ==> Addrs(f.trees[p]) !! a
  {
    hide Addrs, AddrsOf, Mem.Live;
  }

  lemma BuiltValues(f: Forest, f': Forest, root: Ptr, sh: Shape)
    requires root !in f.trees && f'.trees == f.trees[root := sh]
    requires forall p :: p in f.trees ==> Addrs(f.trees[p]) !! Addrs(sh)
    requires forall p :: p in f'.trees && p in f.trees && f'.trees[p] == f.trees[p] &&
                         Addrs(f.trees[p]) !! Addrs(sh) ==>
               ValueOf(f'.m, f'.trees[p]) == ValueOf(f.m, f.trees[p])
    ensures Values(f') == Values(f)[root := ValueOf(f'.m, sh)]
  {
    hide ValueOf, Addrs, AddrsOf;
  }

  lemma BuiltParts(m: Mem, m': Mem, root: Ptr, sh: Shape, v: Json)
    requires Built(m, m', root, sh, v)
    ensures RootOk(m', root, sh) && sh.p == root && sh.key == NULL && ValueOf(m', sh) == v
    ensures Grown(m, m', Addrs(sh)) && Addrs(sh) !! m.Live() && m'.Sane()
  {
    hide Addrs, AddrsOf, Linked, ValueOf;
  }

  lemma SoundParts(f: Forest)
    requires Sound(f)
    ensures f.m.Sane() && Disjoint(f.trees) && Owned(f.m, f.trees)
  {
  }

  lemma TreesLive(f: Forest)
    requires Sound(f)
    ensures forall p :: p in f.trees ==> Addrs(f.trees[p]) <= f.m.Live() && p in f.m.Live()
  {
    hide Addrs, AddrsOf;
    forall p | p in f.trees ensures Addrs(f.trees[p]) <= f.m.Live() && p in f.m.Live() {
      RootFacts(f, p);
      AddrsLive(f.m, f.trees[p]);
      RootAddr(f.trees[p]);
    }
  }

  lemma BuiltOnly(m: Mem, m': Mem, a: set<Ptr>)
    requires Grown(m, m', a)
    ensures OnlyAt(m, m', a) && m'.Live() == m.Live() + a
  {
    assert m == Mem(m'.nodes - a, m'.blocks - a);
  }

  lemma BuiltOwned(f: Forest, f': Forest, root: Ptr)
    requires Disjoint(f.trees) && Owned(f.m, f.trees) && root !in f.trees && root in f'.trees
    requires f'.trees == f.trees[root := f'.trees[root]] && f'.m.Live() == f.m.Live() + Addrs(f'.trees[root])
    requires forall p :: p in f.trees ==> Addrs(f.trees[p]) !! Addrs(f'.trees[root])
    ensures Disjoint(f'.trees) && Owned(f'.m, f'.trees)
  {
    hide Addrs, AddrsOf;
    forall a | a in f'.m.Live() ensures exists p :: p in f'.trees && a in Addrs(f'.trees[p]) {
      if a in f.m.Live() {
        var p :| p in f.trees && a in Addrs(f.trees[p]);
        assert a in Addrs(f'.trees[p]);
      }
    }
  }

  // ------------------------------------------------------------------------- runs

  /** Every operation keeps the invariant and does to the memory what it does to plain values. */
  lemma StepKeeps(f: Forest, op: Op)
    requires Tidy(f) && Enabled(f, op)
    ensures Tidy(Step(f, op)) && Values(Step(f, op)) == SpecStep(Values(f), op)
  {
    hide Sound, Built, Values, SpecAdd, SpecDrop, Adding, KeyedForest, AfterRemove, AfterDelete, AfterDeleteTree;
    match op
    case Build(m', root, sh, v) => BuildKeeps(f, m', root, sh, v);
    case AddElement(doc, path, child, last) =>
      ElementDefined(f, doc, path, child);
      AddKeeps(f, doc, path, child, last);
      NoKey(f.m, f.trees[child]);
    case AddMember(doc, path, child, last, key, name) => AddMemberKeeps(f, doc, path, child, last, key, name);
    case Remove(doc, path, k, node) => RemoveKeeps(f, doc, path, k);
    case Delete(doc, path, k) => DeleteKeeps(f, doc, path, k);
    case DeleteTree(doc) => DeleteTreeKeeps(f, doc);
  }

  lemma NoKey(m: Mem, t: Shape)
    ensures t.key == NULL ==> StringIn(m, t.key) == []
  {
  }

  lemma AddMemberKeeps(f: Forest, doc: Ptr, path: Path, child: Ptr, last: bool, key: Ptr, name: bytes)
    requires Tidy(f) && Enabled(f, AddMember(doc, path, child, last, key, name))
    ensures var f' := AfterAddMember(f, doc, path, child, last, key, name);
            Tidy(f') && Values(f') == SpecAdd(Values(f), doc, path, child, name, last)
  {
    hide Sound, Values, SpecAdd, Adding;
    MemberDefined(f, doc, path, child, key, name);
    AddKeeps(KeyedForest(f, child, key, name), doc, path, child, last);
  }

  /** The operations can be called one after the other. */
  ghost predicate Runs(f: Forest, ops: seq<Op>)
    requires Tidy(f)
    decreases |ops|
  {
    ops == [] || (Enabled(f, ops[0]) && (StepKeeps(f, ops[0]); Runs(Step(f, ops[0]), ops[1..])))
  }

  ghost function Run(f: Forest, ops: seq<Op>): (r: Forest)
    requires Tidy(f) && Runs(f, ops)
    ensures Tidy(r)
    decreases |ops|
  {
    if ops == [] then f else
    StepKeeps(f, ops[0]);
    Run(Step(f, ops[0]), ops[1..])
  }

  function SpecRun(vs: map<Ptr, Json>, ops: seq<Op>): map<Ptr, Json>
    decreases |ops|
  {
    if ops == [] then vs else SpecRun(SpecStep(vs, ops[0]), ops[1..])
  }

  /**
   * Any run from any well-formed state: all trees are well linked, share no cell and own every live cell,
   * and their values are what the same operations make of plain values.
   */
  lemma {:induction false} RunRefines(f: Forest, ops: seq<Op>)
    requires Tidy(f) && Runs(f, ops)
    ensures Tidy(Run(f, ops)) && Values(Run(f, ops)) == SpecRun(Values(f), ops)
    decreases |ops|
  {
    if ops != [] {
      StepKeeps(f, ops[0]);
      hide Step, Enabled, SpecStep, Tidy, Values;
      RunRefines(Step(f, ops[0]), ops[1..]);
    }
  }

  const NOTHING: Forest := Forest(Mem(map[], map[]), map[])

  /** Whoever deletes every tree it made, or took out, has freed all memory. */
  lemma AllDeletedMeansAllFreed(ops: seq<Op>)
    requires Runs(NOTHING, ops) && Run(NOTHING, ops).trees == map[]
    ensures Run(NOTHING, ops).m.Live() == {}
  {
    var f := Run(NOTHING, ops);
    assert Owned(f.m, f.trees);
  }

  lemma NothingIsTidy()
    ensures Tidy(NOTHING) && Values(NOTHING) == map[]
  {
  }

  /** Every state that can be reached from empty memory, and the values its trees have. */
  lemma ReachableIsTidy(ops: seq<Op>)
    requires Runs(NOTHING, ops)
    ensures Tidy(Run(NOTHING, ops)) && Values(Run(NOTHING, ops)) == SpecRun(map[], ops)
  {
    NothingIsTidy();
    RunRefines(NOTHING, ops);
  }
}
