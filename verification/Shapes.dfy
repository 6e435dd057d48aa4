/** How a JSON tree lies in memory: its shape, the linked-list invariant and the value it stands for. */
module Shapes {
  import opened CStrings
  import opened Json
  import opened CMemory

  /** The addresses a subtree owns: the node, its key and its string (NULL when it has none), its children. */
  datatype Shape = Shape(p: Ptr, key: Ptr, str: Ptr, kids: seq<Shape>)

  ghost function Own(sh: Shape): set<Ptr> {
    {sh.p} + (if sh.key == NULL then {} else {sh.key}) + (if sh.str == NULL then {} else {sh.str})
  }

  ghost function Addrs(sh: Shape): set<Ptr> {
    Own(sh) + AddrsOf(sh.kids)
  }

  ghost function AddrsOf(kids: seq<Shape>): set<Ptr> {
    set i, q | 0 <= i < |kids| && q in Addrs(kids[i]) :: q
  }

  /** The i-th child's address, NULL outside the list: what prev, next, head and tail must hold. */
  function PtrAt(kids: seq<Shape>, i: int): Ptr {
    if 0 <= i < |kids| then kids[i].p else NULL
  }

  predicate IsContainer(tag: Tag) {
    tag.JsonArray? || tag.JsonObject?
  }

  /** Nothing in the subtree is shared: every address is owned once. */
  ghost predicate Separate(sh: Shape) {
    && sh.p != NULL && sh.p != sh.key && sh.p != sh.str
    && (sh.key != NULL ==> sh.key != sh.str)
    && Own(sh) !! AddrsOf(sh.kids)
    && Apart(sh.kids)
  }

  ghost predicate Apart(kids: seq<Shape>) {
    forall i, j :: 0 <= i < j < |kids| ==> Addrs(kids[i]) !! Addrs(kids[j])
  }

  /** The doubly linked child list of a container. */
  ghost predicate Chained(m: Mem, sh: Shape)
    requires sh.p in m.nodes
  {
    && m.nodes[sh.p].head == PtrAt(sh.kids, 0)
    && m.nodes[sh.p].tail == PtrAt(sh.kids, |sh.kids| - 1)
    && forall i :: 0 <= i < |sh.kids| ==> ChildAt(m, sh, i)
  }

  ghost predicate ChildAt(m: Mem, sh: Shape, i: nat)
    requires sh.p in m.nodes && i < |sh.kids|
  {
    && sh.kids[i].p in m.nodes
    && var c := m.nodes[sh.kids[i].p];
    && c.parent == sh.p
    && c.prev == PtrAt(sh.kids, i - 1)
    && c.next == PtrAt(sh.kids, i + 1)
    && (m.nodes[sh.p].tag.JsonArray? <==> sh.kids[i].key == NULL)
  }

  /** The node's own key, string and tag. */
  ghost predicate NodeOk(m: Mem, sh: Shape) {
    && sh.p in m.nodes
    && var n := m.nodes[sh.p];
    && n.key == sh.key
    && (sh.key != NULL ==> m.HoldsString(sh.key))
    && (if n.tag.JsonString? then n.string_ == sh.str && sh.str != NULL && m.HoldsString(sh.str) else sh.str == NULL)
    && (!IsContainer(n.tag) ==> sh.kids == [])
  }

  /** The representation invariant json_check walks over: a well-linked tree in memory. */
  ghost predicate Linked(m: Mem, sh: Shape)
    decreases sh
  {
    && NodeOk(m, sh)
    && Separate(sh)
    && (IsContainer(m.nodes[sh.p].tag) ==> Chained(m, sh))
    && forall i :: 0 <= i < |sh.kids| ==> Linked(m, sh.kids[i])
  }

  ghost predicate AllLinked(m: Mem, kids: seq<Shape>) {
    forall i :: 0 <= i < |kids| ==> Linked(m, kids[i])
  }

  /** The definition of Linked, for proofs that keep it folded otherwise. */
  lemma LinkedParts(m: Mem, sh: Shape)
    requires Linked(m, sh)
    ensures NodeOk(m, sh) && sh.p in m.nodes && Separate(sh) && AllLinked(m, sh.kids)
    ensures IsContainer(m.nodes[sh.p].tag) ==> Chained(m, sh)
  {
    hide Addrs, AddrsOf;
  }

  /** The C string at p, empty where there is none. */
  function StringIn(m: Mem, p: Ptr): bytes {
    if p != NULL && p in m.blocks then CStr(m.blocks[p]) else []
  }

  /** The value a tree in memory stands for, meant for trees that are Linked. */
  ghost function ValueOf(m: Mem, sh: Shape): Json
    decreases sh
  {
    var n := if sh.p in m.nodes then m.nodes[sh.p] else ZeroNode(JsonNull);
    match n.tag
    case JsonNull => Null
    case JsonBool => Bool(n.bool_)
    case JsonString => Str(StringIn(m, sh.str))
    case JsonNumber => Num(n.number_)
    case JsonArray => Arr(ElemsOf(m, sh.kids))
    case JsonObject => Obj(MembersOf(m, sh.kids))
  }

  ghost function ElemsOf(m: Mem, kids: seq<Shape>): (es: seq<Json>)
    ensures |es| == |kids| && forall i :: 0 <= i < |kids| ==> es[i] == ValueOf(m, kids[i])
    decreases kids
  {
    seq(|kids|, i requires 0 <= i < |kids| => ValueOf(m, kids[i]))
  }

  ghost function MembersOf(m: Mem, kids: seq<Shape>): (ms: seq<Member>)
    ensures |ms| == |kids| && forall i :: 0 <= i < |kids| ==>
        ms[i] == Member(StringIn(m, kids[i].key), ValueOf(m, kids[i]))
    decreases kids
  {
    seq(|kids|, i requires 0 <= i < |kids| => Member(StringIn(m, kids[i].key), ValueOf(m, kids[i])))
  }

  // --------------------------------------------------------------------- frames

  /** The cells at the addresses a are in m' as they are in m. */
  ghost predicate Same(m: Mem, m': Mem, a: set<Ptr>) {
    && (forall q :: q in a && q in m.nodes ==> q in m'.nodes && m'.nodes[q] == m.nodes[q])
    && (forall q :: q in a && q in m.blocks ==> q in m'.blocks && m'.blocks[q] == m.blocks[q])
  }

  /** A node without its links to siblings and parent, which belong to the tree around it. */
  function Core(n: Node): Node {
    n.(parent := NULL, prev := NULL, next := NULL)
  }

  lemma KidAddrs(sh: Shape, i: nat)
    requires i < |sh.kids|
    ensures Addrs(sh.kids[i]) <= AddrsOf(sh.kids) <= Addrs(sh)
    ensures sh.kids[i].p in Addrs(sh.kids[i])
  {
  }

  lemma KidSubset(kids: seq<Shape>, i: nat)
    requires i < |kids|
    ensures Addrs(kids[i]) <= AddrsOf(kids) && kids[i].p in Addrs(kids[i])
  {
    forall q | q in Addrs(kids[i]) ensures q in AddrsOf(kids) {}
  }

  lemma AddrsParts(sh: Shape)
    ensures Addrs(sh) == Own(sh) + AddrsOf(sh.kids) && sh.p in Own(sh)
  {
  }

  /** The roots of two children differ from each other and from the parent. */
  lemma RootsDiffer(sh: Shape, i: nat, j: nat)
    requires Separate(sh) && i < |sh.kids| && j < |sh.kids|
    ensures sh.kids[i].p != sh.p && (i != j ==> sh.kids[i].p != sh.kids[j].p)
  {
    hide Addrs, AddrsOf;
    KidSubset(sh.kids, i);
    KidSubset(sh.kids, j);
    assert sh.p in Own(sh);
    if i < j {
      assert Addrs(sh.kids[i]) !! Addrs(sh.kids[j]);
    } else if j < i {
      assert Addrs(sh.kids[j]) !! Addrs(sh.kids[i]);
    }
  }

  lemma KidNode(m: Mem, kids: seq<Shape>, i: nat)
    requires AllLinked(m, kids) && i < |kids|
    ensures kids[i].p in m.nodes
  {
    assert Linked(m, kids[i]);
  }

  lemma {:induction false} NoNull(m: Mem, sh: Shape)
    requires Linked(m, sh)
    ensures NULL !in Addrs(sh)
    decreases sh
  {
    forall i | 0 <= i < |sh.kids| ensures NULL !in Addrs(sh.kids[i]) {
      NoNull(m, sh.kids[i]);
    }
  }

  /** A child lies inside the tree, apart from the root. */
  lemma KidInside(m: Mem, m': Mem, sh: Shape, i: nat)
    requires AllLinked(m, sh.kids) && Separate(sh) && i < |sh.kids| && Same(m, m', Addrs(sh) - {sh.p})
    ensures sh.kids[i].p in m.nodes && sh.kids[i].p in m'.nodes
    ensures m'.nodes[sh.kids[i].p] == m.nodes[sh.kids[i].p] && Same(m, m', Addrs(sh.kids[i]) - {sh.kids[i].p})
  {
    hide Addrs, AddrsOf, Linked;
    AddrsParts(sh);
    KidSubset(sh.kids, i);
    KidNode(m, sh.kids, i);
  }

  /** The root of an unchanged tree has the same value if its children have. */
  lemma FrameValue(m: Mem, m': Mem, sh: Shape)
    requires NodeOk(m, sh) && sh.p in m'.nodes && Core(m'.nodes[sh.p]) == Core(m.nodes[sh.p])
    requires Same(m, m', Own(sh) - {sh.p}) && sh.p != sh.key && sh.p != sh.str
    requires ElemsOf(m', sh.kids) == ElemsOf(m, sh.kids) && MembersOf(m', sh.kids) == MembersOf(m, sh.kids)
    ensures ValueOf(m', sh) == ValueOf(m, sh) && StringIn(m', sh.key) == StringIn(m, sh.key)
  {
  }

  /** A tree depends on its own addresses only, and not on its root's sibling and parent links. */
  lemma {:induction false} LinkedFrame(m: Mem, m': Mem, sh: Shape)
    requires Linked(m, sh)
    requires sh.p in m'.nodes && Core(m'.nodes[sh.p]) == Core(m.nodes[sh.p])
    requires Same(m, m', Addrs(sh) - {sh.p})
    ensures Linked(m', sh) && ValueOf(m', sh) == ValueOf(m, sh) && StringIn(m', sh.key) == StringIn(m, sh.key)
    decreases sh
  {
    hide Linked, ValueOf, NodeOk, Separate;
    LinkedParts(m, sh);
    forall i | 0 <= i < |sh.kids|
      ensures Linked(m', sh.kids[i]) && ValueOf(m', sh.kids[i]) == ValueOf(m, sh.kids[i])
      ensures sh.kids[i].p in m.nodes && sh.kids[i].p in m'.nodes
      ensures m'.nodes[sh.kids[i].p] == m.nodes[sh.kids[i].p]
      ensures StringIn(m', sh.kids[i].key) == StringIn(m, sh.kids[i].key)
    {
      KidInside(m, m', sh, i);
      LinkedFrame(m, m', sh.kids[i]);
    }
    AddrsParts(sh);
    hide Addrs, AddrsOf;
    RootFrame(m, m', sh);
    SameKids(m, m', sh.kids);
    KeysApart(sh);
    FrameValue(m, m', sh);
  }

  lemma KeysApart(sh: Shape)
    requires Separate(sh)
    ensures sh.p != sh.key && sh.p != sh.str
  {
    hide Addrs, AddrsOf;
  }

  lemma LinkedFromParts(m: Mem, sh: Shape)
    requires NodeOk(m, sh) && Separate(sh) && AllLinked(m, sh.kids)
    requires IsContainer(m.nodes[sh.p].tag) ==> Chained(m, sh)
    ensures Linked(m, sh)
  {
    hide NodeOk, Separate, Chained;
  }

  lemma RootFrame(m: Mem, m': Mem, sh: Shape)
    requires Linked(m, sh)
    requires sh.p in m'.nodes && Core(m'.nodes[sh.p]) == Core(m.nodes[sh.p])
    requires Same(m, m', Own(sh) - {sh.p})
    requires AllLinked(m', sh.kids)
    requires forall i :: 0 <= i < |sh.kids| ==>
               && sh.kids[i].p in m.nodes && sh.kids[i].p in m'.nodes
               && m'.nodes[sh.kids[i].p] == m.nodes[sh.kids[i].p]
    ensures Linked(m', sh)
  {
    hide Linked, Addrs, AddrsOf;
    LinkedParts(m, sh);
    assert NodeOk(m', sh);
    if IsContainer(m.nodes[sh.p].tag) {
      forall i | 0 <= i < |sh.kids| ensures ChildAt(m', sh, i) {
        assert ChildAt(m, sh, i);
      }
    }
    LinkedFromParts(m', sh);
  }

  lemma SameKids(m: Mem, m': Mem, kids: seq<Shape>)
    requires forall i :: 0 <= i < |kids| ==>
               ValueOf(m', kids[i]) == ValueOf(m, kids[i]) && StringIn(m', kids[i].key) == StringIn(m, kids[i].key)
    ensures ElemsOf(m', kids) == ElemsOf(m, kids) && MembersOf(m', kids) == MembersOf(m, kids)
  {
  }

  /** The whole tree lies at unchanged addresses. */
  lemma LinkedSame(m: Mem, m': Mem, sh: Shape)
    requires Linked(m, sh) && Same(m, m', Addrs(sh))
    ensures Linked(m', sh) && ValueOf(m', sh) == ValueOf(m, sh) && StringIn(m', sh.key) == StringIn(m, sh.key)
  {
    LinkedFrame(m, m', sh);
  }

  lemma KidsSame(m: Mem, m': Mem, kids: seq<Shape>)
    requires AllLinked(m, kids) && Same(m, m', AddrsOf(kids))
    ensures AllLinked(m', kids)
    ensures ElemsOf(m', kids) == ElemsOf(m, kids) && MembersOf(m', kids) == MembersOf(m, kids)
    ensures forall i :: 0 <= i < |kids| ==>
              kids[i].p in m.nodes && kids[i].p in m'.nodes && m'.nodes[kids[i].p] == m.nodes[kids[i].p]
  {
    hide Addrs, AddrsOf;
    forall i | 0 <= i < |kids|
      ensures Linked(m', kids[i]) && ValueOf(m', kids[i]) == ValueOf(m, kids[i])
      ensures StringIn(m', kids[i].key) == StringIn(m, kids[i].key)
      ensures kids[i].p in m.nodes && kids[i].p in m'.nodes && m'.nodes[kids[i].p] == m.nodes[kids[i].p]
    {
      KidSubset(kids, i);
      KidNode(m, kids, i);
      LinkedSame(m, m', kids[i]);
    }
    SameKids(m, m', kids);
  }

  /** A tree whose root got another key, or lost its key: the tree below is the same. */
  lemma LinkedRekey(m: Mem, m': Mem, sh: Shape, key: Ptr)
    requires Linked(m, sh)
    requires sh.p in m'.nodes && Core(m'.nodes[sh.p]) == Core(m.nodes[sh.p]).(key := key)
    requires Same(m, m', Addrs(sh) - {sh.p, sh.key})
    requires key != NULL ==> m'.HoldsString(key) && key !in Addrs(sh)
    ensures Linked(m', sh.(key := key)) && ValueOf(m', sh.(key := key)) == ValueOf(m, sh)
    ensures Addrs(sh.(key := key)) == Addrs(sh) - {sh.key} + (if key == NULL then {} else {key})
  {
    hide Addrs, AddrsOf, Linked, ValueOf;
    RekeyInside(m, m', sh, key);
    RekeyAddrs(m, sh, key);
    RekeyRoot(m, m', sh, key);
    RekeyValue(m, m', sh, key);
  }

  /** What a change of the root's key leaves alone: the children and the root's string. */
  lemma RekeyInside(m: Mem, m': Mem, sh: Shape, key: Ptr)
    requires Linked(m, sh) && Same(m, m', Addrs(sh) - {sh.p, sh.key})
    ensures AllLinked(m', sh.kids)
    ensures ElemsOf(m', sh.kids) == ElemsOf(m, sh.kids) && MembersOf(m', sh.kids) == MembersOf(m, sh.kids)
    ensures forall i :: 0 <= i < |sh.kids| ==>
              sh.kids[i].p in m.nodes && sh.kids[i].p in m'.nodes && m'.nodes[sh.kids[i].p] == m.nodes[sh.kids[i].p]
    ensures sh.str != NULL ==> sh.str in m.blocks && sh.str in m'.blocks && m'.blocks[sh.str] == m.blocks[sh.str]
  {
    hide Linked, Addrs, AddrsOf, ValueOf;
    LinkedParts(m, sh);
    AddrsParts(sh);
    NoNull(m, sh);
    KidsSame(m, m', sh.kids);
  }

  lemma RekeyAddrs(m: Mem, sh: Shape, key: Ptr)
    requires Linked(m, sh)
    ensures Addrs(sh.(key := key)) == Addrs(sh) - {sh.key} + (if key == NULL then {} else {key})
  {
    hide Addrs, AddrsOf;
    AddrsParts(sh);
    AddrsParts(sh.(key := key));
    NoNull(m, sh);
  }

  lemma RekeyValue(m: Mem, m': Mem, sh: Shape, key: Ptr)
    requires Linked(m, sh) && sh.p in m'.nodes && Core(m'.nodes[sh.p]) == Core(m.nodes[sh.p]).(key := key)
    requires sh.str != NULL ==> sh.str in m.blocks && sh.str in m'.blocks && m'.blocks[sh.str] == m.blocks[sh.str]
    requires ElemsOf(m', sh.kids) == ElemsOf(m, sh.kids) && MembersOf(m', sh.kids) == MembersOf(m, sh.kids)
    ensures ValueOf(m', sh.(key := key)) == ValueOf(m, sh)
  {
    hide Addrs, AddrsOf;
  }

  lemma RekeyRoot(m: Mem, m': Mem, sh: Shape, key: Ptr)
    requires Linked(m, sh)
    requires sh.p in m'.nodes && Core(m'.nodes[sh.p]) == Core(m.nodes[sh.p]).(key := key)
    requires sh.str != NULL ==> sh.str in m.blocks && sh.str in m'.blocks && m'.blocks[sh.str] == m.blocks[sh.str]
    requires key != NULL ==> m'.HoldsString(key) && key !in Addrs(sh)
    requires AllLinked(m', sh.kids)
    requires forall i :: 0 <= i < |sh.kids| ==>
               sh.kids[i].p in m.nodes && sh.kids[i].p in m'.nodes && m'.nodes[sh.kids[i].p] == m.nodes[sh.kids[i].p]
    ensures Linked(m', sh.(key := key))
  {
    hide Addrs, AddrsOf;
    AddrsParts(sh);
    var sh' := sh.(key := key);
    assert NodeOk(m, sh);
    assert NodeOk(m', sh');
    if IsContainer(m.nodes[sh.p].tag) {
      forall i | 0 <= i < |sh.kids| ensures ChildAt(m', sh', i) {
        assert ChildAt(m, sh, i);
      }
    }
  }
}
