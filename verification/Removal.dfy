/** json_remove_from_parent and what json_delete leaves behind. */
module Removal {
  import opened Json
  import opened CMemory
  import opened Shapes
  import opened ChildLists

  /** Everything json_remove_from_parent dereferences or frees is live. */
  predicate CanUnlink(m: Mem, p: Ptr) {
    && p in m.nodes
    && var n := m.nodes[p];
    n.parent != NULL ==>
      && n.parent in m.nodes
      && (n.prev != NULL ==> n.prev in m.nodes)
      && (n.next != NULL ==> n.next in m.nodes)
      && (n.key != NULL ==> n.key in m.blocks)
  }

  /** The memory after json_remove_from_parent's assignments. */
  function Unlinked(m: Mem, p: Ptr): Mem
    requires CanUnlink(m, p)
  {
    var n := m.nodes[p];
    if n.parent == NULL then m else
    var m1 := if n.prev != NULL then m.PutNode(n.prev, m.nodes[n.prev].(next := n.next))
              else m.PutNode(n.parent, m.nodes[n.parent].(head := n.next));
    var m2 := if n.next != NULL then m1.PutNode(n.next, m1.nodes[n.next].(prev := n.prev))
              else m1.PutNode(n.parent, m1.nodes[n.parent].(tail := n.prev));
    var m3 := if n.key == NULL then m2 else m2.(blocks := m2.blocks - {n.key});
    m3.PutNode(p, m3.nodes[p].(parent := NULL, prev := NULL, next := NULL, key := NULL))
  }

  function Dropped<T>(s: seq<T>, k: nat): seq<T>
    requires k < |s|
  {
    s[..k] + s[k + 1..]
  }

  /** The parent, the neighbours, the node and its key: all that json_remove_from_parent touches. */
  function Touched(sh: Shape, k: nat): set<Ptr>
    requires k < |sh.kids|
  {
    {sh.p, sh.kids[k].p, PtrAt(sh.kids, k - 1), PtrAt(sh.kids, k + 1), sh.kids[k].key} - {NULL}
  }

  lemma NeighboursDiffer(sh: Shape, k: nat)
    requires Separate(sh) && k < |sh.kids|
    ensures var c := sh.kids[k].p; var prev := PtrAt(sh.kids, k - 1); var next := PtrAt(sh.kids, k + 1);
            && sh.p != c && prev != sh.p && next != sh.p && (prev != NULL ==> prev != c && prev != next) &&
                (next != NULL ==> next != c)
  {
    RootsDiffer(sh, k, k);
    if k > 0 { RootsDiffer(sh, k - 1, k); }
    if k + 1 < |sh.kids| { RootsDiffer(sh, k + 1, k); }
    if k > 0 && k + 1 < |sh.kids| { RootsDiffer(sh, k - 1, k + 1); }
  }

  lemma KidCanUnlink(m: Mem, sh: Shape, k: nat)
    requires Linked(m, sh) && IsContainer(m.nodes[sh.p].tag) && k < |sh.kids|
    ensures CanUnlink(m, sh.kids[k].p) && ChildAt(m, sh, k) && m.nodes[sh.kids[k].p].key == sh.kids[k].key
  {
    hide Addrs, AddrsOf;
    assert ChildAt(m, sh, k);
    assert Linked(m, sh.kids[k]);
    assert NodeOk(m, sh.kids[k]);
    if k > 0 { KidNode(m, sh.kids, k - 1); }
    if k + 1 < |sh.kids| { KidNode(m, sh.kids, k + 1); }
  }

  /** The cells json_remove_from_parent leaves behind. */
  ghost predicate UnlinkedCells(m: Mem, m': Mem, sh: Shape, k: nat)
    requires sh.p in m.nodes && sh.p in m'.nodes && k < |sh.kids|
  {
    var c := sh.kids[k].p; var prev := PtrAt(sh.kids, k - 1); var next := PtrAt(sh.kids, k + 1);
    && OnlyAt(m, m', Touched(sh, k))
    && c in m.nodes && c in m'.nodes
    && m'.nodes[c] == m.nodes[c].(parent := NULL, prev := NULL, next := NULL, key := NULL)
    && m'.nodes[sh.p] == m.nodes[sh.p].(head := if k == 0 then next else m.nodes[sh.p].head,
                                        tail := if k == |sh.kids| - 1 then prev else m.nodes[sh.p].tail)
    && (prev != NULL ==> prev in m.nodes && prev in m'.nodes && m'.nodes[prev] == m.nodes[prev].(next := next))
    && (next != NULL ==> next in m.nodes && next in m'.nodes && m'.nodes[next] == m.nodes[next].(prev := prev))
    && m'.nodes.Keys == m.nodes.Keys && m'.blocks.Keys == m.blocks.Keys - {sh.kids[k].key}
  }

  /** The assignments cell by cell, for a node whose parent and neighbours are different cells. */
  lemma UnlinkedIs(m: Mem, p: Ptr)
    requires CanUnlink(m, p) && m.nodes[p].parent != NULL && m.Sane()
    requires var n := m.nodes[p];
             && n.parent != p && n.prev != p && n.next != p && n.prev != n.parent && n.next != n.parent
             && (n.prev != NULL ==> n.prev != n.next)
    ensures var n := m.nodes[p]; var m' := Unlinked(m, p);
            && m'.nodes.Keys == m.nodes.Keys && m'.blocks == m.blocks - {n.key}
            && m'.nodes[p] == n.(parent := NULL, prev := NULL, next := NULL, key := NULL)
            && m'.nodes[n.parent] == m.nodes[n.parent].(
                 head := if n.prev == NULL then n.next else m.nodes[n.parent].head,
                 tail := if n.next == NULL then n.prev else m.nodes[n.parent].tail)
            && (n.prev != NULL ==> m'.nodes[n.prev] == m.nodes[n.prev].(next := n.next))
            && (n.next != NULL ==> m'.nodes[n.next] == m.nodes[n.next].(prev := n.prev))
            && forall q :: q in m.nodes && q !in {p, n.parent, n.prev, n.next} ==> m'.nodes[q] == m.nodes[q]
  {
    var n := m.nodes[p];
    if n.key == NULL {
      assert m.blocks - {NULL} == m.blocks;
    }
  }

  lemma OnlyAtFrom(m: Mem, m': Mem, a: set<Ptr>, freed: Ptr)
    requires m'.nodes.Keys == m.nodes.Keys && m'.blocks == m.blocks - {freed}
    requires freed in a || freed !in m.blocks
    requires forall q :: q in m.nodes && q !in a ==> m'.nodes[q] == m.nodes[q]
    ensures OnlyAt(m, m', a)
  {
  }

  lemma UnlinkedOnlyAt(m: Mem, sh: Shape, k: nat)
    requires sh.p in m.nodes && sh.p != NULL && m.Sane() && k < |sh.kids|
    requires Separate(sh) && ChildAt(m, sh, k) && CanUnlink(m, sh.kids[k].p)
    requires m.nodes[sh.kids[k].p].key == sh.kids[k].key
    ensures OnlyAt(m, Unlinked(m, sh.kids[k].p), Touched(sh, k))
  {
    hide Addrs, AddrsOf;
    NeighboursDiffer(sh, k);
    hide Separate;
    var c := sh.kids[k].p;
    var n := m.nodes[c];
    UnlinkedIs(m, c);
    hide Unlinked;
    assert forall q :: q in m.nodes && q !in Touched(sh, k) ==> q !in {c, n.parent, n.prev, n.next};
    assert n.key == NULL || n.key in Touched(sh, k);
    hide Touched;
    OnlyAtFrom(m, Unlinked(m, c), Touched(sh, k), n.key);
  }

  lemma UnlinkCellsAt(m: Mem, sh: Shape, k: nat)
    requires sh.p in m.nodes && sh.p != NULL && m.Sane() && k < |sh.kids|
    requires Separate(sh) && ChildAt(m, sh, k) && CanUnlink(m, sh.kids[k].p) &&
        m.nodes[sh.kids[k].p].key == sh.kids[k].key
    requires PtrAt(sh.kids, k - 1) == NULL <==> k == 0
    requires PtrAt(sh.kids, k + 1) == NULL <==> k == |sh.kids| - 1
    ensures var m' := Unlinked(m, sh.kids[k].p); sh.p in m'.nodes && UnlinkedCells(m, m', sh, k)
  {
    hide Addrs, AddrsOf;
    NeighboursDiffer(sh, k);
    UnlinkedOnlyAt(m, sh, k);
    hide Separate, OnlyAt, Touched;
    UnlinkedIs(m, sh.kids[k].p);
    hide Unlinked;
  }

  lemma UnlinkCells(m: Mem, sh: Shape, k: nat)
    requires Linked(m, sh) && IsContainer(m.nodes[sh.p].tag) && k < |sh.kids| && m.Sane()
    requires CanUnlink(m, sh.kids[k].p)
    ensures var m' := Unlinked(m, sh.kids[k].p); sh.p in m'.nodes && UnlinkedCells(m, m', sh, k)
  {
    hide Addrs, AddrsOf;
    KidCanUnlink(m, sh, k);
    ChildRoots(m, sh, k);
    UnlinkCellsAt(m, sh, k);
  }

  /** Children are no NULL pointers, so a neighbour is NULL exactly at an end of the list. */
  lemma ChildRoots(m: Mem, sh: Shape, k: nat)
    requires Linked(m, sh) && IsContainer(m.nodes[sh.p].tag) && k < |sh.kids|
    ensures sh.p in m.nodes && sh.p != NULL && sh.kids[k].p in m.nodes && sh.kids[k].p != NULL
    ensures PtrAt(sh.kids, k - 1) == NULL <==> k == 0
    ensures PtrAt(sh.kids, k + 1) == NULL <==> k == |sh.kids| - 1
  {
    hide Addrs, AddrsOf;
    assert Linked(m, sh.kids[k]);
    if k > 0 { assert Linked(m, sh.kids[k - 1]); }
    if k + 1 < |sh.kids| { assert Linked(m, sh.kids[k + 1]); }
  }

  /** The index a child keeps in the list without its k-th element, seen from the old list. */
  function OldIndex(i: nat, k: nat): nat {
    if i < k then i else i + 1
  }

  lemma DroppedAt<T>(s: seq<T>, k: nat, i: nat)
    requires k < |s| && i < |s| - 1
    ensures Dropped(s, k)[i] == s[OldIndex(i, k)]
  {
  }

  /** An address below the root of a child is neither the parent nor an address of another child. */
  lemma InnerIsElsewhere(sh: Shape, j: nat, q: Ptr, i: nat)
    requires Separate(sh) && j < |sh.kids| && i < |sh.kids|
    requires q in Addrs(sh.kids[j]) && q != sh.kids[j].p
    ensures q != sh.p && q != sh.kids[i].p && (i != j ==> q !in Addrs(sh.kids[i]))
  {
    hide Addrs, AddrsOf;
    KidSubset(sh.kids, j);
    KidSubset(sh.kids, i);
    if i != j { KidsApart(sh.kids, i, j); }
    assert sh.p in Own(sh);
  }

  lemma NotTouched(sh: Shape, k: nat, q: Ptr)
    requires k < |sh.kids|
    requires q != NULL ==>
               && q != sh.p && q != sh.kids[k].p && q != sh.kids[k].key
               && q != PtrAt(sh.kids, k - 1) && q != PtrAt(sh.kids, k + 1)
    ensures q !in Touched(sh, k)
  {
  }

  lemma KeyIsInside(sh: Shape)
    ensures sh.key != NULL ==> sh.key in Addrs(sh)
  {
    AddrsParts(sh);
  }

  /** No cell below the root of a remaining child is touched. */
  lemma RemovedInner(sh: Shape, k: nat, j: nat, q: Ptr)
    requires Separate(sh) && k < |sh.kids| && j < |sh.kids| && j != k
    requires q in Addrs(sh.kids[j]) && q != sh.kids[j].p
    ensures q !in Touched(sh, k)
  {
    hide Separate, Addrs, AddrsOf, Touched;
    InnerIsElsewhere(sh, j, q, k);
    KeyIsInside(sh.kids[k]);
    if k > 0 { InnerIsElsewhere(sh, j, q, k - 1); }
    if k + 1 < |sh.kids| { InnerIsElsewhere(sh, j, q, k + 1); }
    NotTouched(sh, k, q);
  }

  lemma KidsApart(kids: seq<Shape>, i: nat, j: nat)
    requires Apart(kids) && i < |kids| && j < |kids| && i != j
    ensures Addrs(kids[i]) !! Addrs(kids[j])
  {
    hide Addrs, AddrsOf;
    if i < j {
      assert Addrs(kids[i]) !! Addrs(kids[j]);
    } else {
      assert Addrs(kids[j]) !! Addrs(kids[i]);
    }
  }

  /** A remaining child keeps its own node but for the links to its neighbours. */
  lemma RemovedCore(m: Mem, m': Mem, sh: Shape, k: nat, j: nat)
    requires Separate(sh) && k < |sh.kids| && j < |sh.kids| && j != k
    requires sh.p in m.nodes && sh.p in m'.nodes && UnlinkedCells(m, m', sh, k)
    requires var r := sh.kids[j].p; r in m.nodes && r != NULL && r != sh.kids[k].key
    ensures var r := sh.kids[j].p; var n := PtrAt(sh.kids, k + 1); var p := PtrAt(sh.kids, k - 1);
            && r in m.nodes && r in m'.nodes
            && m'.nodes[r] == m.nodes[r].(next := if j == k - 1 then n else m.nodes[r].next,
                                          prev := if j == k + 1 then p else m.nodes[r].prev)
  {
    hide Addrs, AddrsOf;
    RootsDiffer(sh, j, k);
    if k > 0 { RootsDiffer(sh, j, k - 1); }
    if k + 1 < |sh.kids| { RootsDiffer(sh, j, k + 1); }
  }

  lemma ChildKeyApart(m: Mem, sh: Shape, j: nat, k: nat)
    requires Linked(m, sh) && k < |sh.kids| && j < |sh.kids| && j != k
    ensures sh.kids[j].p in m.nodes && sh.kids[j].p != NULL && sh.kids[j].p != sh.kids[k].key
  {
    hide Addrs, AddrsOf;
    AddrsParts(sh.kids[k]);
    KidSubset(sh.kids, j);
    KidsApart(sh.kids, j, k);
    assert Linked(m, sh.kids[j]);
  }

  lemma RemovedRoots(m: Mem, m': Mem, sh: Shape, k: nat)
    requires Linked(m, sh) && k < |sh.kids|
    requires sh.p in m'.nodes && UnlinkedCells(m, m', sh, k)
    ensures AllLinked(m, Dropped(sh.kids, k)) && RootsOnly(m, m', Dropped(sh.kids, k))
  {
    hide Addrs, AddrsOf;
    var rest := Dropped(sh.kids, k);
    forall i | 0 <= i < |rest|
      ensures rest[i].p in m.nodes && rest[i].p in m'.nodes && Core(m'.nodes[rest[i].p]) == Core(m.nodes[rest[i].p])
    {
      DroppedAt(sh.kids, k, i);
      ChildKeyApart(m, sh, OldIndex(i, k), k);
      RemovedCore(m, m', sh, k, OldIndex(i, k));
    }
    forall i | 0 <= i < |rest| ensures Linked(m, rest[i]) {
      DroppedAt(sh.kids, k, i);
    }
    forall i, q | 0 <= i < |rest| && q in Addrs(rest[i]) && q != rest[i].p ensures q !in Touched(sh, k) {
      DroppedAt(sh.kids, k, i);
      RemovedInner(sh, k, OldIndex(i, k), q);
    }
    RootsFrom(m, m', rest, Touched(sh, k));
  }

  lemma RemovedNeighbours(kids: seq<Shape>, k: nat, i: nat)
    requires k < |kids| && i < |kids| - 1
    ensures var rest := Dropped(kids, k); var j := OldIndex(i, k);
            && PtrAt(rest, i - 1) == (if j == k + 1 then PtrAt(kids, k - 1) else PtrAt(kids, j - 1))
            && PtrAt(rest, i + 1) == (if j == k - 1 then PtrAt(kids, k + 1) else PtrAt(kids, j + 1))
  {
    hide Addrs, AddrsOf;
  }

  lemma RemovedEnds(kids: seq<Shape>, k: nat)
    requires k < |kids|
    ensures var rest := Dropped(kids, k);
            && PtrAt(rest, 0) == PtrAt(kids, if k == 0 then 1 else 0)
            && PtrAt(rest, |rest| - 1) == PtrAt(kids, if k == |kids| - 1 then k - 1 else |kids| - 1)
  {
    hide Addrs, AddrsOf;
  }

  lemma RemovedChild(m: Mem, m': Mem, sh: Shape, k: nat, i: nat)
    requires Linked(m, sh) && IsContainer(m.nodes[sh.p].tag) && k < |sh.kids| && i < |sh.kids| - 1
    requires sh.p in m'.nodes && UnlinkedCells(m, m', sh, k)
    ensures ChildAt(m', sh.(kids := Dropped(sh.kids, k)), i)
  {
    hide Addrs, AddrsOf;
    var j := OldIndex(i, k);
    DroppedAt(sh.kids, k, i);
    assert ChildAt(m, sh, j);
    ChildKeyApart(m, sh, j, k);
    RemovedNeighbours(sh.kids, k, i);
    RemovedCore(m, m', sh, k, j);
  }

  lemma RemovedHeadTail(m: Mem, m': Mem, sh: Shape, k: nat)
    requires Linked(m, sh) && IsContainer(m.nodes[sh.p].tag) && k < |sh.kids|
    requires sh.p in m'.nodes && UnlinkedCells(m, m', sh, k)
    ensures var rest := Dropped(sh.kids, k);
            m'.nodes[sh.p].head == PtrAt(rest, 0) && m'.nodes[sh.p].tail == PtrAt(rest, |rest| - 1)
  {
    hide Linked, Addrs, AddrsOf, ChildAt, OnlyAt, Touched;
    FirstKid(m, sh);
    LastKid(m, sh);
    RemovedEnds(sh.kids, k);
  }

  lemma RemovedChain(m: Mem, m': Mem, sh: Shape, k: nat)
    requires Linked(m, sh) && IsContainer(m.nodes[sh.p].tag) && k < |sh.kids|
    requires sh.p in m'.nodes && UnlinkedCells(m, m', sh, k)
    ensures Chained(m', sh.(kids := Dropped(sh.kids, k)))
  {
    hide Addrs, AddrsOf, ChildAt, Linked, UnlinkedCells, Dropped;
    var rest := Dropped(sh.kids, k);
    assert |rest| == |sh.kids| - 1 by { DroppedLength(sh.kids, k); }
    forall i | 0 <= i < |rest| ensures ChildAt(m', sh.(kids := rest), i) {
      RemovedChild(m, m', sh, k, i);
    }
    RemovedHeadTail(m, m', sh, k);
  }

  lemma DroppedLength<T>(s: seq<T>, k: nat)
    requires k < |s|
    ensures |Dropped(s, k)| == |s| - 1
  {
  }

  lemma RemovedSeparate(sh: Shape, k: nat)
    requires Separate(sh) && k < |sh.kids|
    ensures Separate(sh.(kids := Dropped(sh.kids, k)))
    ensures Addrs(sh.(kids := Dropped(sh.kids, k))) == Addrs(sh) - Addrs(sh.kids[k])
    ensures Addrs(sh.kids[k]) <= Addrs(sh)
  {
    hide Addrs, AddrsOf;
    AddrsParts(sh);
    AddrsParts(sh.(kids := Dropped(sh.kids, k)));
    KidSubset(sh.kids, k);
    AddrsOfDropped(sh.kids, k);
    var rest := Dropped(sh.kids, k);
    forall i, j | 0 <= i < j < |rest| ensures Addrs(rest[i]) !! Addrs(rest[j]) {
      DroppedAt(sh.kids, k, i);
      DroppedAt(sh.kids, k, j);
      KidsApart(sh.kids, OldIndex(i, k), OldIndex(j, k));
    }
  }

  lemma AddrsOfDropped(kids: seq<Shape>, k: nat)
    requires Apart(kids) && k < |kids|
    ensures AddrsOf(Dropped(kids, k)) == AddrsOf(kids) - Addrs(kids[k])
  {
    hide Addrs;
    var rest := Dropped(kids, k);
    forall q | q in AddrsOf(rest) ensures q in AddrsOf(kids) - Addrs(kids[k]) {
      var i :| 0 <= i < |rest| && q in Addrs(rest[i]);
      DroppedAt(kids, k, i);
      KidsApart(kids, OldIndex(i, k), k);
    }
    forall q | q in AddrsOf(kids) - Addrs(kids[k]) ensures q in AddrsOf(rest) {
      var j :| 0 <= j < |kids| && q in Addrs(kids[j]);
      var i := if j < k then j else j - 1;
      DroppedAt(kids, k, i);
      assert q in Addrs(rest[i]);
    }
  }

  /** The parent without its k-th child. */
  lemma UnlinkParent(m: Mem, sh: Shape, k: nat)
    requires Linked(m, sh) && IsContainer(m.nodes[sh.p].tag) && k < |sh.kids| && m.Sane()
    requires CanUnlink(m, sh.kids[k].p)
    ensures var m' := Unlinked(m, sh.kids[k].p);
            var rest := Dropped(sh.kids, k);
            && Linked(m', sh.(kids := rest))
            && ValueOf(m', sh.(kids := rest)) ==
               if m.nodes[sh.p].tag.JsonArray? then Arr(ElemsOf(m, rest)) else Obj(MembersOf(m, rest))
  {
    hide Addrs, AddrsOf;
    var m' := Unlinked(m, sh.kids[k].p);
    var rest := Dropped(sh.kids, k);
    UnlinkCells(m, sh, k);
    RemovedRoots(m, m', sh, k);
    KidsFrame(m, m', rest);
    RemovedChain(m, m', sh, k);
    RemovedSeparate(sh, k);
    EndsOnlyAfterUnlink(m, m', sh, k);
    RebuiltNode(m, m', sh, rest);
    Rebuilt(m, m', sh, rest);
  }

  /** The parent's key and string are not touched. */
  lemma OwnUntouched(sh: Shape, k: nat)
    requires Separate(sh) && k < |sh.kids|
    ensures Touched(sh, k) !! Own(sh) - {sh.p}
  {
    hide Addrs, AddrsOf;
    KidSubset(sh.kids, k);
    AddrsParts(sh.kids[k]);
    if k > 0 { KidSubset(sh.kids, k - 1); }
    if k + 1 < |sh.kids| { KidSubset(sh.kids, k + 1); }
  }

  lemma EndsOnlyAfterUnlink(m: Mem, m': Mem, sh: Shape, k: nat)
    requires Linked(m, sh) && k < |sh.kids|
    requires sh.p in m'.nodes && UnlinkedCells(m, m', sh, k)
    ensures EndsOnly(m, m', sh)
  {
    hide Linked, Addrs, AddrsOf;
    LinkedParts(m, sh);
    OwnUntouched(sh, k);
    hide Separate, Touched, Own, NodeOk, Chained;
    ElsewhereSame(m, m', Touched(sh, k), Own(sh) - {sh.p});
    hide OnlyAt;
  }

  /** The value of a container without its k-th child. */
  function WithoutChild(v: Json, k: nat): Json {
    match v
    case Arr(es) => if k < |es| then Arr(Dropped(es, k)) else v
    case Obj(ms) => if k < |ms| then Obj(Dropped(ms, k)) else v
    case _ => v
  }

  lemma DroppedElems(m: Mem, sh: Shape, k: nat)
    requires sh.p in m.nodes && IsContainer(m.nodes[sh.p].tag) && k < |sh.kids|
    ensures WithoutChild(ValueOf(m, sh), k) ==
            var rest := Dropped(sh.kids, k);
            if m.nodes[sh.p].tag.JsonArray? then Arr(ElemsOf(m, rest)) else Obj(MembersOf(m, rest))
  {
    var rest := Dropped(sh.kids, k);
    assert ElemsOf(m, rest) == Dropped(ElemsOf(m, sh.kids), k);
    assert MembersOf(m, rest) == Dropped(MembersOf(m, sh.kids), k);
  }

  /** The removed child: on its own, without a key, with its value. */
  lemma UnlinkChild(m: Mem, sh: Shape, k: nat)
    requires Linked(m, sh) && IsContainer(m.nodes[sh.p].tag) && k < |sh.kids| && m.Sane()
    requires CanUnlink(m, sh.kids[k].p)
    ensures var m' := Unlinked(m, sh.kids[k].p);
            var c := sh.kids[k].(key := NULL);
            && Linked(m', c) && ValueOf(m', c) == ValueOf(m, sh.kids[k])
            && m'.nodes[c.p].parent == m'.nodes[c.p].prev == m'.nodes[c.p].next == NULL
            && Addrs(c) == Addrs(sh.kids[k]) - {sh.kids[k].key}
  {
    hide Addrs, AddrsOf;
    var c := sh.kids[k];
    UnlinkCells(m, sh, k);
    forall q | q in Addrs(c) - {c.p, c.key} ensures q !in Touched(sh, k) {
      UnlinkInner(m, sh, k, q);
    }
    LinkedRekey(m, Unlinked(m, c.p), c, NULL);
  }

  lemma UnlinkInner(m: Mem, sh: Shape, k: nat, q: Ptr)
    requires Linked(m, sh) && k < |sh.kids| && q in Addrs(sh.kids[k]) - {sh.kids[k].p, sh.kids[k].key}
    ensures q !in Touched(sh, k)
  {
    hide Addrs, AddrsOf;
    AddrsParts(sh);
    KidSubset(sh.kids, k);
    if k > 0 {
      KidSubset(sh.kids, k - 1);
      KidsApart(sh.kids, k - 1, k);
    }
    if k + 1 < |sh.kids| {
      KidSubset(sh.kids, k + 1);
      KidsApart(sh.kids, k + 1, k);
    }
  }

  /**
   * json_remove_from_parent on the k-th child of a well-linked tree: the parent's child sequence loses
   * exactly that child, the child becomes a tree of its own with the same value and without its key,
   * and no other cell changes.
   */
  lemma UnlinkRefines(m: Mem, sh: Shape, k: nat)
    requires Linked(m, sh) && IsContainer(m.nodes[sh.p].tag) && k < |sh.kids| && m.Sane()
    ensures CanUnlink(m, sh.kids[k].p)
    ensures var m' := Unlinked(m, sh.kids[k].p);
            var sh' := sh.(kids := Dropped(sh.kids, k));
            var c := sh.kids[k].(key := NULL);
            && Linked(m', sh') && ValueOf(m', sh') == WithoutChild(ValueOf(m, sh), k)
            && Linked(m', c) && ValueOf(m', c) == ValueOf(m, sh.kids[k])
            && m'.nodes[c.p].parent == m'.nodes[c.p].prev == m'.nodes[c.p].next == NULL
            && OnlyAt(m, m', Touched(sh, k))
  {
    hide Addrs, AddrsOf;
    KidCanUnlink(m, sh, k);
    UnlinkCells(m, sh, k);
    UnlinkParent(m, sh, k);
    UnlinkChild(m, sh, k);
    DroppedElems(m, sh, k);
  }

  // --------------------------------------------------------------------- delete

  /** What json_delete demands: a well-linked tree, on its own or hanging on a parent outside of it. */
  ghost predicate Deletable(m: Mem, sh: Shape) {
    && Linked(m, sh) && m.Sane() && CanUnlink(m, sh.p)
    && var n := m.nodes[sh.p];
    && (n.parent == NULL ==> sh.key == NULL)
    && (n.parent != NULL ==> n.parent !in Addrs(sh) && n.prev !in Addrs(sh) && n.next !in Addrs(sh))
  }

  /** Unlinking writes to the node, its parent and its neighbours, and frees its key. */
  lemma UnlinkedElsewhere(m: Mem, p: Ptr)
    requires CanUnlink(m, p) && m.Sane()
    requires var n := m.nodes[p]; n.parent != NULL && p !in {n.parent, n.prev, n.next}
    ensures var n := m.nodes[p]; var m' := Unlinked(m, p);
            && m'.nodes.Keys == m.nodes.Keys && m'.blocks == m.blocks - {n.key}
            && m'.nodes[p] == n.(parent := NULL, prev := NULL, next := NULL, key := NULL)
            && forall q :: q in m.nodes && q !in {p, n.parent, n.prev, n.next} ==> m'.nodes[q] == m.nodes[q]
  {
    if m.nodes[p].key == NULL { assert m.blocks - {NULL} == m.blocks; }
  }

  /** What unlinking the root does inside the tree: the key goes, and the links of the root. */
  lemma HangingKey(m: Mem, sh: Shape)
    requires Deletable(m, sh) && m.nodes[sh.p].parent != NULL && NodeOk(m, sh) && Separate(sh)
    ensures var m' := Unlinked(m, sh.p);
            && sh.p in m.nodes && sh.p in m'.nodes && m'.nodes[sh.p].tag == m.nodes[sh.p].tag && m'.Sane()
            && Core(m'.nodes[sh.p]) == Core(m.nodes[sh.p]).(key := NULL)
            && Same(m, m', Addrs(sh) - {sh.p, sh.key}) && sh.key !in m'.Live()
  {
    hide Linked, Addrs, AddrsOf, ValueOf;
    AddrsParts(sh);
    KeysApart(sh);
    hide Separate;
    UnlinkedElsewhere(m, sh.p);
    hide Unlinked;
  }

  lemma DeleteHanging(m: Mem, sh: Shape)
    requires Deletable(m, sh) && m.nodes[sh.p].parent != NULL
    ensures var m' := Unlinked(m, sh.p);
            && Linked(m', sh.(key := NULL)) && m'.Sane()
            && m'.nodes[sh.p].tag == m.nodes[sh.p].tag
            && m'.Without(Addrs(sh.(key := NULL))) == m'.Without(Addrs(sh))
  {
    hide Linked, Addrs, AddrsOf, ValueOf;
    LinkedParts(m, sh);
    HangingKey(m, sh);
    hide Separate, NodeOk, Chained, Unlinked, Deletable;
    LinkedRekey(m, Unlinked(m, sh.p), sh, NULL);
    KeyGone(Unlinked(m, sh.p), Addrs(sh), sh.key);
  }

  /** After json_remove_from_parent the tree to delete stands on its own, without its key. */
  lemma DeleteRoot(m: Mem, sh: Shape)
    requires Deletable(m, sh)
    ensures var m' := Unlinked(m, sh.p);
            && Linked(m', sh.(key := NULL)) && m'.Sane()
            && m'.nodes[sh.p].tag == m.nodes[sh.p].tag
            && m'.Without(Addrs(sh.(key := NULL))) == m'.Without(Addrs(sh))
  {
    hide Linked, Addrs, AddrsOf, ValueOf;
    if m.nodes[sh.p].parent == NULL {
      assert sh.(key := NULL) == sh;
    } else {
      DeleteHanging(m, sh);
    }
  }

  lemma KeyGone(m: Mem, a: set<Ptr>, key: Ptr)
    requires key !in m.Live()
    ensures m.Without(a - {key}) == m.Without(a)
  {
    assert m.nodes - (a - {key}) == m.nodes - a;
    assert m.blocks - (a - {key}) == m.blocks - a;
  }

  lemma KidDeletable(m: Mem, sh: Shape, k: nat)
    requires Linked(m, sh) && IsContainer(m.nodes[sh.p].tag) && k < |sh.kids| && m.Sane()
    ensures Deletable(m, sh.kids[k])
  {
    hide Addrs, AddrsOf;
    KidCanUnlink(m, sh, k);
    AddrsParts(sh);
    KidSubset(sh.kids, k);
    NoNull(m, sh);
    if k > 0 {
      KidSubset(sh.kids, k - 1);
      KidsApart(sh.kids, k - 1, k);
    }
    if k + 1 < |sh.kids| {
      KidSubset(sh.kids, k + 1);
      KidsApart(sh.kids, k + 1, k);
    }
  }

  lemma TouchedInside(sh: Shape, k: nat)
    requires k < |sh.kids|
    ensures Touched(sh, k) <= Addrs(sh)
  {
    hide Addrs, AddrsOf;
    AddrsParts(sh);
    AddrsParts(sh.kids[k]);
    KidSubset(sh.kids, k);
    if k > 0 { KidSubset(sh.kids, k - 1); }
    if k + 1 < |sh.kids| { KidSubset(sh.kids, k + 1); }
  }

  lemma OnlyAtWithout(m: Mem, m': Mem, a: set<Ptr>, b: set<Ptr>)
    requires OnlyAt(m, m', a) && a <= b
    ensures m'.Without(b) == m.Without(b)
  {
    assert m'.nodes - b == m.nodes - b;
    assert m'.blocks - b == m.blocks - b;
  }

  /** The cells of the k-th child and of what remains make up those of the whole tree. */
  lemma DeletedWithout(m: Mem, u: Mem, sh: Shape, k: nat)
    requires Separate(sh) && k < |sh.kids| && OnlyAt(m, u, Touched(sh, k))
    ensures u.Without(Addrs(sh.kids[k])).Without(Addrs(sh.(kids := Dropped(sh.kids, k)))) == m.Without(Addrs(sh))
  {
    hide Addrs, AddrsOf;
    var a := Addrs(sh.kids[k]);
    var b := Addrs(sh.(kids := Dropped(sh.kids, k)));
    RemovedSeparate(sh, k);
    TouchedInside(sh, k);
    OnlyAtWithout(m, u, Touched(sh, k), Addrs(sh));
    assert a + b == Addrs(sh);
    WithoutWithout(u, a, b);
  }

  lemma WithoutWithout(m: Mem, a: set<Ptr>, b: set<Ptr>)
    ensures m.Without(a).Without(b) == m.Without(a + b)
  {
    assert m.nodes - a - b == m.nodes - (a + b);
    assert m.blocks - a - b == m.blocks - (a + b);
  }

  lemma DeletedLinked(m: Mem, sh: Shape, k: nat)
    requires Linked(m, sh) && IsContainer(m.nodes[sh.p].tag) && k < |sh.kids| && m.Sane()
    requires CanUnlink(m, sh.kids[k].p)
    ensures var m' := Unlinked(m, sh.kids[k].p).Without(Addrs(sh.kids[k]));
            var sh' := sh.(kids := Dropped(sh.kids, k));
            Linked(m', sh') && ValueOf(m', sh') == WithoutChild(ValueOf(m, sh), k)
  {
    hide Addrs, AddrsOf;
    var u := Unlinked(m, sh.kids[k].p);
    UnlinkParent(m, sh, k);
    DroppedElems(m, sh, k);
    RemovedSeparate(sh, k);
    LinkedSame(u, u.Without(Addrs(sh.kids[k])), sh.(kids := Dropped(sh.kids, k)));
  }

  /**
   * json_delete on the k-th child of a well-linked tree: its cells are gone, the rest of the tree is well
   * linked with exactly that child removed, and no cell outside the tree changes.
   */
  lemma DeleteChildRefines(m: Mem, sh: Shape, k: nat)
    requires Linked(m, sh) && IsContainer(m.nodes[sh.p].tag) && k < |sh.kids| && m.Sane()
    ensures Deletable(m, sh.kids[k])
    ensures var m' := Unlinked(m, sh.kids[k].p).Without(Addrs(sh.kids[k]));
            var sh' := sh.(kids := Dropped(sh.kids, k));
            && Linked(m', sh') && ValueOf(m', sh') == WithoutChild(ValueOf(m, sh), k)
            && m'.Sane() && m'.nodes[sh.p].tag == m.nodes[sh.p].tag
            && m'.Without(Addrs(sh')) == m.Without(Addrs(sh))
  {
    hide Addrs, AddrsOf;
    KidDeletable(m, sh, k);
    UnlinkCells(m, sh, k);
    DeletedLinked(m, sh, k);
    DeletedWithout(m, Unlinked(m, sh.kids[k].p), sh, k);
  }
}
