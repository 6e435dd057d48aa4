/** json_find_element, json_find_member and json_check. */
module NodeQueries {
  import opened CStrings
  import Utf8
  import opened StringEmission
  import opened Json
  import opened Printing
  import opened CMemory
  import opened Shapes
  import opened ChildLists
  import opened Printer

  /** json_first_child: the first child, NULL where there is none: for empty containers and for other nodes. */
  method JsonFirstChild(h: CHeap, node: Ptr, ghost sh: Shape) returns (r: Ptr)
    requires node != NULL ==> sh.p == node && Linked(h.mem, sh)
    ensures r == if node == NULL then NULL else PtrAt(sh.kids, 0)
  {
    hide Addrs, AddrsOf;
    if node != NULL { LinkedNode(h.mem, sh); }
    r := if node != NULL && IsContainer(h.At(node).tag) then h.At(node).head else NULL;
  }

  /** json_find_element: the child at the index, NULL outside the list and for anything but an array. */
  method JsonFindElement(h: CHeap, array_: Ptr, index: int, ghost sh: Shape) returns (r: Ptr)
    requires array_ != NULL ==> sh.p == array_ && Linked(h.mem, sh)
    ensures r == if array_ != NULL && h.mem.nodes[array_].tag.JsonArray? then PtrAt(sh.kids, index) else NULL
  {
    hide Addrs, AddrsOf;
    if array_ == NULL || !h.At(array_).tag.JsonArray? {
      return NULL;
    }
    FirstKid(h.mem, sh);
    var i := 0;
    var element := JsonFirstChild(h, array_, sh);
    while element != NULL
      invariant 0 <= i <= |sh.kids| && element == PtrAt(sh.kids, i) && (0 <= index ==> i <= index)
      invariant i < |sh.kids| ==> element != NULL
      decreases |sh.kids| - i
    {
      if i == index {
        return element;
      }
      KidOf(h.mem, sh, i);
      i := i + 1;
      element := h.At(element).next;
    }
    return NULL;
  }

  /** Whether the k-th child carries the key name. */
  ghost predicate HasKey(m: Mem, sh: Shape, k: nat, name: bytes)
    requires k < |sh.kids|
  {
    StringIn(m, sh.kids[k].key) == name
  }

  /** None of the first n children carries the key. */
  ghost predicate NoneHas(m: Mem, sh: Shape, n: nat, name: bytes)
    requires n <= |sh.kids|
  {
    forall j :: 0 <= j < n ==> !HasKey(m, sh, j, name)
  }

  lemma NoneHasYet(m: Mem, sh: Shape, name: bytes)
    ensures NoneHas(m, sh, 0, name)
  {
  }

  lemma NoneHasStep(m: Mem, sh: Shape, k: nat, name: bytes)
    requires k < |sh.kids| && NoneHas(m, sh, k, name) && !HasKey(m, sh, k, name)
    ensures NoneHas(m, sh, k + 1, name)
  {
  }

  lemma KeyRead(m: Mem, sh: Shape, k: nat, name: bytes)
    requires k < |sh.kids| && sh.kids[k].key != NULL && sh.kids[k].key in m.blocks
    ensures HasKey(m, sh, k, name) <==> CStr(m.blocks[sh.kids[k].key]) == name
  {
  }

  /** json_find_member: the first child with the key, NULL if there is none and for anything but an object. */
  method JsonFindMember(h: CHeap, object_: Ptr, name: bytes, ghost sh: Shape) returns (r: Ptr, ghost k: nat)
    requires object_ != NULL ==> sh.p == object_ && Linked(h.mem, sh)
    ensures object_ == NULL || !h.mem.nodes[object_].tag.JsonObject? ==> r == NULL
    ensures object_ != NULL && h.mem.nodes[object_].tag.JsonObject? ==>
              && k <= |sh.kids| && r == PtrAt(sh.kids, k)
              && (k < |sh.kids| ==> r != NULL && HasKey(h.mem, sh, k, name))
              && NoneHas(h.mem, sh, k, name)
  {
    k := 0;
    if object_ != NULL { LinkedNode(h.mem, sh); }
    hide Linked, Addrs, AddrsOf, HasKey, NoneHas, NodeOk;
    NoneHasYet(h.mem, sh, name);
    if object_ == NULL || !h.At(object_).tag.JsonObject? {
      return NULL, 0;
    }
    FirstKid(h.mem, sh);
    var member_ := JsonFirstChild(h, object_, sh);
    while member_ != NULL
      invariant 0 <= k <= |sh.kids| && member_ == PtrAt(sh.kids, k) && (k < |sh.kids| ==> member_ != NULL)
      invariant NoneHas(h.mem, sh, k, name)
      decreases |sh.kids| - k
    {
      KidOf(h.mem, sh, k);
      KeyRead(h.mem, sh, k, name);
      if CStr(h.mem.blocks[h.At(member_).key]) == name {   // strcmp(...) == 0
        return member_, k;
      }
      NoneHasStep(h.mem, sh, k, name);
      k := k + 1;
      member_ := h.At(member_).next;
    }
    return NULL, k;
  }

  // ------------------------------------------------------------------ json_check

  /**
   * A finite tree as json_check finds it by following head and next only, with live strings. Nothing is
   * known of the parent, prev and tail pointers, of which children have keys, and of the encoding.
   */
  ghost predicate Walkable(m: Mem, sh: Shape)
    decreases sh
  {
    && sh.p in m.nodes && Separate(sh)
    && var n := m.nodes[sh.p];
    && n.key == sh.key && (sh.key != NULL ==> m.HoldsString(sh.key))
    && sh.str == (if n.tag.JsonString? then n.string_ else NULL) && (sh.str != NULL ==> m.HoldsString(sh.str))
    && (IsContainer(n.tag) ==> n.head == PtrAt(sh.kids, 0)) && (!IsContainer(n.tag) ==> sh.kids == [])
    && forall i :: 0 <= i < |sh.kids| ==> Walkable(m, sh.kids[i]) && NextOk(m, sh, i)
  }

  ghost predicate NextOk(m: Mem, sh: Shape, i: nat)
    requires i < |sh.kids|
  {
    sh.kids[i].p in m.nodes && m.nodes[sh.kids[i].p].next == PtrAt(sh.kids, i + 1)
  }

  /** What json_check decides: well linked, with valid UTF-8 in every string and key. */
  ghost predicate WellFormed(m: Mem, sh: Shape) {
    Linked(m, sh) && Checked(ValueOf(m, sh)) && KeyValid(m, sh)
  }

  ghost predicate KeyValid(m: Mem, sh: Shape) {
    sh.key != NULL ==> Utf8Text(StringIn(m, sh.key))
  }

  ghost predicate StringValid(m: Mem, sh: Shape)
    requires sh.p in m.nodes
  {
    m.nodes[sh.p].tag.JsonString? ==> sh.str != NULL && Utf8Text(StringIn(m, sh.str))
  }

  /** What the loop of json_check verifies of one child. */
  ghost predicate ChildSound(m: Mem, sh: Shape, i: nat)
    requires sh.p in m.nodes && i < |sh.kids|
  {
    ChildAt(m, sh, i) && WellFormed(m, sh.kids[i])
  }

  lemma {:induction false} ElemsCheckedIff(es: seq<Json>)
    ensures ElemsChecked(es) <==> forall i :: 0 <= i < |es| ==> Checked(es[i])
  {
    if es != [] {
      ElemsCheckedIff(es[1..]);
      assert forall i :: 1 <= i < |es| ==> es[i] == es[1..][i - 1];
    }
  }

  lemma {:induction false} MembersCheckedIff(ms: seq<Member>)
    ensures MembersChecked(ms) <==> forall i :: 0 <= i < |ms| ==> Utf8Text(ms[i].key) && Checked(ms[i].value)
  {
    if ms != [] {
      MembersCheckedIff(ms[1..]);
      assert forall i :: 1 <= i < |ms| ==> ms[i] == ms[1..][i - 1];
    }
  }

  /** A tree is Checked if its own string is and its children and their keys are. */
  lemma ChildrenChecked(m: Mem, sh: Shape)
    requires sh.p in m.nodes && (!IsContainer(m.nodes[sh.p].tag) ==> sh.kids == [])
    requires m.nodes[sh.p].tag.JsonString? ==> sh.str != NULL
    requires forall i :: 0 <= i < |sh.kids| ==> (m.nodes[sh.p].tag.JsonArray? <==> sh.kids[i].key == NULL)
    ensures Checked(ValueOf(m, sh)) <==>
            StringValid(m, sh) && forall i :: 0 <= i < |sh.kids| ==>
                Checked(ValueOf(m, sh.kids[i])) && KeyValid(m, sh.kids[i])
  {
    hide Addrs, AddrsOf;
    if m.nodes[sh.p].tag.JsonArray? {
      ElemsCheckedIff(ElemsOf(m, sh.kids));
    } else if m.nodes[sh.p].tag.JsonObject? {
      MembersCheckedIff(MembersOf(m, sh.kids));
    }
  }

  lemma LinkedRoot(m: Mem, sh: Shape)
    requires Linked(m, sh)
    ensures !IsContainer(m.nodes[sh.p].tag) ==> sh.kids == []
    ensures m.nodes[sh.p].tag.JsonString? ==> sh.str != NULL
    ensures forall i :: 0 <= i < |sh.kids| ==> ChildAt(m, sh, i) && Linked(m, sh.kids[i])
    ensures IsContainer(m.nodes[sh.p].tag) ==> m.nodes[sh.p].tail == PtrAt(sh.kids, |sh.kids| - 1)
  {
    hide Addrs, AddrsOf;
    assert NodeOk(m, sh);
    if IsContainer(m.nodes[sh.p].tag) {
      assert Chained(m, sh);
    }
  }

  lemma WalkableRoot(m: Mem, sh: Shape)
    requires Walkable(m, sh) && StringValid(m, sh)
    ensures sh.p in m.nodes && NodeOk(m, sh) && Separate(sh)
    ensures IsContainer(m.nodes[sh.p].tag) ==> m.nodes[sh.p].head == PtrAt(sh.kids, 0)
    ensures !IsContainer(m.nodes[sh.p].tag) ==> sh.kids == []
  {
    hide Addrs, AddrsOf;
  }

  lemma LinkedFromParts(m: Mem, sh: Shape)
    requires sh.p in m.nodes && NodeOk(m, sh) && Separate(sh)
    requires IsContainer(m.nodes[sh.p].tag) ==>
               m.nodes[sh.p].head == PtrAt(sh.kids, 0) && m.nodes[sh.p].tail == PtrAt(sh.kids, |sh.kids| - 1)
    requires AllLinked(m, sh.kids) && forall i :: 0 <= i < |sh.kids| ==> ChildAt(m, sh, i)
    ensures Linked(m, sh)
  {
    hide Addrs, AddrsOf;
  }

  lemma WellFormedFromParts(m: Mem, sh: Shape)
    requires Walkable(m, sh) && KeyValid(m, sh) && StringValid(m, sh)
    requires IsContainer(m.nodes[sh.p].tag) ==> m.nodes[sh.p].tail == PtrAt(sh.kids, |sh.kids| - 1)
    requires forall i :: 0 <= i < |sh.kids| ==> ChildSound(m, sh, i)
    ensures WellFormed(m, sh)
  {
    hide Addrs, AddrsOf;
    WalkableRoot(m, sh);
    hide Walkable, Linked, NodeOk, Separate, Checked, Utf8Text;
    forall i | 0 <= i < |sh.kids| ensures ChildAt(m, sh, i) && WellFormed(m, sh.kids[i]) {
      assert ChildSound(m, sh, i);
    }
    LinkedFromParts(m, sh);
    SoundKeys(m, sh);
    ChildrenChecked(m, sh);
  }

  lemma SoundKeys(m: Mem, sh: Shape)
    requires sh.p in m.nodes && forall i :: 0 <= i < |sh.kids| ==> ChildAt(m, sh, i)
    requires NodeOk(m, sh)
    ensures forall i :: 0 <= i < |sh.kids| ==> (m.nodes[sh.p].tag.JsonArray? <==> sh.kids[i].key == NULL)
    ensures (!IsContainer(m.nodes[sh.p].tag) ==> sh.kids == []) && (m.nodes[sh.p].tag.JsonString? ==> sh.str != NULL)
  {
    forall i | 0 <= i < |sh.kids| ensures m.nodes[sh.p].tag.JsonArray? <==> sh.kids[i].key == NULL {
      assert ChildAt(m, sh, i);
    }
  }

  lemma PartsOfWellFormed(m: Mem, sh: Shape)
    requires WellFormed(m, sh)
    ensures sh.p in m.nodes && KeyValid(m, sh) && StringValid(m, sh)
    ensures IsContainer(m.nodes[sh.p].tag) ==> m.nodes[sh.p].tail == PtrAt(sh.kids, |sh.kids| - 1)
    ensures forall i :: 0 <= i < |sh.kids| ==> ChildSound(m, sh, i)
  {
    hide Addrs, AddrsOf;
    LinkedRoot(m, sh);
    LinkedNode(m, sh);
    hide Linked, NodeOk, Separate, Checked, Utf8Text;
    SoundKeys(m, sh);
    ChildrenChecked(m, sh);
  }

  lemma LinkedNode(m: Mem, sh: Shape)
    requires Linked(m, sh)
    ensures NodeOk(m, sh)
  {
    hide Addrs, AddrsOf;
  }

  /** What json_check has to find out about a tree it can walk. */
  lemma WellFormedIff(m: Mem, sh: Shape)
    requires Walkable(m, sh)
    ensures WellFormed(m, sh) <==>
            && KeyValid(m, sh) && StringValid(m, sh)
            && (IsContainer(m.nodes[sh.p].tag) ==> m.nodes[sh.p].tail == PtrAt(sh.kids, |sh.kids| - 1))
            && forall i :: 0 <= i < |sh.kids| ==> ChildSound(m, sh, i)
  {
    hide Walkable, WellFormed, KeyValid, StringValid, ChildSound;
    WalkableNode(m, sh);
    if WellFormed(m, sh) {
      PartsOfWellFormed(m, sh);
    }
    if && KeyValid(m, sh) && StringValid(m, sh)
       && (IsContainer(m.nodes[sh.p].tag) ==> m.nodes[sh.p].tail == PtrAt(sh.kids, |sh.kids| - 1))
       && forall i :: 0 <= i < |sh.kids| ==> ChildSound(m, sh, i) {
      WellFormedFromParts(m, sh);
    }
  }

  lemma WalkableNode(m: Mem, sh: Shape)
    requires Walkable(m, sh)
    ensures sh.p in m.nodes && Separate(sh)
    ensures var n := m.nodes[sh.p];
            && n.key == sh.key && (sh.key != NULL ==> sh.key in m.blocks)
            && (n.tag.JsonString? ==> sh.str == n.string_ && (sh.str != NULL ==> sh.str in m.blocks))
            && (IsContainer(n.tag) ==> n.head == PtrAt(sh.kids, 0)) && (!IsContainer(n.tag) ==> sh.kids == [])
  {
    hide Addrs, AddrsOf;
  }

  /** A well-linked tree can be walked; so json_check accepts every tree with valid UTF-8 that the parser builds. */
  lemma {:induction false} LinkedIsWalkable(m: Mem, sh: Shape)
    requires Linked(m, sh)
    ensures Walkable(m, sh)
    decreases sh
  {
    hide Addrs, AddrsOf;
    assert NodeOk(m, sh);
    forall i | 0 <= i < |sh.kids| ensures Walkable(m, sh.kids[i]) && NextOk(m, sh, i) {
      KidOf(m, sh, i);
      LinkedIsWalkable(m, sh.kids[i]);
    }
  }

  lemma WalkableParts(m: Mem, sh: Shape)
    requires Walkable(m, sh)
    ensures sh.p in m.nodes && Separate(sh)
    ensures forall i :: 0 <= i < |sh.kids| ==> Walkable(m, sh.kids[i]) && NextOk(m, sh, i)
  {
    hide Separate, Addrs, AddrsOf;
  }

  lemma WalkableRootNode(m: Mem, sh: Shape)
    requires Walkable(m, sh)
    ensures sh.p != NULL && sh.p in m.nodes && m.nodes[sh.p].key == sh.key
  {
    hide Addrs, AddrsOf;
  }

  /** A child met on the walk. */
  lemma WalkableKid(m: Mem, sh: Shape, k: nat)
    requires Walkable(m, sh) && k < |sh.kids|
    ensures sh.p in m.nodes && Walkable(m, sh.kids[k]) && NextOk(m, sh, k)
    ensures sh.kids[k].p != NULL && m.nodes[sh.kids[k].p].key == sh.kids[k].key
    ensures sh.kids[k].p != sh.p && PtrAt(sh.kids, k + 1) != sh.kids[k].p &&
        (k + 1 < |sh.kids| ==> PtrAt(sh.kids, k + 1) != PtrAt(sh.kids, 0))
    ensures k + 1 < |sh.kids| ==> NextOk(m, sh, k + 1) && PtrAt(sh.kids, k + 1) != NULL
    ensures PtrAt(sh.kids, 0) != NULL
  {
    hide Addrs, AddrsOf;
    WalkableParts(m, sh);
    hide Walkable;
    WalkableRootNode(m, sh.kids[k]);
    WalkableRootNode(m, sh.kids[0]);
    RootsDiffer(sh, k, k);
    if k + 1 < |sh.kids| {
      WalkableRootNode(m, sh.kids[k + 1]);
      RootsDiffer(sh, k, k + 1);
      RootsDiffer(sh, 0, k + 1);
    }
  }

  /** One round of json_check's loop, for a child whose prev pointer is known to be right. */
  method CheckChild(h: CHeap, node: Ptr, child: Ptr, head: Ptr, ghost sh: Shape, ghost k: nat) returns (ok: bool)
    requires sh.p == node && Walkable(h.mem, sh) && IsContainer(h.mem.nodes[node].tag) && k < |sh.kids|
    requires child == sh.kids[k].p && head == PtrAt(sh.kids, 0) && child in h.mem.nodes
    requires h.mem.nodes[child].prev == PtrAt(sh.kids, k - 1)
    ensures ok <==> && ChildSound(h.mem, sh, k)
                    && (k + 1 < |sh.kids| ==> NextOk(h.mem, sh, k + 1) && h.mem.nodes[sh.kids[k + 1].p].prev == child)
    decreases sh, 0
  {
    WalkableKid(h.mem, sh, k);
    hide Walkable, Linked, Addrs, AddrsOf, WellFormed;
    var c := h.At(child);
    if child == node || c.next == child || c.next == head {
      return false;
    }
    if c.parent != node {
      return false;
    }
    if c.next != NULL && h.At(c.next).prev != child {
      return false;
    }
    if h.At(node).tag.JsonArray? && c.key != NULL {
      return false;
    }
    if h.At(node).tag.JsonObject? && c.key == NULL {
      return false;
    }
    ok := JsonCheck(h, child, sh.kids[k]);
  }

  /** The first n children are sound. */
  ghost predicate FirstSound(m: Mem, sh: Shape, n: nat)
    requires sh.p in m.nodes && n <= |sh.kids|
  {
    forall i :: 0 <= i < n ==> ChildSound(m, sh, i)
  }

  lemma FirstSoundSteps(m: Mem, sh: Shape, k: nat)
    requires sh.p in m.nodes && k < |sh.kids|
    ensures FirstSound(m, sh, 0)
    ensures FirstSound(m, sh, k + 1) <==> FirstSound(m, sh, k) && ChildSound(m, sh, k)
    ensures FirstSound(m, sh, |sh.kids|) ==> ChildSound(m, sh, k)
  {
    hide ChildSound;
  }

  lemma BadPrev(m: Mem, sh: Shape, k: nat)
    requires sh.p in m.nodes && k < |sh.kids| && sh.kids[k].p in m.nodes
    requires m.nodes[sh.kids[k].p].prev != PtrAt(sh.kids, k - 1)
    ensures !FirstSound(m, sh, |sh.kids|)
  {
    hide WellFormed;
    FirstSoundSteps(m, sh, k);
  }

  /** json_check's loop over the children of a container */
  method CheckChildren(h: CHeap, node: Ptr, ghost sh: Shape) returns (ok: bool)
    requires sh.p == node && Walkable(h.mem, sh) && IsContainer(h.mem.nodes[node].tag) && sh.kids != []
    ensures ok <==> && h.mem.nodes[node].tail == PtrAt(sh.kids, |sh.kids| - 1)
                    && FirstSound(h.mem, sh, |sh.kids|)
    decreases sh, 1
  {
    FirstSoundSteps(h.mem, sh, 0);
    WalkableNode(h.mem, sh);
    WalkableKid(h.mem, sh, 0);
    hide Walkable, WellFormed, ChildSound, Separate, FirstSound, Linked, Addrs, AddrsOf, ValueOf;
    var head := h.At(node).head;
    if h.At(head).prev != NULL {
      BadPrev(h.mem, sh, 0);
      return false;
    }
    var child, last := head, NULL;
    ghost var k := 0;
    while child != NULL
      invariant 0 <= k <= |sh.kids| && child == PtrAt(sh.kids, k) && last == PtrAt(sh.kids, k - 1) &&
          (k < |sh.kids| ==> child != NULL)
      invariant k < |sh.kids| ==> child in h.mem.nodes && h.mem.nodes[child].prev == last
      invariant FirstSound(h.mem, sh, k)
      decreases |sh.kids| - k
    {
      WalkableKid(h.mem, sh, k);
      FirstSoundSteps(h.mem, sh, k);
      var sound := CheckChild(h, node, child, head, sh, k);
      if !sound {
        if k + 1 < |sh.kids| && h.mem.nodes[sh.kids[k + 1].p].prev != child { BadPrev(h.mem, sh, k + 1); }
        return false;
      }
      last := child;
      child := h.At(child).next;
      k := k + 1;
    }
    return last == h.At(node).tail;
  }

  /**
   * json_check: on every finite tree that can be walked along its head and next pointers it answers
   * whether the tree is well linked, keyed and encoded.
   */
  method JsonCheck(h: CHeap, node: Ptr, ghost sh: Shape) returns (ok: bool)
    requires sh.p == node && Walkable(h.mem, sh)
    ensures ok <==> WellFormed(h.mem, sh)
    decreases sh, 2
  {
    WellFormedIff(h.mem, sh);
    WalkableNode(h.mem, sh);
    if sh.kids != [] { WalkableKid(h.mem, sh, 0); }
    hide Walkable, WellFormed, ChildSound, Separate;
    var n := h.At(node);
    if n.key != NULL {
      var valid := Utf8.Validate(CStr(h.mem.blocks[n.key]));
      if !valid {
        return false;
      }
    }
    if n.tag.JsonString? {
      if n.string_ == NULL {
        return false;
      }
      ok := Utf8.Validate(CStr(h.mem.blocks[n.string_]));
      return ok;
    }
    if IsContainer(n.tag) {
      if n.head == NULL || n.tail == NULL {
        return n.head == NULL && n.tail == NULL;
      }
      ok := CheckChildren(h, node, sh);
      return ok;
    }
    return true;
  }
}
