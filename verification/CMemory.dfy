/**
 * The C heap: the live JsonNode structs and the live malloc'ed byte blocks, by address. Reading or
 * writing through a pointer requires it to be live, and so does freeing it.
 */
module CMemory {
  import opened CStrings
  import opened Json

  type Ptr = nat
  const NULL: Ptr := 0

  datatype Tag = JsonNull | JsonBool | JsonString | JsonNumber | JsonArray | JsonObject

  /** struct JsonNode; the members of its union are kept apart, each is only used under its own tag. */
  datatype Node = Node(
    parent: Ptr, prev: Ptr, next: Ptr, key: Ptr, tag: Tag,
    bool_: bool, string_: Ptr, number_: Double, head: Ptr, tail: Ptr)

  function ZeroNode(tag: Tag): Node {
    Node(NULL, NULL, NULL, NULL, tag, false, NULL, 0, NULL, NULL)
  }

  datatype Mem = Mem(nodes: map<Ptr, Node>, blocks: map<Ptr, bytes>) {
    function Live(): set<Ptr> {
      nodes.Keys + blocks.Keys
    }

    /** The memory after the addresses in a are freed. */
    function Without(a: set<Ptr>): Mem {
      Mem(nodes - a, blocks - a)
    }

    function PutNode(p: Ptr, n: Node): Mem {
      this.(nodes := nodes[p := n])
    }

    function PutBlock(p: Ptr, b: bytes): Mem {
      this.(blocks := blocks[p := b])
    }

    /** One address space: no cell at NULL, no address both a node and a block. */
    predicate Sane() {
      NULL !in Live() && nodes.Keys !! blocks.Keys
    }

    /** A live block holding a terminated string. */
    predicate HoldsString(p: Ptr) {
      p in blocks && Terminated(blocks[p])
    }
  }

  lemma {:induction false} Above(s: set<Ptr>) returns (p: Ptr)
    ensures p != NULL && forall q :: q in s ==> q < p
  {
    if s == {} {
      p := 1;
    } else {
      var q :| q in s;
      var p' := Above(s - {q});
      p := if q < p' then p' else q + 1;
      forall r | r in s ensures r < p {
        assert r == q || r in s - {q};
      }
    }
  }

  /** A block of the given size whose bytes are arbitrary. */
  function Sized(junk: bytes, size: nat): (b: bytes)
    ensures |b| == size
  {
    if |junk| >= size then junk[..size] else junk + seq(size - |junk|, _ => 0)
  }

  class CHeap {
    var mem: Mem

    constructor ()
      ensures mem == Mem(map[], map[])
    {
      mem := Mem(map[], map[]);
    }

    method FreshAddress() returns (p: Ptr)
      ensures p != NULL && p !in mem.Live()
    {
      ghost var bound := Above(mem.Live());
      assert bound !in mem.Live();
      p :| p != NULL && p !in mem.Live();
    }

    /** mknode: a zeroed node with its tag */
    method MakeNode(tag: Tag) returns (p: Ptr)
      modifies this
      ensures p != NULL && p !in old(mem.Live())
      ensures mem == old(mem).PutNode(p, ZeroNode(tag))
    {
      p := FreshAddress();
      mem := mem.PutNode(p, ZeroNode(tag));
    }

    /** malloc: the bytes of the block are whatever was there */
    method Malloc(size: nat) returns (p: Ptr)
      modifies this
      ensures p != NULL && p !in old(mem.Live())
      ensures p in mem.blocks && |mem.blocks[p]| == size
      ensures mem == old(mem).PutBlock(p, mem.blocks[p])
    {
      p := FreshAddress();
      var junk: bytes := *;
      mem := mem.PutBlock(p, Sized(junk, size));
    }

    /** realloc to a larger size: the block may move, its bytes are kept */
    method Realloc(p: Ptr, size: nat) returns (q: Ptr)
      requires p in mem.blocks && p !in mem.nodes && p != NULL && |mem.blocks[p]| <= size
      modifies this
      ensures q != NULL && (q == p || q !in old(mem.Live()))
      ensures q in mem.blocks && |mem.blocks[q]| == size && old(mem.blocks[p]) <= mem.blocks[q]
      ensures mem == old(mem).Without({p}).PutBlock(q, mem.blocks[q])
    {
      var block := mem.blocks[p];
      var junk: bytes := *;
      var moves: bool := *;
      if moves {
        q := FreshAddress();
      } else {
        q := p;
      }
      mem := Mem(mem.nodes, (mem.blocks - {p})[q := block + Sized(junk, size - |block|)]);
      assert old(mem).nodes - {p} == old(mem).nodes;
    }

    /** free of a node */
    method FreeNode(p: Ptr)
      requires p in mem.nodes
      modifies this
      ensures mem == old(mem).(nodes := old(mem).nodes - {p})
    {
      mem := mem.(nodes := mem.nodes - {p});
    }

    /** free of a byte block; free(NULL) does nothing */
    method Free(p: Ptr)
      requires p != NULL ==> p in mem.blocks
      modifies this
      ensures mem == if p == NULL then old(mem) else old(mem).(blocks := old(mem).blocks - {p})
    {
      if p != NULL {
        mem := mem.(blocks := mem.blocks - {p});
      }
    }

    /** `*p` for a node pointer */
    function At(p: Ptr): Node
      requires p in mem.nodes
      reads this
    {
      mem.nodes[p]
    }

    /** Assignment to fields of a live node */
    method Set(p: Ptr, n: Node)
      requires p in mem.nodes
      modifies this
      ensures mem == old(mem).PutNode(p, n)
    {
      mem := mem.PutNode(p, n);
    }

    /** `p[i] = c` inside a live block */
    method Store(p: Ptr, i: nat, c: byte)
      requires p in mem.blocks && i < |mem.blocks[p]|
      modifies this
      ensures mem == old(mem).PutBlock(p, old(mem).blocks[p][i := c])
    {
      mem := mem.PutBlock(p, mem.blocks[p][i := c]);
    }
  }

  /** m1 is m0 plus exactly the newly allocated addresses a. */
  ghost predicate Grown(m0: Mem, m1: Mem, a: set<Ptr>) {
    a !! m0.Live() && a <= m1.Live() && NULL !in a && m1.Without(a) == m0
  }

  lemma GrownTrans(m0: Mem, m1: Mem, m2: Mem, a: set<Ptr>, b: set<Ptr>)
    requires Grown(m0, m1, a) && Grown(m1, m2, b)
    ensures Grown(m0, m2, a + b) && a !! b
  {
    assert m2.Without(a + b) == m2.Without(b).Without(a);
    assert m1.Live() <= m2.Live();
  }
}
