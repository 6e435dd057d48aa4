/** The growable string buffer: `struct { char *cur, *end, *start; }` over a malloc'ed block. */
module StringBuffer {
  import opened CStrings
  import opened CMemory

  /** alloc doubled until it is at least size. */
  function Doubled(alloc: nat, size: nat): (r: nat)
    requires alloc > 0
    ensures r >= alloc && r >= size && (r == alloc || r < 2 * size)
    decreases size - alloc
  {
    if alloc >= size then alloc else Doubled(2 * alloc, size)
  }

  function Pow2(k: nat): (r: nat)
    ensures r > 0
  {
    if k == 0 then 1 else 2 * Pow2(k - 1)
  }

  /** Doubling is all that happens to the capacity. */
  lemma {:induction false} DoubledIsPower(alloc: nat, size: nat) returns (k: nat)
    requires alloc > 0
    ensures Doubled(alloc, size) == alloc * Pow2(k)
    decreases size - alloc
  {
    if alloc >= size {
      k := 0;
    } else {
      var k' := DoubledIsPower(2 * alloc, size);
      k := k' + 1;
      assert 2 * alloc * Pow2(k') == alloc * Pow2(k);
    }
  }

  /** What a buffer holds, how much fits and how many bytes its growths have copied so far. */
  datatype Buffer = Buffer(content: bytes, capacity: nat, moved: nat)

  const EMPTY: Buffer := Buffer([], 16, 0)

  /** The capacity once there is room for need more bytes. */
  function Reserved(length: nat, capacity: nat, need: nat): nat
    requires capacity > 0
  {
    if length + need <= capacity then capacity else Doubled(2 * capacity, length + need)
  }

  /** One sb_put, sb_puts or sb_putc. */
  function AfterPut(b: Buffer, s: bytes): Buffer
    requires b.capacity > 0
  {
    Buffer(b.content + s, Reserved(|b.content|, b.capacity, |s|),
           if |b.content| + |s| <= b.capacity then b.moved else b.moved + |b.content|)
  }

  function AfterPuts(b: Buffer, puts: seq<bytes>): (r: Buffer)
    requires b.capacity > 0
    decreases |puts|
  {
    if puts == [] then b else AfterPuts(AfterPut(b, puts[0]), puts[1..])
  }

  function Concatenated(puts: seq<bytes>): bytes {
    if puts == [] then [] else puts[0] + Concatenated(puts[1..])
  }

  /**
   * Any run of puts: the buffer holds their concatenation, its capacity is less than twice what it holds
   * unless it never grew, is 16 times a power of two (which leaves one number for every length), and all
   * growths together copied at most capacity - 16 bytes.
   */
  lemma AmortisedRun(puts: seq<bytes>)
    ensures var r := AfterPuts(EMPTY, puts);
            && r.content == Concatenated(puts) && |r.content| <= r.capacity
            && r.moved <= r.capacity - 16
            && (r == Buffer(r.content, 16, 0) || r.capacity < 2 * |r.content|)
            && exists k: nat :: r.capacity == 16 * Pow2(k)
  {
    assert EMPTY.capacity == 16 * Pow2(0);
    var _ := CapacityIsPower(EMPTY, puts, 0);
    AmortisedFrom(EMPTY, puts);
    assert [] + Concatenated(puts) == Concatenated(puts);
  }

  lemma {:induction false} CapacityIsPower(b: Buffer, puts: seq<bytes>, k: nat) returns (k': nat)
    requires b.capacity == 16 * Pow2(k)
    ensures AfterPuts(b, puts).capacity == 16 * Pow2(k')
    decreases |puts|
  {
    if puts == [] {
      k' := k;
    } else {
      var b' := AfterPut(b, puts[0]);
      var j := k;
      if b'.capacity != b.capacity {
        var i := DoubledIsPower(2 * b.capacity, |b.content| + |puts[0]|);
        j := k + 1 + i;
        Pow2Sum(k + 1, i);
        assert 2 * b.capacity == 16 * Pow2(k + 1);
        TimesAssoc(Pow2(k + 1), Pow2(i));
      }
      k' := CapacityIsPower(b', puts[1..], j);
    }
  }

  lemma TimesAssoc(x: nat, y: nat)
    ensures 16 * x * y == 16 * (x * y)
  {
  }

  lemma {:induction false} Pow2Sum(a: nat, b: nat)
    ensures Pow2(a) * Pow2(b) == Pow2(a + b)
  {
    if b > 0 {
      Pow2Sum(a, b - 1);
      assert Pow2(a) * (2 * Pow2(b - 1)) == 2 * (Pow2(a) * Pow2(b - 1));
    }
  }

  ghost predicate Amortised(b: Buffer) {
    && |b.content| <= b.capacity && 16 + b.moved <= b.capacity
    && (b == Buffer(b.content, 16, 0) || b.capacity < 2 * |b.content|)
  }

  lemma {:induction false} AmortisedFrom(b: Buffer, puts: seq<bytes>)
    requires Amortised(b)
    ensures Amortised(AfterPuts(b, puts)) && AfterPuts(b, puts).content == b.content + Concatenated(puts)
    decreases |puts|
  {
    if puts != [] {
      AmortisedFrom(AfterPut(b, puts[0]), puts[1..]);
      Assoc(b.content, puts[0], Concatenated(puts[1..]));
    }
  }

  class SB {
    const h: CHeap
    var start: Ptr
    var cur: nat   // offset of the cur pointer from start
    var end: nat   // offset of the end pointer from start: the capacity without the terminator's byte
    ghost var moved: nat   // bytes copied by all growths so far

    /** The amortised bound is part of the invariant: all growths together moved at most end - 16 bytes. */
    ghost predicate Valid()
      reads this, h
    {
      && start in h.mem.blocks && start != NULL && start !in h.mem.nodes
      && |h.mem.blocks[start]| == end + 1
      && cur <= end
      && 16 + moved <= end
    }

    /** The bytes written up to offset b; the printers and the parser run ahead of cur with a pointer of their own. */
    ghost function Upto(b: nat): bytes
      requires Valid() && b <= end
      reads this, h
    {
      h.mem.blocks[start][..b]
    }

    ghost function Contents(): bytes
      requires Valid()
      reads this, h
    {
      Upto(cur)
    }

    ghost function State(): Buffer
      requires Valid()
      reads this, h
    {
      Buffer(Contents(), end, moved)
    }

    /** The bytes that making room for need more bytes copies: all of them, or none. */
    function Moves(need: nat): nat
      reads this
    {
      if cur + need > end then cur else 0
    }

    /** All memory but the buffer's own block. */
    ghost function Rest(): Mem
      reads this, h
    {
      Mem(h.mem.nodes, h.mem.blocks - {start})
    }

    /** sb_init */
    constructor (heap: CHeap)
      modifies heap
      ensures h == heap && Valid() && State() == EMPTY && end == 16 && Contents() == []
      ensures Rest() == old(heap.mem) && start !in old(heap.mem.Live())
    {
      h := heap;
      cur, end, moved := 0, 16, 0;
      new;
      var p := heap.Malloc(17);
      start := p;
      assert old(heap.mem).blocks == heap.mem.blocks - {p};
    }

    /** sb_grow: doubles the capacity until need more bytes fit; every growth at least doubles it. */
    method Grow(need: nat)
      requires Valid() && end - cur < need
      modifies this, h
      ensures Valid() && cur == old(cur)
      ensures Upto(cur) == old(Upto(cur)) && Rest() == old(Rest())
      ensures cur + need <= end < 2 * (cur + need) && end == Doubled(2 * old(end), cur + need)
      ensures moved == old(moved) + cur
    {
      var length, alloc := cur, end;
      alloc := alloc * 2;
      while alloc < length + need
        invariant 2 * end <= alloc < 2 * (length + need)
        invariant Doubled(2 * end, length + need) == Doubled(alloc, length + need)
        decreases length + need - alloc
      {
        alloc := alloc * 2;
      }
      ghost var rest := Rest();
      var p := h.Realloc(start, alloc + 1);
      start, end := p, alloc;
      moved := moved + length;
      assert Rest().blocks == rest.blocks;
    }

    /** sb_need */
    method Need(need: nat)
      requires Valid()
      modifies this, h
      ensures Valid() && cur == old(cur) && cur + need <= end
      ensures Upto(cur) == old(Upto(cur)) && Rest() == old(Rest())
      ensures end == Reserved(old(cur), old(end), need) && moved == old(moved + Moves(need))
    {
      if end - cur < need {
        Grow(need);
      }
    }

    /** `*b++ = c` without a check: the caller must have reserved the byte. */
    method Poke(b: nat, c: byte)
      requires Valid() && b < end
      modifies h
      ensures Valid() && Upto(b + 1) == old(Upto(b)) + [c] && Rest() == old(Rest())
    {
      ghost var rest := Rest();
      h.Store(start, b, c);
      assert Rest().blocks == rest.blocks;
    }

    /** The bytes of content one after the other, each by `*b++ = c`. */
    method PokeAll(b: nat, content: bytes) returns (b': nat)
      requires Valid() && b + |content| <= end
      modifies h
      ensures b' == b + |content| && Valid() && Upto(b') == old(Upto(b)) + content && Rest() == old(Rest())
    {
      b' := b;
      while b' < b + |content|
        invariant b <= b' <= b + |content| && Valid() && Rest() == old(Rest())
        invariant Upto(b') == old(Upto(b)) + content[..b' - b]
      {
        Poke(b', content[b' - b]);
        b' := b' + 1;
      }
    }

    /** `sb->cur = b`: what was written through the pointer that ran ahead becomes content */
    method Commit(b: nat)
      requires Valid() && b <= end
      modifies this
      ensures Valid() && cur == b && end == old(end) && Contents() == old(Upto(b)) && Rest() == old(Rest())
      ensures Upto(b) == old(Upto(b)) && moved == old(moved)
    {
      cur := b;
    }

    /** sb_put */
    method Put(bytes_: bytes)
      requires Valid()
      modifies this, h
      ensures Valid() && Contents() == old(Contents()) + bytes_ && Rest() == old(Rest())
      ensures State() == AfterPut(old(State()), bytes_)
    {
      Need(|bytes_|);
      cur := PokeAll(cur, bytes_);   // memcpy
    }

    /** sb_putc */
    method PutChar(c: byte)
      requires Valid()
      modifies this, h
      ensures Valid() && Contents() == old(Contents()) + [c] && Rest() == old(Rest())
      ensures State() == AfterPut(old(State()), [c])
    {
      if cur >= end {
        Grow(1);
      }
      Poke(cur, c);
      cur := cur + 1;
    }

    /** sb_finish: terminates the string; its assertion is that the content has no NUL in it. */
    method Finish() returns (p: Ptr)
      requires Valid() && NulFree(Contents())
      modifies h
      ensures p == start && p in h.mem.blocks && StrLen(h.mem.blocks[p]) == cur
      ensures h.mem.HoldsString(p) && CStr(h.mem.blocks[p]) == old(Contents())
      ensures Rest() == old(Rest()) && p !in h.mem.nodes && p != NULL
    {
      ghost var rest := Rest();
      h.Store(start, cur, 0);
      assert h.mem.blocks[start][..cur] == old(Contents());
      StrLenIs(h.mem.blocks[start], cur);
      assert Rest().blocks == rest.blocks;
      return start;
    }

    /** sb_free */
    method Release()
      requires Valid()
      modifies h
      ensures h.mem == old(Rest())
    {
      h.Free(start);
    }
  }
}
