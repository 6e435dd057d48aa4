/** The directory records DirentBuilder packs, and the reader that walks them by d_reclen. */
module Dirents {
  import opened CStrings

  const TWO_16: nat := 0x1_0000
  const HEADER: nat := 18     // offset of d_name: d_ino and d_off take 8 bytes each, d_reclen 2
  const MAX_NAME: nat := 65508

  function Pow256(k: nat): (r: nat)
    ensures r > 0
  {
    if k == 0 then 1 else 256 * Pow256(k - 1)
  }

  /** An unsigned integer of k bytes as it lies in memory, lowest byte first; the conversion wraps. */
  function Bytes(n: int, k: nat): (s: bytes)
    ensures |s| == k
    decreases k
  {
    if k == 0 then [] else [n % 256] + Bytes(n / 256, k - 1)
  }

  function Number(s: bytes): nat {
    if s == [] then 0 else s[0] + 256 * Number(s[1..])
  }

  lemma Product(m: nat, d: int)
    ensures d >= 1 ==> m * d >= m
    ensures d <= -1 ==> m * d + m <= 0
  {
  }

  lemma Remainder(m: nat, q: int, r: nat)
    requires r < m
    ensures (m * q + r) % m == r
  {
    var n := m * q + r;
    var d := n / m - q;
    assert n == m * (n / m) + n % m;
    assert m * d == m * (n / m) - m * q == r - n % m;
    Product(m, d);
  }

  lemma ModSplit(n: int, p: nat)
    requires p > 0
    ensures n % 256 + 256 * (n / 256 % p) == n % (256 * p)
  {
    var q, r := n / 256, n % 256;
    var q', r' := q / p, q % p;
    assert q == p * q' + r';
    assert n == 256 * p * q' + (256 * r' + r);
    Remainder(256 * p, q', 256 * r' + r);
  }

  /** Reading k bytes back gives the number modulo 256^k. */
  lemma {:induction false} NumberOfBytes(n: int, k: nat)
    ensures Number(Bytes(n, k)) == n % Pow256(k)
    decreases k
  {
    if k > 0 {
      assert Bytes(n, k)[1..] == Bytes(n / 256, k - 1);
      NumberOfBytes(n / 256, k - 1);
      ModSplit(n, Pow256(k - 1));
    }
  }

  /** Byte order: the k-th byte counts 256^k. */
  lemma {:induction false} ByteAt(n: int, k: nat, i: nat)
    requires i < k
    ensures Bytes(n, k)[i] == n / Pow256(i) % 256
    decreases k
  {
    if i > 0 {
      ByteAt(n / 256, k - 1, i - 1);
      DivDiv(n, Pow256(i - 1));
    }
  }

  lemma DivDiv(n: int, p: nat)
    requires p > 0
    ensures n / 256 / p == n / (256 * p)
  {
    var q := n / 256 / p;
    var r := n - 256 * p * q;
    assert n == 256 * (n / 256) + n % 256 && n / 256 == p * q + n / 256 % p;
    assert r == 256 * (n / 256 % p) + n % 256;
    Quotient(256 * p, q, r);
  }

  lemma Quotient(m: nat, q: int, r: nat)
    requires r < m
    ensures (m * q + r) / m == q
  {
    var n := m * q + r;
    Remainder(m, q, r);
    assert n == m * (n / m) + r;
    var d := n / m - q;
    assert m * d == m * (n / m) - m * q == 0;
    Product(m, d);
  }

  /** An int stored in an unsigned long. */
  function Unsigned(n: int): nat {
    n % Pow256(8)
  }

  // -- the record length, in unsigned short arithmetic

  /** min_reclen for a name of the given length. */
  function MinRecLen(nameLen: nat): nat {
    (nameLen + 20) % TWO_16
  }

  /** reclen after n rounds of the loop that adds 8 to it. */
  function RecLenAfter(n: nat): nat {
    (24 + 8 * n) % TWO_16
  }

  /** The loop stops with a record that has room for the header, the name, a NUL and the type. */
  ghost predicate HoldsName(nameLen: nat, n: nat) {
    && RecLenAfter(n) >= MinRecLen(nameLen) && RecLenAfter(n) >= nameLen + 20
    && forall k: nat :: k < n ==> RecLenAfter(k) < MinRecLen(nameLen)
  }

  /** The least multiple of 8 from 24 on that is large enough. */
  function RecLen(nameLen: nat): (r: nat)
    ensures r % 8 == 0 && r >= 24 && r >= nameLen + 20
  {
    if nameLen <= 4 then 24 else (nameLen + 27) / 8 * 8
  }

  lemma RecLenIsLeast(nameLen: nat, r: nat)
    requires r % 8 == 0 && r >= 24 && r >= nameLen + 20
    ensures RecLen(nameLen) <= r
  {
  }

  lemma RecLenIsAligned(n: nat)
    ensures RecLenAfter(n) % 8 == 0 && RecLenAfter(n) <= 65528
  {
    var q := (24 + 8 * n) / TWO_16;
    assert RecLenAfter(n) == 8 * (3 + n - 8192 * q);
  }

  /**
   * The loop ends in a record that holds the name exactly for names of at most 65508 bytes: up to 65515
   * no multiple of 8 that fits an unsigned short is large enough, from 65516 on min_reclen itself wraps.
   */
  lemma NameFitsIff(nameLen: nat)
    ensures (exists n: nat :: HoldsName(nameLen, n)) <==> nameLen <= MAX_NAME
  {
    if nameLen <= MAX_NAME {
      var n := (RecLen(nameLen) - 24) / 8;
      assert RecLenAfter(n) == RecLen(nameLen);
      assert HoldsName(nameLen, n);
    } else {
      forall n: nat ensures !HoldsName(nameLen, n) {
        RecLenIsAligned(n);
      }
    }
  }

  /** The loop ends exactly if min_reclen, as it wraps, is at most the largest multiple of 8. */
  lemma LoopEndsIff(nameLen: nat)
    ensures (exists n: nat :: RecLenAfter(n) >= MinRecLen(nameLen)) <==> MinRecLen(nameLen) <= 65528
  {
    if MinRecLen(nameLen) <= 65528 {
      assert RecLenAfter(8188) == 65528;
    } else {
      forall n: nat ensures RecLenAfter(n) < MinRecLen(nameLen) {
        RecLenIsAligned(n);
      }
    }
  }

  /** No record length has room for a name beyond the bound; from 65516 bytes on the loop may end with one. */
  lemma LongNameOverruns(nameLen: nat, n: nat)
    requires nameLen > MAX_NAME
    ensures RecLenAfter(n) < nameLen + 20
    ensures nameLen == TWO_16 - 20 ==> RecLenAfter(0) >= MinRecLen(nameLen)
  {
    RecLenIsAligned(n);
  }

  /** From 65509 to 65515 bytes the loop never ends. */
  lemma LoopsForever(nameLen: nat, n: nat)
    requires MAX_NAME < nameLen < TWO_16 - 20
    ensures RecLenAfter(n) < MinRecLen(nameLen)
  {
    RecLenIsAligned(n);
  }

  // -- records

  datatype Item = Item(name: bytes, type_: byte)

  function Zeros(n: nat): (s: bytes)
    ensures |s| == n && forall i :: 0 <= i < n ==> s[i] == 0
  {
    seq(n, _ => 0)
  }

  function Record(idx: int, inode: int, item: Item): (r: bytes)
    ensures |r| == RecLen(|item.name|)
  {
    var reclen := RecLen(|item.name|);
    Bytes(inode, 8) + Bytes(idx, 8) + Bytes(reclen, 2) + item.name + Zeros(reclen - HEADER - |item.name| - 1) +
        [item.type_]
  }

  /** The records of the items, one behind the other, with consecutive offsets and inodes. */
  function Packed(idx: int, inode: int, items: seq<Item>): bytes
    decreases |items|
  {
    if items == [] then [] else Record(idx, inode, items[0]) + Packed(idx + 1, inode + 1, items[1..])
  }

  lemma {:induction false} PackedAppend(idx: int, inode: int, items: seq<Item>, item: Item)
    ensures var last := Record(idx + |items|, inode + |items|, item);
            Packed(idx, inode, items + [item]) == Packed(idx, inode, items) + last
    decreases |items|
  {
    hide Record;
    if items == [] {
      assert [item][1..] == [];
      assert items + [item] == [item];
    } else {
      Assoc(Record(idx, inode, items[0]), Packed(idx + 1, inode + 1, items[1..]),
          Record(idx + |items|, inode + |items|, item));
      assert (items + [item])[1..] == items[1..] + [item];
      PackedAppend(idx + 1, inode + 1, items[1..], item);
    }
  }

  ghost predicate Fitting(items: seq<Item>) {
    forall k :: 0 <= k < |items| ==> |items[k].name| <= MAX_NAME
  }

  lemma PackedGrows(startIdx: int, items: seq<Item>, idx: int, inode: int, item: Item, before: bytes, after: bytes)
    requires idx == startIdx + |items| && inode == 256 + |items|
    requires Fitting(items) && |item.name| <= MAX_NAME && before == Packed(startIdx, 256, items)
    requires after == before + Record(idx, inode, item)
    ensures Fitting(items + [item]) && after == Packed(startIdx, 256, items + [item])
  {
    hide Record;
    PackedAppend(startIdx, 256, items, item);
  }

  // -- the reader

  datatype Entry = Entry(ino: nat, off: nat, name: bytes, type_: byte)

  /** What a reader finds in a record: the name ends at its NUL, the type is the last byte. */
  function ReadRecord(r: bytes): Entry
    requires |r| > HEADER
  {
    Entry(Number(r[..8]), Number(r[8..16]), CStr(r[HEADER..]), r[|r| - 1])
  }

  /** Walks a buffer by d_reclen; None when a length is nonsense or runs past the end. */
  function Walk(buf: bytes): Option<seq<Entry>>
    decreases |buf|
  {
    if buf == [] then Some([]) else
    if |buf| <= HEADER then None else
    var reclen := Number(buf[16..HEADER]);
    if reclen <= HEADER || reclen > |buf| then None else
    match Walk(buf[reclen..])
    case None => None
    case Some(entries) => Some([ReadRecord(buf[..reclen])] + entries)
  }

  /** What the reader should find: the items in order, numbered from idx and inode. */
  function Listing(idx: int, inode: int, items: seq<Item>): (entries: seq<Entry>)
    ensures |entries| == |items|
    ensures forall k :: 0 <= k < |items| ==>
      entries[k] == Entry(Unsigned(inode + k), Unsigned(idx + k), CStr(items[k].name), items[k].type_)
    decreases |items|
  {
    if items == [] then [] else
    var first := Entry(Unsigned(inode), Unsigned(idx), CStr(items[0].name), items[0].type_);
    [first] + Listing(idx + 1, inode + 1, items[1..])
  }

  lemma NameEnds(name: bytes, pad: bytes)
    requires pad != [] && pad[0] == 0
    ensures CStr(name + pad) == CStr(name)
  {
    var n := StrLen(name);
    assert (name + pad)[..n] == name[..n];
    StrLenIs(name + pad, n);
  }

  lemma ReclenReadsBack(n: nat)
    requires n < TWO_16
    ensures Number(Bytes(n, 2)) == n
  {
    NumberOfBytes(n, 2);
    assert Pow256(2) == 256 * Pow256(1) && Pow256(1) == 256 * Pow256(0);
  }

  /** struct linux_dirent: inode, offset and length in front of the name, zeros behind it, the type last. */
  lemma RecordLayout(idx: int, inode: int, item: Item)
    requires |item.name| <= MAX_NAME
    ensures var r := Record(idx, inode, item);
            && Number(r[0..8]) == inode % 0x1_0000_0000_0000_0000 && Number(r[8..16]) == idx % 0x1_0000_0000_0000_0000
            && Number(r[16..18]) == |r| && r[18..18 + |item.name|] == item.name && r[|r| - 1] == item.type_
            && (forall i :: 18 + |item.name| <= i < |r| - 1 ==> r[i] == 0) && |r| >= 18 + |item.name| + 2
            && (forall i :: 0 <= i < 8 ==> r[i] == inode / Pow256(i) % 256)
  {
    hide Bytes, Number, Pow256, Unsigned, ReadRecord;
    var r := Record(idx, inode, item);
    RecordReadsBack(idx, inode, item);
    NumberOfBytes(inode, 8);
    NumberOfBytes(idx, 8);
    assert r[..8] == r[0..8] == Bytes(inode, 8);
    assert r[8..16] == Bytes(idx, 8);
    Pow256Of8();
    forall i | 0 <= i < 8 ensures r[i] == inode / Pow256(i) % 256 {
      ByteAt(inode, 8, i);
      assert r[0..8][i] == r[i];
    }
  }

  lemma Pow256Of8()
    ensures Pow256(8) == 0x1_0000_0000_0000_0000
  {
    assert Pow256(2) == 0x1_0000 && Pow256(4) == 0x1_0000_0000 && Pow256(6) == 0x1_0000_0000_0000;
  }

  lemma RecordReadsBack(idx: int, inode: int, item: Item)
    requires |item.name| <= MAX_NAME
    ensures var r := Record(idx, inode, item);
            && Number(r[16..HEADER]) == |r|
            && ReadRecord(r) == Entry(Unsigned(inode), Unsigned(idx), CStr(item.name), item.type_)
  {
    hide Bytes, CStr, Number, Pow256;
    var r := Record(idx, inode, item);
    var pad := Zeros(|r| - HEADER - |item.name| - 1) + [item.type_];
    assert r[..8] == Bytes(inode, 8);
    assert r[8..16] == Bytes(idx, 8);
    assert r[16..HEADER] == Bytes(|r|, 2);
    assert r[HEADER..] == item.name + pad;
    NumberOfBytes(inode, 8);
    NumberOfBytes(idx, 8);
    ReclenReadsBack(|r|);
    NameEnds(item.name, pad);
  }

  lemma WalkStep(r: bytes, rest: bytes)
    requires |r| > HEADER && Number(r[16..HEADER]) == |r|
    ensures Walk(r + rest) ==
      match Walk(rest) case None => None case Some(entries) => Some([ReadRecord(r)] + entries)
  {
    var buf := r + rest;
    assert buf[..|r|] == r && buf[|r|..] == rest;
    assert buf[16..HEADER] == r[16..HEADER];
  }

  /** Walking what was packed ends exactly at its end and finds every item, in order. */
  lemma {:induction false} WalkPacked(idx: int, inode: int, items: seq<Item>)
    requires Fitting(items)
    ensures Walk(Packed(idx, inode, items)) == Some(Listing(idx, inode, items))
    decreases |items|
  {
    hide Record, ReadRecord, Number, Walk, Unsigned, CStr;
    if items == [] {
      assert Walk([]) == Some([]) by { WalkNothing(); }
    } else {
      var r, rest := Record(idx, inode, items[0]), Packed(idx + 1, inode + 1, items[1..]);
      RecordReadsBack(idx, inode, items[0]);
      WalkStep(r, rest);
      WalkPacked(idx + 1, inode + 1, items[1..]);
    }
  }

  lemma WalkNothing()
    ensures Walk([]) == Some([])
  {
  }

  /** The reader finds the whole name in the record exactly if the name has no NUL in it. */
  lemma NameSurvivesIff(idx: int, inode: int, item: Item)
    requires |item.name| <= MAX_NAME
    ensures ReadRecord(Record(idx, inode, item)).name == item.name <==> NulFree(item.name)
  {
    var name := item.name;
    hide Record, ReadRecord;
    RecordReadsBack(idx, inode, item);
    assert CStr(name) == name ==> NulFree(name);
    assert !NulFree(name) || StrLen(name) == |name|;
  }

  /** Distinct records have distinct inodes, and so have distinct offsets, for as long as the counters do not wrap. */
  lemma NumbersAreDistinct(idx: int, inode: int, items: seq<Item>, j: nat, k: nat)
    requires j < k < |items| <= Pow256(8)
    ensures Listing(idx, inode, items)[j].ino != Listing(idx, inode, items)[k].ino
    ensures Listing(idx, inode, items)[j].off != Listing(idx, inode, items)[k].off
  {
    hide Pow256, CStr, Unsigned;
    UnsignedDiffer(inode + j, inode + k);
    UnsignedDiffer(idx + j, idx + k);
  }

  lemma NotCongruent(a: int, b: int, m: nat)
    requires a < b < a + m
    ensures a % m != b % m
  {
    var d := b / m - a / m;
    assert b == m * (b / m) + b % m && a == m * (a / m) + a % m;
    assert m * d == m * (b / m) - m * (a / m) == (b - a) - (b % m - a % m);
    Product(m, d);
  }

  lemma UnsignedDiffer(a: int, b: int)
    requires a < b < a + Pow256(8)
    ensures Unsigned(a) != Unsigned(b)
  {
    NotCongruent(a, b, Pow256(8));
  }

  // -- the builder

  lemma OverwriteBehind(front: bytes, r: bytes, a: nat, s: bytes)
    requires a + |s| <= |r|
    ensures Overwritten(front + r, |front| + a, s) == front + Overwritten(r, a, s)
  {
  }

  datatype RecordFields = RecordFields(idx: int, inode: int, item: Item) {
    /** The k-th store into the record: offset and bytes. */
    function Field(k: nat): (f: (nat, bytes))
      requires 1 <= k <= 6
      ensures f.0 + |f.1| <= RecLen(|item.name|)
    {
      if k == 1 then (0, Bytes(inode, 8))
      else if k == 2 then (8, Bytes(idx, 8))
      else if k == 3 then (16, Bytes(RecLen(|item.name|), 2))
      else if k == 4 then (HEADER, item.name)
      else if k == 5 then (HEADER + |item.name|, [0])
      else (RecLen(|item.name|) - 1, [item.type_])
    }

    /** The record as it stands after its first k fields have been stored. */
    function Filled(k: nat): (r: bytes)
      requires k <= 6
      ensures |r| == RecLen(|item.name|)
    {
      if k == 0 then Zeros(RecLen(|item.name|)) else
      var f := Field(k);
      Overwritten(Filled(k - 1), f.0, f.1)
    }
  }

  lemma NothingFilled(fields: RecordFields)
    ensures fields.Filled(0) == Zeros(RecLen(|fields.item.name|))
  {
  }

  lemma FieldStored(front: bytes, fields: RecordFields, k: nat, buf: bytes)
    requires 1 <= k <= 6 && buf == front + fields.Filled(k - 1)
    ensures var f := fields.Field(k);
            Overwritten(buf, |front| + f.0, f.1) == front + fields.Filled(k)
  {
    hide RecordFields.Field, RecLen;
    var f := fields.Field(k);
    OverwriteBehind(front, fields.Filled(k - 1), f.0, f.1);
  }

  lemma FilledIsRecord(fields: RecordFields)
    ensures fields.Filled(6) == Record(fields.idx, fields.inode, fields.item)
  {
    hide Bytes;
    var n, name := RecLen(|fields.item.name|), fields.item.name;
    var a, b, c := Bytes(fields.inode, 8), Bytes(fields.idx, 8), Bytes(n, 2);
    assert fields.Filled(1) == a + Zeros(n - 8);
    assert fields.Filled(2) == a + b + Zeros(n - 16);
    assert fields.Filled(3) == a + b + c + Zeros(n - HEADER);
    assert fields.Filled(4) == a + b + c + name + Zeros(n - HEADER - |name|);
    assert fields.Filled(5) == fields.Filled(4);
  }

  class DirentBuilder {
    var buf: bytes
    var idx: int
    var inode: int
    ghost const startIdx: int
    ghost var items: seq<Item>

    ghost predicate Valid()
      reads this
    {
      && idx == startIdx + |items| && inode == 256 + |items|
      && Fitting(items) && buf == Packed(startIdx, 256, items)
    }

    constructor (start: int)
      ensures Valid() && startIdx == start && items == []
    {
      buf, idx, inode, items, startIdx := [], start, 256, [], start;
    }

    /** Stores bytes at offset a of the buffer, the k-th field of the record behind front. */
    method Store(a: nat, s: bytes, ghost front: bytes, ghost fields: RecordFields, ghost k: nat)
      requires 1 <= k <= 6 && buf == front + fields.Filled(k - 1)
      requires a == |front| + fields.Field(k).0 && s == fields.Field(k).1
      modifies `buf
      ensures buf == front + fields.Filled(k)
    {
      FieldStored(front, fields, k, buf);
      hide RecordFields.Filled, RecordFields.Field;
      buf := buf[..a] + s + buf[a + |s|..];
    }

    /** The loop of append, on unsigned shorts */
    static method RecordLength(nameLen: nat) returns (reclen: nat, minReclen: nat)
      requires nameLen <= MAX_NAME
      ensures reclen == RecLen(nameLen) && minReclen == nameLen + 20
    {
      reclen := 24;
      minReclen := (8 + 8 + 2 + nameLen + 2) % TWO_16;
      ghost var n := 0;
      while reclen < minReclen
        invariant reclen == 24 + 8 * n < TWO_16 && reclen <= RecLen(nameLen)
        decreases minReclen - reclen
      {
        reclen := (reclen + 8) % TWO_16;
        n := n + 1;
      }
    }

    /** The part of append that resizes the buffer by a zeroed record and fills it in place */
    method StoreRecord(reclen: nat, minReclen: nat, name: bytes, type_: byte)
      requires reclen == RecLen(|name|) && minReclen == |name| + 20
      modifies `buf, `idx, `inode
      ensures buf == old(buf) + Record(old(idx), old(inode), Item(name, type_))
      ensures idx == old(idx) + 1 && inode == old(inode) + 1
    {
      hide RecLen, Record, Bytes, Overwritten, RecordFields.Filled;
      var start := |buf|;
      ghost var front, item := buf, Item(name, type_);
      ghost var fields := RecordFields(idx, inode, item);
      buf := buf + Zeros(reclen);
      assert buf == front + fields.Filled(0) by { NothingFilled(fields); }
      Store(start, Bytes(inode, 8), front, fields, 1);
      inode := inode + 1;
      Store(start + 8, Bytes(idx, 8), front, fields, 2);
      idx := idx + 1;
      Store(start + 16, Bytes(reclen, 2), front, fields, 3);
      Store(start + HEADER, name, front, fields, 4);
      Store(start + minReclen - 2, [0], front, fields, 5);
      Store(start + reclen - 1, [type_], front, fields, 6);
      FilledIsRecord(fields);
    }

    /** append */
    method Append(name: bytes, type_: byte)
      requires Valid() && |name| <= MAX_NAME
      modifies this
      ensures Valid() && items == old(items) + [Item(name, type_)]
      ensures buf == old(buf) + Record(old(idx), old(inode), Item(name, type_))
    {
      var reclen, minReclen := RecordLength(|name|);
      hide RecLen, Record, Packed, Fitting;
      ghost var before, i, ino, item := buf, idx, inode, Item(name, type_);
      StoreRecord(reclen, minReclen, name, type_);
      PackedGrows(startIdx, items, i, ino, item, before, buf);
      items := items + [item];
    }

    /** data: a copy of the buffer; whoever walks it finds what was appended */
    method Data() returns (d: bytes)
      requires Valid()
      ensures d == buf && Walk(d) == Some(Listing(startIdx, 256, items))
    {
      WalkPacked(startIdx, 256, items);
      return buf;
    }
  }
}
