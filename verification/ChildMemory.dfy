/** The traced child's memory, read and written a word at a time, and the scratch allocator on top. */
module ChildMemory {
  import opened CStrings

  const WORD: nat := 8

  /** A word of the child as its bytes in memory order; the code only ever looks at single bytes of it. */
  type Word = w: bytes | |w| == WORD witness [0, 0, 0, 0, 0, 0, 0, 0]

  function RoundUp(n: nat): (r: nat)
    ensures n <= r < n + WORD && r % WORD == 0
  {
    if n % WORD == 0 then n else n + (WORD - n % WORD)
  }

  lemma WordFits(n: nat, length: nat)
    requires WORD * n < length
    ensures WORD * n + WORD <= RoundUp(length)
  {
  }

  function WordAt(m: bytes, a: nat): Word
    requires a + WORD <= |m|
  {
    m[a..a + WORD]
  }

  /** The word d with n bytes of buf from i on in place of its first ones. */
  function FilledTo(d: Word, buf: bytes, i: nat, n: nat): Word
    requires n <= WORD && i + n <= |buf|
  {
    buf[i..i + n] + d[n..]
  }

  /** The word d with as many bytes of buf as there are from i on. */
  function Filled(d: Word, buf: bytes, i: nat): Word
    requires i <= |buf|
  {
    FilledTo(d, buf, i, Least(WORD, |buf| - i))
  }

  lemma NothingFilled(d: Word, buf: bytes, i: nat)
    requires i <= |buf|
    ensures FilledTo(d, buf, i, 0) == d
  {
  }

  lemma FillByte(d: Word, buf: bytes, i: nat, j: nat)
    requires j < WORD && i + j < |buf|
    ensures var w := FilledTo(d, buf, i, j);
            w[..j] + [buf[i + j]] + w[j + 1..] == FilledTo(d, buf, i, j + 1)
  {
  }

  /** What the allocator works on: the child's memory and nextScratchSegment. */
  datatype Scratch = Scratch(mem: bytes, next: nat)

  predicate FitsOne(s: Scratch, buf: bytes) {
    s.next + RoundUp(|buf|) <= |s.mem|
  }

  /** One writeScratch. */
  function Written(s: Scratch, buf: bytes): Scratch
    requires FitsOne(s, buf)
  {
    Scratch(Overwritten(s.mem, s.next, buf), RoundUp(s.next + |buf|))
  }

  /** Where copyString's word loop ends and its last word begins. */
  function TailStart(maxLength: nat): (t: nat)
    ensures t <= maxLength && t % WORD == 0 && maxLength - t <= WORD && (maxLength > 0 ==> t < maxLength)
  {
    if maxLength == 0 then 0 else (maxLength - 1) / WORD * WORD
  }

  lemma TailIsLater(n: nat, maxLength: nat)
    requires maxLength - WORD * n > WORD
    ensures WORD * n + WORD <= TailStart(maxLength)
  {
  }

  lemma TailStartIs(n: nat, maxLength: nat)
    requires WORD * n < maxLength <= WORD * n + WORD
    ensures WORD * n == TailStart(maxLength)
  {
  }

  class Sandbox {
    const child: array<byte>     // the child's address space
    const scratchAddr: nat
    var nextScratchSegment: nat

    constructor (memory: array<byte>, scratch: nat)
      ensures child == memory && scratchAddr == scratch && nextScratchSegment == scratch
    {
      child := memory;
      scratchAddr := scratch;
      nextScratchSegment := scratch;
    }

    /** peekData: PTRACE_PEEKDATA at a mapped address of any alignment */
    method PeekData(addr: nat) returns (w: Word)
      requires addr + WORD <= child.Length
      ensures w == WordAt(child[..], addr) && |w| == 8
    {
      w := child[addr..addr + WORD];
    }

    /** pokeData: PTRACE_POKEDATA */
    method PokeData(addr: nat, w: Word)
      requires addr + WORD <= child.Length
      modifies child
      ensures child[..] == Overwritten(old(child[..]), addr, w)
    {
      forall i | 0 <= i < WORD {
        child[addr + i] := w[i];
      }
      assert child[..addr] == old(child[..addr]);
      assert child[addr..addr + WORD] == w;
      assert child[addr + WORD..] == old(child[addr + WORD..]);
      assert child[..] == child[..addr] + child[addr..addr + WORD] + child[addr + WORD..];
    }

    /** Byte j of the word becomes buf[i + j], for as long as buf has bytes. */
    method FillWord(d: Word, buf: bytes, i: nat) returns (w: Word)
      requires i <= |buf|
      ensures w == Filled(d, buf, i)
    {
      w := d;
      var j := 0;
      NothingFilled(d, buf, i);
      hide FilledTo;
      while j < WORD && i + j < |buf|
        invariant 0 <= j <= WORD && i + j <= |buf|
        invariant w == FilledTo(d, buf, i, j)
      {
        FillByte(d, buf, i, j);
        w := w[..j] + [buf[i + j]] + w[j + 1..];
        j := j + 1;
      }
    }

    /** The body of writeData's loop: a whole word of buf */
    method WriteWord(addr: nat, buf: bytes, i: nat, ghost m0: bytes)
      requires addr + |buf| <= |m0| && i + WORD <= |buf| && child[..] == Overwritten(m0, addr, buf[..i])
      modifies child
      ensures child[..] == Overwritten(m0, addr, buf[..i + WORD])
    {
      var d: Word := *;   // uninitialised, and overwritten as a whole
      OverwriteMore(m0, addr, buf, i, d, child[..]);
      hide *;
      d := FillWord(d, buf, i);
      PokeData(addr + i, d);
    }

    /** The last word of writeData, which buf need not fill */
    method WriteTail(addr: nat, buf: bytes, i: nat, ghost m0: bytes)
      requires addr + |buf| <= |m0| && i < |buf| <= i + WORD && addr + i + WORD <= |m0|
      requires child[..] == Overwritten(m0, addr, buf[..i])
      modifies child
      ensures child[..] == Overwritten(m0, addr, buf)
    {
      ghost var m1 := child[..];
      OverwriteLast(m0, addr, buf, i, m1);
      hide *;
      var d := PeekData(addr + i);
      d := FillWord(d, buf, i);
      PokeData(addr + i, d);
    }

    /**
     * writeData: exactly the bytes at [addr, addr + length) change, although whole words are written. The
     * last word is read first and written back with its other bytes.
     */
    method WriteData(addr: nat, buf: bytes)
      requires addr + RoundUp(|buf|) <= child.Length
      modifies child
      ensures child[..] == Overwritten(old(child[..]), addr, buf)
    {
      var length := |buf|;
      var i := 0;
      ghost var m0, n := child[..], 0;
      assert m0 == Overwritten(m0, addr, buf[..0]);
      hide *;
      while length - i > WORD
        invariant 0 <= i <= length && i == WORD * n
        invariant child[..] == Overwritten(m0, addr, buf[..i])
      {
        WordFits(n, length);
        WriteWord(addr, buf, i, m0);
        i, n := i + WORD, n + 1;
      }
      if i != length {
        WordFits(n, length);
        WriteTail(addr, buf, i, m0);
      } else {
        assert buf[..i] == buf;
      }
    }

    ghost function State(): Scratch
      reads this, child
    {
      Scratch(child[..], nextScratchSegment)
    }

    /** writeScratch: stores buf in the next segment and moves on to the word boundary behind it */
    method WriteScratch(buf: bytes) returns (curAddr: nat)
      requires FitsOne(State(), buf)
      modifies this, child
      ensures curAddr == old(nextScratchSegment) && State() == Written(old(State()), buf)
    {
      curAddr := nextScratchSegment;
      WriteData(curAddr, buf);
      var nextAddr := nextScratchSegment + |buf|;
      if nextAddr % WORD != 0 {
        nextAddr := nextAddr + (WORD - nextAddr % WORD);
      }
      nextScratchSegment := nextAddr;
    }

    /** resetScratch */
    method ResetScratch()
      modifies this
      ensures State() == Scratch(old(child[..]), scratchAddr)
    {
      nextScratchSegment := scratchAddr;
    }

    /** The bytes of a word go to buf[i], buf[i + 1], ... below maxLength; with stop, up to and including a NUL. */
    method CopyWord(d: Word, buf: array<byte>, i: nat, maxLength: nat, stop: bool) returns (ended: bool)
      requires i <= maxLength <= buf.Length
      modifies buf
      ensures ended <==> stop && StrLen(d) < Least(WORD, maxLength - i)
      ensures var n := if ended then StrLen(d) + 1 else Least(WORD, maxLength - i);
              i + n <= buf.Length && buf[..] == Overwritten(old(buf[..]), i, d[..n])
    {
      var j := 0;
      ghost var before := buf[..];
      assert buf[..] == Overwritten(before, i, d[..0]);
      while j < WORD && i + j < maxLength
        invariant 0 <= j <= WORD && i + j <= maxLength
        invariant buf[..] == Overwritten(before, i, d[..j])
        invariant stop ==> NulFree(d[..j])
      {
        buf[i + j] := d[j];
        assert buf[..] == Overwritten(before, i, d[..j])[i + j := d[j]];
        OverwriteOne(before, i, d, j);
        if stop && d[j] == 0 {
          StrLenIs(d, j);
          return true;
        }
        j := j + 1;
      }
      if stop { StrLenAtLeast(d, j); }
      return false;
    }

    /** The body of copyString's word loop */
    method CopyStringWord(addr: nat, maxLength: nat, buf: array<byte>, i: nat, ghost n: nat, ghost before: bytes)
      returns (ended: bool)
      requires maxLength <= buf.Length && buf != child && i == WORD * n && maxLength - i > WORD
      requires WordMapped(child[..], addr, i) && Copied(child[..], addr, maxLength, before, buf[..], i, false)
      modifies buf
      ensures Copied(child[..], addr, maxLength, before, buf[..], i + WORD, ended)
    {
      hide Overwritten, StrLen, Copied, WordAt;
      ghost var m, now := child[..], buf[..];
      var d := PeekData(addr + i);
      ended := CopyWord(d, buf, i, maxLength, true);
      CopiedWord(m, addr, maxLength, before, now, i, d, ended, buf[..]);
    }

    /** The last word of copyString */
    method CopyStringTail(addr: nat, maxLength: nat, buf: array<byte>, i: nat, ghost before: bytes)
      requires maxLength <= buf.Length && buf != child && i < maxLength <= i + WORD && i == TailStart(maxLength)
      requires WordMapped(child[..], addr, i) && Copied(child[..], addr, maxLength, before, buf[..], i, false)
      modifies buf
      ensures Delivered(child[..], addr, maxLength, before, buf[..])
    {
      hide Overwritten, StrLen, Copied, WordAt, Delivered;
      ghost var m, now := child[..], buf[..];
      var d := PeekData(addr + i);
      var _ := CopyWord(d, buf, i, maxLength, false);
      CopiedTail(m, addr, maxLength, before, now, i, d, buf[..]);
    }

    /**
     * copyString: the word loop stops behind a NUL, but the last word below maxLength is copied to its end,
     * whatever NULs it contains (see StopsBehindNulIff). Only words that this takes are read.
     */
    method CopyString(addr: nat, maxLength: nat, buf: array<byte>)
      requires maxLength <= buf.Length && buf != child && StringMapped(child[..], addr, maxLength)
      modifies buf
      ensures Delivered(child[..], addr, maxLength, old(buf[..]), buf[..])
    {
      if maxLength == 0 {
        return;
      }
      ghost var m, before, n := child[..], buf[..], 0;
      CopiedNothing(m, addr, maxLength, before);
      hide *;
      var endString, i := false, 0;
      while !endString && maxLength - i > WORD
        invariant 0 <= i <= maxLength && i == WORD * n && (!endString ==> i <= TailStart(maxLength))
        invariant Copied(m, addr, maxLength, before, buf[..], i, endString)
        decreases maxLength - i, !endString
      {
        NextIsMapped(m, addr, maxLength, before, buf[..], n);
        TailIsLater(n, maxLength);
        endString := CopyStringWord(addr, maxLength, buf, i, n, before);
        i, n := i + WORD, n + 1;
      }
      if i != maxLength && !endString {
        NextIsMapped(m, addr, maxLength, before, buf[..], n);
        TailStartIs(n, maxLength);
        CopyStringTail(addr, maxLength, buf, i, before);
      } else {
        CopiedString(m, addr, maxLength, before, buf[..], i);
      }
    }
  }

  /** What copyString leaves in the buffer: CopyLength bytes of the memory, and behind them what was there. */
  ghost predicate Delivered(m: bytes, addr: nat, maxLength: nat, before: bytes, after: bytes) {
    if maxLength == 0 then after == before else
    && addr <= |m|
    && var n := CopyLength(m, addr, maxLength);
    && n <= maxLength <= |before| && addr + n <= |m| && after == Overwritten(before, 0, m[addr..addr + n])
  }

  lemma NextIsMapped(m: bytes, addr: nat, maxLength: nat, before: bytes, now: bytes, n: nat)
    requires StringMapped(m, addr, maxLength) && Copied(m, addr, maxLength, before, now, WORD * n, false)
    requires WORD * n < maxLength
    ensures WordMapped(m, addr, WORD * n)
  {
  }

  lemma CopiedNothing(m: bytes, addr: nat, maxLength: nat, before: bytes)
    requires addr <= |m| && maxLength <= |before|
    ensures Copied(m, addr, maxLength, before, before, 0, false)
  {
    assert before == Overwritten(before, 0, m[addr..addr]);
  }

  lemma CopiedTail(m: bytes, addr: nat, maxLength: nat, before: bytes, now: bytes, i: nat, d: Word, after: bytes)
    requires Copied(m, addr, maxLength, before, now, i, false) && i < maxLength <= i + WORD && i == TailStart(maxLength)
    requires addr + i + WORD <= |m| && d == WordAt(m, addr + i)
    requires after == Overwritten(now, i, d[..maxLength - i])
    ensures Delivered(m, addr, maxLength, before, after)
  {
    OverwriteWord(before, m, addr, i, d, maxLength - i);
    hide Overwritten, WordAt, StrLen;
  }

  lemma CopiedString(m: bytes, addr: nat, maxLength: nat, before: bytes, after: bytes, i: nat)
    requires Copied(m, addr, maxLength, before, after, i, true) && maxLength > 0
    ensures Delivered(m, addr, maxLength, before, after)
  {
  }

  /** How far copyString has come: i bytes without a NUL, or the whole string. */
  ghost predicate Copied(m: bytes, addr: nat, maxLength: nat, before: bytes, now: bytes, i: nat, endString: bool) {
    && addr <= |m| && maxLength <= |before|
    && var k := StrLen(m[addr..]);
    if endString then k < TailStart(maxLength) && addr + k < |m| && now == Overwritten(before, 0, m[addr..addr + k + 1])
    else i <= k && i <= maxLength && now == Overwritten(before, 0, m[addr..addr + i])
  }

  lemma CopiedWord(m: bytes, addr: nat, maxLength: nat, before: bytes, now: bytes, i: nat, d: Word, ended: bool,
      after: bytes)
    requires Copied(m, addr, maxLength, before, now, i, false) && i % WORD == 0 && maxLength - i > WORD
    requires addr + i + WORD <= |m| && d == WordAt(m, addr + i)
    requires ended <==> StrLen(d) < WORD
    requires after == Overwritten(now, i, d[..if ended then StrLen(d) + 1 else WORD])
    ensures Copied(m, addr, maxLength, before, after, i + WORD, ended)
  {
    NextWord(m, addr, i, d);
    hide WordAt, StrLen, TailStart;
    TailIsLater(i / WORD, maxLength);
    OverwriteWord(before, m, addr, i, d, if ended then StrLen(d) + 1 else WORD);
    hide Overwritten;
  }

  function Least(a: nat, b: nat): nat {
    if a < b then a else b
  }

  predicate WordMapped(m: bytes, addr: nat, i: nat) {
    addr + i + WORD <= |m|
  }

  /** Every word up to the first NUL, and no further than maxLength, is mapped. */
  ghost predicate StringMapped(m: bytes, addr: nat, maxLength: nat) {
    maxLength > 0 ==>
      && addr <= |m|
      && forall i: nat :: i < maxLength && i % WORD == 0 && i <= StrLen(m[addr..]) ==> WordMapped(m, addr, i)
  }

  /** How many bytes copyString delivers: behind a NUL it finds before the last word it delivers none. */
  function CopyLength(m: bytes, addr: nat, maxLength: nat): nat
    requires maxLength > 0 ==> addr <= |m|
  {
    if maxLength > 0 && StrLen(m[addr..]) < TailStart(maxLength) then StrLen(m[addr..]) + 1 else maxLength
  }

  /**
   * copyString delivers the bytes up to and including the first NUL, or maxLength bytes if there is none
   * among these, exactly if the NUL lies before the last word or is the last byte of the limit or beyond it.
   */
  lemma StopsBehindNulIff(m: bytes, addr: nat, maxLength: nat)
    requires maxLength > 0 && addr <= |m|
    ensures var n := StrLen(m[addr..]);
            CopyLength(m, addr, maxLength) == Least(n + 1, maxLength) <==>
            n < TailStart(maxLength) || n + 1 >= maxLength
  {
    hide StrLen;
  }

  /** Two bytes of which the first is the NUL: both arrive. */
  lemma CopiesBehindNul()
    ensures var m: bytes := [0, 7, 0, 0, 0, 0, 0, 0];
            && StringMapped(m, 0, 2) && StrLen(m[0..]) == 0
            && forall after :: Delivered(m, 0, 2, [9, 9], after) <==> after == [0, 7]
  {
    var m: bytes := [0, 7, 0, 0, 0, 0, 0, 0];
    assert m[0..] == m;
    assert m[0..2] == [0, 7];
    assert Overwritten([9, 9], 0, m[0..2]) == [0, 7];
  }

  lemma {:induction false} StrLenAtLeast(block: bytes, n: nat)
    requires n <= |block| && NulFree(block[..n])
    ensures n <= StrLen(block)
  {
    if n > 0 {
      assert block[..n][0] == block[0];
      assert block[1..][..n - 1] == block[..n][1..];
      StrLenAtLeast(block[1..], n - 1);
    }
  }

  lemma BeforeNul(s: bytes, i: nat)
    requires i <= StrLen(s)
    ensures NulFree(s[..i])
  {
    assert s[..i] == s[..StrLen(s)][..i];
  }

  lemma SplitAtWord(m: bytes, addr: nat, i: nat, k: nat)
    requires addr + i + WORD <= |m| && k <= WORD
    ensures m[addr..][..i + k] == m[addr..][..i] + WordAt(m, addr + i)[..k]
    ensures k < WORD ==> m[addr..][i + k] == WordAt(m, addr + i)[k]
  {
  }

  /** The first NUL of the string is the first NUL of the word it lies in. */
  lemma NextWord(m: bytes, addr: nat, i: nat, d: Word)
    requires addr + i + WORD <= |m| && d == WordAt(m, addr + i) && i <= StrLen(m[addr..])
    ensures StrLen(d) < WORD ==> StrLen(m[addr..]) == i + StrLen(d)
    ensures StrLen(d) >= WORD ==> StrLen(m[addr..]) >= i + WORD
  {
    var s := m[addr..];
    var k := StrLen(d);
    SplitAtWord(m, addr, i, k);
    BeforeNul(s, i);
    NulFreeConcat(s[..i], d[..k]);
    hide WordAt;
    if k < WORD {
      StrLenIs(s, i + k);
    } else {
      StrLenAtLeast(s, i + WORD);
    }
  }

  lemma OverwriteOne(b: bytes, i: nat, d: Word, j: nat)
    requires j < WORD && i + j < |b|
    ensures Overwritten(b, i, d[..j])[i + j := d[j]] == Overwritten(b, i, d[..j + 1])
  {
  }

  lemma OverwriteWord(b: bytes, m: bytes, addr: nat, i: nat, d: Word, n: nat)
    requires n <= WORD && i + n <= |b| && addr + i + WORD <= |m| && d == WordAt(m, addr + i)
    ensures Overwritten(Overwritten(b, 0, m[addr..addr + i]), i, d[..n]) == Overwritten(b, 0, m[addr..addr + i + n])
  {
    assert m[addr..addr + i] + d[..n] == m[addr..addr + i + n];
  }

  lemma OverwriteMore(m0: bytes, a: nat, buf: bytes, i: nat, d: Word, m1: bytes)
    requires a + |buf| <= |m0| && i + WORD <= |buf| && m1 == Overwritten(m0, a, buf[..i])
    ensures Overwritten(m1, a + i, Filled(d, buf, i)) == Overwritten(m0, a, buf[..i + WORD])
  {
    assert buf[..i] + Filled(d, buf, i) == buf[..i + WORD];
  }

  lemma OverwriteLast(m0: bytes, a: nat, buf: bytes, i: nat, m1: bytes)
    requires a + |buf| <= |m0| && i < |buf| <= i + WORD && a + i + WORD <= |m0|
    requires m1 == Overwritten(m0, a, buf[..i])
    ensures Overwritten(m1, a + i, Filled(WordAt(m1, a + i), buf, i)) == Overwritten(m0, a, buf)
  {
    assert forall q :: a + i <= q < |m0| ==> m1[q] == m0[q];
  }

  /**
   * copyString recovers a C string that is stored in the child, provided the buffer has room for it; from
   * a smaller limit it gets that many bytes of the string and no terminator.
   */
  lemma StoredStringIsCopied(m: bytes, addr: nat, s: bytes, maxLength: nat, before: bytes, after: bytes)
    requires NulFree(s) && addr + |s| + 1 <= |m| && m[addr..addr + |s| + 1] == s + [0]
    requires Delivered(m, addr, maxLength, before, after) && maxLength <= |before|
    ensures |s| < maxLength ==> Terminated(after) && CStr(after) == s
    ensures |s| >= maxLength ==> after == Overwritten(before, 0, s[..maxLength])
  {
    var t := m[addr..];
    assert t[..|s| + 1] == s + [0];
    assert t[..|s|] == s && t[|s|] == 0;
    StrLenIs(t, |s|);
    var n := CopyLength(m, addr, maxLength);
    if maxLength > 0 {
      assert after[..n] == m[addr..addr + n] == t[..n];
      if |s| < maxLength {
        assert after[..|s|] == t[..n][..|s|] == s;
        assert after[|s|] == t[..n][|s|] == 0;
        StrLenIs(after, |s|);
      } else {
        assert t[..n] == t[..|s|][..n];
      }
    } else {
      assert before == Overwritten(before, 0, []);
    }
  }

  /** writeData of a C string with its terminator, then copyString from the same address: the string again. */
  lemma WriteThenCopy(m0: bytes, addr: nat, s: bytes, maxLength: nat, before: bytes, after: bytes)
    requires NulFree(s) && addr + |s| + 1 <= |m0| && |s| < maxLength <= |before|
    requires Delivered(Overwritten(m0, addr, s + [0]), addr, maxLength, before, after)
    ensures Terminated(after) && CStr(after) == s
  {
    StoredStringIsCopied(Overwritten(m0, addr, s + [0]), addr, s, maxLength, before, after);
  }
}
