/** Whole runs of the scratch allocator: where the buffers lie, and that every one of them survives. */
module ScratchRuns {
  import opened CStrings
  import opened ChildMemory

  /** Every write of the run stays inside the mapped memory. */
  predicate Fits(s: Scratch, bufs: seq<bytes>)
    decreases |bufs|
  {
    bufs == [] || (FitsOne(s, bufs[0]) && Fits(Written(s, bufs[0]), bufs[1..]))
  }

  /** A writeScratch for each buffer, in order. */
  function Run(s: Scratch, bufs: seq<bytes>): (r: Scratch)
    requires Fits(s, bufs)
    ensures |r.mem| == |s.mem|
    decreases |bufs|
  {
    if bufs == [] then s else Run(Written(s, bufs[0]), bufs[1..])
  }

  /** The address the k-th writeScratch of the run returns. */
  function Address(s: Scratch, bufs: seq<bytes>, k: nat): nat
    requires Fits(s, bufs) && k < |bufs|
    decreases k
  {
    if k == 0 then s.next else Address(Written(s, bufs[0]), bufs[1..], k - 1)
  }

  function Behind(s: Scratch, bufs: seq<bytes>, k: nat): nat
    requires Fits(s, bufs) && k < |bufs|
  {
    Address(s, bufs, k) + |bufs[k]|
  }

  predicate Within(s: Scratch, bufs: seq<bytes>, k: nat, q: nat)
    requires Fits(s, bufs) && k < |bufs|
  {
    Address(s, bufs, k) <= q < Behind(s, bufs, k)
  }

  /** The k-th address is nextScratchSegment as the first k writes leave it. */
  lemma {:induction false} AddressIsNext(s: Scratch, bufs: seq<bytes>, k: nat)
    requires Fits(s, bufs) && k < |bufs|
    ensures Fits(s, bufs[..k]) && Address(s, bufs, k) == Run(s, bufs[..k]).next
    decreases k
  {
    if k > 0 {
      assert bufs[..k][0] == bufs[0] && bufs[..k][1..] == bufs[1..][..k - 1];
      AddressIsNext(Written(s, bufs[0]), bufs[1..], k - 1);
    }
  }

  lemma {:induction false} FromNextOn(s: Scratch, bufs: seq<bytes>, k: nat)
    requires Fits(s, bufs) && k < |bufs|
    ensures s.next <= Address(s, bufs, k) && Behind(s, bufs, k) <= |s.mem|
    ensures k > 0 ==> RoundUp(s.next + |bufs[0]|) <= Address(s, bufs, k)
    decreases k
  {
    if k > 0 {
      FromNextOn(Written(s, bufs[0]), bufs[1..], k - 1);
    }
  }

  /** Regions are ordered and disjoint; each starts on the first word boundary behind its predecessor. */
  lemma {:induction false} RegionsAreOrdered(s: Scratch, bufs: seq<bytes>, j: nat, k: nat)
    requires Fits(s, bufs) && j < k < |bufs|
    ensures Behind(s, bufs, j) <= Address(s, bufs, k) && Address(s, bufs, k) % 8 == 0
    ensures k == j + 1 ==> Address(s, bufs, k) - Behind(s, bufs, j) < 8
    decreases k
  {
    var s1 := Written(s, bufs[0]);
    if k > 1 {
      FromNextOn(s1, bufs[1..], k - 1);
      RegionsAreOrdered(s1, bufs[1..], if j > 0 then j - 1 else 0, k - 1);
    }
  }

  /** A byte outside all regions keeps its value, whatever whole words were written around it. */
  lemma {:induction false} OutsideUntouched(s: Scratch, bufs: seq<bytes>, q: nat)
    requires Fits(s, bufs) && q < |s.mem|
    requires forall k: nat :: k < |bufs| ==> !Within(s, bufs, k, q)
    ensures Run(s, bufs).mem[q] == s.mem[q]
    decreases |bufs|
  {
    if bufs != [] {
      var s1 := Written(s, bufs[0]);
      forall k: nat | k < |bufs[1..]| ensures !Within(s1, bufs[1..], k, q) {
        assert !Within(s, bufs, k + 1, q);
      }
      OutsideUntouched(s1, bufs[1..], q);
      assert !Within(s, bufs, 0, q);
    }
  }

  /** After the whole run every buffer reads back intact from the address it was given. */
  lemma {:induction false} EveryBufferIntact(s: Scratch, bufs: seq<bytes>, k: nat)
    requires Fits(s, bufs) && k < |bufs|
    ensures Behind(s, bufs, k) <= |s.mem|
    ensures Run(s, bufs).mem[Address(s, bufs, k)..Behind(s, bufs, k)] == bufs[k]
    decreases k
  {
    FromNextOn(s, bufs, k);
    var s1, rest := Written(s, bufs[0]), bufs[1..];
    if k > 0 {
      EveryBufferIntact(s1, rest, k - 1);
    } else {
      forall q: nat | s.next <= q < s.next + |bufs[0]| ensures Run(s, bufs).mem[q] == bufs[0][q - s.next] {
        forall j: nat | j < |rest| ensures !Within(s1, rest, j, q) {
          FromNextOn(s1, rest, j);
        }
        OutsideUntouched(s1, rest, q);
      }
    }
  }

  /** A C string written to scratch comes back through copyString after any later writes. */
  lemma ScratchStringSurvives(s: Scratch, bufs: seq<bytes>, k: nat, str: bytes, maxLength: nat, before: bytes,
      after: bytes)
    requires Fits(s, bufs) && k < |bufs| && NulFree(str) && bufs[k] == str + [0] && |str| < maxLength <= |before|
    requires Delivered(Run(s, bufs).mem, Address(s, bufs, k), maxLength, before, after)
    ensures Terminated(after) && CStr(after) == str
  {
    EveryBufferIntact(s, bufs, k);
    StoredStringIsCopied(Run(s, bufs).mem, Address(s, bufs, k), str, maxLength, before, after);
  }
}
