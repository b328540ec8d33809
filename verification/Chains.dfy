/** Cluster sequences: how a run or a FAT chain denotes one, and the bytes it holds. */
module Chains {
  import opened Bytes

  ghost predicate Distinct(chain: seq<nat>)
  {
    forall i, j | 0 <= i < j < |chain| :: chain[i] != chain[j]
  }

  ghost predicate InRange(chain: seq<nat>, limit: nat)
  {
    forall i | 0 <= i < |chain| :: 2 <= chain[i] < limit
  }

  /** Step `i` of the chain: the next number of a contiguous run, or the FAT link. */
  ghost predicate LinkAt(fat: seq<u32>, chain: seq<nat>, contiguous: bool, i: nat)
    requires InRange(chain, |fat|) && i + 1 < |chain|
  {
    if contiguous then chain[i + 1] == chain[i] + 1 else fat[chain[i]] == chain[i + 1]
  }

  ghost predicate Linked(fat: seq<u32>, chain: seq<nat>, contiguous: bool)
    requires InRange(chain, |fat|)
  {
    forall i: nat {:trigger LinkAt(fat, chain, contiguous, i)} | i + 1 < |chain| ::
      LinkAt(fat, chain, contiguous, i)
  }

  /** The chain is linked from its cluster `k` on. */
  ghost predicate LinkedFrom(fat: seq<u32>, chain: seq<nat>, k: nat, contiguous: bool) {
    InRange(chain, |fat|) && k <= |chain| && Linked(fat, chain[k..], contiguous)
  }

  /** Links survive any FAT change outside the chain's inner clusters. */
  lemma LinkedFrame(fat: seq<u32>, fat': seq<u32>, chain: seq<nat>, contiguous: bool)
    requires |fat| == |fat'| && InRange(chain, |fat|) && Linked(fat, chain, contiguous)
    requires forall i | 0 <= i < |chain| - 1 :: fat'[chain[i]] == fat[chain[i]]
    ensures Linked(fat', chain, contiguous)
  {
    forall i: nat {:trigger LinkAt(fat', chain, contiguous, i)} | i + 1 < |chain|
      ensures LinkAt(fat', chain, contiguous, i)
    {
      assert LinkAt(fat, chain, contiguous, i);
    }
  }

  lemma LinkedPrefix(fat: seq<u32>, chain: seq<nat>, contiguous: bool, k: nat)
    requires k <= |chain| && InRange(chain, |fat|) && Linked(fat, chain, contiguous)
    ensures Linked(fat, chain[..k], contiguous)
  {
    forall i: nat {:trigger LinkAt(fat, chain[..k], contiguous, i)} | i + 1 < k
      ensures LinkAt(fat, chain[..k], contiguous, i)
    {
      assert LinkAt(fat, chain, contiguous, i);
    }
  }

  /** Cutting a chain after `k` clusters, and overwriting the last link kept, leaves both parts linked. */
  lemma CutLinked(fat: seq<u32>, chain: seq<nat>, contiguous: bool, k: nat, mark: u32)
    requires 0 < k < |chain| && InRange(chain, |fat|) && Distinct(chain) && Linked(fat, chain, contiguous)
    ensures LinkAt(fat, chain, contiguous, k - 1)
    ensures forall fat' | fat' == fat || fat' == fat[chain[k - 1] := mark] ::
              Linked(fat', chain[..k], contiguous) && Linked(fat', chain[k..], contiguous)
  {
    forall fat' | fat' == fat || fat' == fat[chain[k - 1] := mark]
      ensures Linked(fat', chain[..k], contiguous) && Linked(fat', chain[k..], contiguous)
    {
      LinkedPrefix(fat, chain, contiguous, k);
      LinkedFrame(fat, fat', chain[..k], contiguous);
      forall i: nat {:trigger LinkAt(fat', chain[k..], contiguous, i)} | i + 1 < |chain[k..]|
        ensures LinkAt(fat', chain[k..], contiguous, i)
      {
        assert LinkAt(fat, chain, contiguous, k + i);
      }
    }
  }

  lemma CutHead(fat: seq<u32>, chain: seq<nat>, contiguous: bool, mark: u32)
    requires chain != [] && InRange(chain, |fat|) && Distinct(chain) && Linked(fat, chain, contiguous)
    ensures |chain| > 1 ==> chain[1] == if contiguous then chain[0] + 1 else fat[chain[0]]
    ensures InRange(chain[1..], |fat|) && Distinct(chain[1..])
    ensures Linked(if contiguous then fat else fat[chain[0] := mark], chain[1..], contiguous)
  {
    if |chain| > 1 {
      CutLinked(fat, chain, contiguous, 1, mark);
      assert LinkAt(fat, chain, contiguous, 0);
    }
  }

  lemma LinkedAppend(fat: seq<u32>, chain: seq<nat>, contiguous: bool, c: nat)
    requires chain != [] && InRange(chain, |fat|) && 2 <= c < |fat| && Linked(fat, chain, contiguous)
    requires if contiguous then c == chain[|chain| - 1] + 1 else fat[chain[|chain| - 1]] == c
    ensures Linked(fat, chain + [c], contiguous)
  {
    forall i: nat {:trigger LinkAt(fat, chain + [c], contiguous, i)} | i + 1 < |chain + [c]|
      ensures LinkAt(fat, chain + [c], contiguous, i)
    {
      if i + 1 < |chain| { assert LinkAt(fat, chain, contiguous, i); }
    }
  }

  /** Walking `i` steps along a contiguous run adds `i`. */
  lemma {:induction false} RunNumbers(fat: seq<u32>, chain: seq<nat>, i: nat)
    requires InRange(chain, |fat|) && Linked(fat, chain, true) && i < |chain|
    ensures chain[i] == chain[0] + i
  {
    if i > 0 {
      RunNumbers(fat, chain, i - 1);
      assert LinkAt(fat, chain, true, i - 1);
    }
  }

  /** Writing out the links of a run makes a FAT chain of the same clusters. */
  lemma RunAsChain(fat: seq<u32>, fat': seq<u32>, chain: seq<nat>)
    requires |fat'| == |fat| && chain != [] && InRange(chain, |fat|) && Linked(fat, chain, true)
    requires forall c | 0 <= c < |fat| ::
               fat'[c] == if chain[0] <= c < chain[|chain| - 1] then c + 1 else fat[c]
    ensures Linked(fat', chain, false)
  {
    forall i: nat {:trigger LinkAt(fat', chain, false, i)} | i + 1 < |chain|
      ensures LinkAt(fat', chain, false, i)
    {
      RunNumbers(fat, chain, i);
      RunNumbers(fat, chain, i + 1);
      RunNumbers(fat, chain, |chain| - 1);
    }
  }

  /** A chain without repeats is no longer than the range it is drawn from. */
  lemma {:induction false} Pigeonhole(chain: seq<nat>, limit: nat)
    requires Distinct(chain) && InRange(chain, limit)
    ensures |chain| <= if limit < 2 then 0 else limit - 2
  {
    if chain != [] {
      assert 2 <= chain[0] < limit;
      var last := limit - 1;
      if i :| 0 <= i < |chain| && chain[i] == last {
        var rest := chain[..i] + chain[i + 1..];
        forall j | 0 <= j < |rest| ensures 2 <= rest[j] < last && rest[j] in chain {
        }
        Pigeonhole(rest, last);
      } else {
        Pigeonhole(chain, last);
      }
    }
  }

  ghost predicate HeapOk(heap: seq<seq<byte>>, size: nat)
  {
    forall k | 0 <= k < |heap| :: |heap[k]| == size
  }

  /** The bytes stored in the clusters of a chain, in order. */
  ghost function Raw(heap: seq<seq<byte>>, chain: seq<nat>, size: nat): (raw: seq<byte>)
    requires HeapOk(heap, size) && InRange(chain, |heap| + 2)
    ensures |raw| == |chain| * size
  {
    if chain == [] then [] else
      var k := |chain| - 1;
      assert |chain| * size == k * size + size;
      Raw(heap, chain[..k], size) + heap[chain[k] - 2]
  }

  lemma RawLast(heap: seq<seq<byte>>, chain: seq<nat>, c: nat, size: nat)
    requires HeapOk(heap, size) && InRange(chain, |heap| + 2) && 2 <= c < |heap| + 2
    ensures InRange(chain + [c], |heap| + 2)
    ensures Raw(heap, chain + [c], size) == Raw(heap, chain, size) + heap[c - 2]
  {
    assert (chain + [c])[..|chain|] == chain;
  }

  lemma {:induction false} RawPrefix(heap: seq<seq<byte>>, chain: seq<nat>, size: nat, k: nat)
    requires HeapOk(heap, size) && InRange(chain, |heap| + 2) && k <= |chain|
    ensures k * size <= |chain| * size
    ensures Raw(heap, chain[..k], size) == Raw(heap, chain, size)[..k * size]
  {
    var n := |chain| - 1;
    if k == |chain| {
      assert chain[..k] == chain;
    } else {
      MulMonotone(k, n, size);
      RawPrefix(heap, chain[..n], size, k);
      assert chain[..n][..k] == chain[..k];
    }
  }

  /** Cluster `k` of the chain holds the bytes from `k * size` on. */
  lemma RawAt(heap: seq<seq<byte>>, chain: seq<nat>, size: nat, k: nat)
    requires HeapOk(heap, size) && InRange(chain, |heap| + 2) && k < |chain|
    ensures k * size + size <= |chain| * size
    ensures Raw(heap, chain, size)[k * size..k * size + size] == heap[chain[k] - 2]
  {
    MulMonotone(k + 1, |chain|, size);
    RawPrefix(heap, chain, size, k + 1);
    assert chain[..k + 1][..k] == chain[..k];
  }

  lemma {:induction false} RawSuffix(heap: seq<seq<byte>>, chain: seq<nat>, size: nat, j: nat)
    requires HeapOk(heap, size) && InRange(chain, |heap| + 2) && j <= |chain|
    ensures InRange(chain[j..], |heap| + 2)
    ensures Raw(heap, chain, size) == Raw(heap, chain[..j], size) + Raw(heap, chain[j..], size)
    decreases |chain|
  {
    if j == |chain| {
      assert chain[..j] == chain && chain[j..] == [];
    } else {
      hide Raw;
      var n := |chain| - 1;
      var front, back, c := chain[..n], chain[j..n], chain[n];
      assert front[..j] == chain[..j] && front[j..] == back && back + [c] == chain[j..] && front + [c] == chain;
      RawSuffix(heap, front, size, j);
      RawLast(heap, front, c, size);
      RawLast(heap, back, c, size);
      Rejoined(Raw(heap, chain, size), Raw(heap, chain[..j], size), Raw(heap, back, size), heap[c - 2], Raw(heap, chain[j..], size));
    }
  }

  lemma Rejoined<T>(whole: seq<T>, front: seq<T>, back: seq<T>, last: seq<T>, rest: seq<T>)
    requires whole == front + back + last && rest == back + last
    ensures whole == front + rest
  {
  }

  lemma {:induction false} RawFrame(heap: seq<seq<byte>>, heap': seq<seq<byte>>, chain: seq<nat>, size: nat)
    requires HeapOk(heap, size) && HeapOk(heap', size) && |heap'| == |heap|
    requires InRange(chain, |heap| + 2)
    requires forall i | 0 <= i < |chain| :: heap'[chain[i] - 2] == heap[chain[i] - 2]
    ensures Raw(heap', chain, size) == Raw(heap, chain, size)
  {
    if chain != [] {
      RawFrame(heap, heap', chain[..|chain| - 1], size);
    }
  }

  ghost function Written(heap: seq<seq<byte>>, c: nat, at: nat, data: seq<byte>): seq<seq<byte>>
    requires 2 <= c < |heap| + 2 && at + |data| <= |heap[c - 2]|
  {
    heap[c - 2 := Splice(heap[c - 2], at, data)]
  }

  /** Byte `pos` of a file is byte `at` of its cluster `k`. */
  ghost predicate Place(pos: nat, k: nat, at: nat, size: nat) { pos == k * size + at }

  lemma LastPlace(heap: seq<seq<byte>>, prefix: seq<nat>, size: nat, at: nat, pos: nat)
    requires HeapOk(heap, size) && InRange(prefix, |heap| + 2) && Place(pos, |prefix|, at, size)
    ensures pos == |Raw(heap, prefix, size)| + at
  {
  }

  /** Writing inside cluster `k` splices the chain's bytes at the matching position. */
  lemma {:induction false} RawWriteAt(heap: seq<seq<byte>>, chain: seq<nat>, size: nat, k: nat, at: nat, data: seq<byte>, pos: nat)
    requires HeapOk(heap, size) && InRange(chain, |heap| + 2) && Distinct(chain)
    requires k < |chain| && at + |data| <= size && Place(pos, k, at, size)
    ensures pos + |data| <= |Raw(heap, chain, size)|
    ensures HeapOk(Written(heap, chain[k], at, data), size)
    ensures Raw(Written(heap, chain[k], at, data), chain, size) == Splice(Raw(heap, chain, size), pos, data)
    decreases |chain|
  {
    var heap' := Written(heap, chain[k], at, data);
    var n := |chain| - 1;
    var prefix, last := chain[..n], chain[n];
    assert Raw(heap', chain, size) == Raw(heap', prefix, size) + heap'[last - 2];
    assert Raw(heap, chain, size) == Raw(heap, prefix, size) + heap[last - 2];
    hide Raw, Place;
    if k == n {
      RawFrame(heap, heap', prefix, size);
      LastPlace(heap, prefix, size, at, pos);
      SpliceRight(Raw(heap, prefix, size), heap[last - 2], at, data);
    } else {
      RawWriteAt(heap, prefix, size, k, at, data, pos);
      SpliceLeft(Raw(heap, prefix, size), heap[last - 2], pos, data);
    }
  }

  lemma RawReadAt(heap: seq<seq<byte>>, chain: seq<nat>, size: nat, k: nat, at: nat, n: nat, pos: nat)
    requires HeapOk(heap, size) && InRange(chain, |heap| + 2)
    requires k < |chain| && at + n <= size && Place(pos, k, at, size)
    ensures pos + n <= |Raw(heap, chain, size)|
    ensures heap[chain[k] - 2][at..at + n] == Raw(heap, chain, size)[pos..pos + n]
  {
    hide Raw;
    RawAt(heap, chain, size, k);
    var raw := Raw(heap, chain, size);
    SubSlice(raw, pos - at, size, at, n);
  }

  lemma LinkedSingle(fat: seq<u32>, c: nat, contiguous: bool)
    requires 2 <= c < |fat|
    ensures InRange([c], |fat|) && Linked(fat, [c], contiguous)
  {
  }
}
