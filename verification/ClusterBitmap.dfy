/** The free-cluster bitmap kept in machine words (fs/exfat/cluster.c, BMAP_* of fs/exfat/exfat.h). */
module ClusterBitmap {
  import opened Bytes

  const WORD: nat := 64

  /** A bitmap_t: its bits, least significant first. */
  type Word = w: seq<bool> | |w| == WORD witness seq(WORD, _ => false)

  const FULL: Word := seq(WORD, _ => true)

  /** The number of clear bits: the free clusters. */
  function CountFree(bits: seq<bool>): nat {
    if bits == [] then 0 else CountFree(bits[..|bits| - 1]) + if bits[|bits| - 1] then 0 else 1
  }

  /** Taking a free bit lowers the count by exactly one. */
  lemma {:induction false} CountFreeSet(bits: seq<bool>, i: nat)
    requires i < |bits| && !bits[i]
    ensures CountFree(bits[i := true]) == CountFree(bits) - 1
  {
    var n := |bits| - 1;
    if i == n {
      assert bits[i := true][..n] == bits[..n];
    } else {
      assert bits[i := true][..n] == bits[..n][i := true];
      CountFreeSet(bits[..n], i);
    }
  }

  /** No clear bit is left exactly when the count is zero. */
  lemma {:induction false} CountFreeZero(bits: seq<bool>)
    ensures CountFree(bits) == 0 <==> forall i | 0 <= i < |bits| :: bits[i]
  {
    if bits != [] {
      var n := |bits| - 1;
      CountFreeZero(bits[..n]);
      if forall i | 0 <= i < n :: bits[..n][i] {
        assert forall i | 0 <= i < n :: bits[i];
      }
    }
  }

  lemma {:induction false} CountFreeBound(bits: seq<bool>)
    ensures CountFree(bits) <= |bits|
  {
    if bits != [] { CountFreeBound(bits[..|bits| - 1]); }
  }

  /** Bit `c` is the first clear one from `hint` on, going round; from the start
    * when there is no bit `hint`. */
  ghost predicate FirstFree(bits: seq<bool>, hint: int, c: nat) {
    var h := if 0 <= hint < |bits| then hint else 0;
    && c < |bits| && !bits[c]
    && (h <= c ==> forall k | h <= k < c :: bits[k])
    && (c < h ==> (forall k | h <= k < |bits| :: bits[k]) && forall k | 0 <= k < c :: bits[k])
  }

  /** The bits once the clusters in `taken` are marked. */
  ghost function WithTaken(bits: seq<bool>, taken: seq<nat>): (r: seq<bool>)
    ensures |r| == |bits|
  {
    seq(|bits|, k requires 0 <= k < |bits| => bits[k] || k + 2 in taken)
  }

  /** The bit behind the last cluster taken. */
  function Behind(hint: int, taken: seq<nat>): int { if taken == [] then hint else taken[|taken| - 1] as int - 1 }

  /** The clusters in `taken` were taken one by one, each the first free one: the
    * first from bit `hint` on, every other from behind the one before. */
  ghost predicate Picked(bits: seq<bool>, hint: int, taken: seq<nat>) {
    forall i | 0 <= i < |taken| :: PickedAt(bits, hint, taken, i)
  }

  ghost predicate PickedAt(bits: seq<bool>, hint: int, taken: seq<nat>, i: nat)
    requires i < |taken|
  {
    taken[i] >= 2 && FirstFree(WithTaken(bits, taken[..i]), Behind(hint, taken[..i]), taken[i] - 2)
  }

  lemma NoneTaken(bits: seq<bool>, hint: int)
    ensures WithTaken(bits, []) == bits && Picked(bits, hint, [])
  {
  }

  lemma PickedStep(bits: seq<bool>, hint: int, taken: seq<nat>, c: nat)
    requires Picked(bits, hint, taken) && c < |bits|
    requires FirstFree(WithTaken(bits, taken), Behind(hint, taken), c)
    ensures Picked(bits, hint, taken + [c + 2]) && WithTaken(bits, taken + [c + 2]) == WithTaken(bits, taken)[c := true]
  {
    var more := taken + [c + 2];
    assert WithTaken(bits, more) == WithTaken(bits, taken)[c := true];
    hide FirstFree, WithTaken;
    forall i | 0 <= i < |more| ensures PickedAt(bits, hint, more, i) {
      if i < |taken| {
        assert more[..i] == taken[..i] && PickedAt(bits, hint, taken, i);
      } else {
        assert more[..i] == taken;
      }
    }
  }

  /** If the bits from `hint` on are clear, exactly those are picked, in order. */
  lemma {:induction false} PickedRun(bits: seq<bool>, hint: nat, taken: seq<nat>, i: nat)
    requires Picked(bits, hint, taken) && i < |taken| && hint + |taken| <= |bits|
    requires forall k | hint <= k < hint + |taken| :: !bits[k]
    ensures taken[i] == hint + 2 + i
  {
    forall j | 0 <= j < i ensures taken[j] == hint + 2 + j { PickedRun(bits, hint, taken, j); }
    var now := WithTaken(bits, taken[..i]);
    assert !bits[hint + i] && !now[hint + i];
    assert PickedAt(bits, hint, taken, i);
  }

  class Bitmap {
    const words: array<Word>
    const size: nat
    ghost var bits: seq<bool>          // the bits the words hold

    /** BMAP_GET */
    predicate BitAt(i: nat)
      requires i < WORD * words.Length
      reads words
    {
      words[i / WORD][i % WORD]
    }

    ghost predicate Valid()
      reads this, words
    {
      && |bits| == size <= WORD * words.Length
      && forall i: nat {:trigger BitAt(i)} | i < size :: BitAt(i) == bits[i]
    }

    constructor (size: nat)
      ensures Valid() && this.size == size && fresh(words)
      ensures forall i | 0 <= i < size :: !bits[i]
    {
      this.size := size;
      words := new Word[DivRoundUp(size, WORD)](_ => seq(WORD, _ => false));
      bits := seq(size, _ => false);
    }

    /** BMAP_SET */
    method Set(i: nat)
      requires Valid() && i < size
      modifies this`bits, words
      ensures Valid() && bits == old(bits)[i := true]
    {
      words[i / WORD] := words[i / WORD][i % WORD := true];
      bits := bits[i := true];
      assert forall j: nat {:trigger BitAt(j)} | j < size :: BitAt(j) == (j == i || old(BitAt(j)));
    }

    /** BMAP_CLR */
    method Clear(i: nat)
      requires Valid() && i < size
      modifies this`bits, words
      ensures Valid() && bits == old(bits)[i := false]
    {
      words[i / WORD] := words[i / WORD][i % WORD := false];
      bits := bits[i := false];
      assert forall j: nat {:trigger BitAt(j)} | j < size :: BitAt(j) == (j != i && old(BitAt(j)));
    }

    lemma FullWord(i: nat)
      requires Valid() && i < words.Length && words[i] == FULL
      ensures forall j: nat | i * WORD <= j < (i + 1) * WORD && j < size :: bits[j]
    {
      forall j: nat | i * WORD <= j < (i + 1) * WORD && j < size ensures bits[j] {
        DivModUnique(i, j - i * WORD, WORD);
        assert BitAt(j) == FULL[j % WORD];
      }
    }

    /** find_bit_and_set: takes the first clear bit of [start, end), skipping full words. */
    method FindBitAndSet(start: nat, end: nat) returns (found: bool, c: nat)
      requires Valid() && start <= end <= size
      modifies this`bits, words
      ensures Valid()
      ensures found ==> start <= c < end && !old(bits)[c] && bits == old(bits)[c := true]
      ensures !found ==> c == end && bits == old(bits)
      ensures forall j | start <= j < c :: old(bits)[j]
    {
      var i := start / WORD;
      while i < DivRoundUp(end, WORD)
        invariant start / WORD <= i
        invariant i <= DivRoundUp(end, WORD) || start == end
        invariant Valid() && bits == old(bits)
        invariant forall j | start <= j < Min(i * WORD, end) :: bits[j]
      {
        if words[i] == FULL {
          FullWord(i);
          i := i + 1;
          continue;
        }
        var last := Min((i + 1) * WORD, end);
        c := Max(i * WORD, start);
        while c < last
          invariant Max(i * WORD, start) <= c
          invariant Valid() && bits == old(bits)
          invariant forall j | start <= j < Min(c, end) :: bits[j]
        {
          if !BitAt(c) {
            Set(c);
            return true, c;
          }
          c := c + 1;
        }
        i := i + 1;
      }
      return false, end;
    }

    /** The search of allocate_cluster: the first clear bit from `hint` on, cyclically. */
    method FindFree(hint: nat) returns (found: bool, c: nat)
      requires Valid()
      modifies this`bits, words
      ensures Valid()
      ensures !found ==> CountFree(bits) == 0 && bits == old(bits)
      ensures found ==>
                && c < size && !old(bits)[c] && bits == old(bits)[c := true]
                && CountFree(bits) == CountFree(old(bits)) - 1
      ensures found ==> FirstFree(old(bits), hint, c)
    {
      var h := if hint >= size then 0 else hint;
      found, c := FindBitAndSet(h, size);
      if !found {
        found, c := FindBitAndSet(0, h);
      }
      if found {
        CountFreeSet(old(bits), c);
      } else {
        CountFreeZero(bits);
      }
    }

    /** exfat_count_free_clusters */
    method CountFreeClusters() returns (free: nat)
      requires Valid()
      ensures free == CountFree(bits)
    {
      free := 0;
      for i := 0 to size
        invariant free == CountFree(bits[..i])
      {
        assert bits[..i + 1][..i] == bits[..i];
        if !BitAt(i) {
          free := free + 1;
        }
      }
      assert bits[..size] == bits;
    }
  }
}
