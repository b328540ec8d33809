/** The search for room in a directory (find_slot of fs/exfat/node.c). */
module DirectorySlots {
  import opened Bytes
  import opened ClusterBitmap
  import opened ExfatVolume
  import opened FlatFile
  import opened FileIo

  /** The entries of one child: where its entry set starts and how many it has. */
  datatype Span = Span(at: nat, count: nat)

  predicate InSpan(p: Span, k: int) { p.at <= k < p.at + p.count }

  predicate Covered(spans: seq<Span>, k: int) { exists p :: 0 <= p < |spans| && InSpan(spans[p], k) }

  /** Entry `k` is marked valid on the disk. */
  predicate ValidAt(bytes: seq<byte>, k: nat)
    requires 32 * k < |bytes|
  {
    bytes[32 * k] >= 0x80
  }

  /** An entry that neither belongs to a child nor, where the disk is consulted,
    * is marked valid. */
  predicate Usable(bytes: seq<byte>, spans: seq<Span>, checked: bool, k: nat)
    requires 32 * k < |bytes|
  {
    !Covered(spans, k) && !(checked && ValidAt(bytes, k))
  }

  /** `n` usable entries from `s` on. */
  predicate Room(bytes: seq<byte>, spans: seq<Span>, checked: bool, n: nat, s: nat) {
    32 * (s + n) <= |bytes| && forall k: nat :: s <= k < s + n ==> Usable(bytes, spans, checked, k)
  }

  /** The last entries of the directory, none of a child: as many as there are,
    * but fewer than `n`. */
  predicate Tail(count: nat, spans: seq<Span>, n: nat, at: nat) {
    && at <= count < at + n
    && (forall k: nat :: at <= k < count ==> !Covered(spans, k))
    && (at == 0 || Covered(spans, at - 1) || at + n == count + 1)
  }

  /** The bitmap of the entries of the children. */
  method BuildMap(count: nat, spans: seq<Span>) returns (dmap: Bitmap)
    requires forall p :: 0 <= p < |spans| ==> spans[p].at + spans[p].count <= count
    ensures fresh(dmap) && fresh(dmap.words) && dmap.Valid() && dmap.size == count
    ensures forall k :: 0 <= k < count ==> dmap.bits[k] == Covered(spans, k)
  {
    dmap := new Bitmap(count);
    var p := 0;
    while p < |spans|
      invariant 0 <= p <= |spans| && fresh(dmap) && fresh(dmap.words) && dmap.Valid() && dmap.size == count
      invariant forall k :: 0 <= k < count ==> dmap.bits[k] == Covered(spans[..p], k)
    {
      var i := 0;
      while i < spans[p].count
        invariant 0 <= i <= spans[p].count && fresh(dmap) && fresh(dmap.words) && dmap.Valid() && dmap.size == count
        invariant forall k :: 0 <= k < count ==>
          dmap.bits[k] == (Covered(spans[..p], k) || spans[p].at <= k < spans[p].at + i)
      {
        dmap.Set(spans[p].at + i);
        i := i + 1;
      }
      CoveredStep(spans, p);
      p := p + 1;
    }
    assert spans[..p] == spans;
  }

  lemma CoveredStep(spans: seq<Span>, p: nat)
    requires p < |spans|
    ensures forall k: int :: Covered(spans[..p + 1], k) == (Covered(spans[..p], k) || InSpan(spans[p], k))
  {
    var (a, b) := (spans[..p], spans[..p + 1]);
    forall k: int ensures Covered(b, k) == (Covered(a, k) || InSpan(spans[p], k)) {
      if Covered(a, k) {
        var q :| 0 <= q < |a| && InSpan(a[q], k);
        assert InSpan(b[q], k);
      }
      if InSpan(spans[p], k) { assert InSpan(b[p], k); }
      if Covered(b, k) {
        var q :| 0 <= q < |b| && InSpan(b[q], k);
        assert q < p ==> InSpan(a[q], k);
      }
    }
  }

  /** check_slot: only the root directory holds valid entries without a node. */
  method CheckSlot(vol: Volume, dir: Node, isRoot: bool, s: nat, n: nat) returns (rc: int)
    requires vol.Valid() && dir in vol.chains && 32 * (s + n) <= |vol.Flat(dir).bytes|
    modifies dir`fptrIndex, dir`fptrCluster
    ensures vol.Valid() && vol.Flat(dir) == old(vol.Flat(dir))
    ensures rc == if !isRoot || (forall k: nat :: s <= k < s + n ==> !ValidAt(vol.Flat(dir).bytes, k)) then 0 else -EINVAL
  {
    hide Volume.Valid, Volume.Contents, View;
    if !isRoot { return 0; }
    ghost var bytes := vol.Flat(dir).bytes;
    var _, entries := Pread(vol, dir, 32 * n, 32 * s);
    assert entries == bytes[32 * s..32 * s + 32 * n];
    var i := 0;
    while i < n
      invariant 0 <= i <= n
      invariant forall k: nat :: s <= k < s + i ==> !ValidAt(bytes, k)
    {
      assert entries[32 * i] == bytes[32 * (s + i)];
      if entries[32 * i] >= 0x80 {
        assert ValidAt(bytes, s + i);
        return -EINVAL;
      }
      i := i + 1;
    }
    return 0;
  }

  /** Entry `k` may start the last run of free entries: what comes before it is
    * a child's, or a run of `n` from there on was looked at and turned down. */
  predicate RunStart(count: nat, spans: seq<Span>, n: nat, w: nat) {
    || w == 0 || Covered(spans, w - 1)
    || (w + n <= count + 1 && forall k: nat :: w <= k < w + n - 1 ==> !Covered(spans, k))
  }

  /** The scan of find_slot, which goes back after a run it had to turn down:
    * the first place with room, or else the tail of the directory. */
  method ScanSlots(vol: Volume, dir: Node, isRoot: bool, spans: seq<Span>, n: nat) returns (found: bool, at: nat)
    requires vol.Valid() && dir in vol.chains && n > 0 && |vol.Flat(dir).bytes| % 32 == 0
    requires forall p :: 0 <= p < |spans| ==> spans[p].at + spans[p].count <= |vol.Flat(dir).bytes| / 32
    modifies dir`fptrIndex, dir`fptrCluster
    ensures vol.Valid() && vol.Flat(dir) == old(vol.Flat(dir))
    ensures found ==> Room(vol.Flat(dir).bytes, spans, isRoot, n, at)
    ensures forall s: nat :: (found ==> s < at) ==> !Room(vol.Flat(dir).bytes, spans, isRoot, n, s)
    ensures !found ==> Tail(|vol.Flat(dir).bytes| / 32, spans, n, at)
  {
    hide Volume.Valid, Volume.Contents, View, Volume.Flat, Bitmap.Valid, Covered, Room;
    ghost var bytes := vol.Flat(dir).bytes;
    Length(vol, dir);
    var count := dir.size / 32;
    var dmap := BuildMap(count, spans);
    ghost var bits := dmap.bits;
    var i, contiguous := 0, 0;
    at := 0;
    while i < count
      invariant 0 <= contiguous <= i <= count && contiguous < n && dmap.Valid() && dmap.size == count && dmap.bits == bits
      invariant vol.Valid() && dir in vol.chains && vol.Flat(dir).bytes == bytes && vol.Flat(dir) == old(vol.Flat(dir))
      invariant contiguous > 0 ==> at == i - contiguous
      invariant forall k: nat :: i - contiguous <= k < i ==> !Covered(spans, k)
      invariant forall s: nat :: s < i - contiguous ==> !Room(bytes, spans, isRoot, n, s)
      invariant RunStart(count, spans, n, i - contiguous)
      decreases count - (i - contiguous), count - i
    {
      var taken := Test(dmap, i);
      if !taken {
        if contiguous == 0 { at := i; }
        contiguous := contiguous + 1;
        if contiguous == n {
          var rc := CheckSlot(vol, dir, isRoot, at, n);
          Judged(bytes, spans, isRoot, n, at, rc);
          if rc == -EINVAL {
            i := i - (contiguous - 1);
            contiguous := 0;
          } else {
            return true, at;
          }
        }
      } else {
        Blocked(bytes, spans, isRoot, n, i - contiguous, i);
        contiguous := 0;
      }
      i := i + 1;
    }
    if contiguous == 0 { at := count; }
    found := false;
    TooFar(bytes, spans, isRoot, n, count, at);
  }

  /** The verdict of check_slot on `n` entries that belong to no child. */
  lemma Judged(bytes: seq<byte>, spans: seq<Span>, isRoot: bool, n: nat, s: nat, rc: int)
    requires 32 * (s + n) <= |bytes| && forall k: nat :: s <= k < s + n ==> !Covered(spans, k)
    requires rc == if !isRoot || (forall k: nat :: s <= k < s + n ==> !ValidAt(bytes, k)) then 0 else -EINVAL
    ensures rc == 0 <==> Room(bytes, spans, isRoot, n, s)
    ensures rc == 0 || rc == -EINVAL
  {
    hide Covered;
    if rc != 0 {
      var k: nat :| s <= k < s + n && ValidAt(bytes, k);
      assert !Usable(bytes, spans, isRoot, k);
    }
  }

  method Test(dmap: Bitmap, i: nat) returns (b: bool)
    requires dmap.Valid() && i < dmap.size
    ensures |dmap.bits| == dmap.size && b == dmap.bits[i]
  {
    b := dmap.BitAt(i);
  }

  lemma Length(vol: Volume, dir: Node)
    requires vol.Valid() && dir in vol.chains
    ensures |vol.Flat(dir).bytes| == dir.size
  {
    Shown(vol, dir);
  }

  /** A covered entry rules out every run across it. */
  lemma Blocked(bytes: seq<byte>, spans: seq<Span>, isRoot: bool, n: nat, w: nat, i: nat)
    requires w <= i < w + n && Covered(spans, i)
    ensures forall s: nat :: w <= s <= i ==> !Room(bytes, spans, isRoot, n, s)
  {
    hide Covered;
    assert 32 * i < |bytes| ==> !Usable(bytes, spans, isRoot, i);
  }

  lemma TooFar(bytes: seq<byte>, spans: seq<Span>, isRoot: bool, n: nat, count: nat, w: nat)
    requires count == |bytes| / 32 && count < w + n
    ensures forall s: nat :: w <= s ==> !Room(bytes, spans, isRoot, n, s)
  {
  }

  /** The size find_slot asks for when there is no room: whole clusters. */
  function Extended(cs: nat, size: nat, n: nat, contiguous: nat): nat
    requires cs > 0 && contiguous < n
  {
    DivRoundUp(size + 32 * (n - contiguous), cs) * cs
  }

  lemma ExtendedRoom(cs: nat, size: nat, n: nat, at: nat)
    requires cs > 0 && size % 32 == 0 && at <= size / 32 < at + n && size + 32 * n + cs <= MaxSize(cs)
    ensures var e := Extended(cs, size, n, size / 32 - at);
            size < e <= MaxSize(cs) && 32 * (at + n) <= e < 32 * (at + n) + cs && e % cs == 0
  {
    var x := size + 32 * (n - (size / 32 - at));
    DivRoundUpBounds(x, cs);
    hide DivRoundUp, MaxSize;
    var q := DivRoundUp(x, cs);
    DivModUnique(q, 0, cs);
    assert (q - 1) * cs == q * cs - cs;
  }

  /** find_slot: the first place with room, if there is one; else the tail,
    * after the directory has grown by whole clusters of zeros to hold it. A
    * failure leaves the directory as it was. */
  method FindSlot(vol: Volume, dir: Node, isRoot: bool, spans: seq<Span>, n: nat) returns (rc: int, offset: nat)
    requires vol.Valid() && dir in vol.chains && n > 0 && |vol.Flat(dir).bytes| % 32 == 0
    requires forall p :: 0 <= p < |spans| ==> spans[p].at + spans[p].count <= |vol.Flat(dir).bytes| / 32
    requires dir.size + 32 * n + vol.store.ClusterSize() <= MaxSize(vol.store.ClusterSize())
    modifies vol`owner, vol`chains, vol.store`fat, vol.store`heap, vol.store.dev, vol.cmap`bits, vol.cmap.words
    modifies dir`start, dir`fptrIndex, dir`fptrCluster, dir`isContiguous, dir`isDirty, dir`validSize, dir`size
    ensures vol.Valid() && dir in vol.chains && offset % 32 == 0
    ensures vol.Contents() == old(vol.Contents())[dir := vol.Contents()[dir]]
    ensures var bytes := old(vol.Flat(dir).bytes);
            var s := offset / 32;
            if exists t: nat :: Room(bytes, spans, isRoot, n, t) then
              && rc == 0 && vol.Flat(dir) == old(vol.Flat(dir))
              && Room(bytes, spans, isRoot, n, s) && (forall t: nat :: t < s ==> !Room(bytes, spans, isRoot, n, t))
            else
              && Tail(|bytes| / 32, spans, n, s)
              && vol.store.ClusterSize() > 0
              && rc == Truncated(vol.store.ClusterSize(), old(vol.Flat(dir)), CountFree(old(vol.cmap.bits)),
                                 Extended(vol.store.ClusterSize(), |bytes|, n, |bytes| / 32 - s), true).rc
              && (rc == 0 || (rc == -ENOSPC && vol.Flat(dir) == old(vol.Flat(dir))))
              && (rc == 0 ==> |vol.Flat(dir).bytes| > |bytes| && vol.Flat(dir).bytes == Resize(bytes, |vol.Flat(dir).bytes|)
                              && offset + 32 * n <= |vol.Flat(dir).bytes| < offset + 32 * n + vol.store.ClusterSize()
                              && |vol.Flat(dir).bytes| % vol.store.ClusterSize() == 0)
              && CountFree(vol.cmap.bits) == Truncated(vol.store.ClusterSize(), old(vol.Flat(dir)), CountFree(old(vol.cmap.bits)),
                                                       Extended(vol.store.ClusterSize(), |bytes|, n, |bytes| / 32 - s), true).free
    ensures (exists t: nat :: Room(old(vol.Flat(dir).bytes), spans, isRoot, n, t)) ==> CountFree(vol.cmap.bits) == CountFree(old(vol.cmap.bits))
    ensures old(dir.validSize) == old(dir.size) ==> dir.validSize == dir.size
    ensures dir.size <= MaxSize(vol.store.ClusterSize())
  {
    hide Volume.Valid, Volume.Contents, View, Resize, MaxSize, Room, Covered, DivRoundUp, CountFree;
    ghost var f := vol.Flat(dir);
    Shown(vol, dir);
    var found, at := ScanSlots(vol, dir, isRoot, spans, n);
    offset := 32 * at;
    if found { return 0, offset; }
    var size := Extended(vol.store.ClusterSize(), dir.size, n, dir.size / 32 - at);
    ExtendedRoom(vol.store.ClusterSize(), dir.size, n, at);
    rc := Truncate(vol, dir, size, true);
    Shown(vol, dir);
  }

  /** A slot at the tail crosses no child's entries. */
  lemma TailDisjoint(count: nat, spans: seq<Span>, n: nat, at: nat)
    requires Tail(count, spans, n, at)
    requires forall p :: 0 <= p < |spans| ==> spans[p].at + spans[p].count <= count
    ensures forall k: nat :: at <= k < at + n ==> !Covered(spans, k)
  {
    forall k: nat | at <= k < at + n ensures !Covered(spans, k) {
      if k >= count { assert forall p :: 0 <= p < |spans| ==> !InSpan(spans[p], k); }
    }
  }

  /** Where the tail begins: as far back from `at` as fewer than `n` entries
    * reach, or up to the last child. */
  function TailFrom(count: nat, spans: seq<Span>, n: nat, at: nat): (r: nat)
    requires at <= count
    ensures r <= at
  {
    if at == 0 || at + n <= count + 1 || Covered(spans, at - 1) then at else TailFrom(count, spans, n, at - 1)
  }

  function TailBegin(count: nat, spans: seq<Span>, n: nat): (r: nat)
    ensures r <= count
  {
    TailFrom(count, spans, n, count)
  }

  lemma {:induction false} TailIsFrom(count: nat, spans: seq<Span>, n: nat, at: nat, from: nat)
    requires Tail(count, spans, n, at) && at <= from <= count
    ensures TailFrom(count, spans, n, from) == at
  {
    hide Covered;
    if from > at { TailIsFrom(count, spans, n, at, from - 1); }
  }

  lemma {:induction false} TailFromIs(count: nat, spans: seq<Span>, n: nat, from: nat)
    requires from <= count < from + n && forall k: nat :: from <= k < count ==> !Covered(spans, k)
    ensures Tail(count, spans, n, TailFrom(count, spans, n, from))
  {
    hide Covered;
    if !(from == 0 || from + n <= count + 1 || Covered(spans, from - 1)) { TailFromIs(count, spans, n, from - 1); }
  }

  /** The tail is determined by the children and the room needed. */
  lemma TailExact(count: nat, spans: seq<Span>, n: nat, at: nat)
    requires n > 0
    ensures Tail(count, spans, n, at) <==> at == TailBegin(count, spans, n)
  {
    hide Covered;
    if Tail(count, spans, n, at) { TailIsFrom(count, spans, n, at, count); }
    TailFromIs(count, spans, n, count);
  }

  /** After an extension the slot is free on the disk too if and only if no
    * entry from the beginning of the tail on was valid. (Only the root has valid
    * entries outside its children, and there find_slot does not look at the
    * tail.) */
  lemma TailFree(bytes: seq<byte>, grown: seq<byte>, spans: seq<Span>, n: nat)
    requires |bytes| % 32 == 0 && n > 0 && |bytes| <= |grown| && grown == Resize(bytes, |grown|)
    requires 32 * (TailBegin(|bytes| / 32, spans, n) + n) <= |grown|
    ensures var at := TailBegin(|bytes| / 32, spans, n);
            ((forall k: nat :: at <= k < at + n ==> !ValidAt(grown, k))
             <==> (forall k: nat :: at <= k < |bytes| / 32 ==> !ValidAt(bytes, k)))
  {
    var at := TailBegin(|bytes| / 32, spans, n);
    TailExact(|bytes| / 32, spans, n, at);
    hide TailBegin, Covered;
    assert forall i :: 0 <= i < |grown| ==> grown[i] == if i < |bytes| then bytes[i] else 0;
    assert forall k: nat :: at <= k < |bytes| / 32 ==> ValidAt(grown, k) == ValidAt(bytes, k);
  }
}
