/** Mounting a volume (fs/exfat/mount.c), in particular a freshly formatted one. */
module Mounting {
  import opened Bytes
  import opened BlockDevice
  import opened Checksums
  import opened BootRegion
  import opened Chains
  import opened ClusterStore
  import opened ClusterBitmap
  import opened Ownership
  import opened ExfatVolume
  import L = Layout
  import opened Formatter

  // ---- the root directory's chain ----

  /** The cluster `n` links after `start`. */
  function WalkAt(fat: seq<u32>, start: nat, n: nat): nat {
    if n == 0 then start
    else
      var c := WalkAt(fat, start, n - 1);
      if c < |fat| then fat[c] else c
  }

  /** From `start`, `n` clusters of the heap and then the end mark. */
  predicate Ends(fat: seq<u32>, start: nat, n: nat) {
    && n > 0
    && (forall i: nat :: i < n ==> 2 <= WalkAt(fat, start, i) < |fat|)
    && WalkAt(fat, start, n) == CLUSTER_END
  }

  lemma {:induction false} WalkShift(fat: seq<u32>, start: nat, i: nat, j: nat, k: nat)
    requires WalkAt(fat, start, i) == WalkAt(fat, start, j)
    ensures WalkAt(fat, start, i + k) == WalkAt(fat, start, j + k)
  {
    if k > 0 { WalkShift(fat, start, i, j, k - 1); }
  }

  lemma NoRepeat(fat: seq<u32>, start: nat, n: nat, i: nat, j: nat)
    requires Ends(fat, start, n) && i < j < n && |fat| <= LAST_DATA_CLUSTER + 1
    ensures WalkAt(fat, start, i) != WalkAt(fat, start, j)
  {
    assert WalkAt(fat, start, i + (n - j)) != CLUSTER_END;
    if WalkAt(fat, start, i) == WalkAt(fat, start, j) { WalkShift(fat, start, i, j, n - j); }
  }

  /** A walk that has come to `m` without ending, on a cluster outside the heap
    * or after as many clusters as the heap has, does not end at all. */
  lemma NeverEnds(fat: seq<u32>, start: nat, m: nat, n: nat)
    requires 2 <= |fat| <= LAST_DATA_CLUSTER + 1
    requires forall i: nat :: i < m ==> 2 <= WalkAt(fat, start, i) < |fat|
    requires m > 0 ==> WalkAt(fat, start, m) != CLUSTER_END
    requires m >= |fat| - 2 || !(2 <= WalkAt(fat, start, m) < |fat|)
    ensures !Ends(fat, start, n)
  {
    if Ends(fat, start, n) { EndsShort(fat, start, n); }
  }

  /** A walk that ends visits no cluster twice, so it is no longer than the heap. */
  lemma EndsShort(fat: seq<u32>, start: nat, n: nat)
    requires Ends(fat, start, n) && 2 <= |fat| <= LAST_DATA_CLUSTER + 1
    ensures n <= |fat| - 2
  {
    var walk := seq(n, i requires 0 <= i < n => WalkAt(fat, start, i));
    assert forall i | 0 <= i < n :: walk[i] == WalkAt(fat, start, i);
    forall i, j | 0 <= i < j < n ensures walk[i] != walk[j] { NoRepeat(fat, start, n, i, j); }
    Pigeonhole(walk, |fat|);
  }

  /** rootdir_size: the length of the root directory if its chain ends, and 0
    * exactly when the chain runs into a bad cluster or never ends. */
  method RootDirSize(store: Store, first: u32) returns (size: nat)
    requires store.Valid()
    ensures size == 0 <==> forall n: nat :: !Ends(store.fat, first, n)
    ensures forall n: nat :: Ends(store.fat, first, n) ==> size == n * store.ClusterSize()
  {
    hide Store.Valid;
    ghost var fat := store.fat;
    StoreShape(store);
    var clusters, c := 0, first;
    while true
      invariant clusters <= store.clusterCount && c == WalkAt(fat, first, clusters)
      invariant clusters > 0 ==> c != CLUSTER_END
      invariant forall i: nat :: i < clusters ==> 2 <= WalkAt(fat, first, i) < |fat|
      decreases store.clusterCount - clusters
    {
      if clusters == store.clusterCount {
        forall n: nat ensures !Ends(fat, first, n) { NeverEnds(fat, first, clusters, n); }
        return 0;
      }
      if !store.InHeap(c) {
        forall n: nat ensures !Ends(fat, first, n) { NeverEnds(fat, first, clusters, n); }
        return 0;
      }
      c := store.Next(c);
      clusters := clusters + 1;
      if c == CLUSTER_END { break; }
    }
    assert Ends(fat, first, clusters);
    forall n: nat | Ends(fat, first, n) ensures n == clusters { EndsOnce(fat, first, clusters, n); }
    size := clusters * store.ClusterSize();
    Positive(clusters, store.ClusterSize());
  }

  lemma Positive(a: nat, b: nat)
    requires a > 0 && b > 0
    ensures a * b > 0
  {
  }

  lemma StoreShape(store: Store)
    requires store.Valid()
    ensures store.dev.Valid() && |store.fat| == store.clusterCount + 2 <= LAST_DATA_CLUSTER + 1 && store.ClusterSize() > 0
  {
  }

  lemma EndsOnce(fat: seq<u32>, start: nat, m: nat, n: nat)
    requires Ends(fat, start, m) && Ends(fat, start, n) && 2 <= |fat| <= LAST_DATA_CLUSTER + 1
    ensures m == n
  {
  }

  // ---- what a formatted image holds ----

  lemma {:induction false} RunWalk(fat: seq<u32>, c: nat, n: nat, i: nat)
    requires i < n && c + n <= |fat|
    requires forall k :: c <= k < c + n ==> fat[k] == if k < c + n - 1 then k + 1 else CLUSTER_END
    ensures WalkAt(fat, c, i) == c + i
  {
    if i > 0 { RunWalk(fat, c, n, i - 1); }
  }

  lemma RunEnds(fat: seq<u32>, c: nat, n: nat)
    requires n > 0 && 2 <= c && c + n <= |fat|
    requires forall k :: c <= k < c + n ==> fat[k] == if k < c + n - 1 then k + 1 else CLUSTER_END
    ensures Ends(fat, c, n)
  {
    forall i: nat | i < n ensures 2 <= WalkAt(fat, c, i) < |fat| { RunWalk(fat, c, n, i); }
    RunWalk(fat, c, n, n - 1);
    assert WalkAt(fat, c, n) == fat[WalkAt(fat, c, n - 1)];
  }

  /** The chains in the FAT start where the directory entries and the super
    * block say, and have the lengths the objects need. */
  lemma SystemChains(v: nat)
    requires v < 0x1000_0000_0000 && L.Accepted(v)
    ensures Ends(FatEntries(v), 2, DivRoundUp(L.CbmSize(v), 4096))
    ensures Ends(FatEntries(v), L.UctCluster(v), DivRoundUp(L.UCT_SIZE, 4096))
    ensures Ends(FatEntries(v), L.RootCluster(v), 1)
  {
    hide L.Accepted, L.CbmSize, L.RootCluster, L.UctCluster, L.HeapStart, CbmClusters, DivRoundUp, Ends;
    FatRoom(v);
    var (es, n, u, r) := (FatEntries(v), CbmClusters(v), L.UctCluster(v), L.RootCluster(v));
    var (a, b, c) := (ChainFrom(2, n), ChainFrom(u, 2), ChainFrom(r, 1));
    assert forall k :: 2 <= k < 2 + n ==> es[k] == a[k - 2];
    RunEnds(es, 2, n);
    assert forall k :: u <= k < u + 2 ==> es[k] == b[k - u];
    RunEnds(es, u, 2);
    assert forall k :: r <= k < r + 1 ==> es[k] == c[k - r];
    RunEnds(es, r, 1);
  }

  lemma ContentAt(img: seq<byte>, v: nat, uct: seq<byte>, j: nat, i: nat)
    requires j < 6 && Formatted(img, v, uct) && i < L.Size(L.Objects[j], v)
    ensures 0 <= Spot(j, v) && Spot(j, v) + L.Size(L.Objects[j], v) <= |img|
    ensures img[Spot(j, v) + i] == if i < |Payload(j, v, uct)| then Payload(j, v, uct)[i] else 0
  {
    hide Payload, L.Size, L.Accepted, Spot;
    assert Placed(img, v, uct, j);
    var d := Content(j, v, uct);
    assert img[Spot(j, v) + i] == d[i];
  }

  /** The FAT: the chains of the three objects, and zero everywhere else. */
  lemma FormattedFat(img: seq<byte>, v: nat, uct: seq<byte>, c: nat)
    requires Formatted(img, v, uct) && c < L.Clusters(v)
    ensures 65536 + 4 * c + 4 <= |img|
    ensures WordAt(img, 65536 + 4 * c) == if c <= L.RootCluster(v) then FatEntries(v)[c] else 0
  {
    hide L.Accepted, FatEntries, LeWords, L.RootCluster, Stage;
    var es := FatEntries(v);
    var p := 65536 + 4 * c;
    assert L.Objects[2] == L.Fat && Spot(2, v) == 65536 && Payload(2, v, uct) == LeWords(es);
    ContentAt(img, v, uct, 2, 4 * c);
    ContentAt(img, v, uct, 2, 4 * c + 1);
    ContentAt(img, v, uct, 2, 4 * c + 2);
    ContentAt(img, v, uct, 2, 4 * c + 3);
    if c < |es| {
      LeWordsAt(es, c);
      var w := LeWords(es)[4 * c..4 * c + 4];
      assert img[p..p + 4] == w;
    } else {
      assert img[p..p + 4] == [0, 0, 0, 0];
      assert FromLe32([0, 0, 0, 0]) == 0;
    }
  }

  /** The bitmap: exactly the clusters the formatter took are set. */
  lemma FormattedBit(img: seq<byte>, v: nat, uct: seq<byte>, i: nat)
    requires Formatted(img, v, uct) && i < L.ClusterCount(v)
    ensures 0 <= L.HeapStart(v) && L.HeapStart(v) + i / 8 < |img|
    ensures BitOf(img[L.HeapStart(v) + i / 8], i % 8) == (i < Taken(v))
  {
    hide L.Accepted, L.HeapStart, L.CbmSize, Taken, Stage, L.ClusterCount, Pack, UsedBits, BitOf;
    L.AgreeBelow(v);
    CbmFits(v);
    var j := i / 8;
    assert L.Objects[3] == L.Cbm && Spot(3, v) == L.HeapStart(v) && Payload(3, v, uct) == Pack(UsedBits(v));
    assert j < L.CbmSize(v);
    ContentAt(img, v, uct, 3, j);
    UsedBit(v, i);
    ZeroBits(i % 8);
  }

  lemma UsedBit(v: nat, i: nat)
    requires Taken(v) >= 0
    ensures i / 8 < |Pack(UsedBits(v))| ==> BitOf(Pack(UsedBits(v))[i / 8], i % 8) == (i < Taken(v))
    ensures i / 8 >= |Pack(UsedBits(v))| ==> i >= Taken(v)
  {
    hide Taken, BitOf, Number;
    var (bits, j) := (UsedBits(v), i / 8);
    if j < |Pack(bits)| {
      var part := bits[8 * j..8 * j + 8];
      PackBit(part, i % 8);
      assert part[i % 8] == bits[i];
    } else {
      DivRoundUpBounds(Taken(v), 8);
    }
  }

  lemma {:induction false} ZeroBits(k: nat)
    ensures !BitOf(0, k)
  {
    if k > 0 { ZeroBits(k - 1); }
  }

  lemma FormattedSb(img: seq<byte>, v: nat, uct: seq<byte>)
    requires Formatted(img, v, uct)
    ensures |img| >= 12288 && img[..512] == InitSb(v)
    ensures RegionAccepted(512, img)
  {
    hide L.Accepted, VbrBytes, RegionAccepted, L.Size, Summed;
    assert Placed(img, v, uct, 0) && Placed(img, v, uct, 1);
    var d := VbrBytes(v);
    assert L.Objects[0] == L.Vbr && Spot(0, v) == 0 && Payload(0, v, uct) == d;
    VbrSize(v);
    assert Content(0, v, uct) == d;
    VbrAccepted(img, v);
    VbrHead(v);
    assert img[..512] == d[..512];
    PlacesApart(0, 1, v);
  }

  lemma VbrSize(v: nat)
    requires v < 0x1000_0000_0000 && L.Accepted(v)
    ensures L.Size(L.Objects[0], v) == L.Size(L.Objects[1], v) == 6144 == |VbrBytes(v)|
  {
  }

  lemma VbrHead(v: nat)
    requires v < 0x1000_0000_0000 && L.Accepted(v)
    ensures VbrBytes(v)[..512] == InitSb(v)
  {
    hide InitSb, Repeat, L.Accepted, Digest;
  }

  // ---- the root directory of a new volume ----

  /** The system entries of the root directory: where the bitmap and the upcase
    * table start and how many bytes they have. */
  datatype System = System(cmapStart: nat, cmapBytes: nat, upcaseStart: nat, upcaseBytes: nat)

  /** A cleared label, a bitmap and an upcase entry, and nothing after them. */
  ghost predicate NewRoot(dir: seq<byte>, s: System) {
    && |dir| == 4096
    && dir[0] == 0x03 && dir[32] == 0x81 && dir[64] == 0x82
    && WordAt(dir, 52) == s.cmapStart && LongAt(dir, 56) == s.cmapBytes
    && WordAt(dir, 84) == s.upcaseStart && LongAt(dir, 88) == s.upcaseBytes
    && forall i :: 96 <= i < 4096 ==> dir[i] == 0
  }

  lemma FormattedRoot(img: seq<byte>, v: nat, uct: seq<byte>)
    requires Formatted(img, v, uct)
    ensures 0 <= L.RootStart(v) && L.RootStart(v) + 4096 <= |img|
    ensures L.CbmSize(v) >= 0
    ensures NewRoot(img[L.RootStart(v)..L.RootStart(v) + 4096], System(2, L.CbmSize(v), L.UctCluster(v), L.UCT_SIZE))
  {
    hide L.Accepted, L.RootStart, L.CbmSize, L.UctCluster, NewRoot, Zeros, Payload, Spot, L.Size, LabelEntry, BitmapEntry, UpcaseEntry;
    assert Placed(img, v, uct, 5);
    RootPayload(v, uct);
    RootBytes(v, uct);
  }

  lemma RootPayload(v: nat, uct: seq<byte>)
    requires Formattable(v, uct)
    ensures 0 <= L.CbmSize(v) < L.WORD && Spot(5, v) == L.RootStart(v) && |Content(5, v, uct)| == 4096
    ensures Content(5, v, uct) == LabelEntry() + BitmapEntry(v) + UpcaseEntry(v, uct) + Zeros(4000)
  {
    hide L.Accepted, L.RootStart, L.CbmSize, LabelEntry, BitmapEntry, UpcaseEntry, Zeros;
    CbmFits(v);
    assert L.Objects[5] == L.RootDir;
  }

  lemma RootBytes(v: nat, uct: seq<byte>)
    requires 0 <= L.CbmSize(v) < L.WORD
    ensures NewRoot(LabelEntry() + BitmapEntry(v) + UpcaseEntry(v, uct) + Zeros(4000),
                    System(2, L.CbmSize(v), L.UctCluster(v), L.UCT_SIZE))
  {
    hide L.CbmSize, L.UctCluster, UpcaseSum, ToLe32, FromLe32;
    var (b, u) := (BitmapEntry(v), UpcaseEntry(v, uct));
    var dir := LabelEntry() + b + u + Zeros(4000);
    LongStored(b, 24, L.CbmSize(v));
    LongStored(u, 24, L.UCT_SIZE);
    assert dir[52..56] == b[20..24] == ToLe32(2);
    assert dir[84..88] == u[20..24] == ToLe32(L.UctCluster(v));
    assert dir[56..60] == b[24..28] && dir[60..64] == b[28..32];
    assert dir[88..92] == u[24..28] && dir[92..96] == u[28..32];
  }

  /** The pass of exfat_cache_directory over a root directory without files. */
  method ScanRoot(dir: seq<byte>, clusterCount: nat, ghost s: System) returns (ok: bool, r: System)
    requires NewRoot(dir, s)
    ensures ok <==> 2 <= s.cmapStart < clusterCount + 2 && 2 <= s.upcaseStart < clusterCount + 2
                    && s.cmapBytes >= DivRoundUp(clusterCount, 8)
                    && 0 < s.upcaseBytes <= 0x2_0000 && s.upcaseBytes % 2 == 0
    ensures ok ==> r == s
  {
    r := System(0, 0, 0, 0);
    var i := 0;
    while i < 128
      invariant 0 <= i <= 128
      invariant i > 1 ==> r.cmapStart == s.cmapStart && r.cmapBytes == s.cmapBytes
                          && 2 <= s.cmapStart < clusterCount + 2 && s.cmapBytes >= DivRoundUp(clusterCount, 8)
      invariant i > 2 ==> r == s && 2 <= s.upcaseStart < clusterCount + 2
                          && 0 < s.upcaseBytes <= 0x2_0000 && s.upcaseBytes % 2 == 0
    {
      var o := 32 * i;
      var kind := dir[o];
      if kind == 0x81 {
        assert i == 1;
        r := r.(cmapStart := WordAt(dir, o + 20), cmapBytes := LongAt(dir, o + 24));
        if !(2 <= r.cmapStart < clusterCount + 2) { return false, r; }
        if r.cmapBytes < DivRoundUp(clusterCount, 8) { return false, r; }
      } else if kind == 0x82 {
        assert i == 2;
        r := r.(upcaseStart := WordAt(dir, o + 20), upcaseBytes := LongAt(dir, o + 24));
        if !(2 <= r.upcaseStart < clusterCount + 2) { return false, r; }
        if r.upcaseBytes == 0 || r.upcaseBytes > 0x2_0000 || r.upcaseBytes % 2 != 0 { return false, r; }
      }
      i := i + 1;
    }
    return true, r;
  }

  /** Reads the bitmap's bytes into the words of the in-memory bitmap. */
  method LoadBitmap(bytes: seq<byte>, count: nat) returns (cmap: Bitmap)
    requires count <= 8 * |bytes|
    ensures fresh(cmap) && fresh(cmap.words) && cmap.Valid() && cmap.size == count == |cmap.bits|
    ensures forall i | 0 <= i < count :: cmap.bits[i] == BitOf(bytes[i / 8], i % 8)
  {
    hide BitOf;
    cmap := new Bitmap(count);
    var i := 0;
    while i < count
      invariant i <= count && fresh(cmap) && fresh(cmap.words) && cmap.Valid() && cmap.size == count
      invariant forall j | 0 <= j < i :: cmap.bits[j] == BitOf(bytes[j / 8], j % 8)
      invariant forall j | i <= j < count :: !cmap.bits[j]
    {
      if BitOf(bytes[i / 8], i % 8) { cmap.Set(i); }
      i := i + 1;
    }
  }

  // ---- mount ----

  /** The checks of exfat_mount on the super block and the boot region. */
  predicate Mountable(img: seq<byte>) {
    && |img| >= 512
    && img[0x03..0x0b] == OemName
    && img[0x6c] >= 9 && img[0x6c] as int + img[0x6d] as int <= 25
    && 12 * Pow2(img[0x6c]) <= |img| && Fits(Pow2(img[0x6c]), img) && RegionAccepted(Pow2(img[0x6c]), img)
    && img[0x69] == 1 && img[0x68] == 0 && img[0x6e] == 1
    && WordAt(img, 0x5c) * (Pow2(img[0x6c]) * Pow2(img[0x6d])) <= |img|
  }

  lemma {:induction false} SectorSizes(n: nat)
    requires n >= 9
    ensures Pow2(n) >= 512 && Pow2(n) % 4 == 0
  {
    if n == 9 { assert Pow2(9) == 512; } else { SectorSizes(n - 1); }
  }

  method CheckVolume(dev: Device) returns (ok: bool)
    requires dev.Valid() && dev.Capacity() >= 512
    ensures ok == Mountable(Image(dev))
  {
    hide Image, RegionAccepted, Pow2;
    ghost var img := Image(dev);
    var size := 512 * (|dev.sectors| - dev.partition);
    var sb := Get(dev, 512, 0);
    assert forall i | 0 <= i < 512 :: sb[i] == img[i];
    assert sb[0x03..0x0b] == img[0x03..0x0b] && sb[0x5c..0x60] == img[0x5c..0x60];
    if sb[0x03..0x0b] != OemName { return false; }
    if sb[0x6c] < 9 { return false; }
    if sb[0x6c] as int + sb[0x6d] as int > 25 { return false; }
    var sector := Pow2(sb[0x6c]);
    SectorSizes(sb[0x6c]);
    if 12 * sector > size { return false; }
    var good := VerifyChecksum(dev, sector);
    if !good { return false; }
    if sb[0x69] != 1 || sb[0x68] != 0 { return false; }
    if sb[0x6e] != 1 { return false; }
    if WordAt(sb, 0x5c) * (sector * Pow2(sb[0x6d])) > size { return false; }
    return true;
  }

  /** What the formatter writes, mount accepts. */
  lemma FormattedMountable(img: seq<byte>, v: nat, uct: seq<byte>)
    requires Formatted(img, v, uct)
    ensures Mountable(img)
  {
    hide L.Accepted, InitSb, RegionAccepted, L.ClusterCount, L.HeapStart, Stage;
    FormattedSb(img, v, uct);
    SbFields(v);
    L.HeapAgrees(v);
    FatRoom(v);
    var sb := InitSb(v);
    assert forall i | 0 <= i < 512 :: img[i] == sb[i];
    assert img[0x03..0x0b] == sb[0x03..0x0b] && img[0x5c..0x60] == sb[0x5c..0x60];
    assert Pow2(9) == 512 && Pow2(3) == 8;
  }

  lemma StoreFat(store: Store, c: nat)
    requires store.Valid() && store.InHeap(c) && store.sectorSize == 512 && store.fatSectorStart == 128 && store.dev.Capacity() >= 0
    ensures 65536 + 4 * c + 4 <= |Image(store.dev)| && store.fat[c] == WordAt(Image(store.dev), 65536 + 4 * c)
  {
    store.Extent(c);
    var img := Image(store.dev);
    var p := 65536 + 4 * c;
    assert store.FatOffset(c) == p;
    assert img[p..p + 4] == store.FatBytes(c);
  }

  /** The root chain of a new volume is its one cluster. */
  lemma RootEnds(store: Store, v: nat, uct: seq<byte>)
    requires store.Valid() && store.sectorSize == 512 && store.fatSectorStart == 128 && store.dev.Capacity() >= 0
    requires Formatted(Image(store.dev), v, uct) && store.clusterCount == L.ClusterCount(v)
    ensures 2 <= L.RootCluster(v) < |store.fat| && store.fat[L.RootCluster(v)] == CLUSTER_END
    ensures Ends(store.fat, L.RootCluster(v), 1)
  {
    hide L.Accepted, L.ClusterCount, L.RootCluster, L.UctCluster, L.Clusters, L.FatSize, L.HeapStart, L.CbmSize, Image, Stage, Store.Valid, FatEntries, Formatted;
    var r := L.RootCluster(v);
    StoreShape(store);
    Extents(Image(store.dev), v, uct);
    FormattedRange(Image(store.dev), v, uct);
    StoreFat(store, r);
    FormattedFat(Image(store.dev), v, uct, r);
    LastEntry(v);
    assert WalkAt(store.fat, r, 1) == store.fat[WalkAt(store.fat, r, 0)];
  }

  lemma FormattedRange(img: seq<byte>, v: nat, uct: seq<byte>)
    requires Formatted(img, v, uct)
    ensures v < 0x1000_0000_0000 && L.Accepted(v) && L.RootCluster(v) < L.Clusters(v)
  {
    FatRoom(v);
  }

  lemma LastEntry(v: nat)
    requires v < 0x1000_0000_0000 && L.Accepted(v)
    ensures FatEntries(v)[L.RootCluster(v)] == 0xffff_ffff
  {
    hide L.Accepted, L.CbmSize, L.RootCluster, L.UctCluster, L.HeapStart;
    FatRoom(v);
    var last := ChainFrom(L.RootCluster(v), 1);
    assert last[0] == 0xffff_ffff;
    assert FatEntries(v)[L.RootCluster(v)] == last[0];
  }

  /** The clusters in use on a new volume: the bitmap's and the upcase table's
    * are the system's, the root directory has the last one. */
  ghost function NewOwner(root: Node, first: nat): map<nat, Use<Node>> {
    map c: nat | 2 <= c <= first && InSpan(c, first) :: if c == first then At(root, 0) else Fixed
  }

  ghost function SystemClusters(first: nat): set<nat> { set c: nat | 2 <= c < first && InSpan(c, first) }

  predicate InSpan(c: nat, first: nat) { 2 <= c <= first }

  lemma NewOwned(root: Node, first: nat, limit: nat, bits: seq<bool>, chains: map<Node, seq<nat>>, owner: map<nat, Use<Node>>)
    requires chains == map[root := [first]] && owner == NewOwner(root, first)
    requires 2 <= first < limit && |bits| == limit - 2
    requires forall i | 0 <= i < |bits| :: bits[i] == (i < first - 1)
    ensures OwnedBy(chains, owner, limit) && Marks(bits, owner) && Spares(owner, SystemClusters(first))
  {
  }

  /** The geometry mount reads from the super block. */
  ghost predicate Geometry(sb: seq<byte>, v: nat) {
    && |sb| == 512
    && WordAt(sb, 0x50) == 128 && WordAt(sb, 0x58) == L.ClusterSectorStart(v)
    && WordAt(sb, 0x5c) == L.ClusterCount(v) && WordAt(sb, 0x60) == L.RootCluster(v)
    && sb[0x6c] == 9 && sb[0x6d] == 3
  }

  lemma FormattedGeometry(img: seq<byte>, v: nat, uct: seq<byte>)
    requires Formatted(img, v, uct)
    ensures |img| >= 512 && Geometry(img[..512], v)
  {
    hide L.Accepted, InitSb, RegionAccepted, L.ClusterCount, L.HeapStart, Stage;
    FormattedSb(img, v, uct);
    SbFields(v);
  }

  /** Where the parts lie on the device. */
  lemma Extents(img: seq<byte>, v: nat, uct: seq<byte>)
    requires Formatted(img, v, uct)
    ensures L.ClusterSectorStart(v) * 512 == L.HeapStart(v) >= 65536
    ensures 65536 + (L.ClusterCount(v) + 2) * 4 <= L.HeapStart(v)
    ensures L.HeapStart(v) + L.ClusterCount(v) * 4096 <= |img|
    ensures 2 <= L.UctCluster(v) < L.RootCluster(v) < L.ClusterCount(v) + 2
    ensures L.HeapStart(v) + (L.RootCluster(v) - 2) * 4096 == L.RootStart(v)
    ensures Taken(v) == L.RootCluster(v) - 1
    ensures L.CbmSize(v) == DivRoundUp(L.ClusterCount(v), 8)
    ensures L.HeapStart(v) + DivRoundUp(L.ClusterCount(v), 64) * 8 <= |img|
    ensures L.ClusterCount(v) + 1 <= LAST_DATA_CLUSTER
  {
    hide L.Accepted, L.ClusterCount, L.HeapStart, L.UctStart, L.RootStart, L.UctCluster, L.RootCluster, L.CbmSize, L.ClusterSectorStart, Taken, Stage, L.FatSectorCount;
    L.AgreeBelow(v);
    FatRoom(v);
    CbmFits(v);
    L.AcceptedShape(v);
    L.HeapStartAt(v);
    FatBound(v);
    var n := L.ClusterCount(v);
    assert DivRoundUp(n, 64) * 8 <= n + 8;
  }

  lemma FatBound(v: nat)
    requires v < 0x1000_0000_0000
    ensures L.FatSize(v) < 0x4_0000_0000 && L.FatSize(v) == 4 * L.Clusters(v)
  {
  }

  /** The store of a formatted volume, with the geometry of its super block. */
  method OpenStore(dev: Device, sb: seq<byte>, ghost v: nat, ghost uct: seq<byte>) returns (store: Store)
    requires dev.Valid() && dev.Capacity() >= 0 && Formatted(Image(dev), v, uct) && Geometry(sb, v)
    ensures fresh(store) && store.Valid() && store.dev == dev && store.clusterCount == L.ClusterCount(v)
    ensures store.sectorSize == 512 && store.spc == 8 && store.fatSectorStart == 128
    ensures store.clusterSectorStart == L.ClusterSectorStart(v)
  {
    hide Image, Formatted, L.ClusterCount, L.ClusterSectorStart, L.HeapStart, L.RootStart, L.CbmSize, L.RootCluster, L.UctCluster, Taken, DivRoundUp, Store.Valid;
    Extents(Image(dev), v, uct);
    var (sector, spc) := (Pow2(sb[0x6c]), Pow2(sb[0x6d]));
    assert Pow2(9) == 512 && Pow2(3) == 8;
    hide Pow2, WordAt;
    store := new Store(dev, sector, spc, WordAt(sb, 0x50), WordAt(sb, 0x58), WordAt(sb, 0x5c));
  }

  lemma NewBits(img: seq<byte>, v: nat, uct: seq<byte>, bytes: seq<byte>, bits: seq<bool>)
    requires Formatted(img, v, uct) && 0 <= L.HeapStart(v) && L.HeapStart(v) + |bytes| <= |img|
    requires bytes == img[L.HeapStart(v)..L.HeapStart(v) + |bytes|]
    requires |bits| == L.ClusterCount(v) <= 8 * |bytes|
    requires forall i | 0 <= i < |bits| :: bits[i] == BitOf(bytes[i / 8], i % 8)
    ensures forall i | 0 <= i < |bits| :: bits[i] == (i < Taken(v))
  {
    hide Formatted, L.HeapStart, L.ClusterCount, BitOf, Taken;
    forall i | 0 <= i < |bits| ensures bits[i] == (i < Taken(v)) {
      FormattedBit(img, v, uct, i);
      assert bytes[i / 8] == img[L.HeapStart(v) + i / 8];
    }
  }

  lemma EndsSize(store: Store, first: u32, size: nat)
    requires Ends(store.fat, first, 1)
    requires forall n: nat :: Ends(store.fat, first, n) ==> size == n * store.ClusterSize()
    ensures size == store.ClusterSize()
  {
  }

  lemma NewValid(vol: Volume, root: Node, first: nat)
    requires vol.store.Valid() && vol.cmap.Valid() && |vol.cmap.bits| == vol.cmap.size == vol.store.clusterCount
    requires vol.chains == map[root := [first]] && 2 <= first < |vol.store.fat|
    requires OwnedBy(vol.chains, vol.owner, vol.store.clusterCount + 2) && Marks(vol.cmap.bits, vol.owner) && Spares(vol.owner, vol.system)
    requires vol.store.fat[first] == CLUSTER_END && vol.store.ClusterSize() == 4096
    requires root.start == first && !root.isContiguous && root.fptrIndex == 0 && root.fptrCluster == first
    requires root.size == root.validSize == 4096
    ensures vol.Valid()
  {
    hide OwnedBy, Marks, Bitmap.Valid, Spares;
    LinkedSingle(vol.store.fat, first, false);
  }

  /** exfat_mount of a formatted volume: it succeeds, and what it builds is a
    * valid volume whose only file is the root directory. */
  method Mount(dev: Device, ghost v: nat, ghost uct: seq<byte>) returns (ok: bool, vol: Volume?, root: Node?)
    requires dev.Valid() && dev.Capacity() >= 0 && Formatted(Image(dev), v, uct)
    ensures ok && vol != null && root != null && fresh(vol) && fresh(root)
    ensures fresh(vol.store) && fresh(vol.cmap) && fresh(vol.cmap.words)
    ensures vol.Valid() && vol.store.dev == dev && vol.store.clusterCount == L.ClusterCount(v)
    ensures vol.chains == map[root := [L.RootCluster(v)]] && root.size == root.validSize == vol.store.ClusterSize() == 4096
    ensures vol.owner == NewOwner(root, L.RootCluster(v)) && vol.system == SystemClusters(L.RootCluster(v))
    ensures vol.store.sectorSize == 512 && vol.store.spc == 8 && vol.store.fatSectorStart == 128
    ensures vol.store.clusterSectorStart == L.ClusterSectorStart(v)
    ensures forall i | 0 <= i < |vol.cmap.bits| :: vol.cmap.bits[i] == (i < Taken(v))
  {
    hide Image, Formatted, Mountable, Store.Valid, Bitmap.Valid, L.ClusterCount, L.RootCluster, L.RootStart, L.HeapStart, L.CbmSize, L.UctCluster, L.ClusterSectorStart, Taken, NewRoot, OwnedBy, Marks, Ends, BitOf, Volume.Valid, Spares, SystemClusters, NewOwner;
    ghost var img := Image(dev);
    FormattedMountable(img, v, uct);
    FormattedGeometry(img, v, uct);
    FormattedRoot(img, v, uct);
    Extents(img, v, uct);
    ok := CheckVolume(dev);
    if !ok { return false, null, null; }
    var sb := Get(dev, 512, 0);
    var store := OpenStore(dev, sb, v, uct);
    var first: nat := WordAt(sb, 0x60);
    RootEnds(store, v, uct);
    var size := RootDirSize(store, first);
    EndsSize(store, first, size);
    if size == 0 { return false, null, null; }
    var node := new Node(first, false, size, size, true);
    var dir := Get(dev, 4096, store.C2o(first));
    var good, sys := ScanRoot(dir, store.clusterCount, System(2, L.CbmSize(v), L.UctCluster(v), L.UCT_SIZE));
    if !good { return false, null, null; }
    var bytes := Get(dev, DivRoundUp(store.clusterCount, 64) * 8, store.C2o(sys.cmapStart));
    var cmap := LoadBitmap(bytes, store.clusterCount);
    NewBits(img, v, uct, bytes, cmap.bits);
    vol := new Volume(store, cmap, SystemClusters(first), map[node := [first]], NewOwner(node, first));
    root := node;
    NewOwned(node, first, store.clusterCount + 2, cmap.bits, vol.chains, vol.owner);
    NewValid(vol, root, first);
    ok := true;
  }
}
