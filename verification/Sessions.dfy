/** What a session leaves on the device (fs/exfat/cluster.c, fs/exfat/mount.c):
  * format, mount, any run of calls, flush and unmount. */
module Sessions {
  import opened Bytes
  import opened BlockDevice
  import opened Checksums
  import opened BootRegion
  import opened Chains
  import opened ClusterBitmap
  import opened ClusterStore
  import opened Ownership
  import opened ExfatVolume
  import FlatFile
  import L = Layout
  import F = Formatter
  import M = Mounting
  import R = VolumeRuns
  import N = FormattedRuns

  // ---- the bitmap on the device ----

  /** Bit `i` of a byte sequence. */
  predicate BitIn(bytes: seq<byte>, i: nat)
    requires i / 8 < |bytes|
  {
    F.BitOf(bytes[i / 8], i % 8)
  }

  /** The bytes hold the bits. */
  ghost predicate Holds(bytes: seq<byte>, bits: seq<bool>) {
    |bits| <= 8 * |bytes| && forall i: nat {:trigger BitIn(bytes, i)} | i < |bits| :: BitIn(bytes, i) == bits[i]
  }

  lemma PackHolds(word: Word)
    ensures |F.Pack(word)| == 8 && Holds(F.Pack(word), word)
  {
    var bytes := F.Pack(word);
    hide F.BitOf, F.Number;
    forall i: nat | i < WORD ensures BitIn(bytes, i) == word[i] {
      var j := i / 8;
      var part := word[8 * j..8 * j + 8];
      F.PackBit(part, i % 8);
      assert part[i % 8] == word[i];
    }
  }

  lemma HoldsMore(bytes: seq<byte>, bits: seq<bool>, more: seq<byte>, word: seq<bool>)
    requires Holds(bytes, bits) && |bits| == 8 * |bytes| && Holds(more, word)
    ensures Holds(bytes + more, bits + word)
  {
    hide F.BitOf;
    forall i: nat | i < |bits + word| ensures BitIn(bytes + more, i) == (bits + word)[i] {
      if i < |bits| {
        assert BitIn(bytes, i) == bits[i];
      } else {
        assert BitIn(more, i - |bits|) == word[i - |bits|];
      }
    }
  }

  /** The bitmap's memory, BMAP_SIZE bytes of it. */
  method Dump(cmap: Bitmap) returns (bytes: seq<byte>)
    requires cmap.Valid()
    ensures |bytes| == 8 * DivRoundUp(cmap.size, WORD) && Holds(bytes, cmap.bits)
  {
    hide Holds;
    DivRoundUpBounds(cmap.size, WORD);
    var n := DivRoundUp(cmap.size, WORD);
    Fewer(n, cmap.words.Length, cmap.size);
    bytes := [];
    ghost var bits: seq<bool> := [];
    NoBits();
    for w := 0 to n
      invariant |bytes| == 8 * w && |bits| == WORD * w && Holds(bytes, bits)
      invariant forall i: nat | i < |bits| :: bits[i] == cmap.BitAt(i)
    {
      var word: Word := cmap.words[w];
      PackHolds(word);
      HoldsMore(bytes, bits, F.Pack(word), word);
      bytes := bytes + F.Pack(word);
      bits := bits + word;
    }
    HoldsFewer(bytes, bits, cmap.bits);
  }

  lemma Fewer(n: nat, words: nat, size: nat)
    requires (n - 1) * WORD < size || n == 0
    requires size <= WORD * words
    ensures n <= words
  {
  }

  lemma NoBits()
    ensures Holds([], [])
  {
  }

  lemma HoldsFewer(bytes: seq<byte>, bits: seq<bool>, fewer: seq<bool>)
    requires Holds(bytes, bits) && |fewer| <= |bits| && forall i | 0 <= i < |fewer| :: fewer[i] == bits[i]
    ensures Holds(bytes, fewer)
  {
    hide F.BitOf;
  }

  /** Every cluster that the first `n` bytes of the heap touch is the system's. */
  ghost predicate Fits(vol: Volume, n: nat) {
    forall c: nat | vol.store.InHeap(c) && (c - 2) * vol.store.ClusterSize() < n :: c in vol.system
  }

  /** A write over the system's clusters is no file's business. */
  lemma FilesKept(vol: Volume, heap: seq<seq<byte>>, heap': seq<seq<byte>>, data: seq<byte>)
    requires OwnedBy(vol.chains, vol.owner, vol.Limit()) && Spares(vol.owner, vol.system) && Fits(vol, |data|)
    requires HeapOk(heap, vol.store.ClusterSize()) && |heap| == vol.store.clusterCount && vol.store.InHeap(2)
    requires heap' == vol.store.Layered(heap, 2, data) && vol.store.Geometry()
    ensures Stored(heap', vol.chains, vol.store.ClusterSize()) == Stored(heap, vol.chains, vol.store.ClusterSize())
  {
    hide OwnedBy, Raw, Store.Layered, Store.ClusterSize, Fits, Store.C2o, Store.Geometry;
    var size := vol.store.ClusterSize();
    forall n | n in vol.chains
      ensures InRange(vol.chains[n], |heap| + 2) && Raw(heap', vol.chains[n], size) == Raw(heap, vol.chains[n], size)
    {
      OwnedChain(vol.chains, vol.owner, vol.Limit(), n);
      forall i | 0 <= i < |vol.chains[n]| ensures heap'[vol.chains[n][i] - 2] == heap[vol.chains[n][i] - 2] {
        OwnedAt(vol.chains, vol.owner, vol.Limit(), n, i);
        Untouched(vol, heap, data, vol.chains[n][i]);
      }
      RawFrame(heap, heap', vol.chains[n], size);
    }
  }

  lemma OwnedAt<K>(chains: map<K, seq<nat>>, owner: map<nat, Use<K>>, limit: nat, n: K, i: nat)
    requires OwnedBy(chains, owner, limit) && n in chains && i < |chains[n]|
    ensures chains[n][i] in owner && owner[chains[n][i]] == At(n, i) && 2 <= chains[n][i] < limit
  {
  }

  lemma Untouched(vol: Volume, heap: seq<seq<byte>>, data: seq<byte>, c: nat)
    requires Fits(vol, |data|) && vol.store.Geometry() && vol.store.InHeap(c) && vol.store.InHeap(2) && c !in vol.system
    requires |heap| == vol.store.clusterCount
    ensures vol.store.Layered(heap, 2, data)[c - 2] == heap[c - 2]
  {
    hide Store.Layered, Store.ClusterSize, Store.C2o, Store.Geometry;
    vol.store.Distance(2, c);
    var a, b := vol.store.Layered(heap, 2, data)[c - 2], heap[c - 2];
    forall i | 0 <= i < |b| ensures a[i] == b[i] {
      vol.store.OverlaidAt(heap, 2, data, c - 2, i);
    }
  }

  /** exfat_flush: the bitmap on the device is the one in memory, and no file
    * changes. */
  method Flush(vol: Volume)
    requires vol.Valid() && vol.store.InHeap(2) && Fits(vol, 8 * DivRoundUp(vol.cmap.size, WORD))
    requires vol.store.HasRoom(2, 8 * DivRoundUp(vol.cmap.size, WORD))
    modifies vol.store`heap, vol.store.dev
    ensures vol.Valid() && vol.Contents() == old(vol.Contents()) && vol.store.dev.Valid() && vol.store.dev.Capacity() == old(vol.store.dev.Capacity()) >= 0
    ensures vol.store.C2o(2) + 8 * DivRoundUp(vol.cmap.size, WORD) <= vol.store.dev.Capacity()
    ensures Holds(Image(vol.store.dev)[vol.store.C2o(2)..vol.store.C2o(2) + 8 * DivRoundUp(vol.cmap.size, WORD)], vol.cmap.bits)
  {
    hide OwnedBy, Marks, Spares, Fits, Store.HasRoom, Store.Geometry, Store.HeadKept, Store.Layered, Store.ClusterSize, Store.C2o, Holds, DivRoundUp, Linked, Stored;
    var bytes := Dump(vol.cmap);
    ghost var heap := vol.store.heap;
    FilesKept(vol, heap, vol.store.Layered(heap, 2, bytes), bytes);
    vol.store.WriteInside(2, |bytes|);
    vol.store.WriteRun(2, bytes);
    assert Image(vol.store.dev)[vol.store.C2o(2)..vol.store.C2o(2) + |bytes|] == bytes;
  }

  // ---- the super block under a mounted volume ----

  /** The images agree but for the bytes of the super block that may change. */
  ghost predicate SameBut(a: seq<byte>, b: seq<byte>) { |a| == |b| && forall i | 0 <= i < |a| && i !in BootSkip :: a[i] == b[i] }

  lemma Committed(was: seq<byte>, now: seq<byte>, before: seq<byte>, sb: seq<byte>)
    requires |before| == |sb| == 512 <= |was| && now == Splice(was, 0, sb)
    requires forall i | 0 <= i < 512 && i !in BootSkip :: was[i] == before[i] && sb[i] == before[i]
    ensures SameBut(was, now) && now[..512] == sb
  {
  }

  /** exfat_soil_super_block or finalize_super_block. */
  method Commit(sb: SuperBlock, cmap: Bitmap, final: bool)
    requires sb.Valid() && !sb.readOnly && cmap.Valid() && 0 < cmap.size < 0x1_0000_0000
    modifies sb`sb, sb.dev
    ensures sb.Valid() && sb.dev.Valid() && sb.dev.Capacity() == old(sb.dev.Capacity()) >= 512
    ensures SameBut(old(Image(sb.dev)), Image(sb.dev)) && Image(sb.dev)[..512] == sb.sb
    ensures final ==> !IsMounted(State(sb.sb))
  {
    hide Bitmap.Valid, CountFree, Percent, RegionAccepted, Image;
    ghost var was, before := Image(sb.dev), sb.sb;
    if final { sb.Finalize(cmap.size, cmap); } else { sb.Soil(); }
    Committed(was, Image(sb.dev), before, sb.sb);
  }

  /** Behind the super block every byte is as it was. */
  lemma SameBehind(was: seq<byte>, now: seq<byte>)
    requires SameBut(was, now)
    ensures |was| == |now| && forall i | 512 <= i < |was| :: now[i] == was[i]
  {
  }

  lemma StoreHead(store: Store)
    requires store.Valid()
    ensures store.dev.Valid() && store.dev.Capacity() >= |store.head| == store.FatOffset(0)
    ensures forall i | 0 <= i < |store.head| && i !in BootSkip :: Image(store.dev)[i] == store.head[i]
  {
    hide Store.FatOffset;
    store.FatInside();
  }

  /** The store does not notice. */
  method CommitUnder(store: Store, sb: SuperBlock, cmap: Bitmap, final: bool)
    requires store.Valid() && sb.Valid() && sb.dev == store.dev && !sb.readOnly && cmap.Valid() && 0 < cmap.size < 0x1_0000_0000
    requires store.FatOffset(0) >= 512
    modifies sb`sb, sb.dev
    ensures store.Valid() && sb.Valid() && sb.dev.Valid() && sb.dev.Capacity() == old(sb.dev.Capacity()) >= 512
    ensures SameBut(old(Image(sb.dev)), Image(sb.dev)) && Image(sb.dev)[..512] == sb.sb
    ensures final ==> !IsMounted(State(sb.sb))
  {
    hide Bitmap.Valid, FromLe32, Store.C2o, Store.ClusterSize, Store.FatOffset, IsMounted, State, SuperBlock.Valid, SameBut;
    StoreHead(store);
    ghost var was := Image(sb.dev);
    Commit(sb, cmap, final);
    SameBehind(was, Image(sb.dev));
    assert forall i: nat | 512 <= i < store.dev.Capacity() :: store.dev.At(i) == Image(sb.dev)[i] == was[i] == old(store.dev.At(i));
    SameHead(store, was);
    hide Image, Device.At;
    assert store.Geometry();
    hide Store.Geometry, Store.HeadKept;
    forall d: nat {:trigger store.FatBytes(d)} | store.InHeap(d)
      ensures FromLe32(store.FatBytes(d)) == store.fat[d]
    {
      store.Extent(d);
      store.InFat(d);
      assert store.FatBytes(d) == old(store.FatBytes(d));
    }
    forall d: nat, i: nat {:trigger store.HeapByte(d, i)} | store.InHeap(d) && i < store.ClusterSize()
      ensures store.HeapByte(d, i) == store.heap[d - 2][i]
    {
      store.Extent(d);
      store.InFat(d);
      assert old(store.HeapByte(d, i)) == store.heap[d - 2][i];
    }
    hide Store.FatBytes, Store.HeapByte;
  }

  lemma SameHead(store: Store, was: seq<byte>)
    requires store.dev.Valid() && store.Geometry() && store.dev.Capacity() >= 0 && SameBut(was, Image(store.dev))
    requires |store.head| == store.FatOffset(0) <= |was| && forall i | 0 <= i < |store.head| && i !in BootSkip :: was[i] == store.head[i]
    ensures store.HeadKept()
  {
  }

  /** The same under a mounted volume. */
  method UpdateSuperBlock(vol: Volume, sb: SuperBlock, final: bool)
    requires vol.Valid() && sb.Valid() && sb.dev == vol.store.dev && !sb.readOnly && vol.store.FatOffset(0) >= 512 && vol.cmap.size > 0
    modifies sb`sb, sb.dev
    ensures vol.Valid() && sb.Valid() && sb.dev.Valid() && sb.dev.Capacity() == old(sb.dev.Capacity()) >= 512
    ensures SameBut(old(Image(sb.dev)), Image(sb.dev)) && Image(sb.dev)[..512] == sb.sb
    ensures final ==> !IsMounted(State(sb.sb))
  {
    hide OwnedBy, Marks, Spares, Bitmap.Valid, Linked, Store.Valid, SuperBlock.Valid, Image, SameBut, IsMounted, State, Store.FatOffset;
    CommitUnder(vol.store, sb, vol.cmap, final);
  }

  /** What the head of a valid volume says of the device. */
  lemma HeadSays(vol: Volume)
    requires vol.Valid()
    ensures vol.store.dev.Valid() && vol.store.dev.Capacity() >= |vol.store.head| == vol.store.FatOffset(0)
    ensures forall i | 0 <= i < |vol.store.head| && i !in BootSkip :: Image(vol.store.dev)[i] == vol.store.head[i]
  {
    hide OwnedBy, Marks, Spares, Bitmap.Valid, Linked, Image, Store.Valid;
    StoreHead(vol.store);
  }

  /** The checksum test reads only the first twelve sectors, less three bytes. */
  lemma RegionSame(a: seq<byte>, b: seq<byte>)
    requires |a| >= 6144 && |b| >= 6144 && forall i | 0 <= i < 6144 && i !in BootSkip :: a[i] == b[i]
    ensures RegionAccepted(512, a) == RegionAccepted(512, b)
  {
    hide Digest, WordAt;
    var (x, y) := (a[..6144], b[..6144]);
    SameWords(512, x, y);
    DigestAgrees(WORD32, BootSkip, a[..5632], b[..5632]);
    forall i | 0 <= i < 128 ensures WordAt(a, 5632 + 4 * i) == WordAt(b, 5632 + 4 * i) { WordInside(a, b, x, y, i); }
  }

  lemma WordInside(a: seq<byte>, b: seq<byte>, x: seq<byte>, y: seq<byte>, i: nat)
    requires |a| >= 6144 && |b| >= 6144 && x == a[..6144] && y == b[..6144] && i < 128
    requires WordAt(x, 5632 + 4 * i) == WordAt(y, 5632 + 4 * i)
    ensures WordAt(a, 5632 + 4 * i) == WordAt(b, 5632 + 4 * i)
  {
    var p := 5632 + 4 * i;
    assert a[p..p + 4] == x[p..p + 4] && b[p..p + 4] == y[p..p + 4];
  }

  /** The super block in memory is the one before the FAT, up to the bytes that
    * may change. */
  ghost predicate InHead(vol: Volume, sb: SuperBlock)
    reads sb
  {
    && sb.dev == vol.store.dev && !sb.readOnly && vol.store.FatOffset(0) >= 12 * 512 && |sb.sb| == 512 <= |vol.store.head|
    && forall i | 0 <= i < 512 && i !in BootSkip :: vol.store.head[i] == sb.sb[i]
  }

  /** Calls on files leave the super block alone. */
  lemma SuperBlockKept(vol: Volume, sb: SuperBlock)
    requires vol.Valid() && InHead(vol, sb)
    ensures sb.Valid()
  {
    hide Volume.Valid;
    HeadSays(vol);
  }

  lemma HeadKept(vol: Volume, sb: SuperBlock)
    requires vol.Valid() && sb.Valid() && sb.dev == vol.store.dev && !sb.readOnly && vol.store.FatOffset(0) >= 12 * 512
    ensures InHead(vol, sb)
  {
    hide Volume.Valid;
    HeadSays(vol);
  }

  /** A place for the bitmap on the device: clusters of the system from the first
    * one on. */
  ghost predicate HasPlace(vol: Volume) {
    var n := 8 * DivRoundUp(vol.cmap.size, WORD);
    vol.cmap.size > 0 && vol.store.InHeap(2) && Fits(vol, n) && vol.store.HasRoom(2, n)
  }

  ghost predicate BitmapAt(img: seq<byte>, at: nat, bits: seq<bool>) {
    var n := 8 * DivRoundUp(|bits|, WORD);
    at + n <= |img| && Holds(img[at..at + n], bits)
  }

  /** exfat_unmount of any valid volume: the files are as they were, the bitmap on
    * the device is the one in memory, the volume is no longer marked as mounted,
    * and the boot region is accepted exactly if it was. */
  method Unmount(vol: Volume, sb: SuperBlock)
    requires vol.Valid() && InHead(vol, sb) && HasPlace(vol)
    modifies sb`sb, vol.store`heap, vol.store.dev
    ensures vol.Valid() && vol.Contents() == old(vol.Contents())
    ensures vol.store.dev.Valid() && vol.store.dev.Capacity() >= |vol.store.head| >= 6144
    ensures !IsMounted(State(Image(vol.store.dev)[..512])) && BitmapAt(Image(vol.store.dev), vol.store.C2o(2), vol.cmap.bits)
    ensures RegionAccepted(512, Image(vol.store.dev)) == RegionAccepted(512, vol.store.head)
  {
    hide Volume.Valid, Volume.Contents, Store.FatOffset, Store.C2o, Image, SameBut, Holds, DivRoundUp, IsMounted, State, Fits, Store.HasRoom, SuperBlock.Valid;
    Sizes(vol);
    Flush(vol);
    SuperBlockKept(vol, sb);
    ghost var img := Image(vol.store.dev);
    UpdateSuperBlock(vol, sb, true);
    BitmapBehind(vol, img, Image(vol.store.dev));
    HeadSays(vol);
    RegionSame(Image(vol.store.dev), vol.store.head);
  }

  lemma Sizes(vol: Volume)
    requires vol.Valid()
    ensures |vol.cmap.bits| == vol.cmap.size == vol.store.clusterCount
  {
  }

  lemma BitmapBehind(vol: Volume, was: seq<byte>, now: seq<byte>)
    requires vol.store.InHeap(2) && vol.store.FatOffset(0) >= 512 && vol.Valid()
    requires SameBut(was, now) && BitmapAt(was, vol.store.C2o(2), vol.cmap.bits)
    ensures BitmapAt(now, vol.store.C2o(2), vol.cmap.bits)
  {
    hide OwnedBy, Marks, Spares, Bitmap.Valid, Linked, Holds, DivRoundUp, Store.C2o, Store.FatOffset;
    vol.store.InFat(2);
    var (at, n) := (vol.store.C2o(2), 8 * DivRoundUp(|vol.cmap.bits|, WORD));
    assert now[at..at + n] == was[at..at + n];
  }

  /** On a formatted volume the bitmap has its place. */
  lemma FormattedPlace(vol: Volume, img: seq<byte>, v: nat, uct: seq<byte>)
    requires F.Formatted(img, v, uct) && vol.cmap.size == vol.store.clusterCount == L.ClusterCount(v) && vol.store.ClusterSize() == 4096
    requires vol.system == M.SystemClusters(L.RootCluster(v))
    ensures HasPlace(vol) && vol.cmap.size > 0
  {
    hide F.Formatted, L.ClusterCount, L.RootCluster, L.UctCluster, L.CbmSize, L.HeapStart, L.UctStart, L.RootStart, F.Taken, Store.ClusterSize, L.Accepted, L.FatSize, L.ClusterSectorStart;
    M.Extents(img, v, uct);
    M.FormattedRange(img, v, uct);
    F.FatRoom(v);
    var count := vol.cmap.size;
    var n := 8 * DivRoundUp(count, WORD);
    BitmapBytes(count, F.CbmClusters(v));
    forall c: nat | vol.store.InHeap(c) && (c - 2) * vol.store.ClusterSize() < n ensures c in vol.system {
      assert M.InSpan(c, L.RootCluster(v));
    }
  }

  lemma BitmapBytes(count: nat, clusters: nat)
    requires clusters == DivRoundUp(DivRoundUp(count, 8), 4096)
    ensures 8 * DivRoundUp(count, WORD) <= 4096 * clusters && (count > 0 ==> 8 * DivRoundUp(count, WORD) <= 4096 * count)
  {
    hide DivRoundUp;
    DivRoundUpBounds(count, 8);
    DivRoundUpBounds(DivRoundUp(count, 8), 4096);
    DivRoundUpBounds(count, 64);
  }

  /** A bitmap read back from the device is the one that was written. */
  lemma ReadBack(bytes: seq<byte>, bits: seq<bool>, again: seq<bool>)
    requires Holds(bytes, bits) && |again| == |bits| && forall i | 0 <= i < |again| :: again[i] == F.BitOf(bytes[i / 8], i % 8)
    ensures again == bits
  {
    hide F.BitOf;
    forall i: nat | i < |bits| ensures again[i] == bits[i] { assert BitIn(bytes, i) == bits[i]; }
  }

  lemma HeadSize(store: Store)
    requires store.fatSectorStart == 128 && store.sectorSize == 512
    ensures store.FatOffset(0) == 65536
  {
  }

  /** exfat_mount of a formatted volume for writing. */
  method Begin(dev: Device, ghost v: nat, ghost uct: seq<byte>) returns (vol: Volume, sb: SuperBlock)
    requires dev.Valid() && dev.Capacity() >= 0 && F.Formatted(Image(dev), v, uct)
    modifies dev
    ensures fresh(vol) && fresh(vol.store) && fresh(vol.cmap) && fresh(vol.cmap.words) && fresh(sb)
    ensures vol.Valid() && vol.store.dev == dev && vol.store.ClusterSize() == 4096
    ensures InHead(vol, sb) && HasPlace(vol) && |vol.store.head| >= 6144 && RegionAccepted(512, vol.store.head)
  {
    hide Image, F.Formatted, L.ClusterCount, L.RootCluster, F.Taken, Volume.Valid, M.NewOwner, M.SystemClusters, SuperBlock.Valid, HasPlace,
         RegionAccepted, L.ClusterSectorStart, InHead, Store.FatOffset, Store.ClusterSize, SameBut, IsMounted, State;
    ghost var img := Image(dev);
    M.FormattedSb(img, v, uct);
    var good, mounted, root := M.Mount(dev, v, uct);
    vol := mounted;
    Sizes(vol);
    FormattedPlace(vol, img, v, uct);
    HeadSays(vol);
    HeadSize(vol.store);
    RegionSame(img, vol.store.head);
    sb := new SuperBlock(dev, false);
    UpdateSuperBlock(vol, sb, false);
    HeadKept(vol, sb);
  }

  /** exfat_unmount, and the bitmap read again. */
  method End(vol: Volume, sb: SuperBlock) returns (again: Bitmap)
    requires vol.Valid() && InHead(vol, sb) && HasPlace(vol)
    modifies sb`sb, vol.store`heap, vol.store.dev
    ensures vol.Valid() && vol.Contents() == old(vol.Contents())
    ensures vol.store.dev.Valid() && vol.store.dev.Capacity() >= |vol.store.head| >= 6144 && !IsMounted(State(Image(vol.store.dev)[..512]))
    ensures RegionAccepted(512, Image(vol.store.dev)) == RegionAccepted(512, vol.store.head)
    ensures again.Valid() && again.bits == vol.cmap.bits
  {
    hide Image, Volume.Valid, Volume.Contents, SuperBlock.Valid, InHead, RegionAccepted, Holds, IsMounted, State, Fits, Store.HasRoom, Store.C2o, DivRoundUp;
    Sizes(vol);
    var count := vol.store.clusterCount;
    Unmount(vol, sb);
    var bytes := Get(vol.store.dev, 8 * DivRoundUp(count, WORD), vol.store.C2o(2));
    EnoughBytes(count);
    again := M.LoadBitmap(bytes, count);
    ReadBack(bytes, vol.cmap.bits, again.bits);
  }

  lemma EnoughBytes(count: nat)
    ensures count <= 8 * (8 * DivRoundUp(count, WORD))
  {
    DivRoundUpBounds(count, WORD);
  }

  /** Format, mount, any calls on any number of new files, flush, unmount, and the
    * bitmap read again: the calls are a run of flat files that ends in what the
    * volume still holds, the boot region is accepted, the volume is not marked as
    * mounted, and the bitmap on the device is the one in memory. */
  method Session(dev: Device, v: nat, uct: seq<byte>, k: nat, calls: seq<R.Call>)
    returns (ok: bool, vol: Volume?, nodes: seq<Node>, replies: seq<R.Reply>, ghost trace: seq<R.State>, again: Bitmap?)
    requires dev.Valid() && v < 0x1000_0000_0000 && v <= dev.Capacity() && |uct| == L.UCT_SIZE
    requires forall i | 0 <= i < |calls| :: R.Allowed(calls[i], k, 4096)
    modifies dev
    ensures ok == L.Accepted(v)
    ensures ok ==>
      && vol != null && vol.Valid() && vol.store.dev == dev
      && R.IsRun(4096, calls, replies, trace)
      && |nodes| == k && R.Files(vol, nodes) && trace[|calls|] == R.StateOf(vol, nodes)
      && dev.Valid() && dev.Capacity() >= 6144 && RegionAccepted(512, Image(dev)) && !IsMounted(State(Image(dev)[..512]))
      && again != null && again.Valid() && again.bits == vol.cmap.bits
  {
    hide Image, F.Formatted, L.Accepted, Volume.Valid, R.StepAt, R.Allowed, CountFree, IsMounted, State, HasPlace, RegionAccepted, FlatFile.View, Volume.Contents;
    vol, nodes, replies, trace, again := null, [], [], [], null;
    ok := F.Mkfs(dev, v, uct);
    if !ok { return; }
    var volume, sb := Begin(dev, v, uct);
    vol := volume;
    nodes, replies, trace := N.RunOnNew(volume, k, calls);
    again := End(volume, sb);
  }
}
