/** Truncation, reading and writing of files (fs/exfat/cluster.c and fs/exfat/io.c). */
module FileIo {
  import opened Bytes
  import opened Chains
  import opened ClusterBitmap
  import opened ClusterStore
  import opened ExfatVolume
  import opened FlatFile
  import opened Ownership

  /** bytes2clusters: a 32-bit count. */
  function BytesToClusters(cs: nat, bytes: nat): u32
    requires cs > 0
  {
    DivRoundUp(bytes, cs) % 0x1_0000_0000
  }

  /** The largest size whose clusters a 32-bit count can tell. */
  function MaxSize(cs: nat): nat { 0xffff_ffff * cs }

  /** The 32-bit count covers the bytes exactly up to MaxSize. */
  lemma ClusterCountCovers(cs: nat, bytes: nat)
    requires cs > 0
    ensures bytes <= BytesToClusters(cs, bytes) * cs <==> bytes <= MaxSize(cs)
    ensures bytes <= MaxSize(cs) ==> BytesToClusters(cs, bytes) == DivRoundUp(bytes, cs)
  {
    DivRoundUpBounds(bytes, cs);
    var q := DivRoundUp(bytes, cs);
    if bytes <= MaxSize(cs) {
      if q > 0xffff_ffff { MulMonotone(0xffff_ffff, q - 1, cs); }
    } else {
      if q <= 0xffff_ffff { MulMonotone(q, 0xffff_ffff, cs); }
      MulMonotone(q % 0x1_0000_0000, 0xffff_ffff, cs);
    }
  }

  /** The byte after the cluster that holds `pos`. */
  function Boundary(cs: nat, pos: nat): nat
    requires cs > 0
  {
    (pos / cs + 1) * cs
  }

  lemma PlaceOf(cs: nat, pos: nat)
    requires cs > 0
    ensures pos % cs < cs && Place(pos, pos / cs, pos % cs, cs)
    ensures Boundary(cs, pos) == pos - pos % cs + cs && Place(Boundary(cs, pos), pos / cs + 1, 0, cs)
  {
  }

  /** `size` bytes fit into `n` clusters. */
  ghost predicate Fits(size: nat, n: nat, cs: nat) { size <= n * cs }

  /** A byte of the file lies in one of its clusters. */
  lemma PlaceInside(cs: nat, pos: nat, k: nat, at: nat, size: nat, n: nat)
    requires Place(pos, k, at, cs) && pos < size && Fits(size, n, cs)
    ensures k < n
  {
    if k >= n { MulMonotone(n, k, cs); }
  }

  lemma PlaceNext(cs: nat, pos: nat, k: nat)
    requires Place(pos, k, 0, cs)
    ensures Place(pos + cs, k + 1, 0, cs)
  {
  }

  /** The stored bytes `raw` with zeros from `begin` to `upto`. */
  ghost function Zeroed(raw: seq<byte>, begin: nat, upto: nat): (z: seq<byte>)
    requires begin <= upto <= |raw|
    ensures |z| == |raw|
  {
    Splice(raw, begin, Zeros(upto - begin))
  }

  lemma ZeroedMore(raw: seq<byte>, begin: nat, upto: nat, n: nat)
    requires begin <= upto && upto + n <= |raw|
    ensures Splice(Zeroed(raw, begin, upto), upto, Zeros(n)) == Zeroed(raw, begin, upto + n)
  {
    SpliceAppend(raw, begin, Zeros(upto - begin), Zeros(n));
    assert Zeros(upto - begin) + Zeros(n) == Zeros(upto + n - begin);
  }

  /** One whole cluster of erase_range. */
  method EraseCluster(vol: Volume, node: Node, cluster: nat, boundary: nat, ghost k: nat, ghost raw: seq<byte>, ghost begin: nat)
    returns (next: nat)
    requires vol.Mid(node) && k + 1 < |vol.chains[node]| && cluster == vol.chains[node][k]
    requires Place(boundary, k + 1, 0, vol.store.ClusterSize())
    requires begin <= boundary <= |raw| && vol.Contents()[node] == Zeroed(raw, begin, boundary)
    modifies vol.store`heap, vol.store.dev
    ensures vol.Mid(node) && next == vol.chains[node][k + 1]
    ensures boundary + vol.store.ClusterSize() <= |raw|
    ensures vol.Contents() == old(vol.Contents())[node := Zeroed(raw, begin, boundary + vol.store.ClusterSize())]
  {
    hide Volume.Base, Volume.Rest, Volume.Chained, Volume.Contents, Store.ClusterSize, Fits, Place, Zeroed;
    next := vol.Follow(node, cluster, k);
    vol.WriteAt(node, next, 0, Zeros(vol.store.ClusterSize()), k + 1, boundary);
    ZeroedMore(raw, begin, boundary, vol.store.ClusterSize());
  }

  /** The first, possibly partial, cluster of erase_range. */
  method EraseFirst(vol: Volume, node: Node, begin: nat, end: nat, ghost raw: seq<byte>)
    returns (cluster: nat, boundary: nat, ghost upto: nat, ghost k: nat)
    requires vol.Mid(node) && vol.store.ClusterSize() > 0 && raw == vol.Contents()[node]
    requires begin < end && Fits(end, |vol.chains[node]|, vol.store.ClusterSize())
    modifies vol.store`heap, vol.store.dev, node`fptrIndex, node`fptrCluster
    ensures vol.Mid(node)
    ensures k < |vol.chains[node]| && cluster == vol.chains[node][k]
    ensures begin < boundary && Place(boundary, k + 1, 0, vol.store.ClusterSize())
    ensures upto == Min(boundary, end) && begin <= upto <= |raw|
    ensures vol.Contents() == old(vol.Contents())[node := Zeroed(raw, begin, upto)]
  {
    hide Volume.Base, Volume.Rest, Volume.Chained, Volume.Contents, Store.ClusterSize, Fits, Place, Boundary;
    var cs := vol.store.ClusterSize();
    PlaceOf(cs, begin);
    k := begin / cs;
    PlaceInside(cs, begin, k, begin % cs, end, |vol.chains[node]|);
    boundary := Boundary(cs, begin);
    cluster := vol.AdvanceCluster(node, begin / cs);
    vol.WriteAt(node, cluster, begin % cs, Zeros(Min(boundary, end) - begin), k, begin);
    upto := Min(boundary, end);
  }

  /** erase_range; the zeros reach up to the end of the last cluster touched. */
  method EraseRange(vol: Volume, node: Node, begin: nat, end: nat) returns (ghost upto: nat)
    requires vol.Mid(node) && vol.store.ClusterSize() > 0
    requires begin < end ==> Fits(end, |vol.chains[node]|, vol.store.ClusterSize())
    modifies vol.store`heap, vol.store.dev, node`fptrIndex, node`fptrCluster
    ensures vol.Mid(node)
    ensures begin >= end ==> vol.Contents() == old(vol.Contents())
    ensures begin < end ==>
              && end <= upto <= |old(vol.Contents())[node]|
              && vol.Contents() == old(vol.Contents())[node := Zeroed(old(vol.Contents())[node], begin, upto)]
  {
    hide Volume.Base, Volume.Rest, Volume.Chained, Volume.Contents, Store.ClusterSize, Fits, Place, Zeroed;
    if begin >= end {
      return begin;
    }
    var cs := vol.store.ClusterSize();
    ghost var raw := vol.Contents()[node];
    var cluster, boundary;
    ghost var k: nat;
    cluster, boundary, upto, k := EraseFirst(vol, node, begin, end, raw);
    while boundary < end
      invariant vol.Mid(node) && Place(boundary, k + 1, 0, cs)
      invariant k < |vol.chains[node]| && cluster == vol.chains[node][k]
      invariant begin <= upto <= |raw|
      invariant if boundary < end then upto == boundary else upto >= end
      invariant vol.Contents() == old(vol.Contents())[node := Zeroed(raw, begin, upto)]
      decreases end - boundary
    {
      PlaceInside(cs, boundary, k + 1, 0, end, |vol.chains[node]|);
      ghost var now := vol.Contents();
      cluster := EraseCluster(vol, node, cluster, boundary, k, raw, begin);
      ChangedTwice(old(vol.Contents()), now, vol.Contents(), node);
      PlaceNext(cs, boundary, k + 1);
      k := k + 1;
      boundary := boundary + cs;
      upto := boundary;
    }
  }

  /** The cluster part of exfat_truncate. */
  method ResizeChain(vol: Volume, node: Node, c1: nat, c2: nat) returns (rc: int)
    requires vol.Mid(node) && vol.Terminated(node) && |vol.chains[node]| == c1
    modifies vol`owner, vol`chains, vol.store`fat, vol.store.dev, vol.cmap`bits, vol.cmap.words
    modifies node`start, node`fptrIndex, node`fptrCluster, node`isContiguous, node`isDirty
    ensures vol.Mid(node) && vol.Terminated(node) && vol.store.heap == old(vol.store.heap)
    ensures rc == if c2 <= c1 + CountFree(old(vol.cmap.bits)) then 0 else -ENOSPC
    ensures rc == 0 ==>
              && |vol.chains[node]| == c2
              && CountFree(vol.cmap.bits) == CountFree(old(vol.cmap.bits)) + c1 - c2
              && vol.Contents() == old(vol.Contents())[node := vol.Contents()[node]]
              && Agree(old(vol.Contents())[node], vol.Contents()[node])
    ensures rc != 0 ==>
              && vol.chains == old(vol.chains) && vol.owner == old(vol.owner)
              && vol.cmap.bits == old(vol.cmap.bits) && node.start == old(node.start)
    ensures old(node.isDirty) ==> node.isDirty
    ensures rc != 0 ==> node.isDirty || node.isContiguous == old(node.isContiguous)
  {
    hide OwnedBy, Marks, Linked, Volume.Rest, Bitmap.Valid, CountFree, Stored;
    rc := 0;
    if c1 < c2 {
      rc := vol.GrowFile(node, c1, c2 - c1);
      if rc != 0 {
        return;
      }
      assert old(vol.chains)[node] <= vol.chains[node];
    } else if c1 > c2 {
      vol.ShrinkFile(node, c1, c1 - c2);
    }
    StoredResized(vol.store.heap, old(vol.chains), vol.chains, vol.store.ClusterSize(), node);
  }

  /** The stored bytes fill the clusters of the file. */
  lemma Filled(vol: Volume, node: Node)
    requires vol.Base() && node in vol.chains
    ensures InRange(vol.chains[node], vol.Limit()) && Distinct(vol.chains[node])
    ensures |vol.Contents()[node]| == |vol.chains[node]| * vol.store.ClusterSize()
  {
    OwnedChain(vol.chains, vol.owner, vol.Limit(), node);
    hide OwnedBy, Marks, Bitmap.Valid, Raw;
  }

  /** What a settled file shows: as many bytes as its size says, all of them stored. */
  lemma Shown(vol: Volume, node: Node)
    requires vol.Valid() && node in vol.chains
    ensures vol.store.ClusterSize() > 0
    ensures node.validSize <= node.size <= |vol.Contents()[node]|
    ensures |vol.Flat(node).bytes| == node.size && Ok(vol.Flat(node))
    ensures |vol.chains[node]| == BytesToClusters(vol.store.ClusterSize(), node.size)
  {
    hide OwnedBy, Marks, Volume.Chained, Volume.Rest, Volume.Valid, Bitmap.Valid, Store.Valid, Volume.Contents,
         Store.ClusterSize, DivRoundUp, Distinct, InRange;
    vol.Open(node);
    Filled(vol, node);
    DivRoundUpBounds(node.size, vol.store.ClusterSize());
    Pigeonhole(vol.chains[node], vol.Limit());
  }

  /** Resizing what a reader sees, by zeroing the stored bytes past the valid ones. */
  lemma ViewErased(raw: seq<byte>, raw1: seq<byte>, raw2: seq<byte>, valid: nat, size: nat, size1: nat, upto: nat)
    requires valid <= size <= |raw| && size1 <= |raw1| && Agree(raw, raw1)
    requires valid >= size1 ==> raw2 == raw1
    requires valid < size1 ==> size1 <= upto <= |raw1| && raw2 == Zeroed(raw1, valid, upto)
    ensures View(raw2, size1, size1) == Resize(View(raw, valid, size), size1)
  {
  }

  /** Resizing it without touching the stored bytes. */
  lemma ViewCut(raw: seq<byte>, raw1: seq<byte>, valid: nat, size: nat, size1: nat)
    requires valid <= size <= |raw| && size1 <= |raw1| && Agree(raw, raw1)
    ensures View(raw1, Min(valid, size1), size1) == Resize(View(raw, valid, size), size1)
  {
  }

  /** The end of exfat_truncate. */
  method SetSize(vol: Volume, node: Node, size: nat, valid: nat)
    requires vol.Mid(node) && vol.Terminated(node) && vol.store.ClusterSize() > 0
    requires |vol.chains[node]| == DivRoundUp(size, vol.store.ClusterSize()) && valid <= size
    modifies node`size, node`validSize, node`isDirty
    ensures vol.Valid() && node.size == size && node.validSize == valid && node.isDirty
  {
    hide OwnedBy, Marks, Linked, Bitmap.Valid, Store.Valid, Store.ClusterSize, DivRoundUp;
    node.validSize := valid;
    node.size := size;
    node.isDirty := true;
    vol.RestUnmoved(node);
  }

  /** The part of exfat_truncate behind the cluster changes. */
  method Adjust(vol: Volume, node: Node, size: nat, erase: bool, ghost raw: seq<byte>)
    requires vol.Mid(node) && vol.Terminated(node) && vol.store.ClusterSize() > 0
    requires |vol.chains[node]| == DivRoundUp(size, vol.store.ClusterSize())
    requires node.validSize <= node.size <= |raw| && Agree(raw, vol.Contents()[node])
    modifies vol.store`heap, vol.store.dev
    modifies node`fptrIndex, node`fptrCluster, node`isDirty, node`validSize, node`size
    ensures vol.Valid() && node.isDirty && node.size == size
    ensures node.validSize == if erase then size else Min(old(node.validSize), size)
    ensures vol.Flat(node).bytes == Resize(View(raw, old(node.validSize), old(node.size)), size)
    ensures vol.Contents() == old(vol.Contents())[node := vol.Contents()[node]]
    ensures !erase ==> vol.Contents() == old(vol.Contents())
  {
    hide Volume.Base, Volume.Rest, Volume.Chained, Volume.Contents, Store.ClusterSize, DivRoundUp, View, Resize;
    ghost var raw1 := vol.Contents()[node];
    Capacity(vol, node, size);
    if erase {
      ghost var upto := EraseRange(vol, node, node.validSize, size);
      ViewErased(raw, raw1, vol.Contents()[node], node.validSize, node.size, size, upto);
      SetSize(vol, node, size, size);
    } else {
      ViewCut(raw, raw1, node.validSize, node.size, size);
      SetSize(vol, node, size, Min(node.validSize, size));
    }
  }

  lemma Capacity(vol: Volume, node: Node, size: nat)
    requires vol.Mid(node) && vol.store.ClusterSize() > 0
    requires |vol.chains[node]| == DivRoundUp(size, vol.store.ClusterSize())
    ensures Fits(size, |vol.chains[node]|, vol.store.ClusterSize())
    ensures size <= |vol.Contents()[node]|
  {
    hide Volume.Base, Volume.Chained, Volume.Rest, Stored, Store.ClusterSize, DivRoundUp;
    Filled(vol, node);
    DivRoundUpBounds(size, vol.store.ClusterSize());
  }

  /** exfat_truncate when the size changes. */
  method Reshape(vol: Volume, node: Node, size: nat, erase: bool) returns (rc: int)
    requires vol.Valid() && node in vol.chains && vol.store.ClusterSize() > 0
    requires size <= MaxSize(vol.store.ClusterSize())
    modifies vol`owner, vol`chains, vol.store`fat, vol.store`heap, vol.store.dev, vol.cmap`bits, vol.cmap.words
    modifies node`start, node`fptrIndex, node`fptrCluster, node`isContiguous, node`isDirty, node`validSize, node`size
    ensures vol.Valid() && node in vol.chains
    ensures vol.Contents() == old(vol.Contents())[node := vol.Contents()[node]]
    ensures !erase ==> Agree(old(vol.Contents())[node], vol.Contents()[node])
    ensures var c1 := DivRoundUp(old(node.size), vol.store.ClusterSize());
            var c2 := DivRoundUp(size, vol.store.ClusterSize());
            if c2 > c1 + CountFree(old(vol.cmap.bits))
            then rc == -ENOSPC
            else rc == 0 && CountFree(vol.cmap.bits) == CountFree(old(vol.cmap.bits)) + c1 - c2
    ensures rc == 0 ==>
              && node.isDirty && node.validSize == (if erase then size else Min(old(node.validSize), size))
              && vol.Flat(node).bytes == Resize(old(vol.Flat(node)).bytes, size)
    ensures rc != 0 ==>
              && vol.chains == old(vol.chains) && vol.owner == old(vol.owner) && vol.cmap.bits == old(vol.cmap.bits)
              && node.start == old(node.start) && node.size == old(node.size) && node.validSize == old(node.validSize)
              && (node.isDirty || node.isContiguous == old(node.isContiguous))
              && vol.Contents() == old(vol.Contents())
  {
    hide Volume.Base, Volume.Rest, Volume.Chained, Volume.Valid, Volume.Contents, Store.ClusterSize, DivRoundUp,
         View, Resize, CountFree, MaxSize;
    var cs := vol.store.ClusterSize();
    vol.Open(node);
    Shown(vol, node);
    ClusterCountCovers(cs, size);
    ghost var raw := vol.Contents()[node];
    rc := ResizeChain(vol, node, BytesToClusters(cs, node.size), BytesToClusters(cs, size));
    if rc != 0 {
      assert vol.Contents() == old(vol.Contents());
      vol.Open(node);
      return;
    }
    Adjust(vol, node, size, erase, raw);
  }

  /**
   * exfat_truncate: the file is cut or padded with zeros and no other file changes, unless the
   * clusters do not suffice; then nothing changes.
   */
  method Truncate(vol: Volume, node: Node, size: nat, erase: bool) returns (rc: int)
    requires vol.Valid() && node in vol.chains && vol.store.ClusterSize() > 0
    requires size <= MaxSize(vol.store.ClusterSize())
    modifies vol`owner, vol`chains, vol.store`fat, vol.store`heap, vol.store.dev, vol.cmap`bits, vol.cmap.words
    modifies node`start, node`fptrIndex, node`fptrCluster, node`isContiguous, node`isDirty, node`validSize, node`size
    ensures vol.Valid() && node in vol.chains
    ensures var o := Truncated(vol.store.ClusterSize(), old(vol.Flat(node)), CountFree(old(vol.cmap.bits)), size, erase);
            rc == o.rc && CountFree(vol.cmap.bits) == o.free && vol.Flat(node) == o.file
    ensures vol.Contents() == old(vol.Contents())[node := vol.Contents()[node]]
    ensures !erase ==> Agree(old(vol.Contents())[node], vol.Contents()[node])
    ensures rc != 0 ==>
              && vol.chains == old(vol.chains) && vol.owner == old(vol.owner) && vol.cmap.bits == old(vol.cmap.bits)
              && node.start == old(node.start) && node.size == old(node.size)
    ensures node.isDirty || (node.start == old(node.start) && node.isContiguous == old(node.isContiguous) &&
                             node.size == old(node.size) && node.validSize == old(node.validSize))
  {
    hide Volume.Valid, Volume.Contents, Store.ClusterSize, DivRoundUp, View, Resize, CountFree, MaxSize, Ok;
    Shown(vol, node);
    if node.size == size {
      return 0;
    }
    rc := Reshape(vol, node, size, erase);
  }

  lemma PlaceEnd(cs: nat, pos: nat, k: nat, at: nat)
    requires Place(pos, k, at, cs) && at <= cs
    ensures Place(pos + (cs - at), k + 1, 0, cs)
  {
  }

  /** The clusters of a settled file hold its bytes. */
  lemma Roomy(vol: Volume, node: Node)
    requires vol.Valid() && node in vol.chains
    ensures Fits(node.size, |vol.chains[node]|, vol.store.ClusterSize())
  {
    hide Volume.Valid, Volume.Contents, Store.ClusterSize, DivRoundUp;
    vol.Open(node);
    Capacity(vol, node, node.size);
  }

  /** The loop of exfat_generic_pread, over initialised bytes. */
  method ReadLoop(vol: Volume, node: Node, size: nat, offset: nat) returns (data: seq<byte>)
    requires vol.Mid(node) && vol.store.ClusterSize() > 0 && size > 0
    requires Fits(offset + size, |vol.chains[node]|, vol.store.ClusterSize())
    requires offset + size <= |vol.Contents()[node]|
    modifies node`fptrIndex, node`fptrCluster
    ensures vol.Mid(node)
    ensures data == vol.Contents()[node][offset..offset + size]
  {
    hide Volume.Base, Volume.Rest, Volume.Chained, Volume.Contents, Store.ClusterSize, Fits, Place, Boundary;
    var cs := vol.store.ClusterSize();
    PlaceOf(cs, offset);
    var first, at: nat := offset / cs, offset % cs;
    ghost var k: nat := first;
    PlaceInside(cs, offset, k, at, offset + size, |vol.chains[node]|);
    var cluster := vol.AdvanceCluster(node, first);
    var remainder := size;
    ghost var raw := vol.Contents()[node];
    data := [];
    while remainder > 0
      invariant 0 <= remainder <= size && |data| == size - remainder
      invariant vol.Mid(node) && node.fptrIndex == first
      invariant remainder > 0 ==>
                  && k < |vol.chains[node]| && cluster == vol.chains[node][k]
                  && at < cs && Place(offset + |data|, k, at, cs)
      invariant offset + |data| <= |raw| && data == raw[offset..offset + |data|]
    {
      var lsize := Min(cs - at, remainder);
      var chunk := vol.ReadAt(node, cluster, at, lsize, k, offset + |data|);
      PlaceEnd(cs, offset + |data|, k, at);
      SliceJoin(raw, offset, offset + |data|, offset + |data| + lsize);
      data := data + chunk;
      at := 0;
      remainder := remainder - lsize;
      if remainder > 0 {
        PlaceInside(cs, offset + |data|, k + 1, 0, offset + size, |vol.chains[node]|);
      }
      cluster := vol.Follow(node, cluster, k);
      k := k + 1;
    }
  }

  lemma FitsLess(size: nat, less: nat, n: nat, cs: nat)
    requires Fits(size, n, cs) && less <= size
    ensures Fits(less, n, cs)
  {
  }

  lemma ReadInitialised(raw: seq<byte>, valid: nat, size: nat, off: nat, n: nat)
    requires valid <= size && valid <= |raw| && off + n <= valid
    ensures ReadOf(View(raw, valid, size), off, n) == raw[off..off + n]
  {
  }

  lemma ReadPast(raw: seq<byte>, valid: nat, size: nat, off: nat, n: nat)
    requires valid <= size && valid <= |raw| && off < size && off + n > valid
    ensures var head := if off < valid then ReadOf(View(raw, valid, size), off, valid - off) else [];
            var rc := Min(n, size - off);
            && |head| <= n && (off < valid ==> |head| == valid - off)
            && rc <= |head + Zeros(Min(n - |head|, size - valid))|
            && ReadOf(View(raw, valid, size), off, n) == (head + Zeros(Min(n - |head|, size - valid)))[..rc]
  {
  }

  /** A read gives the bytes from the offset on, as many as asked for or as there
    * are; none at or past the end. */
  lemma ReadSlice(bytes: seq<byte>, off: nat, n: nat)
    ensures var data := ReadOf(bytes, off, n);
            && |data| == (if off >= |bytes| then 0 else Min(n, |bytes| - off))
            && forall i | 0 <= i < |data| :: data[i] == bytes[off + i]
  {
  }

  /** exfat_generic_pread */
  method Pread(vol: Volume, node: Node, size: nat, offset: int) returns (rc: int, data: seq<byte>)
    requires vol.Valid() && node in vol.chains
    modifies node`fptrIndex, node`fptrCluster
    ensures vol.Valid()
    ensures offset < 0 ==> rc == -EINVAL && data == []
    ensures offset >= 0 ==> data == ReadOf(vol.Flat(node).bytes, offset, size) && rc == |data|
    ensures |vol.Flat(node).bytes| == node.size
    ensures offset >= node.size ==> rc == 0 && data == []
    ensures 0 <= offset < node.size ==> rc == |data| == Min(size, node.size - offset)
    ensures forall i | 0 <= i < |data| :: 0 <= offset + i < node.size && data[i] == vol.Flat(node).bytes[offset + i]
    decreases size
  {
    hide Volume.Valid, Volume.Mid, Volume.Contents, Store.ClusterSize, Fits, View, Ok, DivRoundUp;
    Shown(vol, node);
    if offset >= 0 { ReadSlice(vol.Flat(node).bytes, offset, size); }
    if offset < 0 {
      return -EINVAL, [];
    }
    if offset >= node.size || size == 0 {
      return 0, [];
    }
    ghost var raw := vol.Contents()[node];
    if offset + size > node.validSize {
      ReadPast(raw, node.validSize, node.size, offset, size);
      hide ReadOf;
      var bytes := 0;
      data := [];
      if offset < node.validSize {
        bytes, data := Pread(vol, node, node.validSize - offset, offset);
      }
      data := data + Zeros(Min(size - bytes, node.size - node.validSize));
      rc := Min(size, node.size - offset);
      data := data[..rc];
      return;
    }
    ReadInitialised(raw, node.validSize, node.size, offset, size);
    vol.Open(node);
    Roomy(vol, node);
    FitsLess(node.size, offset + size, |vol.chains[node]|, vol.store.ClusterSize());
    data := ReadLoop(vol, node, size, offset);
    vol.Open(node);
    rc := Min(size, node.size - offset);
  }

  /** The loop of exfat_generic_pwrite. */
  method WriteLoop(vol: Volume, node: Node, data: seq<byte>, offset: nat)
    requires vol.Mid(node) && vol.store.ClusterSize() > 0 && data != []
    requires Fits(offset + |data|, |vol.chains[node]|, vol.store.ClusterSize())
    requires offset + |data| <= |vol.Contents()[node]|
    modifies vol.store`heap, vol.store.dev, node`fptrIndex, node`fptrCluster, node`validSize
    ensures vol.Mid(node)
    ensures node.validSize == Max(old(node.validSize), offset + |data|)
    ensures vol.Contents() == old(vol.Contents())[node := Splice(old(vol.Contents())[node], offset, data)]
  {
    hide Volume.Base, Volume.Rest, Volume.Chained, Volume.Contents, Store.ClusterSize, Fits, Place, Boundary, Splice;
    var cs := vol.store.ClusterSize();
    PlaceOf(cs, offset);
    var first, at: nat := offset / cs, offset % cs;
    ghost var k: nat := first;
    PlaceInside(cs, offset, k, at, offset + |data|, |vol.chains[node]|);
    ghost var raw := vol.Contents()[node];
    var cluster := vol.AdvanceCluster(node, first);
    var done := 0;
    SpliceNone(raw, offset, data[..0]);
    assert vol.Contents() == old(vol.Contents())[node := raw];
    while done < |data|
      invariant done <= |data| && vol.Mid(node)
      invariant done < |data| ==>
                  && k < |vol.chains[node]| && cluster == vol.chains[node][k]
                  && at < cs && Place(offset + done, k, at, cs)
      invariant node.validSize == if done == 0 then old(node.validSize) else Max(old(node.validSize), offset + done)
      invariant vol.Contents() == old(vol.Contents())[node := Splice(raw, offset, data[..done])]
    {
      var lsize := Min(cs - at, |data| - done);
      ghost var now := Splice(raw, offset, data[..done]);
      Overwritten(old(vol.Contents()), node, now, Splice(now, offset + done, data[done..done + lsize]));
      cluster := WriteChunk(vol, node, cluster, at, data[done..done + lsize], k, offset + done);
      SpliceMore(raw, offset, data, done, lsize);
      PlaceEnd(cs, offset + done, k, at);
      at := 0;
      done := done + lsize;
      if done < |data| {
        PlaceInside(cs, offset + done, k + 1, 0, offset + |data|, |vol.chains[node]|);
      }
      k := k + 1;
    }
    assert data[..done] == data;
  }

  lemma SpliceNone(raw: seq<byte>, offset: nat, none: seq<byte>)
    requires offset <= |raw| && none == []
    ensures Splice(raw, offset, none) == raw
  {
  }

  lemma SpliceMore(raw: seq<byte>, offset: nat, data: seq<byte>, done: nat, n: nat)
    requires offset + |data| <= |raw| && done + n <= |data|
    ensures Splice(Splice(raw, offset, data[..done]), offset + done, data[done..done + n]) == Splice(raw, offset, data[..done + n])
  {
    SpliceAppend(raw, offset, data[..done], data[done..done + n]);
    assert data[..done + n] == data[..done] + data[done..done + n];
  }

  /** One round of that loop. */
  method WriteChunk(vol: Volume, node: Node, cluster: nat, at: nat, chunk: seq<byte>, ghost k: nat, pos: nat) returns (next: nat)
    requires vol.Mid(node) && k < |vol.chains[node]| && cluster == vol.chains[node][k]
    requires at + |chunk| <= vol.store.ClusterSize() && Place(pos, k, at, vol.store.ClusterSize())
    modifies vol.store`heap, vol.store.dev, node`validSize
    ensures vol.Mid(node) && node.validSize == Max(old(node.validSize), pos + |chunk|)
    ensures k + 1 < |vol.chains[node]| ==> next == vol.chains[node][k + 1]
    ensures pos + |chunk| <= |old(vol.Contents())[node]|
    ensures vol.Contents() == old(vol.Contents())[node := Splice(old(vol.Contents())[node], pos, chunk)]
  {
    hide Volume.Base, Volume.Rest, Volume.Contents, Store.ClusterSize, Place, Linked, InRange;
    vol.WriteAt(node, cluster, at, chunk, k, pos);
    label L:
    node.validSize := Max(node.validSize, pos + |chunk|);
    vol.RestUnmoved@L(node);
    next := vol.Follow(node, cluster, k);
  }

  /** Splicing the stored bytes splices what a reader sees, but for a gap it uncovers. */
  lemma WriteView(raw: seq<byte>, valid: nat, size: nat, off: nat, data: seq<byte>)
    requires valid <= size <= |raw| && off + |data| <= size
    ensures var v, v' := View(raw, valid, size), View(Splice(raw, off, data), Max(valid, off + |data|), size);
            v' == if off <= valid then Splice(v, off, data) else Splice(Splice(v, off, data), valid, raw[valid..off])
  {
  }

  /** The part of exfat_generic_pwrite that makes room. */
  method Extend(vol: Volume, node: Node, off: nat, end: nat) returns (rc: int)
    requires vol.Valid() && node in vol.chains && vol.store.ClusterSize() > 0
    requires off <= end <= MaxSize(vol.store.ClusterSize())
    modifies vol`owner, vol`chains, vol.store`fat, vol.store`heap, vol.store.dev, vol.cmap`bits, vol.cmap.words
    modifies node`start, node`fptrIndex, node`fptrCluster, node`isContiguous, node`isDirty, node`validSize, node`size
    ensures vol.Valid() && node in vol.chains
    ensures var o := Extended(vol.store.ClusterSize(), old(vol.Flat(node)), CountFree(old(vol.cmap.bits)), off, end);
            rc == o.rc && CountFree(vol.cmap.bits) == o.free && vol.Flat(node) == o.file
    ensures vol.Contents() == old(vol.Contents())[node := vol.Contents()[node]]
    ensures off <= old(node.size) ==> Agree(old(vol.Contents())[node], vol.Contents()[node])
  {
    hide Volume.Valid, Volume.Contents, Store.ClusterSize, CountFree, Truncated, View, MaxSize, Ok, DivRoundUp;
    Shown(vol, node);
    rc := 0;
    if off > node.size {
      rc := Truncate(vol, node, off, true);
      if rc != 0 {
        return;
      }
      Shown(vol, node);
    }
    ghost var mid := vol.Contents();
    if end > node.size {
      rc := Truncate(vol, node, end, false);
      ChangedTwice(old(vol.Contents()), mid, vol.Contents(), node);
    }
  }

  /** exfat_update_mtime, left to the caller for directories. */
  method Touch(vol: Volume, node: Node)
    requires vol.Mid(node) && vol.Settled(node)
    modifies node`isDirty
    ensures vol.Valid() && node.isDirty == (old(node.isDirty) || !node.isDirectory)
  {
    hide Volume.Base, Volume.Rest, Linked, InRange;
    if !node.isDirectory {
      node.isDirty := true;
    }
    vol.RestUnmoved(node);
    vol.Open(node);
  }

  /** The part of exfat_generic_pwrite that stores the bytes, once there is room. */
  method StoreBytes(vol: Volume, node: Node, data: seq<byte>, off: nat)
    requires vol.Valid() && node in vol.chains && data != [] && off + |data| <= node.size
    modifies vol.store`heap, vol.store.dev, node`fptrIndex, node`fptrCluster, node`isDirty, node`validSize
    ensures vol.Valid() && node in vol.chains
    ensures vol.Contents() == old(vol.Contents())[node := vol.Contents()[node]]
    ensures node.validSize == Max(old(node.validSize), off + |data|)
    ensures old(node.size) <= |old(vol.Contents())[node]| && |old(vol.Flat(node)).bytes| == old(node.size)
    ensures var bytes := Splice(old(vol.Flat(node)).bytes, off, data);
            var valid := old(node.validSize);
            vol.Flat(node).bytes ==
            if off <= valid then bytes else Splice(bytes, valid, old(vol.Contents())[node][valid..off])
    ensures !node.isDirectory ==> node.isDirty
  {
    hide Volume.Valid, Volume.Mid, Volume.Contents, Store.ClusterSize, View, Ok, Fits, DivRoundUp;
    Shown(vol, node);
    vol.Open(node);
    Roomy(vol, node);
    FitsLess(node.size, off + |data|, |vol.chains[node]|, vol.store.ClusterSize());
    WriteView(vol.Contents()[node], node.validSize, node.size, off, data);
    WriteLoop(vol, node, data, off);
    Touch(vol, node);
  }

  /** exfat_generic_pwrite */
  method Pwrite(vol: Volume, node: Node, data: seq<byte>, offset: int) returns (rc: int)
    requires vol.Valid() && node in vol.chains && vol.store.ClusterSize() > 0
    requires offset + |data| <= MaxSize(vol.store.ClusterSize())
    modifies vol`owner, vol`chains, vol.store`fat, vol.store`heap, vol.store.dev, vol.cmap`bits, vol.cmap.words
    modifies node`start, node`fptrIndex, node`fptrCluster, node`isContiguous, node`isDirty, node`validSize, node`size
    ensures vol.Valid() && node in vol.chains
    ensures vol.Contents() == old(vol.Contents())[node := vol.Contents()[node]]
    ensures offset < 0 ==>
              rc == -EINVAL && vol.Flat(node) == old(vol.Flat(node)) && vol.cmap.bits == old(vol.cmap.bits)
    ensures old(node.size) <= |old(vol.Contents())[node]| && |old(vol.Flat(node)).bytes| == old(node.size)
    ensures offset >= 0 ==>
              var f := old(vol.Flat(node));
              var o := Wrote(vol.store.ClusterSize(), f, CountFree(old(vol.cmap.bits)), data, offset);
              && rc == o.rc && CountFree(vol.cmap.bits) == o.free
              && (rc <= 0 || !Gap(f, offset) ==> vol.Flat(node) == o.file)
              && (rc > 0 && Gap(f, offset) ==>
                    && offset <= |o.file.bytes|
                    && vol.Flat(node) == Exposed(o.file, old(vol.Contents())[node], f.valid, offset))
  {
    hide Volume.Valid, Volume.Mid, Volume.Contents, Store.ClusterSize, CountFree, View, MaxSize, Ok, Extended, DivRoundUp;
    Shown(vol, node);
    if offset < 0 {
      return -EINVAL;
    }
    ExtendedShape(vol.store.ClusterSize(), vol.Flat(node), CountFree(vol.cmap.bits), offset, offset + |data|);
    rc := Extend(vol, node, offset, offset + |data|);
    if rc != 0 || data == [] {
      return;
    }
    Shown(vol, node);
    ghost var raw := vol.Contents()[node];
    assert Gap(old(vol.Flat(node)), offset) ==>
             raw[node.validSize..offset] == old(vol.Contents())[node][node.validSize..offset];
    hide Agree;
    ghost var mid := vol.Contents();
    StoreBytes(vol, node, data, offset);
    ChangedTwice(old(vol.Contents()), mid, vol.Contents(), node);
    rc := |data|;
  }

  /** The flat files of the calls below. */
  lemma StaleSteps(cs: nat, free: nat)
    requires cs >= 4 && free >= 1
    ensures MaxSize(cs) >= 3
    ensures !Gap(File([], 0), 0) && Wrote(cs, File([], 0), free, [7, 9, 9], 0) == Outcome(File([7, 9, 9], 3), free - 1, 3)
    ensures Truncated(cs, File([7, 9, 9], 3), free - 1, 1, false) == Outcome(File([7], 1), free - 1, 0)
    ensures Truncated(cs, File([7], 1), free - 1, 3, false) == Outcome(File([7, 0, 0], 1), free - 1, 0)
    ensures Wrote(cs, File([7, 0, 0], 1), free - 1, [5], 2) == Outcome(File([7, 0, 5], 3), free - 1, 1)
  {
    ClustersOf(cs, 1);
    ClustersOf(cs, 3);
    DivRoundUpBounds(0, cs);
    hide DivRoundUp;
    assert Resize([], 3) == [0, 0, 0] && Splice([0, 0, 0], 0, [7, 9, 9]) == [7, 9, 9];
    assert Resize([7, 9, 9], 1) == [7] && Resize([7], 3) == [7, 0, 0];
    assert Splice([7, 0, 0], 2, [5]) == [7, 0, 5];
  }

  lemma ClustersOf(cs: nat, n: nat)
    requires 0 < n <= cs
    ensures DivRoundUp(n, cs) == 1
  {
    DivModUnique(1, n - 1, cs);
  }

  lemma StoredRoom(vol: Volume, node: Node)
    requires vol.Valid() && node in vol.chains && 0 < node.size <= vol.store.ClusterSize()
    ensures |vol.Contents()[node]| == vol.store.ClusterSize()
  {
    vol.Open(node);
    Filled(vol, node);
    ClustersOf(vol.store.ClusterSize(), node.size);
  }

  /** The first three: three bytes written, two of them cut off and room made for them again. */
  method LeaveStale(vol: Volume, node: Node)
    requires vol.Valid() && node in vol.chains && node.size == 0 && vol.store.ClusterSize() >= 4
    requires CountFree(vol.cmap.bits) >= 1
    modifies vol`owner, vol`chains, vol.store`fat, vol.store`heap, vol.store.dev, vol.cmap`bits, vol.cmap.words
    modifies node`start, node`fptrIndex, node`fptrCluster, node`isContiguous, node`isDirty, node`validSize, node`size
    ensures vol.Valid() && node in vol.chains && vol.Flat(node) == File([7, 0, 0], 1)
    ensures CountFree(vol.cmap.bits) == CountFree(old(vol.cmap.bits)) - 1
    ensures |vol.Contents()[node]| >= 4 && vol.Contents()[node][1] == 9
  {
    hide Volume.Valid, Volume.Contents, Store.ClusterSize, CountFree, DivRoundUp, MaxSize, Truncated, Wrote, View;
    StaleSteps(vol.store.ClusterSize(), CountFree(vol.cmap.bits));
    Shown(vol, node);
    assert vol.Flat(node) == File([], 0);
    var _ := Pwrite(vol, node, [7, 9, 9], 0);
    Shown(vol, node);
    StoredRoom(vol, node);
    ghost var raw := vol.Contents()[node];
    Initialised(raw, node.validSize, node.size);
    assert raw[..3] == [7, 9, 9] && raw[..3][1] == raw[1];
    var _ := Truncate(vol, node, 1, false);
    Shown(vol, node);
    StoredRoom(vol, node);
    raw := vol.Contents()[node];
    var _ := Truncate(vol, node, 3, false);
    Shown(vol, node);
    StoredRoom(vol, node);
  }

  lemma Initialised(raw: seq<byte>, valid: nat, size: nat)
    requires valid == size <= |raw|
    ensures View(raw, valid, size) == raw[..size]
  {
  }

  /** Four calls on an empty file of any volume with a free cluster, after which
    * a byte written, cut off and never written again shows. */
  method UncoverStale(vol: Volume, node: Node)
    requires vol.Valid() && node in vol.chains && node.size == 0 && vol.store.ClusterSize() >= 4
    requires CountFree(vol.cmap.bits) >= 1
    modifies vol`owner, vol`chains, vol.store`fat, vol.store`heap, vol.store.dev, vol.cmap`bits, vol.cmap.words
    modifies node`start, node`fptrIndex, node`fptrCluster, node`isContiguous, node`isDirty, node`validSize, node`size
    ensures vol.Valid() && node in vol.chains && vol.Flat(node).bytes == [7, 9, 5]
  {
    hide Volume.Valid, Volume.Contents, Store.ClusterSize, CountFree, DivRoundUp, MaxSize, Wrote, View;
    StaleSteps(vol.store.ClusterSize(), CountFree(vol.cmap.bits));
    LeaveStale(vol, node);
    ghost var raw := vol.Contents()[node];
    var _ := Pwrite(vol, node, [5], 2);
    assert Exposed(File([7, 0, 5], 3), raw, 1, 2).bytes == [7, 9, 5];
  }
}
