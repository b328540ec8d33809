/** From the formatter to any run of calls: a formatted and mounted volume, new
  * files on it, and what the calls on them do. */
module FormattedRuns {
  import opened Bytes
  import opened BlockDevice
  import opened BootRegion
  import opened Chains
  import opened ClusterBitmap
  import opened ClusterStore
  import opened Ownership
  import opened ExfatVolume
  import L = Layout
  import F = Formatter
  import M = Mounting
  import FlatFile
  import R = VolumeRuns

  lemma {:induction false} CountPrefix(bits: seq<bool>, t: nat)
    requires t <= |bits| && forall i | 0 <= i < |bits| :: bits[i] == (i < t)
    ensures CountFree(bits) == |bits| - t
  {
    if bits != [] {
      var n := |bits| - 1;
      CountPrefix(bits[..n], if t > n then n else t);
    }
  }

  lemma OwnedNew<K>(chains: map<K, seq<nat>>, owner: map<nat, Use<K>>, limit: nat, n: K)
    requires OwnedBy(chains, owner, limit) && n !in chains
    ensures OwnedBy(chains[n := []], owner, limit)
  {
    forall c | c in owner && owner[c].At? ensures UsedAt(chains[n := []], owner[c], c) {
      assert UsedAt(chains, owner[c], c);
    }
  }

  /** A file without clusters is valid, and shows nothing. */
  lemma EmptyFile(vol: Volume, n: Node)
    requires n in vol.chains && vol.chains[n] == [] && vol.store.ClusterSize() > 0
    requires n.start == CLUSTER_FREE && n.fptrIndex == 0 && n.size == n.validSize == 0
    ensures vol.Chained(n) && vol.Settled(n) && vol.Flat(n) == FlatFile.File([], 0)
  {
    DivRoundUpBounds(0, vol.store.ClusterSize());
  }

  lemma ClusterSizePositive(vol: Volume)
    requires vol.Valid()
    ensures vol.store.ClusterSize() > 0
  {
  }

  /** The node of a new file: no clusters, no bytes. */
  method NewFile(vol: Volume) returns (n: Node)
    requires vol.Valid()
    modifies vol`chains
    ensures fresh(n) && vol.Valid() && vol.chains == old(vol.chains)[n := []] && n !in old(vol.chains)
    ensures vol.Flat(n) == FlatFile.File([], 0)
    ensures forall m | m in old(vol.chains) :: vol.Flat(m) == old(vol.Flat(m))
  {
    hide OwnedBy, Marks, Store.Valid, Bitmap.Valid, Store.ClusterSize, DivRoundUp, Linked, InRange, FlatFile.View, Stored;
    ClusterSizePositive(vol);
    n := new Node(CLUSTER_FREE, false, 0, 0, false);
    OwnedNew(vol.chains, vol.owner, vol.Limit(), n);
    StoredNew(vol.store.heap, vol.chains, vol.store.ClusterSize(), n);
    vol.chains := vol.chains[n := []];
    EmptyFile(vol, n);
    forall m | m in old(vol.chains) ensures vol.Chained(m) && vol.Settled(m) {
      assert old(vol.Chained(m)) && old(vol.Settled(m));
    }
  }

  lemma StoredNew<K>(heap: seq<seq<byte>>, chains: map<K, seq<nat>>, size: nat, n: K)
    requires n !in chains
    ensures forall m | m in chains :: m in Stored(heap, chains[n := []], size) && m in Stored(heap, chains, size)
              && Stored(heap, chains[n := []], size)[m] == Stored(heap, chains, size)[m]
  {
  }

  /** `k` new files. */
  method NewFiles(vol: Volume, k: nat) returns (nodes: seq<Node>)
    requires vol.Valid()
    modifies vol`chains
    ensures vol.Valid() && R.Files(vol, nodes) && |nodes| == k && vol.store.ClusterSize() > 0
    ensures forall i | 0 <= i < |nodes| :: fresh(nodes[i])
    ensures R.StateOf(vol, nodes) == R.State(seq(k, _ => FlatFile.File([], 0)), CountFree(vol.cmap.bits))
  {
    hide Volume.Valid, Volume.Flat, CountFree;
    ClusterSizePositive(vol);
    nodes := [];
    for i := 0 to k
      invariant vol.Valid() && |nodes| == i && R.Files(vol, nodes)
      invariant forall j | 0 <= j < i :: fresh(nodes[j])
      invariant forall j | 0 <= j < i :: nodes[j] in vol.chains && vol.Flat(nodes[j]) == FlatFile.File([], 0)
    {
      var n := NewFile(vol);
      nodes := nodes + [n];
    }
  }

  /** Formats a device, mounts it and applies any calls to any number of new
    * files: the volume stays valid throughout, every call does what it does to
    * flat files, and at the start every cluster is free that the formatter did
    * not take. */
  method FormatAndRun(dev: Device, v: nat, uct: seq<byte>, k: nat, calls: seq<R.Call>)
    returns (ok: bool, vol: Volume?, nodes: seq<Node>, replies: seq<R.Reply>, ghost trace: seq<R.State>)
    requires dev.Valid() && v < 0x1000_0000_0000 && v <= dev.Capacity() && |uct| == L.UCT_SIZE
    requires forall i | 0 <= i < |calls| :: R.Allowed(calls[i], k, 4096)
    modifies dev
    ensures ok == L.Accepted(v)
    ensures ok ==>
      && vol != null && vol.Valid()
      && R.IsRun(4096, calls, replies, trace)
      && |nodes| == k && R.Files(vol, nodes) && trace[|calls|] == R.StateOf(vol, nodes)
      && 0 <= F.Taken(v) <= L.ClusterCount(v)
      && trace[0] == R.State(seq(k, _ => FlatFile.File([], 0)), L.ClusterCount(v) - F.Taken(v))
  {
    hide Image, F.Formatted, L.Accepted, L.ClusterCount, F.Taken, Volume.Valid, R.StateOf, R.StepAt, R.Allowed, CountFree, M.NewOwner;
    vol, nodes, replies, trace := null, [], [], [];
    ok := F.Mkfs(dev, v, uct);
    if !ok { return; }
    M.Extents(Image(dev), v, uct);
    var good, root;
    good, vol, root := M.Mount(dev, v, uct);
    BitmapSize(vol);
    CountPrefix(vol.cmap.bits, F.Taken(v));
    nodes, replies, trace := RunOnNew(vol, k, calls);
  }

  /** Any calls on any number of new files. */
  method RunOnNew(vol: Volume, k: nat, calls: seq<R.Call>) returns (nodes: seq<Node>, replies: seq<R.Reply>, ghost trace: seq<R.State>)
    requires vol.Valid() && forall i | 0 <= i < |calls| :: R.Allowed(calls[i], k, vol.store.ClusterSize())
    modifies vol`owner, vol`chains, vol.store`fat, vol.store`heap, vol.store.dev, vol.cmap`bits, vol.cmap.words
    ensures vol.Valid() && R.IsRun(vol.store.ClusterSize(), calls, replies, trace)
    ensures |nodes| == k && R.Files(vol, nodes) && trace[|calls|] == R.StateOf(vol, nodes)
    ensures trace[0] == R.State(seq(k, _ => FlatFile.File([], 0)), CountFree(old(vol.cmap.bits)))
  {
    hide Volume.Valid, R.StateOf, R.StepAt, R.Allowed, CountFree, Store.ClusterSize;
    nodes := NewFiles(vol, k);
    replies, trace := R.Run(vol, nodes, calls);
  }

  lemma BitmapSize(vol: Volume)
    requires vol.Valid()
    ensures |vol.cmap.bits| == vol.store.clusterCount
  {
  }
}
