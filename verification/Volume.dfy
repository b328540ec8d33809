/** The exFAT cluster allocator: files that own clusters (fs/exfat/cluster.c). */
module ExfatVolume {
  import opened Bytes
  import opened Chains
  import opened ClusterBitmap
  import opened ClusterStore
  import opened FlatFile
  import opened Ownership

  /** struct exfat_node, as far as the allocator and file I/O use it. */
  class Node {
    var start: nat                 // start_cluster
    var fptrIndex: nat             // cached seek position: index ...
    var fptrCluster: nat           // ... and cluster number
    var isContiguous: bool
    var isDirty: bool
    var validSize: nat
    var size: nat
    const isDirectory: bool

    constructor (start: nat, isContiguous: bool, validSize: nat, size: nat, isDirectory: bool)
      ensures this.start == start && this.isContiguous == isContiguous && this.isDirectory == isDirectory
      ensures this.validSize == validSize && this.size == size
      ensures fptrIndex == 0 && fptrCluster == start && !isDirty
    {
      this.start, this.isContiguous, this.isDirectory := start, isContiguous, isDirectory;
      this.validSize, this.size := validSize, size;
      fptrIndex, fptrCluster, isDirty := 0, start, false;
    }
  }

  // ---- the clusters a growing file takes ----

  /** Cluster `c` is taken, the first free one from cluster `from` on, going
    * round; from the first one on when `from` is none. */
  ghost predicate Took(bits: seq<bool>, from: nat, c: nat, bits': seq<bool>) {
    2 <= c < |bits| + 2 && bits' == bits[c - 2 := true] && FirstFree(bits, from as int - 2, c - 2)
  }

  /** The search starts from the first cluster when the hint lies before it. */
  lemma HintWraps(bits: seq<bool>, hint: u32, h: nat, c: nat, bits': seq<bool>)
    requires |bits| <= LAST_DATA_CLUSTER && h == (hint + 0x1_0000_0000 - 2) % 0x1_0000_0000 && FirstFree(bits, h, c) && c < |bits|
    requires bits' == bits[c := true]
    ensures Took(bits, hint, c + 2, bits')
  {
  }

  /** Cluster `next`, taken behind `previous`, is the last of the chain; the form
    * is kept exactly if it continues the run. */
  ghost predicate Joined<K>(bits0: seq<bool>, chains0: map<K, seq<nat>>, owner0: map<nat, Use<K>>, form0: bool, node: K, previous: nat, next: nat,
                            bits: seq<bool>, chains: map<K, seq<nat>>, owner: map<nat, Use<K>>, form: bool)
  {
    && node in chains0 && next !in owner0 && owner == owner0[next := At(node, |chains0[node]|)]
    && chains == chains0[node := chains0[node] + [next]]
    && CountFree(bits) == CountFree(bits0) - 1 && Took(bits0, previous + 1, next, bits)
    && form == (form0 && next == previous + 1)
  }

  /** Cluster `next`, nobody's before, is taken behind `previous`. */
  ghost predicate Reserves<K>(bits0: seq<bool>, owner0: map<nat, Use<K>>, previous: nat, next: nat, bits: seq<bool>, owner: map<nat, Use<K>>) {
    && next !in owner0 && owner == owner0[next := Reserved]
    && CountFree(bits) == CountFree(bits0) - 1 && Took(bits0, previous + 1, next, bits)
  }

  lemma ReservesNext<K>(bits0: seq<bool>, owner0: map<nat, Use<K>>, previous: nat, next: nat, bits: seq<bool>, owner: map<nat, Use<K>>)
    requires Reserves(bits0, owner0, previous, next, bits, owner)
    ensures next in owner && owner[next] == Reserved
  {
  }

  lemma IsJoined<K>(bits0: seq<bool>, chains0: map<K, seq<nat>>, owner0: map<nat, Use<K>>, form0: bool, node: K, previous: nat, next: nat,
                    bits: seq<bool>, uses: map<nat, Use<K>>, chains: map<K, seq<nat>>, owner: map<nat, Use<K>>, form: bool)
    requires Reserves(bits0, owner0, previous, next, bits, uses) && node in chains0 && owner == uses[next := At(node, |chains0[node]|)]
    requires chains == chains0[node := chains0[node] + [next]] && form == (form0 && next == previous + 1)
    ensures Joined(bits0, chains0, owner0, form0, node, previous, next, bits, chains, owner, form)
  {
    hide Took, CountFree;
    Overwritten(owner0, next, Reserved, At(node, |chains0[node]|));
  }

  /** The clusters of the chain from `current` on were picked one after another. */
  ghost predicate Chose(bits0: seq<bool>, hint: int, chain: seq<nat>, current: nat, bits: seq<bool>) {
    current <= |chain| && Picked(bits0, hint, chain[current..]) && bits == WithTaken(bits0, chain[current..])
  }

  lemma ChoseStart(bits0: seq<bool>, hint: int, chain: seq<nat>, current: nat, bits: seq<bool>)
    requires if |chain| == current then bits == bits0
             else current == 0 && |chain| == 1 && hint == -2 && Took(bits0, 0, chain[0], bits)
    ensures Chose(bits0, hint, chain, current, bits)
  {
    hide FirstFree, WithTaken, Picked;
    NoneTaken(bits0, hint);
    if |chain| == current {
      assert chain[current..] == [];
    } else {
      PickedStep(bits0, hint, [], chain[0] - 2);
      assert [] + [chain[0]] == chain[current..];
    }
  }

  lemma ChoseStep(bits0: seq<bool>, hint: int, chain: seq<nat>, current: nat, bits: seq<bool>, next: nat, bits': seq<bool>)
    requires Chose(bits0, hint, chain, current, bits) && chain != [] && Took(bits, chain[|chain| - 1] + 1, next, bits')
    requires current > 0 ==> hint == chain[current - 1] as int - 1
    ensures Chose(bits0, hint, chain + [next], current, bits')
  {
    hide FirstFree, WithTaken, Picked;
    PickedStep(bits0, hint, chain[current..], next - 2);
    assert (chain + [next])[current..] == chain[current..] + [next];
  }

  /** The clusters behind `last` are free. */
  ghost predicate RoomBehind(bits: seq<bool>, last: nat, n: nat) {
    last > 0 && last - 1 + n <= |bits| && forall k | last - 1 <= k < last - 1 + n :: !bits[k]
  }

  /** An empty file starts at the lowest free cluster; a file with room behind it
    * takes exactly that. */
  lemma ChoseFacts(bits0: seq<bool>, hint: int, chain: seq<nat>, current: nat, bits: seq<bool>)
    requires Chose(bits0, hint, chain, current, bits) && current < |chain|
    ensures Picked(bits0, hint, chain[current..]) && bits == WithTaken(bits0, chain[current..])
    ensures 2 <= chain[current] < |bits0| + 2 && !bits0[chain[current] - 2]
    ensures hint < 0 ==> forall k | 0 <= k < chain[current] - 2 :: bits0[k]
    ensures hint >= 0 && RoomBehind(bits0, hint + 1, |chain| - current) ==>
              forall j | current <= j < |chain| :: chain[j] == hint + 2 + (j - current)
  {
    var more := chain[current..];
    assert PickedAt(bits0, hint, more, 0);
    assert more[..0] == [];
    NoneTaken(bits0, hint);
    if hint >= 0 && RoomBehind(bits0, hint + 1, |more|) {
      forall j | current <= j < |chain| ensures chain[j] == hint + 2 + (j - current) {
        PickedRun(bits0, hint, more, j - current);
        assert chain[j] == more[j - current];
      }
    }
  }

  /** The form of a chain whose first `n` clusters had the form `was`. */
  ghost predicate KeptForm(was: bool, n: nat, chain: seq<nat>, now: bool) {
    1 <= n <= |chain| && now == (was && forall i | n <= i < |chain| :: chain[i] == chain[i - 1] + 1)
  }

  lemma KeptFormNow(form: bool, chain: seq<nat>)
    requires chain != []
    ensures KeptForm(form, |chain|, chain, form)
  {
  }

  lemma KeptFormStep(was: bool, n: nat, chain: seq<nat>, form: bool, next: nat)
    requires KeptForm(was, n, chain, form)
    ensures KeptForm(was, n, chain + [next], form && next == chain[|chain| - 1] + 1)
  {
    var more := chain + [next];
    assert forall i | 0 <= i < |chain| :: more[i] == chain[i];
    assert more[|chain|] == next;
  }

  /** The search for the next cluster of a chain starts behind its last one. */
  function HintOf(chain: seq<nat>): int { if chain == [] then -2 else chain[|chain| - 1] as int - 1 }

  /** What the loop of grow_file has done so far. */
  ghost predicate Growing<K>(chains0: map<K, seq<nat>>, owner0: map<nat, Use<K>>, bits0: seq<bool>, node: K, was: bool, n: nat, gained: nat,
                             bits: seq<bool>, chains: map<K, seq<nat>>, owner: map<nat, Use<K>>, form: bool)
  {
    && Grown(chains0, owner0, node, gained, chains, owner) && KeptForm(was, n, chains[node], form)
    && Chose(bits0, HintOf(chains0[node]), chains[node], |chains0[node]|, bits)
  }

  lemma IsGrowing<K>(chains0: map<K, seq<nat>>, owner0: map<nat, Use<K>>, bits0: seq<bool>, node: K, gained: nat,
                     bits: seq<bool>, chains: map<K, seq<nat>>, owner: map<nat, Use<K>>, form: bool)
    requires Grown(chains0, owner0, node, gained, chains, owner) && chains[node] != []
    requires Chose(bits0, HintOf(chains0[node]), chains[node], |chains0[node]|, bits)
    ensures Growing(chains0, owner0, bits0, node, form, |chains[node]|, gained, bits, chains, owner, form)
  {
    hide Chose, KeptForm;
    KeptFormNow(form, chains[node]);
  }

  lemma GrowingFacts<K>(chains0: map<K, seq<nat>>, owner0: map<nat, Use<K>>, bits0: seq<bool>, node: K, was: bool, n: nat, gained: nat,
                        bits: seq<bool>, chains: map<K, seq<nat>>, owner: map<nat, Use<K>>, form: bool)
    requires Growing(chains0, owner0, bits0, node, was, n, gained, bits, chains, owner, form)
    ensures Grown(chains0, owner0, node, gained, chains, owner) && node in chains0 && node in chains && KeptForm(was, n, chains[node], form)
    ensures Chose(bits0, HintOf(chains0[node]), chains[node], |chains0[node]|, bits)
  {
    hide Chose, KeptForm;
  }

  lemma GrowingStep<K>(chains0: map<K, seq<nat>>, owner0: map<nat, Use<K>>, bits0: seq<bool>, node: K, was: bool, n: nat, gained: nat,
                       bits1: seq<bool>, chains1: map<K, seq<nat>>, owner1: map<nat, Use<K>>, form1: bool, previous: nat, next: nat,
                       bits: seq<bool>, chains: map<K, seq<nat>>, owner: map<nat, Use<K>>, form: bool)
    requires Growing(chains0, owner0, bits0, node, was, n, gained, bits1, chains1, owner1, form1)
    requires node in chains1 && chains1[node] != [] && previous == chains1[node][|chains1[node]| - 1]
    requires Joined(bits1, chains1, owner1, form1, node, previous, next, bits, chains, owner, form)
    ensures Growing(chains0, owner0, bits0, node, was, n, gained + 1, bits, chains, owner, form)
    ensures node in chains && chains[node] == chains1[node] + [next] && CountFree(bits) == CountFree(bits1) - 1 && (form ==> form1)
  {
    hide Chose, KeptForm, Took, CountFree;
    GrownPrefix(chains0, owner0, node, gained, chains1, owner1);
    GrownStep(chains0, owner0, node, gained, chains1, owner1, next, At(node, |chains1[node]|));
    hide Grown;
    var k := |chains0[node]|;
    if k > 0 { assert chains1[node][k - 1] == chains1[node][..k][k - 1]; }
    ChoseStep(bits0, HintOf(chains0[node]), chains1[node], k, bits1, next, bits);
    KeptFormStep(was, n, chains1[node], form1, next);
  }

  /** The lowest free cluster. */
  ghost predicate Lowest(bits: seq<bool>, c: nat) {
    2 <= c < |bits| + 2 && !bits[c - 2] && forall k | 0 <= k < c - 2 :: bits[k]
  }

  /** What the choice of clusters means for the file. */
  lemma GrewFacts(bits0: seq<bool>, was: seq<nat>, chain: seq<nat>, bits: seq<bool>, before: bool, now: bool)
    requires |was| < |chain| && chain[..|was|] == was && Chose(bits0, HintOf(was), chain, |was|, bits)
    requires KeptForm(was == [] || before, Max(|was|, 1), chain, now)
    ensures Picked(bits0, HintOf(was), chain[|was|..]) && bits == WithTaken(bits0, chain[|was|..])
    ensures was == [] ==> Lowest(bits0, chain[0])
    ensures was != [] && RoomBehind(bits0, was[|was| - 1], |chain| - |was|) ==>
              && (forall j | |was| <= j < |chain| :: chain[j] == was[|was| - 1] + 1 + (j - |was|))
              && now == before
    ensures now == ((was == [] || before) && forall i | Max(|was|, 1) <= i < |chain| :: chain[i] == chain[i - 1] + 1)
  {
    hide Picked, WithTaken;
    ChoseFacts(bits0, HintOf(was), chain, |was|, bits);
    if was != [] && RoomBehind(bits0, was[|was| - 1], |chain| - |was|) {
      var n := |was|;
      assert chain[n - 1] == was[n - 1];
      forall i | n <= i < |chain| ensures chain[i] == chain[i - 1] + 1 {
        if i > n { assert chain[i - 1] == was[n - 1] + 1 + (i - 1 - n); }
      }
    }
  }

  class Volume {
    const store: Store
    const cmap: Bitmap
    ghost const system: set<nat>            // the clusters of the bitmap and the upcase table
    ghost var chains: map<Node, seq<nat>>   // the files and the clusters of each, in order
    ghost var owner: map<nat, Use<Node>>          // the clusters in use

    constructor (store: Store, cmap: Bitmap, ghost system: set<nat>, ghost chains: map<Node, seq<nat>>, ghost owner: map<nat, Use<Node>>)
      ensures this.store == store && this.cmap == cmap && this.system == system && this.chains == chains && this.owner == owner
    {
      this.store, this.cmap, this.system, this.chains, this.owner := store, cmap, system, chains, owner;
    }

    ghost function Limit(): nat { store.clusterCount + 2 }

    /** The chain of `n` is the walk from its start, and its cached position lies on that walk. */
    ghost predicate Chained(n: Node)
      requires n in chains
      reads this`chains, n, store`fat
    {
      var chain := chains[n];
      && InRange(chain, |store.fat|)
      && Linked(store.fat, chain, n.isContiguous)
      && (chain == [] ==> n.start == CLUSTER_FREE && n.fptrIndex == 0)
      && (chain != [] ==> n.start == chain[0])
      && (chain != [] ==> n.fptrIndex < |chain| && n.fptrCluster == chain[n.fptrIndex])
    }

    ghost predicate Base()
      reads this, store, store.dev, cmap, cmap.words
    {
      && store.Valid() && |store.fat| == Limit() && store.clusterCount + 1 <= LAST_DATA_CLUSTER
      && cmap.Valid() && |cmap.bits| == cmap.size == store.clusterCount
      && OwnedBy(chains, owner, Limit()) && Marks(cmap.bits, owner) && Spares(owner, system)
    }

    ghost predicate Terminated(n: Node)
      requires n in chains
      reads this`chains, n, store`fat
    {
      var chain := chains[n];
      chain != [] && !n.isContiguous ==>
        && chain[|chain| - 1] < |store.fat|
        && store.fat[chain[|chain| - 1]] == CLUSTER_END
    }

    /** Between operations a chain is terminated, and as long as the size asks. */
    ghost predicate Settled(n: Node)
      requires n in chains
      reads this`chains, n, store`fat
    {
      && Terminated(n) && store.ClusterSize() > 0
      && |chains[n]| == DivRoundUp(n.size, store.ClusterSize())
      && n.validSize <= n.size
    }

    ghost predicate Rest(node: Node)
      reads this`chains, store`fat, chains.Keys
    {
      forall n | n in chains && n != node :: Chained(n) && Settled(n)
    }

    /** The volume while an operation on `node` is under way. */
    ghost predicate Mid(node: Node)
      reads this, store, store.dev, cmap, cmap.words, chains.Keys
    {
      Base() && node in chains && Chained(node) && Rest(node)
    }

    ghost predicate Valid()
      reads this, store, store.dev, cmap, cmap.words, chains.Keys
    {
      Base() && forall n | n in chains :: Chained(n) && Settled(n)
    }

    /** An operation on a file starts from a valid volume and, once the file is settled, ends in one. */
    lemma Open(node: Node)
      requires node in chains
      ensures Valid() <==> Mid(node) && Settled(node)
    {
    }

    /** A FAT change that spares the entries of the other files leaves them as they were. */
    twostate lemma RestKept(node: Node)
      requires old(OwnedBy(chains, owner, Limit())) && old(Rest(node))
      requires chains == old(chains) && |old(store.fat)| == Limit()
      requires forall n | n in chains && n != node :: unchanged(n)
      requires FatKept(old(store.fat), store.fat, old(owner), node)
      ensures Rest(node)
    {
      forall n | n in chains && n != node
        ensures Chained(n) && Settled(n)
      {
        assert old(Chained(n)) && old(Settled(n));
        assert forall i | 0 <= i < |chains[n]| :: old(owner)[chains[n][i]] == At(n, i);
        LinkedFrame(old(store.fat), store.fat, chains[n], n.isContiguous);
      }
    }

    /** So does a change to `node` alone. */
    twostate lemma RestUnmoved(node: Node)
      requires old(Rest(node)) && store.fat == old(store.fat)
      requires node in chains && chains == old(chains)[node := chains[node]]
      requires forall n | n in chains && n != node :: unchanged(n)
      ensures Rest(node)
    {
      hide Linked, InRange;
      forall n | n in chains && n != node
        ensures Chained(n) && Settled(n)
      {
        assert old(Chained(n)) && old(Settled(n));
      }
    }

    /** No cluster belongs to two places, and the set bits are exactly the clusters in use. */
    lemma Exclusive()
      requires Base()
      ensures forall m, n, i, j | m in chains && n in chains && 0 <= i < |chains[m]| && 0 <= j < |chains[n]| ::
                chains[m][i] == chains[n][j] ==> m == n && i == j
      ensures forall k | 0 <= k < cmap.size && cmap.bits[k] ::
                !owner[k + 2].At? || exists n :: n in chains && k + 2 in chains[n]
      ensures forall n, c | n in chains && c in chains[n] :: store.InHeap(c) && cmap.bits[c - 2]
    {
      forall m, n, i, j | m in chains && n in chains && 0 <= i < |chains[m]| && 0 <= j < |chains[n]|
                          && chains[m][i] == chains[n][j]
        ensures m == n && i == j
      {
        assert owner[chains[m][i]] == At(m, i) && owner[chains[n][j]] == At(n, j);
      }
      forall k | 0 <= k < cmap.size && cmap.bits[k]
        ensures !owner[k + 2].At? || exists n :: n in chains && k + 2 in chains[n]
      {
        if owner[k + 2].At? { assert k + 2 in chains[owner[k + 2].file]; }
      }
    }

    /** exfat_next_cluster */
    method NextCluster(node: Node, cluster: nat) returns (next: nat)
      requires store.Valid() && store.InHeap(cluster)
      ensures next == if node.isContiguous then cluster + 1 else store.fat[cluster]
    {
      if node.isContiguous {
        return cluster + 1;
      }
      next := store.Next(cluster);
    }

    /** exfat_next_cluster from cluster `k` of a file */
    method Follow(node: Node, cluster: nat, ghost k: nat) returns (next: nat)
      requires Mid(node) && k < |chains[node]| && cluster == chains[node][k]
      ensures k + 1 < |chains[node]| ==> next == chains[node][k + 1]
    {
      hide OwnedBy, Marks, Bitmap.Valid, Rest;
      next := NextCluster(node, cluster);
      assert k + 1 < |chains[node]| ==> LinkAt(store.fat, chains[node], node.isContiguous, k);
    }

    /** The loop of exfat_advance_cluster: `count - i` steps along the chain. */
    method Walk(node: Node, index: nat, from: nat, count: nat) returns (cluster: nat)
      requires store.Valid() && node in chains && Chained(node)
      requires index <= count < |chains[node]| && from == chains[node][index]
      ensures cluster == chains[node][count]
    {
      cluster := from;
      for i := index to count
        invariant cluster == chains[node][i]
      {
        assert LinkAt(store.fat, chains[node], node.isContiguous, i);
        cluster := NextCluster(node, cluster);
      }
    }

    /** exfat_advance_cluster: from the cached position unless it is past the target. */
    method AdvanceCluster(node: Node, count: nat) returns (cluster: nat)
      requires Mid(node) && count < |chains[node]|
      modifies node`fptrIndex, node`fptrCluster
      ensures Mid(node)
      ensures cluster == chains[node][count]
      ensures node.fptrIndex == count && node.fptrCluster == cluster
    {
      hide OwnedBy, Store.Valid, Bitmap.Valid, Marks, Linked;
      if node.fptrIndex > count {
        cluster := Walk(node, 0, node.start, count);
      } else {
        cluster := Walk(node, node.fptrIndex, node.fptrCluster, count);
      }
      node.fptrIndex := count;
      node.fptrCluster := cluster;
      RestUnmoved(node);
    }

    /** set_next_cluster */
    method SetNextCluster(contiguous: bool, current: nat, next: u32)
      requires store.Valid() && store.InHeap(current)
      modifies store`fat, store.dev
      ensures store.Valid() && store.heap == old(store.heap)
      ensures store.fat == if contiguous then old(store.fat) else old(store.fat)[current := next]
    {
      if contiguous {
        return;
      }
      store.SetNext(current, next);
    }

    /** allocate_cluster: the cluster is in use from now on, though in no file yet; CLUSTER_END when none is free. */
    method AllocateCluster(hint: u32, ghost node: Node) returns (cluster: u32)
      requires Mid(node)
      modifies this`owner, cmap`bits, cmap.words
      ensures Mid(node)
      ensures cluster == CLUSTER_END <==> CountFree(old(cmap.bits)) == 0
      ensures cluster == CLUSTER_END ==> cmap.bits == old(cmap.bits) && owner == old(owner)
      ensures cluster != CLUSTER_END ==>
                && store.InHeap(cluster) && cluster !in old(owner)
                && owner == old(owner)[cluster := Reserved]
                && CountFree(cmap.bits) == CountFree(old(cmap.bits)) - 1
                && Took(old(cmap.bits), hint, cluster, cmap.bits)
    {
      assert |cmap.bits| == cmap.size && store.clusterCount + 1 <= LAST_DATA_CLUSTER;
      hide OwnedBy, Marks, Store.Valid, Bitmap.Valid, CountFree, Rest, Chained, Spares, FirstFree, Took;
      var h := (hint + 0x1_0000_0000 - FIRST_DATA_CLUSTER) % 0x1_0000_0000;
      var found, c := cmap.FindFree(h);
      if !found {
        return CLUSTER_END;
      }
      HintWraps(old(cmap.bits), hint, h, c, cmap.bits);
      OwnedReserve(chains, owner, Limit(), old(cmap.bits), c);
      SparesTaken(owner, system, c + FIRST_DATA_CLUSTER);
      cluster := c + FIRST_DATA_CLUSTER;
      owner := owner[cluster := Reserved];
    }

    /** free_cluster */
    method FreeCluster(cluster: nat)
      requires Base() && cluster in owner && owner[cluster] == Reserved
      modifies this`owner, cmap`bits, cmap.words
      ensures Base() && owner == old(owner) - {cluster}
      ensures CountFree(cmap.bits) == CountFree(old(cmap.bits)) + 1
    {
      assert |cmap.bits| == cmap.size && store.InHeap(cluster);
      hide OwnedBy, Marks, Store.Valid;
      OwnedFree(chains, owner, Limit(), cmap.bits, cluster - 2);
      cmap.Clear(cluster - FIRST_DATA_CLUSTER);
      owner := owner - {cluster};
      assert cmap.bits[cluster - 2 := true] == old(cmap.bits);
      CountFreeSet(cmap.bits, cluster - 2);
    }

    /** make_noncontiguous: writes out the links of the run first..last. */
    method MakeNoncontiguous(first: nat, last: nat)
      requires store.Valid() && store.InHeap(first) && store.InHeap(last) && first <= last
      modifies store`fat, store.dev
      ensures store.Valid() && store.heap == old(store.heap)
      ensures forall c | 0 <= c < |store.fat| ::
                store.fat[c] == if first <= c < last then c + 1 else old(store.fat)[c]
    {
      var c := first;
      while c < last
        invariant first <= c <= last
        invariant store.Valid() && store.heap == old(store.heap)
        invariant forall d | 0 <= d < |store.fat| ::
                    store.fat[d] == if first <= d < c then d + 1 else old(store.fat)[d]
      {
        SetNextCluster(false, c, c + 1);
        c := c + 1;
      }
    }

    /** grow_file gives up the contiguous form when the next cluster does not continue the run. */
    method FormFor(node: Node, previous: nat, next: u32) returns (contiguous: bool)
      requires Mid(node) && chains[node] != []
      requires previous == chains[node][|chains[node]| - 1]
      modifies store`fat, store.dev
      ensures Base() && Rest(node) && store.heap == old(store.heap)
      ensures contiguous == (node.isContiguous && next == previous + 1) && (contiguous ==> store.fat == old(store.fat))
      ensures InRange(chains[node], |store.fat|) && Linked(store.fat, chains[node], contiguous)
    {
      contiguous := node.isContiguous;
      if next != previous + 1 && contiguous {
        RunNumbers(store.fat, chains[node], |chains[node]| - 1);
        MakeNoncontiguous(node.start, previous);
        RunKept(old(store.fat), store.fat, chains, owner, node);
        RunAsChain(old(store.fat), store.fat, chains[node]);
        RestKept(node);
        contiguous := false;
      }
    }

    /** set_next_cluster from a cluster of `node`: its links up to there and the other files are kept. */
    method SetOwnLink(node: Node, contiguous: bool, current: nat, next: u32)
      requires Base() && Rest(node) && current in owner
      requires owner[current].At? ==> owner[current].file == node
      modifies store`fat, store.dev
      ensures Base() && Rest(node) && store.heap == old(store.heap)
      ensures store.fat == if contiguous then old(store.fat) else old(store.fat)[current := next]
    {
      SetNextCluster(contiguous, current, next);
      RestKept(node);
    }

    /** One round of the loop of grow_file: an allocated cluster becomes the last of the file. */
    method LinkNext(node: Node, previous: nat, next: u32)
      requires Mid(node) && chains[node] != []
      requires previous == chains[node][|chains[node]| - 1]
      requires next in owner && owner[next] == Reserved
      modifies this`owner, this`chains, store`fat, store.dev, node`isContiguous, node`isDirty
      ensures Mid(node) && store.heap == old(store.heap)
      ensures chains == old(chains)[node := old(chains)[node] + [next]]
      ensures owner == old(owner)[next := At(node, |old(chains)[node]|)]
      ensures node.isContiguous == (old(node.isContiguous) && next == previous + 1)
      ensures node.isContiguous ==> store.fat == old(store.fat)
      ensures node.isDirty == (old(node.isDirty) || node.isContiguous != old(node.isContiguous))
    {
      var contiguous := FormFor(node, previous, next);
      ghost var fat := store.fat;
      assert owner[previous] == At(node, |chains[node]| - 1);
      SetOwnLink(node, contiguous, previous, next);
      LinkedFrame(fat, store.fat, chains[node], contiguous);
      LinkedAppend(store.fat, chains[node], contiguous, next);
      Append(node, next, contiguous);
    }

    /** The bookkeeping of that round. */
    method Append(node: Node, next: u32, contiguous: bool)
      requires Base() && node in chains && Rest(node) && chains[node] != []
      requires next in owner && owner[next] == Reserved && InRange(chains[node] + [next], |store.fat|)
      requires Linked(store.fat, chains[node] + [next], contiguous)
      requires node.start == chains[node][0]
      requires node.fptrIndex < |chains[node]| && node.fptrCluster == chains[node][node.fptrIndex]
      modifies this`owner, this`chains, node`isContiguous, node`isDirty
      ensures Mid(node)
      ensures chains == old(chains)[node := old(chains)[node] + [next]]
      ensures owner == old(owner)[next := At(node, |old(chains)[node]|)]
      ensures node.isContiguous == contiguous
      ensures node.isDirty == (old(node.isDirty) || contiguous != old(node.isContiguous))
    {
      hide OwnedBy, Store.Valid, Bitmap.Valid, Rest;
      OwnedAppend(chains, owner, Limit(), node, next);
      owner := owner[next := At(node, |chains[node]|)];
      chains := chains[node := chains[node] + [next]];
      if contiguous != node.isContiguous {
        node.isContiguous := contiguous;
        node.isDirty := true;
      }
      RestUnmoved(node);
    }

    /** A FAT change at a reserved cluster leaves every file as it was. */
    twostate lemma OwnKept(node: Node)
      requires old(OwnedBy(chains, owner, Limit())) && node in old(chains) && old(Chained(node)) && old(Terminated(node))
      requires chains == old(chains) && |old(store.fat)| == |store.fat| == Limit() && unchanged(node)
      requires forall c | c in old(owner) && old(owner)[c].At? :: store.fat[c] == old(store.fat)[c]
      ensures Chained(node) && Terminated(node)
    {
      assert forall i | 0 <= i < |chains[node]| :: old(owner)[chains[node][i]] == At(node, i);
      LinkedFrame(old(store.fat), store.fat, chains[node], node.isContiguous);
    }

    /** One round of the last loop of shrink_file. */
    method FreeOne(node: Node, previous: nat)
      requires Mid(node) && Terminated(node)
      requires previous in owner && owner[previous] == Reserved
      modifies this`owner, store`fat, store.dev, cmap`bits, cmap.words
      ensures Mid(node) && Terminated(node) && store.heap == old(store.heap)
      ensures owner == old(owner) - {previous}
      ensures CountFree(cmap.bits) == CountFree(old(cmap.bits)) + 1
      ensures store.fat == if node.isContiguous then old(store.fat) else old(store.fat)[previous := CLUSTER_FREE]
    {
      SetOwnLink(node, node.isContiguous, previous, CLUSTER_FREE);
      OwnKept(node);
      FreeCluster(previous);
    }

    /** Clusters cut off a file and not freed yet: still linked, and used by no file. */
    ghost predicate Cut(rest: seq<nat>, contiguous: bool)
      reads this`owner, store`fat
    {
      && InRange(rest, |store.fat|) && Distinct(rest) && Linked(store.fat, rest, contiguous)
      && forall i | 0 <= i < |rest| :: rest[i] in owner && owner[rest[i]] == Reserved
    }

    /** One round of the last loop of shrink_file, seen from the clusters still to free. */
    method FreeHead(node: Node, previous: nat, ghost tail: seq<nat>) returns (next: nat)
      requires Mid(node) && Terminated(node)
      requires tail != [] && previous == tail[0] && Cut(tail, node.isContiguous)
      modifies this`owner, store`fat, store.dev, cmap`bits, cmap.words
      ensures Mid(node) && Terminated(node) && store.heap == old(store.heap)
      ensures owner - Elements(tail[1..]) == old(owner) - Elements(tail)
      ensures CountFree(cmap.bits) == CountFree(old(cmap.bits)) + 1
      ensures Cut(tail[1..], node.isContiguous)
      ensures |tail| > 1 ==> next == tail[1]
    {
      next := NextCluster(node, previous);
      CutHead(store.fat, tail, node.isContiguous, CLUSTER_FREE);
      Uncovered(owner, tail);
      FreeOne(node, previous);
    }

    /** The last loop of shrink_file: frees the clusters cut off. */
    method FreeRest(node: Node, first: nat, difference: nat, ghost rest: seq<nat>)
      requires Mid(node) && Terminated(node)
      requires |rest| == difference > 0 && first == rest[0]
      requires Cut(rest, node.isContiguous)
      modifies this`owner, store`fat, store.dev, cmap`bits, cmap.words
      ensures Mid(node) && Terminated(node) && store.heap == old(store.heap)
      ensures owner == old(owner) - Elements(rest)
      ensures CountFree(cmap.bits) == CountFree(old(cmap.bits)) + difference
    {
      var previous := first;
      var left := difference;
      ghost var tail := rest;
      while left > 0
        invariant left == |tail| <= difference
        invariant Mid(node) && Terminated(node) && store.heap == old(store.heap)
        invariant Cut(tail, node.isContiguous)
        invariant owner - Elements(tail) == old(owner) - Elements(rest)
        invariant CountFree(cmap.bits) == CountFree(old(cmap.bits)) + (difference - left)
        invariant left > 0 ==> previous == tail[0]
      {
        previous := FreeHead(node, previous, tail);
        tail := tail[1..];
        left := left - 1;
      }
    }

    /** The cut of shrink_file after the first `k` clusters, on the FAT. */
    method CutLinks(node: Node, k: nat) returns (previous: nat)
      requires Mid(node) && 0 < k < |chains[node]|
      modifies store`fat, store.dev, node`fptrIndex, node`fptrCluster
      ensures Base() && Rest(node) && store.heap == old(store.heap)
      ensures previous == chains[node][k]
      ensures InRange(chains[node], |store.fat|)
      ensures Linked(store.fat, chains[node][..k], node.isContiguous)
      ensures Linked(store.fat, chains[node][k..], node.isContiguous)
      ensures !node.isContiguous ==> store.fat[chains[node][k - 1]] == CLUSTER_END
    {
      var last := AdvanceCluster(node, k - 1);
      previous := NextCluster(node, last);
      OwnedChain(chains, owner, Limit(), node);
      CutLinked(store.fat, chains[node], node.isContiguous, k, CLUSTER_END);
      assert owner[last] == At(node, k - 1);
      SetOwnLink(node, node.isContiguous, last, CLUSTER_END);
    }

    /** The cut of shrink_file after the first `k` clusters; `previous` is the first cluster cut off. */
    method Crop(node: Node, k: nat) returns (previous: nat)
      requires Mid(node) && k < |chains[node]|
      modifies this`owner, this`chains, store`fat, store.dev
      modifies node`start, node`fptrIndex, node`fptrCluster, node`isDirty
      ensures Mid(node) && Terminated(node) && store.heap == old(store.heap)
      ensures chains == old(chains)[node := old(chains)[node][..k]]
      ensures owner == Released(old(owner), node, k)
      ensures previous == old(chains)[node][k] && node.fptrIndex == 0
      ensures LinkedFrom(store.fat, old(chains)[node], k, node.isContiguous)
      ensures node.isDirty == (old(node.isDirty) || k == 0)
    {
      if k > 0 {
        previous := CutLinks(node, k);
      } else {
        previous := node.start;
        node.start := CLUSTER_FREE;
        node.isDirty := true;
        assert chains[node][0..] == chains[node];
      }
      CutOff(node, k);
    }

    /** The bookkeeping of that cut. */
    method CutOff(node: Node, k: nat)
      requires Base() && node in chains && Rest(node) && k < |chains[node]|
      requires InRange(chains[node], |store.fat|) && Linked(store.fat, chains[node][..k], node.isContiguous)
      requires k > 0 && !node.isContiguous ==> store.fat[chains[node][k - 1]] == CLUSTER_END
      requires node.start == if k == 0 then CLUSTER_FREE else chains[node][0]
      modifies this`owner, this`chains, node`fptrIndex, node`fptrCluster
      ensures Mid(node) && Terminated(node) && node.fptrIndex == 0
      ensures chains == old(chains)[node := old(chains)[node][..k]]
      ensures owner == Released(old(owner), node, k)
    {
      hide OwnedBy, Store.Valid, Bitmap.Valid, Rest;
      OwnedCut(chains, owner, Limit(), node, k);
      owner := Released(owner, node, k);
      chains := chains[node := chains[node][..k]];
      node.fptrIndex := 0;
      node.fptrCluster := node.start;
      RestUnmoved(node);
    }

    /** shrink_file */
    method ShrinkFile(node: Node, current: nat, difference: nat)
      requires Mid(node) && |chains[node]| == current && 0 < difference <= current
      modifies this`owner, this`chains, store`fat, store.dev, cmap`bits, cmap.words
      modifies node`start, node`fptrIndex, node`fptrCluster, node`isDirty
      ensures Mid(node) && Terminated(node) && store.heap == old(store.heap)
      ensures chains == old(chains)[node := old(chains)[node][..current - difference]]
      ensures owner == old(owner) - Elements(old(chains)[node][current - difference..])
      ensures CountFree(cmap.bits) == CountFree(old(cmap.bits)) + difference
      ensures node.fptrIndex == 0
      ensures node.isDirty == (old(node.isDirty) || current == difference)
    {
      hide OwnedBy, Store.Valid, Bitmap.Valid, Rest, CountFree;
      ghost var k := current - difference;
      ghost var chain := chains[node];
      var previous := Crop(node, current - difference);
      CutReserved(old(chains), old(owner), Limit(), node, k);
      FreeRest(node, previous, difference, chain[k..]);
    }

    /** grow_file gives an empty file its first cluster. */
    method AdoptFirst(node: Node, first: u32)
      requires Mid(node) && chains[node] == []
      requires first in owner && owner[first] == Reserved
      modifies this`owner, this`chains, node`start, node`fptrCluster, node`isContiguous
      ensures Mid(node)
      ensures chains == old(chains)[node := [first]] && owner == old(owner)[first := At(node, 0)] && node.isContiguous
    {
      hide OwnedBy, Marks, Store.Valid, Bitmap.Valid, Rest, Linked, InRange;
      MarksKept(chains, owner, Limit(), cmap.bits, first, At(node, 0));
      LinkedSingle(store.fat, first, true);
      OwnedAppend(chains, owner, Limit(), node, first);
      assert chains[node] + [first] == [first];
      owner := owner[first := At(node, 0)];
      chains := chains[node := [first]];
      node.start := first;
      node.fptrCluster := first;
      node.isContiguous := true;
      RestUnmoved(node);
    }

    /** The end mark grow_file writes last. */
    method Terminate(node: Node, previous: nat)
      requires Mid(node) && chains[node] != [] && previous == chains[node][|chains[node]| - 1]
      modifies store`fat, store.dev
      ensures Mid(node) && Terminated(node) && store.heap == old(store.heap)
      ensures node.isContiguous ==> store.fat == old(store.fat)
    {
      OwnedChain(chains, owner, Limit(), node);
      assert previous in owner && owner[previous] == At(node, |chains[node]| - 1);
      ghost var chain, n := chains[node], |chains[node]| - 1;
      assert |store.fat| == Limit() && forall i | 0 <= i < n :: chain[i] != chain[n];
      assert InRange(chain, |store.fat|) && Linked(store.fat, chain, node.isContiguous);
      hide OwnedBy, Base, Rest, Distinct, Linked;
      SetOwnLink(node, node.isContiguous, previous, CLUSTER_END);
      LinkedFrame(old(store.fat), store.fat, chain, node.isContiguous);
    }

    lemma LastInHeap(node: Node)
      requires Mid(node) && chains[node] != []
      ensures store.InHeap(chains[node][|chains[node]| - 1]) && store.clusterCount + 1 <= LAST_DATA_CLUSTER
    {
      hide Marks, Spares, Store.Valid, Bitmap.Valid, Rest;
    }

    /** One more cluster, or none left. */
    method GrowOne(node: Node, previous: nat) returns (next: u32)
      requires Mid(node) && chains[node] != [] && previous == chains[node][|chains[node]| - 1]
      modifies this`owner, this`chains, store`fat, store.dev, cmap`bits, cmap.words
      modifies node`isContiguous, node`isDirty
      ensures Mid(node) && store.heap == old(store.heap)
      ensures next == CLUSTER_END <==> CountFree(old(cmap.bits)) == 0
      ensures next == CLUSTER_END ==>
                && chains == old(chains) && owner == old(owner) && cmap.bits == old(cmap.bits)
                && store.fat == old(store.fat) && node.isContiguous == old(node.isContiguous)
      ensures next != CLUSTER_END ==>
                && Joined(old(cmap.bits), old(chains), old(owner), old(node.isContiguous), node, previous, next,
                          cmap.bits, chains, owner, node.isContiguous)
                && (node.isContiguous ==> store.fat == old(store.fat))
      ensures node.isDirty == (old(node.isDirty) || node.isContiguous != old(node.isContiguous))
    {
      LastInHeap(node);
      hide Mid, Base, Chained, CountFree, Rest, Took, Joined, Reserves;
      next := PickNext(node, previous);
      if next != CLUSTER_END {
        JoinNext(node, previous, next, old(cmap.bits), old(owner));
      }
    }

    /** The linking of that round. */
    method JoinNext(node: Node, previous: nat, next: u32, ghost bits0: seq<bool>, ghost owner0: map<nat, Use<Node>>)
      requires Mid(node) && chains[node] != [] && previous == chains[node][|chains[node]| - 1]
      requires Reserves(bits0, owner0, previous, next, cmap.bits, owner)
      modifies this`owner, this`chains, store`fat, store.dev, node`isContiguous, node`isDirty
      ensures Mid(node) && store.heap == old(store.heap)
      ensures Joined(bits0, old(chains), owner0, old(node.isContiguous), node, previous, next, cmap.bits, chains, owner, node.isContiguous)
      ensures node.isContiguous ==> store.fat == old(store.fat)
      ensures node.isDirty == (old(node.isDirty) || node.isContiguous != old(node.isContiguous))
    {
      hide Base, Chained, CountFree, Rest, Took, Joined, Reserves;
      ghost var uses := owner;
      ReservesNext(bits0, owner0, previous, next, cmap.bits, uses);
      LinkNext(node, previous, next);
      IsJoined(bits0, old(chains), owner0, old(node.isContiguous), node, previous, next, cmap.bits, uses, chains, owner, node.isContiguous);
    }

    /** The allocation of that round. */
    method PickNext(ghost node: Node, previous: nat) returns (next: u32)
      requires Mid(node) && previous + 1 < 0x1_0000_0000
      modifies this`owner, cmap`bits, cmap.words
      ensures Mid(node)
      ensures next == CLUSTER_END <==> CountFree(old(cmap.bits)) == 0
      ensures next == CLUSTER_END ==> cmap.bits == old(cmap.bits) && owner == old(owner)
      ensures next != CLUSTER_END ==> Reserves(old(cmap.bits), old(owner), previous, next, cmap.bits, owner)
    {
      hide Mid, CountFree, Took;
      next := AllocateCluster(previous + 1, node);
    }

    /** Leaves the whole allocation as it was before a grow that ran out of space. */
    method Rollback(node: Node, current: nat, gained: nat,
                    ghost chains0: map<Node, seq<nat>>, ghost owner0: map<nat, Use<Node>>)
      requires Mid(node) && Grown(chains0, owner0, node, gained, chains, owner)
      requires |chains0[node]| == current && gained > 0
      modifies this`owner, this`chains, store`fat, store.dev, cmap`bits, cmap.words
      modifies node`start, node`fptrIndex, node`fptrCluster, node`isDirty
      ensures Mid(node) && Terminated(node) && store.heap == old(store.heap)
      ensures chains == chains0 && owner == owner0
      ensures node.isDirty == (old(node.isDirty) || current == 0)
    {
      hide Base, Rest, Chained, Linked, CountFree;
      ShrinkFile(node, current + gained, gained);
    }

    /** The loop of grow_file, with the rollback when the space runs out. */
    method GrowLoop(node: Node, current: nat, difference: nat, first: nat, have: nat,
                    ghost chains0: map<Node, seq<nat>>, ghost owner0: map<nat, Use<Node>>, ghost bits0: seq<bool>) returns (rc: int)
      requires Mid(node) && chains[node] != [] && first == chains[node][|chains[node]| - 1]
      requires Grown(chains0, owner0, node, have, chains, owner) && |chains0[node]| == current
      requires have <= difference && (have == 0 ==> Terminated(node))
      requires Chose(bits0, HintOf(chains0[node]), chains[node], current, cmap.bits)
      modifies this`owner, this`chains, store`fat, store.dev, cmap`bits, cmap.words
      modifies node`start, node`fptrIndex, node`fptrCluster, node`isContiguous, node`isDirty
      ensures Mid(node) && Terminated(node) && store.heap == old(store.heap)
      ensures rc == if difference - have <= CountFree(old(cmap.bits)) then 0 else -ENOSPC
      ensures rc == 0 ==>
                && Grown(chains0, owner0, node, difference, chains, owner)
                && CountFree(cmap.bits) == CountFree(old(cmap.bits)) - (difference - have)
                && Chose(bits0, HintOf(chains0[node]), chains[node], current, cmap.bits)
                && KeptForm(old(node.isContiguous), |old(chains)[node]|, chains[node], node.isContiguous)
                && (node.isContiguous ==> store.fat == old(store.fat) && node.isDirty == old(node.isDirty))
      ensures rc != 0 ==> chains == chains0 && owner == owner0
      ensures old(node.isDirty) ==> node.isDirty
      ensures rc != 0 ==> node.isDirty || (node.isContiguous == old(node.isContiguous) && current > 0)
    {
      hide Base, Rest, Chained, Linked, CountFree, Chose, KeptForm, Joined, Growing, Grown;
      var previous, gained := first, have;
      ghost var was, n, chains1 := node.isContiguous, |chains[node]|, chains;
      IsGrowing(chains0, owner0, bits0, node, have, cmap.bits, chains, owner, was);
      while gained < difference
        invariant have <= gained <= difference && node in chains
        invariant Mid(node) && store.heap == old(store.heap)
        invariant chains[node] != [] && previous == chains[node][|chains[node]| - 1]
        invariant Growing(chains0, owner0, bits0, node, was, n, gained, cmap.bits, chains, owner, node.isContiguous)
        invariant gained == 0 ==> Terminated(node)
        invariant CountFree(cmap.bits) == CountFree(old(cmap.bits)) - (gained - have)
        invariant old(node.isDirty) ==> node.isDirty
        invariant node.isContiguous == old(node.isContiguous) || node.isDirty
        invariant node.isContiguous ==> store.fat == old(store.fat) && node.isDirty == old(node.isDirty)
      {
        ghost var before, uses, bits, form := chains, owner, cmap.bits, node.isContiguous;
        GrowingFacts(chains0, owner0, bits0, node, was, n, gained, bits, before, uses, form);
        var next := GrowOne(node, previous);
        if next == CLUSTER_END {
          if gained != 0 {
            Rollback(node, current, gained, chains0, owner0);
          } else {
            GrownNothing(chains0, owner0, node, chains, owner);
          }
          return -ENOSPC;
        }
        GrowingStep(chains0, owner0, bits0, node, was, n, gained, bits, before, uses, form, previous, next, cmap.bits, chains, owner, node.isContiguous);
        previous := next;
        gained := gained + 1;
      }
      GrowingFacts(chains0, owner0, bits0, node, was, n, gained, cmap.bits, chains, owner, node.isContiguous);
      Terminate(node, previous);
      return 0;
    }

    /** The start of grow_file: the last cluster of the file, or a first one for an empty file. */
    method GrowStart(node: Node, current: nat) returns (previous: nat, gained: nat)
      requires Mid(node) && Terminated(node) && |chains[node]| == current
      modifies this`owner, this`chains, cmap`bits, cmap.words
      modifies node`start, node`fptrIndex, node`fptrCluster, node`isContiguous
      ensures Mid(node)
      ensures previous == CLUSTER_END <==> current == 0 && CountFree(old(cmap.bits)) == 0
      ensures previous == CLUSTER_END ==>
                && chains == old(chains) && owner == old(owner) && cmap.bits == old(cmap.bits)
                && node.start == old(node.start) && node.isContiguous == old(node.isContiguous) && Terminated(node)
      ensures previous != CLUSTER_END ==>
                && chains[node] != [] && previous == chains[node][|chains[node]| - 1]
                && Grown(old(chains), old(owner), node, gained, chains, owner)
                && CountFree(cmap.bits) == CountFree(old(cmap.bits)) - gained
      ensures gained == if current == 0 then 1 else 0
      ensures current > 0 ==> Terminated(node) && node.isContiguous == old(node.isContiguous) && cmap.bits == old(cmap.bits) && chains == old(chains)
      ensures current == 0 && previous != CLUSTER_END ==>
                && node.isContiguous && chains[node] == [previous] && Took(old(cmap.bits), 0, previous, cmap.bits)
    {
      hide OwnedBy, Marks, Store.Valid, Bitmap.Valid, Linked, Rest, CountFree, Grown, Took;
      if node.start != CLUSTER_FREE {
        previous := AdvanceCluster(node, current - 1);
        GrownNothing(chains, owner, node, chains, owner);
        return previous, 0;
      }
      previous := AllocateCluster(0, node);
      if previous != CLUSTER_END {
        GrownNothing(old(chains), old(owner), node, old(chains), old(owner));
        GrownStep(old(chains), old(owner), node, 0, old(chains), old(owner), previous, At(node, 0));
        assert chains[node] + [previous] == [previous];
        AdoptFirst(node, previous);
        assert owner == old(owner)[previous := At(node, 0)];
      }
      return previous, 1;
    }

    /** The body of grow_file. */
    method GrowBy(node: Node, current: nat, difference: nat) returns (rc: int)
      requires Mid(node) && Terminated(node) && |chains[node]| == current && difference > 0
      modifies this`owner, this`chains, store`fat, store.dev, cmap`bits, cmap.words
      modifies node`start, node`fptrIndex, node`fptrCluster, node`isContiguous, node`isDirty
      ensures Mid(node) && Terminated(node) && store.heap == old(store.heap)
      ensures rc == if difference <= CountFree(old(cmap.bits)) then 0 else -ENOSPC
      ensures rc == 0 ==>
                && Grown(old(chains), old(owner), node, difference, chains, owner)
                && CountFree(cmap.bits) == CountFree(old(cmap.bits)) - difference
                && Chose(old(cmap.bits), HintOf(old(chains)[node]), chains[node], current, cmap.bits)
                && KeptForm(current == 0 || old(node.isContiguous), Max(current, 1), chains[node], node.isContiguous)
                && (node.isContiguous ==> store.fat == old(store.fat) && node.isDirty == old(node.isDirty))
      ensures rc != 0 ==>
                && chains == old(chains) && owner == old(owner) && cmap.bits == old(cmap.bits)
                && node.start == old(node.start)
      ensures old(node.isDirty) ==> node.isDirty
      ensures rc != 0 ==> node.isDirty || node.isContiguous == old(node.isContiguous)
    {
      hide OwnedBy, Store.Valid, Bitmap.Valid, Linked, Rest, CountFree, Grown, Chose, KeptForm, Took;
      var previous, gained := GrowStart(node, current);
      if previous == CLUSTER_END {
        return -ENOSPC;
      }
      ChoseStart(old(cmap.bits), HintOf(old(chains)[node]), chains[node], current, cmap.bits);
      rc := GrowLoop(node, current, difference, previous, gained, old(chains), old(owner), old(cmap.bits));
      if rc != 0 {
        MarksUnique(cmap.bits, old(cmap.bits), owner);
      }
    }

    /** grow_file: succeeds exactly when enough clusters are free, and changes
      * nothing otherwise. Each new cluster is the first free one behind the one
      * before: an empty file starts at the lowest free one, a file with room
      * behind it grows into that room. The form is kept exactly while the
      * clusters follow one another, and then without any link written. */
    method GrowFile(node: Node, current: nat, difference: nat) returns (rc: int)
      requires Mid(node) && Terminated(node) && |chains[node]| == current && difference > 0
      modifies this`owner, this`chains, store`fat, store.dev, cmap`bits, cmap.words
      modifies node`start, node`fptrIndex, node`fptrCluster, node`isContiguous, node`isDirty
      ensures Mid(node) && Terminated(node) && store.heap == old(store.heap)
      ensures rc == if difference <= CountFree(old(cmap.bits)) then 0 else -ENOSPC
      ensures rc == 0 ==>
                && Grown(old(chains), old(owner), node, difference, chains, owner)
                && CountFree(cmap.bits) == CountFree(old(cmap.bits)) - difference
      ensures rc != 0 ==>
                && chains == old(chains) && owner == old(owner) && cmap.bits == old(cmap.bits)
                && node.start == old(node.start)
      ensures old(node.isDirty) ==> node.isDirty
      ensures rc != 0 ==> node.isDirty || node.isContiguous == old(node.isContiguous)
      ensures rc == 0 ==>
                && current < |chains[node]| && Picked(old(cmap.bits), HintOf(old(chains)[node]), chains[node][current..])
                && cmap.bits == WithTaken(old(cmap.bits), chains[node][current..])
      ensures rc == 0 && current == 0 ==> Lowest(old(cmap.bits), chains[node][0])
      ensures rc == 0 && current > 0 && RoomBehind(old(cmap.bits), old(chains)[node][current - 1], difference) ==>
                && (forall j | current <= j < |chains[node]| :: chains[node][j] == old(chains)[node][current - 1] + 1 + (j - current))
                && node.isContiguous == old(node.isContiguous)
      ensures rc == 0 ==>
                node.isContiguous == ((current == 0 || old(node.isContiguous))
                                      && forall i | Max(current, 1) <= i < |chains[node]| :: chains[node][i] == chains[node][i - 1] + 1)
      ensures rc == 0 && node.isContiguous ==> store.fat == old(store.fat) && node.isDirty == old(node.isDirty)
    {
      hide Base, Rest, Chained, Linked, CountFree, Chose, KeptForm, Terminated, Lowest, RoomBehind, Picked, WithTaken;
      rc := GrowBy(node, current, difference);
      if rc == 0 {
        GrownPrefix(old(chains), old(owner), node, difference, chains, owner);
        hide Grown;
        GrewFacts(old(cmap.bits), old(chains)[node], chains[node], cmap.bits, old(node.isContiguous), node.isContiguous);
      }
    }

    /** The stored bytes of every file. */
    ghost function Contents(): (m: map<Node, seq<byte>>)
      reads this`chains, store`heap
      ensures m.Keys == chains.Keys
    {
      Stored(store.heap, chains, store.ClusterSize())
    }

    /** The flat file that `n` stands for. */
    ghost function Flat(n: Node): File
      requires n in chains
      reads this`chains, store`heap, n
    {
      File(View(Contents()[n], n.validSize, n.size), n.validSize)
    }

    lemma HeapShape(node: Node, k: nat)
      requires Base() && node in chains && k < |chains[node]|
      ensures HeapOk(store.heap, store.ClusterSize()) && |store.heap| == store.clusterCount
      ensures store.InHeap(chains[node][k])
    {
    }

    /** exfat_pwrite into cluster `k` of a file, at byte `pos` of its stored bytes. */
    method WriteAt(node: Node, cluster: nat, at: nat, data: seq<byte>, ghost k: nat, ghost pos: nat)
      requires Mid(node) && k < |chains[node]| && cluster == chains[node][k]
      requires at + |data| <= store.ClusterSize() && Place(pos, k, at, store.ClusterSize())
      modifies store`heap, store.dev
      ensures Mid(node)
      ensures pos + |data| <= |old(Contents())[node]|
      ensures Contents() == old(Contents())[node := Splice(old(Contents())[node], pos, data)]
    {
      hide Store.Valid, Store.ClusterSize, OwnedBy, Marks, Bitmap.Valid, Rest, Chained, Raw, Stored, Place;
      HeapShape(node, k);
      StoredWrite(store.heap, chains, owner, store.ClusterSize(), node, k, at, data, pos);
      store.Write(cluster, at, data);
    }

    /** exfat_pread from cluster `k` of a file, at byte `pos` of its stored bytes. */
    method ReadAt(node: Node, cluster: nat, at: nat, n: nat, ghost k: nat, ghost pos: nat) returns (data: seq<byte>)
      requires Mid(node) && k < |chains[node]| && cluster == chains[node][k]
      requires at + n <= store.ClusterSize() && Place(pos, k, at, store.ClusterSize())
      ensures pos + n <= |Contents()[node]| && data == Contents()[node][pos..pos + n]
    {
      hide Store.Valid, Store.ClusterSize, OwnedBy, Marks, Bitmap.Valid, Rest, Chained, Raw, Stored, Place;
      HeapShape(node, k);
      data := store.Read(cluster, at, n);
      StoredRead(store.heap, chains, owner, store.ClusterSize(), node, k, at, n, pos);
    }
  }
}
