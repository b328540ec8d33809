/** The geometry that fat32_format and fat32_init derive, in their 32-bit
  * arithmetic, and a formatted FAT32 volume (fs/fat32/fat32.c). */
module Fat32Format {
  import opened Bytes
  import opened Chains
  import opened ClusterBitmap
  import opened Fat32Entries
  import opened Fat32Volume
  import opened Fat32Files
  import opened Fat32Tree
  import opened Ownership

  /** A difference in 32 bits. */
  function Minus(a: u32, b: nat): u32 { (a - b) % 0x1_0000_0000 }

  /** The sector count fat32_format keeps of its 64-bit argument. */
  function Sectors(total: nat): u32 { total % 0x1_0000_0000 }

  /** fat_size, in sectors. */
  function FatSize(s: u32): u32 { (Minus(s, 32) as int + 1025) % 0x1_0000_0000 / 1026 }

  /** total_clusters, as fat32_format and fat32_init both derive it. */
  function TotalClusters(s: u32): u32 { Minus(s, 32 + 2 * FatSize(s)) / 8 }

  /** The sector counts for which nothing wraps. */
  predicate Regular(s: u32) { 32 <= s < 0xffff_fc1f && s != 33 }

  lemma FatSizeRegular(s: u32)
    requires 32 <= s < 0xffff_fc1f
    ensures FatSize(s) == DivRoundUp(s - 32, 1026)
  {
  }

  lemma TotalRegular(s: u32)
    requires Regular(s)
    ensures var f, d := FatSize(s) as int, s - 32;
            && d <= 1026 * f && 2 * f <= d && TotalClusters(s) == (d - 2 * f) / 8
  {
    FatSizeRegular(s);
    DivRoundUpBounds(s - 32, 1026);
  }

  lemma Irregular(s: u32)
    requires !Regular(s)
    ensures FatSize(s) <= 1 && TotalClusters(s) >= 0x1000_0000
  {
    if s == 33 {
      assert FatSize(33) == 1;
    } else {
      assert FatSize(s) == 0;
    }
  }

  /** The clusters number at most 128 for each FAT sector if and only if the
    * sector count, cut to 32 bits, is at least 32, is not 33 and lies below
    * 2^32 - 993. */
  lemma FatCapacity(total: nat)
    ensures TotalClusters(Sectors(total)) <= 128 * FatSize(Sectors(total)) <==> Regular(Sectors(total))
  {
    var s := Sectors(total);
    if Regular(s) { TotalRegular(s); } else { Irregular(s); }
  }

  /** The FAT has an entry for every cluster, the two reserved ones included, if
    * and only if nothing wraps and the FAT's last sector has room for nine
    * sectors more. */
  lemma FatEntriesFit(total: nat)
    ensures var s := Sectors(total);
            TotalClusters(s) + 2 <= 128 * FatSize(s) <==> Regular(s) && 1026 * FatSize(s) - (s - 32) >= 9
  {
    var s := Sectors(total);
    if Regular(s) { TotalRegular(s); } else { Irregular(s); }
  }

  /** Sector counts that fail: one past the reserved sectors underflows, the
    * largest overflows, and 2^32 + 33 is cut to 33; 1058 leaves the FAT two
    * entries short. */
  lemma FatTooSmall()
    ensures FatSize(Sectors(33)) == 1 && TotalClusters(Sectors(33)) == 536870911
    ensures FatSize(Sectors(0xffff_ffff)) == 0 && TotalClusters(Sectors(0xffff_ffff)) == 536870907
    ensures Sectors(0x1_0000_0021) == 33
    ensures FatSize(Sectors(1058)) == 1 && TotalClusters(Sectors(1058)) == 128
  {
  }

  lemma {:induction false} CountFreeFresh(bits: seq<bool>)
    requires |bits| >= 1 && bits[0] && forall k | 1 <= k < |bits| :: !bits[k]
    ensures CountFree(bits) == |bits| - 1
  {
    if |bits| > 1 {
      CountFreeFresh(bits[..|bits| - 1]);
    } else {
      assert bits[..0] == [];
    }
  }

  /** fat32_format: a root directory of one empty cluster, and everything else free. */
  method Format(total: nat, disk: seq<seq<byte>>) returns (v: Fat32)
    requires var s := Sectors(total);
             && 1 <= TotalClusters(s) && TotalClusters(s) + 2 <= Min(128 * FatSize(s), BAD)
             && |disk| == TotalClusters(s) && HeapOk(disk, CLUSTER)
    ensures fresh(v) && Whole(v) && v.total == TotalClusters(Sectors(total)) && v.counting
    ensures v.dirs == {Root} && v.damaged == {}
    ensures v.chains[Root] == [2] && Blank(Directory(v, Root))
    ensures v.freeClusters == TotalClusters(Sectors(total)) - 1
    ensures |v.fat| == v.total + 2 && v.fat[..3] == [0x0fff_fff8, 0x0fff_ffff, 0x0fff_ffff] && forall c | 3 <= c < |v.fat| :: v.fat[c] == 0
  {
    hide FatSize, TotalClusters, Sound, Fat32.Contents, Tree, Blank;
    var clusters := TotalClusters(Sectors(total));
    ghost var chains: map<Key, seq<nat>> := NewSlots(Root)[Root := [2]];
    var zeros: seq<u32> := seq(clusters - 1, _ => FREE);
    var fat := [0x0fff_fff8, 0x0fff_ffff, 0x0fff_ffff] + zeros;
    v := new Fat32(clusters, fat, disk[0 := Zeros(CLUSTER)], clusters - 1, chains, map[2 := At(Root, 0)]);
    assert fat[2] == 0x0fff_ffff && forall c | 3 <= c < |fat| :: fat[c] == FREE;
    EmptyRoot(v);
  }

  /** Only end marks. */
  ghost predicate Blank(d: seq<byte>)
  {
    forall s: nat {:trigger HasSlot(d, s)} | HasSlot(d, s) :: Mark(d, s) == 0
  }

  /** A directory of end marks owns nothing. */
  lemma BlankRoot(chains: map<Key, seq<nat>>, contents: map<Key, seq<byte>>)
    requires chains == NewSlots(Root)[Root := [2]] && contents.Keys == chains.Keys && contents[Root] == Zeros(CLUSTER)
    ensures Tree(chains, {Root}, {}, contents) && Blank(contents[Root])
  {
    hide FirstOf, IsDirectory, Entry;
    var d := Zeros(CLUSTER);
    forall s: nat {:trigger HasSlot(d, s)} | HasSlot(d, s)
      ensures Mark(d, s) == 0 && !Owning(d, s) && EntryOk(chains, Root, d, s)
    {
      assert Slot(Root, s) in SlotKeys(Root);
    }
  }

  lemma EmptyRoot(v: Fat32)
    requires v.total >= 1 && v.total + 2 <= BAD && |v.fat| == |v.links| == v.total + 2 && |v.heap| == v.total
    requires v.counting && v.freeClusters == v.total - 1 && HeapOk(v.heap, CLUSTER) && v.heap[0] == Zeros(CLUSTER)
    requires forall c | 0 <= c < |v.fat| :: v.links[c] == v.fat[c] % MASK
    requires v.links[2] >= EOC && forall c | 3 <= c < |v.links| :: v.links[c] == FREE
    requires v.owner == map[2 := At(Root, 0)] && v.chains == NewSlots(Root)[Root := [2]]
    requires v.dirs == {Root} && v.damaged == {}
    ensures Whole(v) && Blank(Directory(v, Root))
  {
    hide Tree, Blank, Raw, CountFree, NewSlots, OwnedBy, ChainOk, Marks;
    CountFreeFresh(InUse(v.links, v.total));
    RootBytes(v.heap, v.chains);
    FreshChains(v.links, v.chains, v.owner);
    FreshMarks(v.links, v.total, v.owner);
    BlankRoot(v.chains, v.Contents());
  }

  lemma FreshMarks(links: seq<u32>, total: nat, owner: map<nat, Use<Key>>)
    requires owner == map[2 := At(Root, 0)] && 1 <= total && |links| == total + 2 && links[2] >= EOC
    requires forall c | 3 <= c < |links| :: links[c] == FREE
    ensures Marks(InUse(links, total), owner)
  {
  }

  lemma FreshChains(links: seq<u32>, chains: map<Key, seq<nat>>, owner: map<nat, Use<Key>>)
    requires chains == NewSlots(Root)[Root := [2]] && owner == map[2 := At(Root, 0)] && 3 <= |links| && links[2] >= EOC
    ensures OwnedBy(chains, owner, |links|) && forall k | k in chains :: ChainOk(links, chains[k])
  {
    EmptyChain(links);
    LinkedSingle(links, 2, false);
  }

  lemma RootBytes(heap: seq<seq<byte>>, chains: map<Key, seq<nat>>)
    requires |heap| >= 1 && HeapOk(heap, CLUSTER) && Root in chains && chains[Root] == [2]
    ensures Stored(heap, chains, CLUSTER)[Root] == heap[0]
  {
    assert [] + [2] == [2];
    RawLast(heap, [], 2, CLUSTER);
    assert Raw(heap, [], CLUSTER) == [];
  }
}
