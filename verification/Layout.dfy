/** Where the exFAT formatter puts things (fs/exfat/mkfs): five separately
  * computed layouts for one volume size, in the formatter's own arithmetic.
  * Sectors are 512 bytes and clusters 4096 bytes (fs/exfat/compat.c). */
module Layout {
  import opened Bytes

  const WORD: int := 0x1_0000_0000
  const UCT_SIZE: int := 5836

  datatype Object = Vbr | Fat | Cbm | Uct | RootDir

  /** The order in which the formatter lays the objects out. */
  const Objects: seq<Object> := [Vbr, Vbr, Fat, Cbm, Uct, RootDir]

  /** DIV_ROUND_UP and ROUND_UP on signed offsets. */
  function CeilDiv(x: int, d: int): int
    requires d > 0
  {
    Quot(x + d - 1, d)
  }

  function RoundUp(x: int, d: int): int
    requires d > 0
  {
    CeilDiv(x, d) * d
  }

  function Alignment(o: Object): (d: int)
    ensures d > 0
  {
    match o
    case Vbr => 512
    case Fat => 65536
    case _ => 4096
  }

  function Clusters(v: nat): nat { v / 4096 }

  function FatSize(v: nat): nat { Clusters(v) * 4 }

  function HeapStart(v: nat): int { RoundUp(65536 + FatSize(v), 4096) }

  function CbmSize(v: nat): int { CeilDiv(Quot(v - HeapStart(v), 4096), 8) }

  function UctStart(v: nat): int { RoundUp(HeapStart(v) + CbmSize(v), 4096) }

  function RootStart(v: nat): int { RoundUp(UctStart(v) + UCT_SIZE, 4096) }

  function Size(o: Object, v: nat): int {
    match o
    case Vbr => 6144
    case Fat => FatSize(v)
    case Cbm => CbmSize(v)
    case Uct => UCT_SIZE
    case RootDir => 4096
  }

  function Position(o: Object, v: nat): int {
    match o
    case Vbr => 0
    case Fat => 65536
    case Cbm => HeapStart(v)
    case Uct => UctStart(v)
    case RootDir => RootStart(v)
  }

  predicate Accepted(v: nat) { RootStart(v) + 4096 <= v }

  // ---- the layout engine's loops ----

  function Rank(o: Object): nat {
    match o case Vbr => 0 case Fat => 1 case Cbm => 2 case Uct => 3 case RootDir => 4
  }

  /** Where the layout stands after the first `i` objects. */
  function Reached(i: nat, v: nat): int
    requires i <= 6
  {
    if i == 0 then 0
    else if i == 1 then 6144
    else if i == 2 then 12288
    else Position(Objects[i - 1], v) + Size(Objects[i - 1], v)
  }

  lemma RoundUpNext(i: nat, v: nat)
    requires i < 6
    ensures RoundUp(Reached(i, v), Alignment(Objects[i])) == if i == 1 then 6144 else Position(Objects[i], v)
  {
  }

  lemma ReachedAt(i: nat, v: nat)
    requires i < 6
    ensures Reached(0, v) == 0
    ensures Reached(i + 1, v) == RoundUp(Reached(i, v), Alignment(Objects[i])) + Size(Objects[i], v)
  {
    RoundUpNext(i, v);
  }

  /** An object other than those before place `i` is at `i` or later. */
  lemma RankBelow(i: nat, o: Object)
    requires i < 6 && forall j :: 0 <= j < i ==> Rank(Objects[j]) < Rank(o)
    ensures Objects[i] == o || Rank(Objects[i]) < Rank(o)
    ensures Objects[i] == o ==> i != 1
    ensures i == 5 ==> Objects[i] == o
  {
    if i > 0 { assert Rank(Objects[i - 1]) < Rank(o) && Rank(Objects[i]) <= Rank(Objects[i - 1]) + 1; }
  }

  /** The get_size of each object; the bitmap's asks for its own position. */
  method GetSize(o: Object, v: nat) returns (size: int)
    ensures size == Size(o, v)
    decreases Rank(o), 1
  {
    match o
    case Vbr => size := 12 * 512;
    case Fat => size := v / 4096 * 4;
    case Cbm =>
      var p := GetPosition(Cbm, v);
      size := CeilDiv(Quot(v - p, 4096), 8);
    case Uct => size := UCT_SIZE;
    case RootDir => size := 4096;
  }

  /** get_position: the loop over the object table. */
  method GetPosition(o: Object, v: nat) returns (position: int)
    ensures position == Position(o, v)
    decreases Rank(o), 0
  {
    hide Reached, Position, Size, Rank, RoundUp;
    ReachedAt(0, v);
    position := 0;
    var i := 0;
    while i < 6
      invariant 0 <= i <= 6 && position == Reached(i, v)
      invariant forall j :: 0 <= j < i ==> Rank(Objects[j]) < Rank(o)
    {
      RoundUpNext(i, v);
      position := RoundUp(position, Alignment(Objects[i]));
      RankBelow(i, o);
      if Objects[i] == o { return; }
      var size := GetSize(Objects[i], v);
      ReachedAt(i, v);
      position := position + size;
      i := i + 1;
    }
    RankBelow(5, o);
  }

  /** check_size */
  method CheckSize(v: nat) returns (ok: bool)
    ensures ok == Accepted(v)
  {
    var position, i := 0, 0;
    while i < 6
      invariant 0 <= i <= 6 && position == Reached(i, v)
    {
      RoundUpNext(i, v);
      position := RoundUp(position, Alignment(Objects[i]));
      var size := GetSize(Objects[i], v);
      position := position + size;
      i := i + 1;
    }
    ok := position <= v;
  }

  // ---- the super block's own arithmetic (init_sb), in 32-bit words ----

  function ClustersMax(v: nat): u32 { v / 4096 % WORD }

  function FatSectors(v: nat): nat { DivRoundUp(ClustersMax(v) * 4, 512) }

  const FAT_SECTOR_START: nat := 128

  function FatSectorCount(v: nat): nat { DivRoundUp(128 + FatSectors(v), 8) * 8 - 128 }

  function ClusterSectorStart(v: nat): u32 { Quot(HeapStart(v), 512) % WORD }

  function ClusterCount(v: nat): u32 { (ClustersMax(v) - (128 + FatSectorCount(v)) / 8) % WORD }

  function RootCluster(v: nat): u32 { (Quot(RootStart(v) - HeapStart(v), 4096) + 2) % WORD }

  function UctCluster(v: nat): u32 { (Quot(UctStart(v) - HeapStart(v), 4096) + 2) % WORD }

  /** Clusters the FAT writer gives an object of `size` bytes. */
  function ObjectClusters(size: int): int { CeilDiv(size, 4096) }

  // ---- the layouts agree ----

  /** The first cluster-sized block of the heap: 64 KB, then the FAT. */
  function HeapBlock(c: nat): nat { 16 + DivRoundUp(c, 1024) }

  lemma HeapStartAt(v: nat)
    ensures HeapStart(v) == 4096 * HeapBlock(Clusters(v))
  {
    var c := Clusters(v);
    assert HeapStart(v) == (65536 + 4 * c + 4095) / 4096 * 4096;
    assert (65536 + 4 * c + 4095) / 4096 == 16 + (4 * c + 4095) / 4096;
    assert (4 * c + 4095) / 4096 == (c + 1023) / 1024;
  }

  /** The sizes of an accepted volume, in clusters. */
  lemma AcceptedShape(v: nat)
    requires Accepted(v)
    ensures var heap := Clusters(v) - HeapBlock(Clusters(v));
            && heap >= 4
            && CbmSize(v) == DivRoundUp(heap, 8)
            && UctStart(v) == HeapStart(v) + 4096 * DivRoundUp(CbmSize(v), 4096)
            && RootStart(v) == UctStart(v) + 8192
            && DivRoundUp(CbmSize(v), 4096) + 3 <= heap
  {
    hide HeapBlock, HeapStart, CeilDiv, DivRoundUp;
    var c := Clusters(v);
    var k := HeapBlock(c);
    HeapStartAt(v);
    HeapInside(v, k);
    HeapCount(v, k);
    var bytes := CbmSize(v);
    CeilPositive(c - k);
    UctAfter(k, bytes);
    RootAfter(k + DivRoundUp(bytes, 4096));
    DivRoundUpBounds(c - k, 8);
    DivRoundUpBounds(bytes, 4096);
  }

  /** An accepted volume reaches into its heap. */
  lemma HeapInside(v: nat, k: nat)
    requires Accepted(v) && HeapStart(v) == 4096 * k
    ensures 4096 * k <= v
  {
    hide HeapStart;
    if v < 4096 * k {
      SmallBitmap(v - 4096 * k);
      UctAfter(k, CbmSize(v));
      assert false;
    }
  }

  lemma HeapCount(v: nat, k: nat)
    requires 4096 * k <= v
    ensures Quot(v - 4096 * k, 4096) == Clusters(v) - k >= 0
  {
    DivModUnique(v / 4096 - k, v % 4096, 4096);
  }

  lemma CeilPositive(x: nat)
    ensures CeilDiv(x, 8) == DivRoundUp(x, 8)
  {
  }

  lemma RootAfter(n: nat)
    ensures RoundUp(4096 * n + UCT_SIZE, 4096) == 4096 * n + 8192
  {
    DivModUnique(n + 2, 1739, 4096);
  }

  lemma SmallBitmap(x: int)
    requires x < 0
    ensures CeilDiv(Quot(x, 4096), 8) >= x / 32768
  {
  }

  lemma UctAfter(k: nat, bytes: int)
    requires bytes >= -4096
    ensures RoundUp(4096 * k + bytes, 4096) >= 4096 * k - 4096
    ensures bytes >= 0 ==> RoundUp(4096 * k + bytes, 4096) == 4096 * k + 4096 * DivRoundUp(bytes, 4096)
  {
  }

  /** What mount takes for granted about a formatted volume: the FAT ends where
    * the heap starts, the heap fills the volume, the bitmap covers exactly its
    * clusters, the FAT has an entry for each, and the upcase table and the root
    * directory start where the FAT writer starts their chains. */
  predicate PartsAgree(v: nat) {
    && ClusterSectorStart(v) * 512 == HeapStart(v)
    && (FAT_SECTOR_START + FatSectorCount(v)) * 512 == HeapStart(v)
    && HeapStart(v) + ClusterCount(v) * 4096 <= v < HeapStart(v) + (ClusterCount(v) + 1) * 4096
    && CbmSize(v) == DivRoundUp(ClusterCount(v), 8)
    && (ClusterCount(v) + 2) * 4 <= FatSize(v)
    && UctCluster(v) == 2 + ObjectClusters(CbmSize(v))
    && RootCluster(v) == UctCluster(v) + ObjectClusters(UCT_SIZE)
    && RootCluster(v) + ObjectClusters(4096) <= ClusterCount(v) + 2
  }

  /** A volume holds its objects exactly from 21 clusters on. */
  lemma AcceptedExact(v: nat)
    ensures Accepted(v) <==> v >= 21 * 4096
  {
    if Accepted(v) {
      AcceptedShape(v);
      HeapBlockBound(Clusters(v));
    }
    if v >= 21 * 4096 { LargeAccepted(v); }
  }

  lemma LargeAccepted(v: nat)
    requires v >= 21 * 4096
    ensures Accepted(v)
  {
    hide HeapBlock, HeapStart, CeilDiv, DivRoundUp;
    var c := Clusters(v);
    var k := HeapBlock(c);
    HeapStartAt(v);
    HeapRoom(c);
    assert 4096 * k <= v;
    HeapCount(v, k);
    var bytes := CbmSize(v);
    CeilPositive(c - k);
    BitmapRoom(c - k);
    UctAfter(k, bytes);
    RootAfter(k + DivRoundUp(bytes, 4096));
  }

  lemma HeapRoom(c: nat)
    requires c >= 21
    ensures HeapBlock(c) + 4 <= c
  {
  }

  lemma BitmapRoom(heap: nat)
    requires heap >= 4
    ensures DivRoundUp(DivRoundUp(heap, 8), 4096) + 3 <= heap
  {
  }

  /** The super block's view of the heap start, from the truncated count. */
  lemma SuperBlockHeap(v: nat)
    ensures 128 + FatSectorCount(v) == 8 * HeapBlock(ClustersMax(v))
  {
    var m: nat := ClustersMax(v);
    assert (m * 4 + 511) / 512 == (m + 127) / 128;
    var f := (m + 127) / 128;
    assert (128 + f + 7) / 8 == 16 + (f + 7) / 8;
    assert (f + 7) / 8 == (m + 1023) / 1024;
  }

  lemma CountBelow(v: nat)
    requires v < 0x1000_0000_0000 && Accepted(v)
    ensures Clusters(v) < WORD && ClustersMax(v) == Clusters(v)
    ensures ClusterCount(v) == Clusters(v) - HeapBlock(Clusters(v))
  {
    hide Accepted, HeapStart, CbmSize, UctStart, RootStart, HeapBlock, FatSectorCount;
    AcceptedShape(v);
    SuperBlockHeap(v);
    assert v / 4096 < WORD;
  }

  lemma HeapBlockBound(c: nat)
    ensures 16 <= HeapBlock(c) <= c / 1024 + 17
  {
  }

  lemma StartClusters(v: nat)
    requires v < 0x1000_0000_0000 && Accepted(v)
    ensures UctCluster(v) == 2 + ObjectClusters(CbmSize(v))
    ensures RootCluster(v) == UctCluster(v) + 2 == UctCluster(v) + ObjectClusters(UCT_SIZE)
    ensures RootCluster(v) + 1 <= ClusterCount(v) + 2
  {
    hide Accepted, HeapStart, CbmSize, UctStart, RootStart, HeapBlock, ClusterCount, Quot, DivRoundUp, CeilDiv, Clusters, ObjectClusters;
    AcceptedShape(v);
    CountBelow(v);
    HeapBlockBound(Clusters(v));
    var n := DivRoundUp(CbmSize(v), 4096);
    ObjectRounds(CbmSize(v));
    QuotClusters(n);
    assert UctStart(v) - HeapStart(v) == 4096 * n;
    assert RootStart(v) - HeapStart(v) == 4096 * n + 8192;
    assert n + 4 < WORD;
    BelowWord(n + 2);
    BelowWord(n + 4);
  }

  lemma BelowWord(x: nat)
    requires x < WORD
    ensures x % WORD == x
  {
  }

  lemma ObjectRounds(size: nat)
    ensures ObjectClusters(size) == DivRoundUp(size, 4096)
  {
  }

  lemma QuotClusters(n: nat)
    ensures Quot(4096 * n, 4096) == n && Quot(4096 * n + 8192, 4096) == n + 2
    ensures ObjectClusters(UCT_SIZE) == 2 && ObjectClusters(4096) == 1
  {
    DivModUnique(n, 0, 4096);
    DivModUnique(n + 2, 0, 4096);
  }

  lemma HeapAgrees(v: nat)
    requires v < 0x1000_0000_0000 && Accepted(v)
    ensures ClusterSectorStart(v) * 512 == HeapStart(v)
    ensures (FAT_SECTOR_START + FatSectorCount(v)) * 512 == HeapStart(v)
    ensures HeapStart(v) + ClusterCount(v) * 4096 <= v < HeapStart(v) + (ClusterCount(v) + 1) * 4096
    ensures (ClusterCount(v) + 2) * 4 <= FatSize(v)
  {
    hide Accepted, HeapStart, CbmSize, UctStart, RootStart, HeapBlock, ClusterCount, FatSectorCount;
    HeapStartAt(v);
    CountBelow(v);
    SuperBlockHeap(v);
    var (k, c) := (HeapBlock(Clusters(v)), Clusters(v));
    HeapBlockBound(c);
    assert Quot(4096 * k, 512) == 8 * k && 8 * k < WORD;
  }

  lemma AgreeBelow(v: nat)
    requires v < 0x1000_0000_0000 && Accepted(v)
    ensures PartsAgree(v)
  {
    hide Accepted, HeapStart, CbmSize, UctStart, RootStart, HeapBlock, ClusterCount, FatSectorCount, ClusterSectorStart, UctCluster, RootCluster;
    HeapAgrees(v);
    StartClusters(v);
    AcceptedShape(v);
    CountBelow(v);
  }

  /** From 16 TB on, the truncated count and the bitmap's own count part. */
  lemma DisagreeAbove(v: nat)
    requires v >= 0x1000_0000_0000 && Accepted(v)
    ensures CbmSize(v) != DivRoundUp(ClusterCount(v), 8)
  {
    hide Accepted, HeapStart, CbmSize, UctStart, RootStart, FatSectorCount;
    AcceptedShape(v);
    SuperBlockHeap(v);
    var (c, m) := (Clusters(v), ClustersMax(v));
    var d := c / WORD;
    assert c == d * WORD + m && d >= 1;
    assert HeapBlock(c) == HeapBlock(m) + d * 0x40_0000;
    var (g, h) := (c - HeapBlock(c), m - HeapBlock(m));
    assert g == h + d * 0xffc0_0000;
    assert ClusterCount(v) == if h >= 0 then h else h + WORD;
    assert h >= -17;
  }

  /** The separately computed layouts of an accepted volume agree if and only
    * if the volume is smaller than 16 TB. */
  lemma LayoutsAgree(v: nat)
    requires Accepted(v)
    ensures PartsAgree(v) <==> v < 0x1000_0000_0000
  {
    if v < 0x1000_0000_0000 { AgreeBelow(v); } else { DisagreeAbove(v); }
  }
}
