/** A formatted volume by its own bytes: what fs/exfat/mkfs leaves on the device
  * for any other reader of the exFAT format. */
module FormattedImage {
  import opened Bytes
  import opened BootRegion
  import opened Checksums
  import opened Formatter
  import L = Layout
  import M = Mounting

  lemma SameField(img: seq<byte>, sb: seq<byte>, p: nat)
    requires |img| >= |sb| == 512 && img[..512] == sb && p + 4 <= 512
    ensures WordAt(img, p) == WordAt(sb, p)
  {
    assert img[p..p + 4] == sb[p..p + 4];
  }

  /** The super block: the volume's length is there, the FAT ends where the heap
    * starts, has an entry for every cluster and the two reserved ones, and the
    * heap ends inside the volume; the root directory starts in the heap. */
  lemma SuperBlockAgrees(img: seq<byte>, v: nat, uct: seq<byte>)
    requires Formatted(img, v, uct)
    ensures |img| >= 512
    ensures LongAt(img, 0x48) == v / 512
    ensures WordAt(img, 0x50) == 128 && WordAt(img, 0x50) as int + WordAt(img, 0x54) as int == WordAt(img, 0x58) as int
    ensures 128 * WordAt(img, 0x54) as int >= WordAt(img, 0x5c) as int + 2
    ensures WordAt(img, 0x58) as int + 8 * WordAt(img, 0x5c) as int <= LongAt(img, 0x48) as int
    ensures 2 <= WordAt(img, 0x60) < WordAt(img, 0x5c) as int + 2
  {
    hide L.Accepted, InitSb, RegionAccepted, Stage, L.ClusterCount, L.HeapStart, L.RootCluster, L.ClusterSectorStart, L.FatSectorCount, L.Clusters,
         L.CbmSize, L.UctCluster, L.UctStart, L.RootStart, Taken;
    M.FormattedSb(img, v, uct);
    M.Extents(img, v, uct);
    SbFields(v);
    SbRest(v);
    var sb := InitSb(v);
    SameField(img, sb, 0x48);
    SameField(img, sb, 0x4c);
    SameField(img, sb, 0x50);
    SameField(img, sb, 0x54);
    SameField(img, sb, 0x58);
    SameField(img, sb, 0x5c);
    SameField(img, sb, 0x60);
    hide WordAt;
    L.HeapAgrees(v);
    FatHolds(v);
  }

  lemma FatHolds(v: nat)
    requires v < 0x1000_0000_0000 && L.Accepted(v)
    ensures L.FatSize(v) <= L.FatSectorCount(v) * 512
    ensures L.ClusterSectorStart(v) + 8 * L.ClusterCount(v) <= v / 512
  {
    hide L.Accepted, L.ClusterCount, L.CbmSize, L.UctCluster, L.UctStart, L.RootStart, L.RootCluster, L.ClusterSectorStart, L.FatSectorCount;
    L.HeapAgrees(v);
    FatBeforeHeap(v);
    hide L.HeapStart, L.FatSize;
  }

  lemma FatBeforeHeap(v: nat)
    ensures 65536 + L.FatSize(v) <= L.HeapStart(v)
  {
    L.HeapStartAt(v);
  }

  /** The bytes every reader looks for first. */
  lemma SuperBlockBytes(img: seq<byte>, v: nat, uct: seq<byte>)
    requires Formatted(img, v, uct)
    ensures |img| >= 512 && img[..3] == [0xeb, 0x76, 0x90] && img[3..11] == [0x45, 0x58, 0x46, 0x41, 0x54, 0x20, 0x20, 0x20]
    ensures (forall i | 0x0b <= i < 0x48 :: img[i] == 0) && (forall i | 0x71 <= i < 510 :: img[i] == 0)
    ensures WordAt(img, 0x64) == 0x12345678
    ensures img[0x68..0x71] == [0, 1, 0, 0, 9, 3, 1, 0x80, 0] && img[510] == 0x55 && img[511] == 0xaa
  {
    hide L.Accepted, InitSb, RegionAccepted, Stage, L.ClusterCount, L.HeapStart, L.RootCluster, L.ClusterSectorStart, L.FatSectorCount, FromLe32;
    M.FormattedSb(img, v, uct);
    SbFields(v);
    SbRest(v);
    var sb := InitSb(v);
    SameField(img, sb, 0x64);
    assert forall i | 0 <= i < 512 :: img[i] == sb[i];
    assert img[3..11] == sb[3..11];
  }

  // ---- the rest of the boot region ----

  lemma {:induction false} RepeatAt(s: seq<byte>, n: nat, k: nat)
    requires k < n && |s| == 512
    ensures |Repeat(s, n)| == 512 * n && Repeat(s, n)[512 * k..512 * k + 512] == s
  {
    if k < n - 1 {
      RepeatAt(s, n - 1, k);
      assert Repeat(s, n)[512 * k..512 * k + 512] == Repeat(s, n - 1)[512 * k..512 * k + 512];
    } else if n > 1 {
      RepeatAt(s, n - 1, 0);
    }
  }

  /** Where sector `k` of the region comes from. */
  lemma SectorOf(v: nat, k: nat)
    requires v < 0x1000_0000_0000 && L.Accepted(v) && 1 <= k <= 10
    ensures VbrBytes(v)[512 * k..512 * k + 512] == if k <= 8 then BootSector() else Zeros(512)
  {
    hide L.Accepted, InitSb, Repeat, Zeros, BootSector;
    var (a, b, c) := (InitSb(v), Repeat(BootSector(), 8), Repeat(Zeros(512), 2));
    ZeroSector();
    RepeatAt(BootSector(), 8, if k <= 8 then k - 1 else 0);
    RepeatAt(Zeros(512), 2, if k <= 8 then 0 else k - 9);
    var (i, j, s) := (512 * k, 512 * k + 512, Summed(v));
    assert s == a + b + c;
    hide Summed;
    SliceLeft(s, Repeat(ToLe32(Digest(WORD32, BootSkip, s)), 128), i, j);
    if k <= 8 {
      SliceLeft(a + b, c, i, j);
      SliceRight(a, b, i, j);
    } else {
      SliceRight(a + b, c, i, j);
    }
  }

  lemma SliceLeft<T>(s: seq<T>, t: seq<T>, i: nat, j: nat)
    requires i <= j <= |s|
    ensures (s + t)[i..j] == s[i..j]
  {
  }

  lemma SliceRight<T>(s: seq<T>, t: seq<T>, i: nat, j: nat)
    requires |s| <= i <= j <= |s| + |t|
    ensures (s + t)[i..j] == t[i - |s|..j - |s|]
  {
  }

  lemma ZeroSector()
    ensures |Zeros(512)| == 512
  {
  }

  /** Eight sectors hold nothing but the extended boot signature, two nothing at
    * all, and the backup region repeats the first. */
  lemma BootSectors(img: seq<byte>, v: nat, uct: seq<byte>, k: nat)
    requires Formatted(img, v, uct) && 1 <= k <= 10
    ensures |img| >= 12288 && img[6144..12288] == img[..6144]
    ensures forall j | 512 * k <= j < 512 * k + 508 :: img[j] == 0
    ensures img[512 * k + 508..512 * k + 512] == if k <= 8 then [0, 0, 0x55, 0xaa] else [0, 0, 0, 0]
  {
    hide L.Accepted, VbrBytes, RegionAccepted, L.Size;
    M.FormattedSb(img, v, uct);
    assert Placed(img, v, uct, 0) && Placed(img, v, uct, 1);
    M.VbrSize(v);
    var d := VbrBytes(v);
    assert Content(0, v, uct) == d && Content(1, v, uct) == d;
    assert img[..6144] == d && img[6144..12288] == d;
    SectorOf(v, k);
    var s := d[512 * k..512 * k + 512];
    SubSlice(d, 512 * k, 512, 508, 4);
    assert forall j | 512 * k <= j < 512 * k + 512 :: img[j] == d[j] == s[j - 512 * k];
    assert img[512 * k + 508..512 * k + 512] == d[512 * k + 508..512 * k + 512];
    SignatureBytes();
    hide Zeros;
    ZeroSector();
  }

  lemma SignatureBytes()
    ensures var s := BootSector(); s[508..] == [0, 0, 0x55, 0xaa] && forall i | 0 <= i < 508 :: s[i] == 0
    ensures Zeros(512)[508..] == [0, 0, 0, 0] && forall i | 0 <= i < 512 :: Zeros(512)[i] == 0
  {
  }

  // ---- the FAT and the system files ----

  /** The reserved entries, and the chains of the bitmap, the upcase table and the
    * root directory one after another; every other entry is free. */
  lemma FatWords(img: seq<byte>, v: nat, uct: seq<byte>, c: nat)
    requires Formatted(img, v, uct) && c < L.ClusterCount(v) + 2
    ensures 65536 + 4 * c + 4 <= |img|
    ensures WordAt(img, 65536 + 4 * c) ==
            if c == 0 then 0xffff_fff8
            else if c == 1 || c == L.UctCluster(v) - 1 || c == L.RootCluster(v) - 1 || c == L.RootCluster(v) then 0xffff_ffff
            else if c < L.RootCluster(v) then c + 1 else 0
  {
    hide L.Accepted, L.ClusterCount, L.HeapStart, L.UctCluster, L.RootCluster, L.CbmSize, Stage, FatEntries, L.RootStart, L.ClusterSectorStart, Taken;
    M.Extents(img, v, uct);
    M.FormattedRange(img, v, uct);
    L.HeapAgrees(v);
    M.FormattedFat(img, v, uct, c);
    if c <= L.RootCluster(v) { EntryIs(v, c); }
  }

  lemma EntryIs(v: nat, c: nat)
    requires v < 0x1000_0000_0000 && L.Accepted(v) && c <= L.RootCluster(v)
    ensures FatEntries(v)[c] ==
            if c == 0 then 0xffff_fff8
            else if c == 1 || c == L.UctCluster(v) - 1 || c == L.RootCluster(v) - 1 || c == L.RootCluster(v) then 0xffff_ffff
            else c + 1
  {
    hide L.Accepted, L.CbmSize, L.RootCluster, L.UctCluster, L.HeapStart;
    FatRoom(v);
  }

  /** The root directory: a cleared label, the bitmap's entry and the upcase
    * table's with its checksum; and the table itself where the entry says. */
  lemma SystemFiles(img: seq<byte>, v: nat, uct: seq<byte>)
    requires Formatted(img, v, uct)
    ensures var p := L.RootStart(v);
            && 0 <= p && p + 4096 <= |img| && img[p] == 0x03
            && img[p + 32] == 0x81 && WordAt(img, p + 52) == 2 && LongAt(img, p + 56) == DivRoundUp(L.ClusterCount(v), 8)
            && img[p + 64] == 0x82 && WordAt(img, p + 68) == UpcaseSum(uct) && WordAt(img, p + 84) == L.UctCluster(v) && LongAt(img, p + 88) == 5836
            && forall j | p + 96 <= j < p + 4096 :: img[j] == 0
    ensures var q := L.HeapStart(v) + (L.UctCluster(v) - 2) * 4096;
            0 <= q && q + 5836 <= |img| && img[q..q + 5836] == uct
  {
    hide L.Accepted, L.RootStart, L.CbmSize, L.UctCluster, L.ClusterCount, L.HeapStart, L.RootCluster, UpcaseSum, WordAt, L.ClusterSectorStart,
         Taken, L.UctStart, Formatted, M.NewRoot;
    M.FormattedRoot(img, v, uct);
    M.Extents(img, v, uct);
    var p := L.RootStart(v);
    var dir := img[p..p + 4096];
    RootFields(dir, M.System(2, L.CbmSize(v), L.UctCluster(v), L.UCT_SIZE));
    FieldIn(img, p, dir, 52);
    FieldIn(img, p, dir, 56);
    FieldIn(img, p, dir, 60);
    FieldIn(img, p, dir, 84);
    FieldIn(img, p, dir, 88);
    FieldIn(img, p, dir, 92);
    assert forall j | p <= j < p + 4096 :: img[j] == dir[j - p];
    TableSum(img, v, uct);
    TablePlace(img, v, uct);
  }

  lemma FieldIn(img: seq<byte>, p: nat, dir: seq<byte>, at: nat)
    requires p + |dir| <= |img| && dir == img[p..p + |dir|] && at + 4 <= |dir|
    ensures WordAt(img, p + at) == WordAt(dir, at)
  {
    SubSlice(img, p, |dir|, at, 4);
  }

  lemma RootFields(dir: seq<byte>, s: M.System)
    requires M.NewRoot(dir, s)
    ensures |dir| == 4096 && dir[0] == 0x03 && dir[32] == 0x81 && dir[64] == 0x82
    ensures WordAt(dir, 52) == s.cmapStart && LongAt(dir, 56) == s.cmapBytes
    ensures WordAt(dir, 84) == s.upcaseStart && LongAt(dir, 88) == s.upcaseBytes
    ensures forall i | 96 <= i < 4096 :: dir[i] == 0
  {
    hide WordAt;
  }

  lemma TableSum(img: seq<byte>, v: nat, uct: seq<byte>)
    requires Formatted(img, v, uct) && 0 <= L.RootStart(v) && L.RootStart(v) + 4096 <= |img|
    ensures WordAt(img, L.RootStart(v) + 68) == UpcaseSum(uct)
  {
    hide L.Accepted, L.RootStart, L.CbmSize, L.UctCluster, Payload, Spot, L.Size, UpcaseSum, ToLe32, FromLe32, LabelEntry, BitmapEntry;
    assert Placed(img, v, uct, 5);
    M.RootPayload(v, uct);
    var (p, u, c) := (L.RootStart(v), UpcaseEntry(v, uct), Content(5, v, uct));
    assert u[4..8] == ToLe32(UpcaseSum(uct));
    assert c == LabelEntry() + BitmapEntry(v) + u + Zeros(4000);
    hide UpcaseEntry, Zeros;
    assert c[68..72] == u[4..8];
    assert img[p..p + 4096] == c;
    assert img[p + 68..p + 72] == c[68..72];
  }

  lemma TablePlace(img: seq<byte>, v: nat, uct: seq<byte>)
    requires Formatted(img, v, uct)
    ensures var q := L.HeapStart(v) + (L.UctCluster(v) - 2) * 4096;
            0 <= q && q + 5836 <= |img| && img[q..q + 5836] == uct
  {
    hide L.Accepted, L.RootStart, L.CbmSize, L.UctCluster, L.HeapStart, L.UctStart, Zeros;
    assert Placed(img, v, uct, 4);
    assert L.Objects[4] == L.Uct && Spot(4, v) == L.UctStart(v) && Payload(4, v, uct) == uct;
    L.AcceptedShape(v);
    FatRoom(v);
    ObjectSize();
    assert Content(4, v, uct) == uct;
  }

  lemma ObjectSize()
    ensures |Zeros(0)| == 0
  {
  }
}
