/** The exFAT formatter writing its objects to the device (fs/exfat/mkfs). */
module Formatter {
  import opened Bytes
  import opened BlockDevice
  import opened Checksums
  import opened BootRegion
  import opened Layout

  // ---- regions of an image ----

  /** `data` stands at `pos`. */
  predicate Region(img: seq<byte>, pos: int, data: seq<byte>) {
    0 <= pos && pos + |data| <= |img| && img[pos..pos + |data|] == data
  }

  lemma RegionKept(img: seq<byte>, pos: nat, data: seq<byte>, a: int, d: seq<byte>)
    requires pos + |data| <= |img| && Region(img, a, d)
    requires a + |d| <= pos || pos + |data| <= a
    ensures Region(Splice(img, pos, data), a, d)
  {
    var now := Splice(img, pos, data);
    assert now[a..a + |d|] == d by {
      forall i | 0 <= i < |d| ensures now[a + i] == d[i] { assert img[a..a + |d|][i] == d[i]; }
    }
  }

  /** Writing at the start of a region leaves the rest of the region. */
  lemma RegionHead(img: seq<byte>, pos: nat, data: seq<byte>, d: seq<byte>)
    requires Region(img, pos, d) && |data| <= |d|
    ensures Region(Splice(img, pos, data), pos, data + d[|data|..])
  {
    var now, n := Splice(img, pos, data), |d|;
    assert now[pos..pos + n] == data + d[|data|..] by {
      forall i | 0 <= i < n ensures now[pos + i] == (data + d[|data|..])[i] { assert img[pos..pos + n][i] == d[i]; }
    }
  }

  lemma RegionWritten(img: seq<byte>, pos: nat, data: seq<byte>)
    requires pos + |data| <= |img|
    ensures Region(Splice(img, pos, data), pos, data)
  {
  }

  /** Writing `data` at `pos` turns one image into the other. */
  ghost predicate Wrote(was: seq<byte>, pos: nat, data: seq<byte>, now: seq<byte>) {
    pos + |data| <= |was| && now == Splice(was, pos, data)
  }

  lemma WroteNone(was: seq<byte>, pos: nat)
    requires pos <= |was|
    ensures Wrote(was, pos, [], was)
  {
    assert Splice(was, pos, []) == was;
  }

  lemma WroteThen(was: seq<byte>, pos: nat, a: seq<byte>, mid: seq<byte>, b: seq<byte>, now: seq<byte>)
    requires Wrote(was, pos, a, mid) && Wrote(mid, pos + |a|, b, now)
    ensures Wrote(was, pos, a + b, now)
  {
    SpliceAppend(was, pos, a, b);
  }

  /** exfat_write at the position reached. */
  method Emit(dev: Device, data: seq<byte>, pos: nat)
    requires dev.Valid() && pos + |data| <= dev.Capacity()
    modifies dev
    ensures dev.Valid() && dev.Capacity() == old(dev.Capacity())
    ensures Wrote(old(Image(dev)), pos, data, Image(dev))
  {
    Put(dev, data, pos);
  }

  function Repeat(s: seq<byte>, n: nat): (r: seq<byte>)
    ensures |r| == n * |s|
  {
    if n == 0 then [] else Repeat(s, n - 1) + s
  }

  lemma {:induction false} RepeatWord(w: seq<byte>, n: nat, i: nat)
    requires |w| == 4 && i < n
    ensures Repeat(w, n)[4 * i..4 * i + 4] == w
  {
    if i < n - 1 {
      RepeatWord(w, n - 1, i);
      assert Repeat(w, n)[4 * i..4 * i + 4] == Repeat(w, n - 1)[4 * i..4 * i + 4];
    }
  }

  // ---- erasing ----

  /** erase_object */
  method EraseObject(dev: Device, start: nat, size: nat)
    requires dev.Valid() && start + size <= dev.Capacity()
    modifies dev
    ensures dev.Valid() && dev.Capacity() == old(dev.Capacity())
    ensures Wrote(old(Image(dev)), start, Zeros(size), Image(dev))
  {
    hide Image, Wrote, Zeros;
    ghost var was := Image(dev);
    var i := 0;
    WroteNone(was, start);
    ZerosJoin(0, 0);
    while i < size
      invariant i <= size && dev.Valid() && dev.Capacity() == old(dev.Capacity())
      invariant Wrote(was, start, Zeros(i), Image(dev))
    {
      var n := Min(size - i, 4096);
      ghost var mid := Image(dev);
      ZerosJoin(i, n);
      Emit(dev, Zeros(n), start + i);
      WroteThen(was, start, Zeros(i), mid, Zeros(n), Image(dev));
      i := i + n;
    }
  }

  lemma ZerosJoin(a: nat, b: nat)
    ensures |Zeros(a)| == a && |Zeros(b)| == b && Zeros(a) + Zeros(b) == Zeros(a + b)
    ensures Zeros(0) == []
  {
  }

  // ---- the boot region ----

  const OemName: seq<byte> := [0x45, 0x58, 0x46, 0x41, 0x54, 0x20, 0x20, 0x20]
  const SERIAL: u32 := 0x12345678

  /** init_sb: a zeroed sector with its fields filled in. */
  function InitSb(v: nat): (sb: seq<byte>)
    requires v < 0x1000_0000_0000 && Accepted(v)
    ensures |sb| == 512
  {
    AgreeBelow(v);
    var s := Zeros(512);
    var s := Splice(s, 0, [0xeb, 0x76, 0x90]);
    var s := Splice(s, 0x03, OemName);
    var s := Splice(s, 0x48, Le64(v / 512));
    var s := Splice(s, 0x50, ToLe32(FAT_SECTOR_START));
    FatSectorCountFits(v);
    var s := Splice(s, 0x54, ToLe32(FatSectorCount(v)));
    var s := Splice(s, 0x58, ToLe32(ClusterSectorStart(v)));
    var s := Splice(s, 0x5c, ToLe32(ClusterCount(v)));
    var s := Splice(s, 0x60, ToLe32(RootCluster(v)));
    var s := Splice(s, 0x64, ToLe32(SERIAL));
    var s := Splice(s, 0x68, [0, 1, 0, 0, 9, 3, 1, 0x80, 0]);
    Splice(s, 510, [0x55, 0xaa])
  }

  lemma FatSectorCountFits(v: nat)
    ensures 0 <= FatSectorCount(v) < WORD
  {
    SuperBlockHeap(v);
    HeapBlockBound(ClustersMax(v));
  }

  /** The fields mount reads back. */
  lemma SbFields(v: nat)
    requires v < 0x1000_0000_0000 && Accepted(v)
    ensures var sb := InitSb(v);
            && sb[0x03..0x0b] == OemName
            && WordAt(sb, 0x50) == FAT_SECTOR_START && WordAt(sb, 0x58) == ClusterSectorStart(v)
            && WordAt(sb, 0x5c) == ClusterCount(v) && WordAt(sb, 0x60) == RootCluster(v)
            && sb[0x68] == 0 && sb[0x69] == 1 && sb[0x6a] == 0 && sb[0x6b] == 0
            && sb[0x6c] == 9 && sb[0x6d] == 3 && sb[0x6e] == 1 && sb[0x70] == 0
  {
    hide FatSectorCount, ClusterSectorStart, ClusterCount, RootCluster, Accepted, Le64, ToLe32, FromLe32, Zeros;
    var sb := InitSb(v);
    assert sb[0x03..0x0b] == OemName;
    assert sb[0x50..0x54] == ToLe32(FAT_SECTOR_START);
    assert sb[0x58..0x5c] == ToLe32(ClusterSectorStart(v));
    assert sb[0x5c..0x60] == ToLe32(ClusterCount(v));
    assert sb[0x60..0x64] == ToLe32(RootCluster(v));
    var rest := sb[0x68..0x71];
    assert rest == [0, 1, 0, 0, 9, 3, 1, 0x80, 0];
    assert rest[4] == sb[0x6c] && rest[5] == sb[0x6d] && rest[6] == sb[0x6e] && rest[8] == sb[0x70];
  }

  /** The other fields: the jump, the length of the volume, the length of the
    * FAT, the serial number, the drive and the signature; zeros in between. */
  lemma SbRest(v: nat)
    requires v < 0x1000_0000_0000 && Accepted(v)
    ensures var sb := InitSb(v);
            && sb[0] == 0xeb && sb[1] == 0x76 && sb[2] == 0x90
            && LongAt(sb, 0x48) == v / 512 && 0 <= FatSectorCount(v) < WORD && WordAt(sb, 0x54) == FatSectorCount(v)
            && WordAt(sb, 0x64) == 0x12345678 && sb[0x6f] == 0x80 && sb[510] == 0x55 && sb[511] == 0xaa
            && (forall i | 0x0b <= i < 0x48 :: sb[i] == 0) && (forall i | 0x71 <= i < 510 :: sb[i] == 0)
  {
    FatSectorCountFits(v);
    hide FatSectorCount, ClusterSectorStart, ClusterCount, RootCluster, Accepted, Le64, ToLe32, FromLe32;
    var sb := InitSb(v);
    assert sb[0x48..0x50] == Le64(v / 512);
    LongStored(sb, 0x48, v / 512);
    assert sb[0x54..0x58] == ToLe32(FatSectorCount(v));
    assert sb[0x64..0x68] == ToLe32(SERIAL);
  }

  /** A sector holding only the extended boot signature. */
  function BootSector(): (s: seq<byte>)
    ensures |s| == 512
  {
    Splice(Zeros(512), 508, ToLe32(0xaa55_0000))
  }

  function Summed(v: nat): (s: seq<byte>)
    requires v < 0x1000_0000_0000 && Accepted(v)
    ensures |s| == 5632
  {
    InitSb(v) + Repeat(BootSector(), 8) + Repeat(Zeros(512), 2)
  }

  function VbrBytes(v: nat): (s: seq<byte>)
    requires v < 0x1000_0000_0000 && Accepted(v)
    ensures |s| == 6144
  {
    Summed(v) + Repeat(ToLe32(Digest(WORD32, BootSkip, Summed(v))), 128)
  }

  /** What vbr_write writes is what verify_vbr_checksum accepts. */
  lemma VbrAccepted(img: seq<byte>, v: nat)
    requires v < 0x1000_0000_0000 && Accepted(v) && Region(img, 0, VbrBytes(v))
    ensures Fits(512, img) && RegionAccepted(512, img)
  {
    hide Summed, Digest;
    var d := VbrBytes(v);
    var sum := Digest(WORD32, BootSkip, Summed(v));
    assert img[..5632] == d[..5632] == Summed(v);
    forall i | 0 <= i < 128 ensures WordAt(img, 5632 + 4 * i) == sum {
      RepeatWord(ToLe32(sum), 128, i);
      var p := 5632 + 4 * i;
      assert img[p..p + 4] == d[p..p + 4] == Repeat(ToLe32(sum), 128)[4 * i..4 * i + 4];
    }
  }

  /** One of vbr_write's loops: `n` copies of a sector, summed as they go. */
  method WriteSectors(dev: Device, pos: nat, ghost before: seq<byte>, sector: seq<byte>, n: nat, start: u32) returns (sum: u32)
    requires dev.Valid() && |sector| == 512 && pos + n * 512 <= dev.Capacity()
    requires |before| > 0x70 && start == Digest(WORD32, BootSkip, before)
    modifies dev
    ensures dev.Valid() && dev.Capacity() == old(dev.Capacity())
    ensures Wrote(old(Image(dev)), pos, Repeat(sector, n), Image(dev))
    ensures sum == Digest(WORD32, BootSkip, before + Repeat(sector, n))
  {
    hide Image, Digest, Wrote, Repeat;
    ghost var was := Image(dev);
    sum := start;
    var i := 0;
    WroteNone(was, pos);
    RepeatStep(before, sector, 0);
    while i < n
      invariant i <= n && dev.Valid() && dev.Capacity() == old(dev.Capacity())
      invariant Wrote(was, pos, Repeat(sector, i), Image(dev))
      invariant sum == Digest(WORD32, BootSkip, before + Repeat(sector, i))
    {
      ghost var mid := Image(dev);
      Emit(dev, sector, pos + i * 512);
      WroteThen(was, pos, Repeat(sector, i), mid, sector, Image(dev));
      sum := AddSector(before + Repeat(sector, i), false, sector, sum);
      RepeatStep(before, sector, i);
      i := i + 1;
    }
  }

  lemma RepeatStep(before: seq<byte>, s: seq<byte>, i: nat)
    ensures Repeat(s, 0) == [] && before + Repeat(s, 0) == before
    ensures Repeat(s, i + 1) == Repeat(s, i) + s
    ensures before + Repeat(s, i) + s == before + Repeat(s, i + 1)
  {
  }

  /** The last sector: the checksum over and over. */
  method FillWords(word: u32) returns (sector: seq<byte>)
    ensures sector == Repeat(ToLe32(word), 128)
  {
    sector := [];
    var i := 0;
    while i < 128
      invariant i <= 128 && sector == Repeat(ToLe32(word), i)
    {
      sector := sector + ToLe32(word);
      i := i + 1;
    }
  }

  /** vbr_write */
  method VbrWrite(dev: Device, pos: nat, v: nat)
    requires dev.Valid() && pos + 6144 <= dev.Capacity() && v < 0x1000_0000_0000 && Accepted(v)
    modifies dev
    ensures dev.Valid() && dev.Capacity() == old(dev.Capacity())
    ensures Wrote(old(Image(dev)), pos, VbrBytes(v), Image(dev))
  {
    hide Image, Digest, InitSb, Accepted, BootSector, Repeat, Wrote;
    ghost var was := Image(dev);
    var sb := InitSb(v);
    var (boot, zero) := (BootSector(), Zeros(512));
    Emit(dev, sb, pos);
    DigestEmpty();
    assert [] + sb == sb;
    var sum := AddSector([], true, sb, 0);
    ghost var mid := Image(dev);
    sum := WriteSectors(dev, pos + 512, sb, boot, 8, sum);
    WroteThen(was, pos, sb, mid, Repeat(boot, 8), Image(dev));
    mid := Image(dev);
    sum := WriteSectors(dev, pos + 4608, sb + Repeat(boot, 8), zero, 2, sum);
    WroteThen(was, pos, sb + Repeat(boot, 8), mid, Repeat(zero, 2), Image(dev));
    var last := FillWords(sum);
    mid := Image(dev);
    Emit(dev, last, pos + 5632);
    WroteThen(was, pos, Summed(v), mid, last, Image(dev));
  }

  // ---- the FAT ----

  /** The chain of `n` clusters from `c` on, then the end mark. */
  function ChainFrom(c: nat, n: nat): (es: seq<u32>)
    requires n > 0 && c + n < WORD
    ensures |es| == n
  {
    seq(n, i requires 0 <= i < n => if i < n - 1 then c + i + 1 else 0xffff_ffff)
  }

  function CbmClusters(v: nat): int { CeilDiv(CbmSize(v), 4096) }

  function FatEntries(v: nat): (es: seq<u32>)
    requires v < 0x1000_0000_0000 && Accepted(v)
    ensures |es| == RootCluster(v) + 1
  {
    AgreeBelow(v);
    StartClusters(v);
    AcceptedShape(v);
    [0xffff_fff8, 0xffff_ffff] + ChainFrom(2, CbmClusters(v)) + ChainFrom(UctCluster(v), 2) + ChainFrom(RootCluster(v), 1)
  }

  function LeWords(es: seq<u32>): (b: seq<byte>)
    ensures |b| == 4 * |es|
  {
    if es == [] then [] else LeWords(es[..|es| - 1]) + ToLe32(es[|es| - 1])
  }

  lemma {:induction false} LeWordsAt(es: seq<u32>, i: nat)
    requires i < |es|
    ensures LeWords(es)[4 * i..4 * i + 4] == ToLe32(es[i])
  {
    var n := |es| - 1;
    if i < n {
      LeWordsAt(es[..n], i);
      assert LeWords(es)[4 * i..4 * i + 4] == LeWords(es[..n])[4 * i..4 * i + 4];
    }
  }

  lemma {:induction false} LeWordsAppend(a: seq<u32>, b: seq<u32>)
    ensures LeWords(a + b) == LeWords(a) + LeWords(b)
  {
    if b == [] {
      assert a + b == a;
    } else {
      var n := |b| - 1;
      LeWordsAppend(a, b[..n]);
      assert (a + b)[..|a| + n] == a + b[..n];
    }
  }

  /** fat_write_entry; the position of the entry follows from its cluster. */
  method FatWriteEntry(dev: Device, cluster: nat, value: u32) returns (next: nat)
    requires dev.Valid() && 65536 + 4 * cluster + 4 <= dev.Capacity()
    modifies dev
    ensures dev.Valid() && dev.Capacity() == old(dev.Capacity()) && next == cluster + 1
    ensures Wrote(old(Image(dev)), 65536 + 4 * cluster, LeWords([value]), Image(dev))
  {
    assert LeWords([value]) == ToLe32(value);
    Emit(dev, ToLe32(value), 65536 + 4 * cluster);
    next := cluster + 1;
  }

  /** fat_write_entries */
  method FatWriteEntries(dev: Device, first: nat, length: nat) returns (next: nat)
    requires dev.Valid() && length > 0 && first + DivRoundUp(length, 4096) < WORD
    requires 65536 + 4 * (first + DivRoundUp(length, 4096)) <= dev.Capacity()
    modifies dev
    ensures dev.Valid() && dev.Capacity() == old(dev.Capacity())
    ensures next == first + DivRoundUp(length, 4096)
    ensures Wrote(old(Image(dev)), 65536 + 4 * first, LeWords(ChainFrom(first, DivRoundUp(length, 4096))), Image(dev))
  {
    hide Image, LeWords, Wrote, ChainFrom;
    var n := DivRoundUp(length, 4096);
    DivRoundUpBounds(length, 4096);
    ghost var (was, all) := (Image(dev), ChainFrom(first, n));
    var end := first + n;
    var cluster := first;
    FatNone(was, first, all);
    while cluster < end - 1
      invariant first <= cluster <= end - 1 && dev.Valid() && dev.Capacity() == old(dev.Capacity())
      invariant Wrote(was, 65536 + 4 * first, LeWords(all[..cluster - first]), Image(dev))
    {
      ghost var (mid, k) := (Image(dev), cluster - first);
      ChainEntry(first, n, k);
      cluster := FatWriteEntry(dev, cluster, cluster + 1);
      FatStep(was, first, all, k, mid, Image(dev));
    }
    ghost var mid := Image(dev);
    ChainEntry(first, n, n - 1);
    next := FatWriteEntry(dev, cluster, 0xffff_ffff);
    FatStep(was, first, all, n - 1, mid, Image(dev));
    assert all[..n] == all;
  }

  lemma ChainEntry(c: nat, n: nat, k: nat)
    requires n > 0 && c + n < WORD && k < n
    ensures ChainFrom(c, n)[k] == if k < n - 1 then c + k + 1 else 0xffff_ffff
  {
  }

  lemma FatNone(img: seq<byte>, first: nat, all: seq<u32>)
    requires 65536 + 4 * first <= |img|
    ensures Wrote(img, 65536 + 4 * first, LeWords(all[..0]), img)
  {
    WroteNone(img, 65536 + 4 * first);
  }

  lemma FatStep(was: seq<byte>, first: nat, all: seq<u32>, k: nat, mid: seq<byte>, now: seq<byte>)
    requires k < |all| && Wrote(was, 65536 + 4 * first, LeWords(all[..k]), mid)
    requires Wrote(mid, 65536 + 4 * (first + k), LeWords([all[k]]), now)
    ensures Wrote(was, 65536 + 4 * first, LeWords(all[..k + 1]), now)
  {
    hide Wrote, LeWords;
    LeWordsAppend(all[..k], [all[k]]);
    assert all[..k] + [all[k]] == all[..k + 1];
    WroteThen(was, 65536 + 4 * first, LeWords(all[..k]), mid, LeWords([all[k]]), now);
  }

  lemma FatJoin(was: seq<byte>, a: seq<u32>, mid: seq<byte>, b: seq<u32>, now: seq<byte>)
    requires Wrote(was, 65536, LeWords(a), mid) && Wrote(mid, 65536 + 4 * |a|, LeWords(b), now)
    ensures Wrote(was, 65536, LeWords(a + b), now)
  {
    hide Wrote, LeWords;
    LeWordsAppend(a, b);
    WroteThen(was, 65536, LeWords(a), mid, LeWords(b), now);
  }

  /** fat_write */
  method FatWrite(dev: Device, v: nat)
    requires dev.Valid() && v < 0x1000_0000_0000 && Accepted(v) && v <= dev.Capacity()
    modifies dev
    ensures dev.Valid() && dev.Capacity() == old(dev.Capacity())
    ensures Wrote(old(Image(dev)), 65536, LeWords(FatEntries(v)), Image(dev))
  {
    hide Image, LeWords, Wrote, ChainFrom, Accepted, CbmSize, CbmClusters, FatSize, DivRoundUp, HeapStart, UctStart, RootStart, ClusterCount, UctCluster, RootCluster;
    FatRoom(v);
    ghost var was := Image(dev);
    var c := FatWriteEntry(dev, 0, 0xffff_fff8);
    ghost var (mid, es) := (Image(dev), [0xffff_fff8]);
    c := FatWriteEntry(dev, c, 0xffff_ffff);
    FatJoin(was, es, mid, [0xffff_ffff], Image(dev));
    mid, es := Image(dev), es + [0xffff_ffff];
    assert es == [0xffff_fff8, 0xffff_ffff];
    c := FatWriteEntries(dev, c, CbmSize(v));
    FatJoin(was, es, mid, ChainFrom(2, CbmClusters(v)), Image(dev));
    mid, es := Image(dev), es + ChainFrom(2, CbmClusters(v));
    c := FatWriteEntries(dev, c, UCT_SIZE);
    FatJoin(was, es, mid, ChainFrom(UctCluster(v), 2), Image(dev));
    mid, es := Image(dev), es + ChainFrom(UctCluster(v), 2);
    c := FatWriteEntries(dev, c, 4096);
    FatJoin(was, es, mid, ChainFrom(RootCluster(v), 1), Image(dev));
  }

  lemma FatRoom(v: nat)
    requires v < 0x1000_0000_0000 && Accepted(v)
    ensures CbmSize(v) > 0 && CbmClusters(v) == DivRoundUp(CbmSize(v), 4096) > 0
    ensures UctCluster(v) == 2 + CbmClusters(v) && RootCluster(v) == UctCluster(v) + 2
    ensures RootCluster(v) + 1 < WORD && 65536 + 4 * (RootCluster(v) + 1) <= 65536 + FatSize(v) <= HeapStart(v)
    ensures HeapStart(v) + CbmSize(v) <= UctStart(v) && RootStart(v) == UctStart(v) + 8192 && RootStart(v) + 4096 <= v
    ensures HeapStart(v) >= 65536 && 2 <= ClusterCount(v)
    ensures DivRoundUp(RootCluster(v) - 1, 8) <= CbmSize(v)
    ensures DivRoundUp(UCT_SIZE, 4096) == 2 && DivRoundUp(4096, 4096) == 1
  {
    AgreeBelow(v);
    StartClusters(v);
    AcceptedShape(v);
    HeapStartAt(v);
  }

  // ---- the bitmap ----

  function Pow2(n: nat): nat { if n == 0 then 1 else 2 * Pow2(n - 1) }

  /** The number whose bit `k` is `bits[k]`. */
  function Number(bits: seq<bool>): (n: nat)
    ensures n < Pow2(|bits|)
  {
    if bits == [] then 0 else (if bits[0] then 1 else 0) + 2 * Number(bits[1..])
  }

  function PackByte(bits: seq<bool>): byte
    requires |bits| == 8
  {
    assert Pow2(8) == 0x100;
    Number(bits)
  }

  predicate BitOf(b: nat, k: nat) {
    if k == 0 then b % 2 == 1 else BitOf(b / 2, k - 1)
  }

  /** Bit `k` of a byte is worth 2^k. */
  lemma {:induction false} BitWeight(b: nat, k: nat)
    ensures Pow2(k) > 0 && (BitOf(b, k) <==> b / Pow2(k) % 2 == 1)
  {
    if k > 0 {
      BitWeight(b / 2, k - 1);
      HalfDivided(b, Pow2(k - 1));
    }
  }

  lemma HalfDivided(b: nat, p: nat)
    requires p > 0
    ensures b / (2 * p) == b / 2 / p
  {
    var (q, r, s) := (b / 2 / p, b / 2 % p, b % 2);
    assert b == 2 * (q * p + r) + s && 2 * r + s < 2 * p;
    assert q * (2 * p) == 2 * (q * p);
    DivModUnique(q, 2 * r + s, 2 * p);
  }

  lemma {:induction false} PackBit(bits: seq<bool>, k: nat)
    requires k < |bits|
    ensures BitOf(Number(bits), k) == bits[k]
  {
    var b, n := (if bits[0] then 1 else 0), Number(bits[1..]);
    assert Number(bits) == b + 2 * n;
    hide Number, Pow2;
    Halved(b, n);
    if k > 0 { PackBit(bits[1..], k - 1); }
  }

  lemma Halved(b: nat, n: nat)
    requires b < 2
    ensures (b + 2 * n) / 2 == n && (b + 2 * n) % 2 == b
  {
  }

  function Pack(bits: seq<bool>): (b: seq<byte>)
    requires |bits| % 8 == 0
    ensures |b| == |bits| / 8
  {
    seq(|bits| / 8, j requires 0 <= j < |bits| / 8 => PackByte(bits[8 * j..8 * j + 8]))
  }

  /** Clusters the bitmap, the upcase table and the root directory take. */
  function Taken(v: nat): int { CbmClusters(v) + CeilDiv(UCT_SIZE, 4096) + CeilDiv(4096, 4096) }

  /** `n` set bits, in whole bytes. */
  function SetBits(n: nat): (bits: seq<bool>)
    ensures |bits| % 8 == 0
  {
    seq(DivRoundUp(n, 8) * 8, i => i < n)
  }

  function UsedBits(v: nat): (bits: seq<bool>)
    requires Taken(v) >= 0
    ensures |bits| % 8 == 0
  {
    SetBits(Taken(v))
  }

  /** cbm_write: the taken clusters are a prefix of the heap. */
  method CbmBits(v: nat) returns (bits: seq<bool>)
    requires Taken(v) >= 0
    ensures bits == UsedBits(v)
  {
    var taken := Taken(v);
    var size := DivRoundUp(taken, 8) * 8;
    bits := seq(size, _ => false);
    var i := 0;
    while i < size
      invariant 0 <= i <= size && |bits| == size
      invariant forall j :: 0 <= j < size ==> bits[j] == (j < i && j < taken)
    {
      if i < taken { bits := bits[i := true]; }
      i := i + 1;
    }
  }

  // ---- the root directory ----

  function UpcaseSum(uct: seq<byte>): u32 { Digest(WORD32, {}, uct) }

  method SumUpcase(uct: seq<byte>) returns (sum: u32)
    ensures sum == UpcaseSum(uct)
  {
    sum := 0;
    var i := 0;
    while i < |uct|
      invariant 0 <= i <= |uct| && sum == UpcaseSum(uct[..i])
    {
      DigestStep(WORD32, {}, uct[..i], uct[i]);
      assert uct[..i + 1] == uct[..i] + [uct[i]];
      sum := AddByte(WORD32, sum, uct[i]);
      i := i + 1;
    }
    assert uct[..i] == uct;
  }

  function LabelEntry(): (e: seq<byte>) ensures |e| == 32 { [0x03] + Zeros(31) }

  function BitmapEntry(v: nat): (e: seq<byte>)
    requires 0 <= CbmSize(v) < WORD
    ensures |e| == 32
  {
    [0x81] + Zeros(19) + ToLe32(2) + Le64(CbmSize(v))
  }

  function UpcaseEntry(v: nat, uct: seq<byte>): (e: seq<byte>)
    ensures |e| == 32
  {
    [0x82] + Zeros(3) + ToLe32(UpcaseSum(uct)) + Zeros(12) + ToLe32(UctCluster(v)) + Le64(UCT_SIZE)
  }

  // ---- all the objects ----

  ghost predicate Formattable(v: nat, uct: seq<byte>) { v < 0x1000_0000_0000 && Accepted(v) && |uct| == UCT_SIZE }

  function Spot(i: nat, v: nat): int
    requires i < 6
  {
    if i == 1 then 6144 else Position(Objects[i], v)
  }

  /** What the write method of the object at place `i` writes. */
  ghost function Payload(i: nat, v: nat, uct: seq<byte>): (d: seq<byte>)
    requires i < 6 && Formattable(v, uct)
    ensures |d| <= Size(Objects[i], v)
  {
    FatRoom(v);
    match Objects[i]
    case Vbr => VbrBytes(v)
    case Fat => LeWords(FatEntries(v))
    case Cbm => CbmFits(v); Pack(UsedBits(v))
    case Uct => uct
    case RootDir => CbmFits(v); LabelEntry() + BitmapEntry(v) + UpcaseEntry(v, uct)
  }

  lemma CbmFits(v: nat)
    requires v < 0x1000_0000_0000 && Accepted(v)
    ensures Taken(v) == RootCluster(v) - 1 > 0 && |Pack(UsedBits(v))| <= CbmSize(v) < WORD
  {
    FatRoom(v);
    HeapAgrees(v);
    AgreeBelow(v);
  }

  /** An object as it stands on the volume: what was written, then zeros. */
  ghost function Content(i: nat, v: nat, uct: seq<byte>): (d: seq<byte>)
    requires i < 6 && Formattable(v, uct)
    ensures |d| == Size(Objects[i], v)
  {
    Payload(i, v, uct) + Zeros(Size(Objects[i], v) - |Payload(i, v, uct)|)
  }

  ghost predicate Placed(img: seq<byte>, v: nat, uct: seq<byte>, j: nat)
    requires j < 6 && Formattable(v, uct)
  {
    Region(img, Spot(j, v), Content(j, v, uct))
  }

  predicate Blank(img: seq<byte>, v: nat, j: nat)
    requires j < 6
  {
    Size(Objects[j], v) >= 0 && Region(img, Spot(j, v), Zeros(Size(Objects[j], v)))
  }

  /** The first `i` objects are written and the others erased. */
  ghost predicate Stage(img: seq<byte>, v: nat, uct: seq<byte>, i: nat)
    requires Formattable(v, uct)
  {
    forall j: nat :: j < 6 ==> if j < i then Placed(img, v, uct, j) else Blank(img, v, j)
  }

  /** A formatted volume. */
  ghost predicate Formatted(img: seq<byte>, v: nat, uct: seq<byte>) {
    Formattable(v, uct) && v <= |img| && Stage(img, v, uct, 6)
  }

  lemma PlacesApart(j: nat, i: nat, v: nat)
    requires j < i < 6 && v < 0x1000_0000_0000 && Accepted(v)
    ensures 0 <= Spot(j, v) && 0 <= Size(Objects[j], v) && Spot(j, v) + Size(Objects[j], v) <= Spot(i, v)
    ensures 0 <= Size(Objects[i], v) && Spot(i, v) + Size(Objects[i], v) <= v
  {
    hide Accepted, CbmSize, HeapStart, UctStart, RootStart, FatSize;
    FatRoom(v);
  }

  lemma StageStep(img: seq<byte>, v: nat, uct: seq<byte>, i: nat, now: seq<byte>)
    requires Formattable(v, uct) && i < 6 && Stage(img, v, uct, i) && Spot(i, v) >= 0
    requires Wrote(img, Spot(i, v), Payload(i, v, uct), now)
    ensures Stage(now, v, uct, i + 1)
  {
    hide Payload, Accepted, Size, Spot;
    var d := Payload(i, v, uct);
    forall j: nat | j < 6
      ensures if j < i + 1 then Placed(now, v, uct, j) else Blank(now, v, j) {
      assert if j < i then Placed(img, v, uct, j) else Blank(img, v, j);
      if j == i {
        RegionHead(img, Spot(i, v), d, Zeros(Size(Objects[i], v)));
        assert Zeros(Size(Objects[i], v))[|d|..] == Zeros(Size(Objects[i], v) - |d|);
      } else {
        if j < i { PlacesApart(j, i, v); } else { PlacesApart(i, j, v); }
        RegionKept(img, Spot(i, v), d, Spot(j, v), if j < i then Content(j, v, uct) else Zeros(Size(Objects[j], v)));
      }
    }
  }

  ghost predicate Erased(img: seq<byte>, v: nat, i: nat) {
    forall j: nat :: j < 6 && j < i ==> Blank(img, v, j)
  }

  lemma ErasedStep(img: seq<byte>, v: nat, i: nat, now: seq<byte>)
    requires v < 0x1000_0000_0000 && Accepted(v) && i < 6 && Erased(img, v, i)
    requires Spot(i, v) >= 0 && Size(Objects[i], v) >= 0
    requires Wrote(img, Spot(i, v), Zeros(Size(Objects[i], v)), now)
    ensures Erased(now, v, i + 1)
  {
    hide Accepted, Size, Spot;
    var d := Zeros(Size(Objects[i], v));
    forall j: nat | j < 6 && j < i + 1
      ensures Blank(now, v, j) {
      if j == i {
        RegionWritten(img, Spot(i, v), d);
      } else {
        PlacesApart(j, i, v);
        assert Blank(img, v, j);
        RegionKept(img, Spot(i, v), d, Spot(j, v), Zeros(Size(Objects[j], v)));
      }
    }
  }

  lemma PlaceInside(i: nat, v: nat)
    requires i < 6 && v < 0x1000_0000_0000 && Accepted(v)
    ensures 0 <= Spot(i, v) && 0 <= Size(Objects[i], v) && Spot(i, v) + Size(Objects[i], v) <= v
  {
    if i == 0 { PlacesApart(0, 1, v); } else { PlacesApart(0, i, v); }
  }

  /** erase */
  method Erase(dev: Device, v: nat)
    requires dev.Valid() && v < 0x1000_0000_0000 && Accepted(v) && v <= dev.Capacity()
    modifies dev
    ensures dev.Valid() && dev.Capacity() == old(dev.Capacity())
    ensures Erased(Image(dev), v, 6)
  {
    hide Image, Wrote, Erased, Accepted, Spot, Reached, Size, Position, RoundUp;
    var position, i := 0, 0;
    ReachedAt(0, v);
    ErasedNone(Image(dev), v);
    while i < 6
      invariant 0 <= i <= 6 && position == Reached(i, v)
      invariant dev.Valid() && dev.Capacity() == old(dev.Capacity()) && Erased(Image(dev), v, i)
    {
      NextPlace(i, v);
      PlaceInside(i, v);
      ReachedAt(i, v);
      position := RoundUp(position, Alignment(Objects[i]));
      var size := GetSize(Objects[i], v);
      ghost var was := Image(dev);
      EraseObject(dev, position, size);
      ErasedStep(was, v, i, Image(dev));
      position := position + size;
      i := i + 1;
    }
  }

  lemma ErasedNone(img: seq<byte>, v: nat)
    ensures Erased(img, v, 0)
  {
  }

  lemma NextPlace(i: nat, v: nat)
    requires i < 6
    ensures RoundUp(Reached(i, v), Alignment(Objects[i])) == Spot(i, v)
  {
    RoundUpNext(i, v);
  }

  /** The write method of the object at place `i`. */
  method WriteObject(dev: Device, i: nat, position: nat, v: nat, uct: seq<byte>)
    requires dev.Valid() && Formattable(v, uct) && v <= dev.Capacity() && i < 6 && position == Spot(i, v)
    modifies dev
    ensures dev.Valid() && dev.Capacity() == old(dev.Capacity())
    ensures Wrote(old(Image(dev)), position, Payload(i, v, uct), Image(dev))
  {
    hide Image, Wrote, Accepted, VbrBytes, LeWords, FatEntries, Pack, UsedBits, UpcaseEntry, BitmapEntry, LabelEntry, Taken;
    PlaceInside(i, v);
    FatRoom(v);
    CbmFits(v);
    match Objects[i]
    case Vbr => VbrWrite(dev, position, v);
    case Fat => FatWrite(dev, v);
    case Cbm =>
      var bits := CbmBits(v);
      Emit(dev, Pack(bits), position);
    case Uct => Emit(dev, uct, position);
    case RootDir => RootDirWrite(dev, position, v, uct);
  }

  /** rootdir_write */
  method RootDirWrite(dev: Device, position: nat, v: nat, uct: seq<byte>)
    requires dev.Valid() && position + 96 <= dev.Capacity() && 0 <= CbmSize(v) < WORD
    modifies dev
    ensures dev.Valid() && dev.Capacity() == old(dev.Capacity())
    ensures Wrote(old(Image(dev)), position, LabelEntry() + BitmapEntry(v) + UpcaseEntry(v, uct), Image(dev))
  {
    hide Image, Wrote, CbmSize, UctCluster, UpcaseSum, LabelEntry, BitmapEntry;
    var sum := SumUpcase(uct);
    var (first, second) := (LabelEntry(), BitmapEntry(v));
    var third := [0x82] + Zeros(3) + ToLe32(sum) + Zeros(12) + ToLe32(UctCluster(v)) + Le64(UCT_SIZE);
    ghost var was := Image(dev);
    Emit(dev, first, position);
    ghost var mid := Image(dev);
    Emit(dev, second, position + 32);
    WroteThen(was, position, first, mid, second, Image(dev));
    mid := Image(dev);
    Emit(dev, third, position + 64);
    WroteThen(was, position, first + second, mid, third, Image(dev));
  }

  /** create */
  method Create(dev: Device, v: nat, uct: seq<byte>)
    requires dev.Valid() && Formattable(v, uct) && v <= dev.Capacity() && Stage(Image(dev), v, uct, 0)
    modifies dev
    ensures dev.Valid() && dev.Capacity() == old(dev.Capacity())
    ensures Stage(Image(dev), v, uct, 6)
  {
    hide Image, Wrote, Stage, Accepted, Spot, Reached, Size, Position, RoundUp, Payload;
    var position, i := 0, 0;
    ReachedAt(0, v);
    while i < 6
      invariant 0 <= i <= 6 && position == Reached(i, v)
      invariant dev.Valid() && dev.Capacity() == old(dev.Capacity()) && Stage(Image(dev), v, uct, i)
    {
      NextPlace(i, v);
      PlaceInside(i, v);
      ReachedAt(i, v);
      position := RoundUp(position, Alignment(Objects[i]));
      ghost var was := Image(dev);
      WriteObject(dev, i, position, v, uct);
      StageStep(was, v, uct, i, Image(dev));
      var size := GetSize(Objects[i], v);
      position := position + size;
      i := i + 1;
    }
  }

  /** mkfs: refuses a volume too small for its objects and leaves the device
    * alone; otherwise the device holds a formatted volume. */
  method Mkfs(dev: Device, v: nat, uct: seq<byte>) returns (ok: bool)
    requires dev.Valid() && v < 0x1000_0000_0000 && v <= dev.Capacity() && |uct| == UCT_SIZE
    modifies dev
    ensures dev.Valid() && dev.Capacity() == old(dev.Capacity())
    ensures ok == Accepted(v)
    ensures if ok then Formatted(Image(dev), v, uct) else Image(dev) == old(Image(dev))
  {
    hide Image, Accepted, Erased;
    ok := CheckSize(v);
    if ok {
      Erase(dev, v);
      ErasedStage(Image(dev), v, uct);
      Create(dev, v, uct);
    }
  }

  lemma ErasedStage(img: seq<byte>, v: nat, uct: seq<byte>)
    requires Formattable(v, uct) && Erased(img, v, 6)
    ensures Stage(img, v, uct, 0)
  {
  }
}
