/** The boot region of a volume: the checksum test at mount and the updates of
  * the super block while mounted (fs/exfat/mount.c). */
module BootRegion {
  import opened Bytes
  import opened BlockDevice
  import opened Checksums
  import opened ClusterBitmap

  /** All the bytes of the partition. */
  ghost function Image(dev: Device): (img: seq<byte>)
    requires dev.Valid() && dev.Capacity() >= 0
    reads dev
    ensures |img| == dev.Capacity()
  {
    seq(dev.Capacity(), i requires dev.Valid() && 0 <= i < dev.Capacity() reads dev => dev.At(i))
  }

  method Put(dev: Device, data: seq<byte>, pos: nat)
    requires dev.Valid() && pos + |data| <= dev.Capacity()
    modifies dev
    ensures dev.Valid() && dev.Capacity() == old(dev.Capacity())
    ensures Image(dev) == Splice(old(Image(dev)), pos, data)
  {
    dev.Pwrite(data, pos);
  }

  method Get(dev: Device, size: nat, pos: nat) returns (data: seq<byte>)
    requires dev.Valid() && pos + size <= dev.Capacity()
    ensures data == Image(dev)[pos..pos + size]
  {
    data := dev.Pread(size, pos);
  }

  /** The boot region is eleven summed sectors and one of checksums. */
  predicate Fits(sector: nat, img: seq<byte>) { 512 <= sector && sector % 4 == 0 && 12 * sector <= |img| }

  /** What verify_vbr_checksum accepts. */
  predicate RegionAccepted(sector: nat, img: seq<byte>)
    requires Fits(sector, img)
  {
    var sum := Digest(WORD32, BootSkip, img[..11 * sector]);
    forall i :: 0 <= i < sector / 4 ==> WordAt(img, 11 * sector + 4 * i) == sum
  }

  method SumRegion(dev: Device, sector: nat) returns (sum: u32)
    requires dev.Valid() && dev.Capacity() >= 0 && Fits(sector, Image(dev))
    ensures sum == Digest(WORD32, BootSkip, Image(dev)[..11 * sector])
  {
    hide Image, Digest;
    ghost var img := Image(dev);
    var buf := Get(dev, sector, 0);
    assert img[..0] == [] && img[..0] + buf == img[..sector];
    DigestEmpty();
    sum := AddSector(img[..0], true, buf, 0);
    var i, pos := 1, sector;
    while i < 11
      invariant 1 <= i <= 11 && pos == i * sector && 512 <= pos
      invariant sum == Digest(WORD32, BootSkip, img[..pos])
    {
      MulMonotone(i + 1, 11, sector);
      buf := Get(dev, sector, pos);
      sum := AddSector(img[..pos], false, buf, sum);
      assert img[..pos] + buf == img[..pos + sector];
      assert (i + 1) * sector == pos + sector;
      i, pos := i + 1, pos + sector;
    }
  }

  lemma DigestEmpty()
    ensures Digest(WORD32, BootSkip, []) == 0
  {
  }

  /** verify_vbr_checksum, without repair. */
  method VerifyChecksum(dev: Device, sector: nat) returns (ok: bool)
    requires dev.Valid() && dev.Capacity() >= 0 && Fits(sector, Image(dev))
    ensures ok == RegionAccepted(sector, Image(dev))
  {
    hide Image, Digest;
    ghost var img := Image(dev);
    var sum := SumRegion(dev, sector);
    var base := 11 * sector;
    var buf := Get(dev, sector, base);
    var i := 0;
    while i < sector / 4
      invariant 0 <= i <= sector / 4
      invariant forall j :: 0 <= j < i ==> WordAt(img, base + 4 * j) == sum
    {
      SubSlice(img, base, sector, 4 * i, 4);
      if FromLe32(buf[4 * i..4 * i + 4]) != sum { return false; }
      i := i + 1;
    }
    return true;
  }

  /** A single damaged byte anywhere in the twelve sectors is noticed unless it
    * is one of the three that change while the volume is mounted. */
  lemma DamagedRegion(sector: nat, a: seq<byte>, b: seq<byte>, i: nat)
    requires Fits(sector, a) && DifferAt(a, b, i) && RegionAccepted(sector, a) && i < 12 * sector
    ensures RegionAccepted(sector, b) <==> i in BootSkip
  {
    hide RegionAccepted;
    if i < 11 * sector { DamagedSummed(sector, a, b, i); } else { DamagedSums(sector, a, b, i); }
  }

  lemma DamagedSummed(sector: nat, a: seq<byte>, b: seq<byte>, i: nat)
    requires Fits(sector, a) && DifferAt(a, b, i) && RegionAccepted(sector, a) && i < 11 * sector
    ensures RegionAccepted(sector, b) <==> i in BootSkip
  {
    hide Digest, WordAt;
    var n := 11 * sector;
    SingleByte(WORD32, BootSkip, a[..n], b[..n], i);
    SameWords(sector, a, b);
    assert 0 < sector / 4 && WordAt(a, n + 4 * 0) == WordAt(b, n + 4 * 0);
  }

  lemma DamagedSums(sector: nat, a: seq<byte>, b: seq<byte>, i: nat)
    requires Fits(sector, a) && DifferAt(a, b, i) && RegionAccepted(sector, a) && 11 * sector <= i < 12 * sector
    ensures !RegionAccepted(sector, b) && i !in BootSkip
  {
    hide Digest, WordAt;
    var n := 11 * sector;
    assert a[..n] == b[..n];
    var k := (i - n) / 4;
    WordDiffers(a, b, n + 4 * k, i);
    assert WordAt(a, n + 4 * k) != WordAt(b, n + 4 * k);
  }

  lemma SameWords(sector: nat, a: seq<byte>, b: seq<byte>)
    requires Fits(sector, a) && |a| == |b|
    requires forall j :: 11 * sector <= j < 12 * sector ==> a[j] == b[j]
    ensures forall i :: 0 <= i < sector / 4 ==> WordAt(a, 11 * sector + 4 * i) == WordAt(b, 11 * sector + 4 * i)
  {
    forall i | 0 <= i < sector / 4
      ensures WordAt(a, 11 * sector + 4 * i) == WordAt(b, 11 * sector + 4 * i) {
      var p := 11 * sector + 4 * i;
      assert a[p..p + 4] == b[p..p + 4];
    }
  }

  lemma WordDiffers(a: seq<byte>, b: seq<byte>, p: nat, i: nat)
    requires DifferAt(a, b, i) && p <= i < p + 4 <= |a|
    ensures WordAt(a, p) != WordAt(b, p)
  {
    var (x, y) := (a[p..p + 4], b[p..p + 4]);
    assert x[i - p] != y[i - p] && forall j :: 0 <= j < 4 && j != i - p ==> x[j] == y[j];
  }

  // ---- the mounted super block ----

  const MOUNTED: nat := 2

  function State(sb: seq<byte>): u16
    requires |sb| == 512
  {
    sb[0x6a] as int + sb[0x6b] as int * 0x100
  }

  function WithState(sb: seq<byte>, v: u16): (r: seq<byte>)
    requires |sb| == 512
    ensures |r| == 512 && State(r) == v && forall i :: 0 <= i < 512 && i != 0x6a && i != 0x6b ==> r[i] == sb[i]
  {
    sb[0x6a := v % 0x100][0x6b := v / 0x100]
  }

  predicate IsMounted(v: u16) { v / MOUNTED % 2 == 1 }

  function Mounted(v: u16): (r: u16)
    ensures IsMounted(r) && r % 2 == v % 2 && r / 4 == v / 4
  {
    if IsMounted(v) then v else v + MOUNTED
  }

  function Unmounted(v: u16): (r: u16)
    ensures !IsMounted(r) && r % 2 == v % 2 && r / 4 == v / 4
  {
    if IsMounted(v) then v - MOUNTED else v
  }

  /** The quotient, rounded down. */
  function Over(y: nat, d: nat): (q: nat)
    requires d > 0
    ensures q * d <= y < (q + 1) * d
  {
    y / d
  }

  function Wrap32(x: nat): u32 { x % WORD32 }

  /** The allocated percentage, in the source's 32-bit arithmetic. */
  function Percent(total: u32, free: u32): (p: byte)
    requires 0 < total && free <= total
  {
    Over(Wrap32(Wrap32((total - free) * 100) + total / 2), total) % 0x100
  }

  /** `p` percent is `used` of `total`, rounded to the nearest. */
  predicate Rounded(p: nat, used: nat, total: nat) { p * total <= used * 100 + total / 2 < (p + 1) * total }

  /** The stored percentage is the rounded one if and only if the product fits
    * in 32 bits. */
  lemma PercentExact(total: u32, free: u32)
    requires 0 < total && free <= total
    ensures Rounded(Percent(total, free), total - free, total) <==> (total - free) * 100 + total / 2 < WORD32
  {
    hide Percent;
    var y, q := PercentIs(total, free);
    RoundedIf((total - free) * 100 + total / 2, y, total, q, Percent(total, free));
  }

  /** A full volume of 2^26 clusters is reported as 36 percent full. */
  lemma PercentWraps()
    ensures Percent(0x400_0000, 0) == 36 && Rounded(100, 0x400_0000, 0x400_0000) && !Rounded(36, 0x400_0000, 0x400_0000)
  {
  }

  lemma PercentIs(total: u32, free: u32) returns (y: nat, q: nat)
    requires 0 < total && free <= total
    ensures y == Wrap32((total - free) * 100 + total / 2)
    ensures q * total <= y < (q + 1) * total && Percent(total, free) == q % 0x100
  {
    hide Over, Wrap32;
    var x, half := (total - free) * 100, total / 2;
    SumWraps(x, half);
    y := Wrap32(x + half);
    q := Over(y, total);
  }

  lemma SumWraps(x: nat, y: nat)
    ensures Wrap32(Wrap32(x) + y) == Wrap32(x + y)
  {
  }

  lemma RoundedIf(x: nat, y: nat, total: u32, q: nat, p: nat)
    requires 0 < total && x < 101 * total && y == Wrap32(x) && q * total <= y < (q + 1) * total && p == q % 0x100
    ensures p * total <= x < (p + 1) * total <==> x < WORD32
  {
    if x < WORD32 {
      MulLess(q, 101, total);
    } else {
      Reduced(x);
      MulMonotone(p + 1, q + 1, total);
    }
  }

  lemma Reduced(x: nat)
    requires x >= WORD32
    ensures Wrap32(x) + WORD32 <= x
  {
  }

  lemma MulLess(p: nat, q: nat, d: nat)
    requires p * d < q * d
    ensures p < q
  {
    if q <= p { MulMonotone(q, p, d); }
  }

  /** The super block of a mounted volume and its copy on the device. */
  class SuperBlock {
    const dev: Device
    const readOnly: bool
    var sb: seq<byte>

    /** The device holds the super block up to the bytes that may change. */
    ghost predicate Valid()
      reads this, dev
    {
      && dev.Valid() && dev.Capacity() >= 12 * 512 && |sb| == 512
      && forall i :: 0 <= i < 512 && i !in BootSkip ==> Image(dev)[i] == sb[i]
    }

    /** Reads the super block, as exfat_mount does. */
    constructor (dev: Device, readOnly: bool)
      requires dev.Valid() && dev.Capacity() >= 12 * 512
      ensures Valid() && this.dev == dev && this.readOnly == readOnly && sb == Image(dev)[..512]
    {
      this.dev, this.readOnly := dev, readOnly;
      var buf := Get(dev, 512, 0);
      this.sb := buf;
    }

    /** commit_super_block: the checksum test accepts the device afterwards
      * exactly when it did before, whatever the sector size. */
    method Commit()
      requires Valid()
      modifies dev
      ensures Valid() && dev.Capacity() == old(dev.Capacity())
      ensures Image(dev) == Splice(old(Image(dev)), 0, sb)
      ensures forall s :: Fits(s, Image(dev)) ==> RegionAccepted(s, Image(dev)) == RegionAccepted(s, old(Image(dev)))
    {
      ghost var was := Image(dev);
      Put(dev, sb, 0);
      ghost var now := Image(dev);
      forall s | Fits(s, now) ensures RegionAccepted(s, now) == RegionAccepted(s, was) {
        SameWords(s, now, was);
        DigestAgrees(WORD32, BootSkip, now[..11 * s], was[..11 * s]);
      }
    }

    /** exfat_soil_super_block */
    method Soil()
      requires Valid()
      modifies this`sb, dev
      ensures Valid() && dev.Capacity() == old(dev.Capacity())
      ensures sb == if readOnly then old(sb) else WithState(old(sb), Mounted(State(old(sb))))
      ensures Image(dev) == if readOnly then old(Image(dev)) else Splice(old(Image(dev)), 0, sb)
      ensures forall s :: Fits(s, Image(dev)) ==> RegionAccepted(s, Image(dev)) == RegionAccepted(s, old(Image(dev)))
    {
      if readOnly { return; }
      sb := WithState(sb, Mounted(State(sb)));
      Commit();
    }

    /** finalize_super_block: the percentage is that of the clusters the bitmap
      * has in use. */
    method Finalize(total: u32, cmap: Bitmap)
      requires Valid() && 0 < total && cmap.Valid() && cmap.size == total
      modifies this`sb, dev
      ensures Valid() && dev.Capacity() == old(dev.Capacity())
      ensures !readOnly ==> !IsMounted(State(sb)) && State(sb) % 2 == State(old(sb)) % 2 && State(sb) / 4 == State(old(sb)) / 4
      ensures !readOnly && old(sb)[0x70] != 0xff ==> CountFree(cmap.bits) <= total && sb[0x70] == Percent(total, CountFree(cmap.bits))
      ensures forall i :: 0 <= i < 512 && i !in BootSkip ==> sb[i] == old(sb)[i]
      ensures readOnly || old(sb)[0x70] == 0xff ==> sb[0x70] == old(sb)[0x70]
      ensures readOnly ==> sb == old(sb)
      ensures Image(dev) == if readOnly then old(Image(dev)) else Splice(old(Image(dev)), 0, sb)
      ensures forall s :: Fits(s, Image(dev)) ==> RegionAccepted(s, Image(dev)) == RegionAccepted(s, old(Image(dev)))
    {
      if readOnly { return; }
      sb := WithState(sb, Unmounted(State(sb)));
      if sb[0x70] != 0xff {
        var free := cmap.CountFreeClusters();
        CountFreeBound(cmap.bits);
        sb := sb[0x70 := Percent(total, free)];
      }
      Commit();
    }
  }
}
