/** The block device and its byte-addressed read and write (fs/exfat/io.c). */
module BlockDevice {
  import opened Bytes

  const SECTOR: nat := 512

  ghost predicate WellFormed(sectors: seq<seq<byte>>)
  {
    forall i | 0 <= i < |sectors| :: |sectors[i]| == SECTOR
  }

  /** The byte at absolute position `p`. */
  ghost function ByteAt(sectors: seq<seq<byte>>, p: nat): byte
    requires WellFormed(sectors)
    requires p < SECTOR * |sectors|
  {
    sectors[p / SECTOR][p % SECTOR]
  }

  /** Rewriting part of one sector changes just those bytes. */
  lemma SectorSplice(sectors: seq<seq<byte>>, sector: nat, off: nat, data: seq<byte>, p: nat)
    requires WellFormed(sectors) && sector < |sectors| && off + |data| <= SECTOR && p < SECTOR * |sectors|
    ensures WellFormed(sectors[sector := Splice(sectors[sector], off, data)])
    ensures var at := sector * SECTOR + off;
            ByteAt(sectors[sector := Splice(sectors[sector], off, data)], p)
            == if at <= p < at + |data| then data[p - at] else ByteAt(sectors, p)
  {
    var q, r := p / SECTOR, p % SECTOR;
    assert p == q * SECTOR + r && q < |sectors|;
    if q < sector { assert (q + 1) * SECTOR <= sector * SECTOR; }
    if q > sector { assert (sector + 1) * SECTOR <= q * SECTOR; }
  }

  class Device {
    const partition: nat               // exfat_partition_offset, in sectors
    var sectors: seq<seq<byte>>

    ghost predicate Valid()
      reads this
    {
      WellFormed(sectors)
    }

    /** Bytes the partition holds. */
    ghost function Capacity(): int
      reads this
    {
      SECTOR * (|sectors| - partition)
    }

    ghost function At(offset: nat): byte
      requires Valid()
      requires offset < Capacity()
      reads this
    {
      ByteAt(sectors, partition * SECTOR + offset)
    }

    constructor (partition: nat, sectors: seq<seq<byte>>)
      requires WellFormed(sectors)
      ensures Valid() && this.partition == partition && this.sectors == sectors
    {
      this.partition := partition;
      this.sectors := sectors;
    }

    /** exfat_pread: sector by sector, at most one sector's worth per round. */
    method Pread(size: nat, offset: nat) returns (buffer: seq<byte>)
      requires Valid()
      requires offset + size <= Capacity()
      ensures |buffer| == size
      ensures forall i | 0 <= i < size :: buffer[i] == At(offset + i)
    {
      buffer := [];
      var pos := offset + partition * SECTOR;
      var remaining := size;
      while remaining > 0
        invariant 0 <= remaining <= size
        invariant |buffer| == size - remaining
        invariant pos == offset + partition * SECTOR + |buffer|
        invariant forall i | 0 <= i < |buffer| :: buffer[i] == At(offset + i)
      {
        var sector, off := pos / SECTOR, pos % SECTOR;
        var sectorBuf := sectors[sector];
        var chunk := Min(remaining, SECTOR - off);
        buffer := buffer + sectorBuf[off..off + chunk];
        pos := pos + chunk;
        remaining := remaining - chunk;
      }
    }

    /** exfat_pwrite: read, modify and write back each sector touched. */
    method Pwrite(buffer: seq<byte>, offset: nat)
      requires Valid()
      requires offset + |buffer| <= Capacity()
      modifies this
      ensures Valid() && |sectors| == old(|sectors|)
      ensures forall i: nat | i < Capacity() ::
                At(i) == if offset <= i < offset + |buffer| then buffer[i - offset] else old(At(i))
      ensures forall i | 0 <= i < partition :: sectors[i] == old(sectors)[i]
    {
      hide ByteAt;
      var done := 0;
      var pos := offset + partition * SECTOR;
      while done < |buffer|
        invariant done <= |buffer|
        invariant pos == offset + partition * SECTOR + done
        invariant Valid() && |sectors| == old(|sectors|)
        invariant forall p: nat | p < SECTOR * |sectors| ::
                    ByteAt(sectors, p) ==
                    if offset + partition * SECTOR <= p < pos
                    then buffer[p - offset - partition * SECTOR]
                    else ByteAt(old(sectors), p)
        invariant forall i | 0 <= i < partition :: sectors[i] == old(sectors)[i]
      {
        var sector, off := pos / SECTOR, pos % SECTOR;
        var sectorBuf := sectors[sector];
        var chunk := Min(|buffer| - done, SECTOR - off);
        ghost var data, was := buffer[done..done + chunk], sectors;
        sectorBuf := Splice(sectorBuf, off, buffer[done..done + chunk]);
        sectors := sectors[sector := sectorBuf];
        assert pos == sector * SECTOR + off;
        SectorSplice(was, sector, off, data, 0);
        forall p: nat | p < SECTOR * |sectors|
          ensures ByteAt(sectors, p) == if pos <= p < pos + chunk then buffer[done + (p - pos)] else ByteAt(was, p)
        {
          SectorSplice(was, sector, off, data, p);
        }
        done := done + chunk;
        pos := pos + chunk;
      }
    }
  }
}
