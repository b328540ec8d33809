/** FAT entries and cluster contents as regions of the device (fs/exfat/cluster.c). */
module ClusterStore {
  import opened Bytes
  import opened BlockDevice
  import opened Checksums

  const FIRST_DATA_CLUSTER: u32 := 2
  const CLUSTER_FREE: u32 := 0
  const CLUSTER_END: u32 := 0xffff_ffff
  const LAST_DATA_CLUSTER: u32 := 0xffff_fff6

  /** The first `n` bytes of the device. */
  ghost function HeadOf(dev: Device, n: nat): (head: seq<byte>)
    requires dev.Valid() && n <= dev.Capacity()
    reads dev
    ensures |head| == n && forall i | 0 <= i < n :: head[i] == dev.At(i)
  {
    seq(n, i requires 0 <= i < n && dev.Valid() && n <= dev.Capacity() reads dev => dev.At(i))
  }

  /** `bytes` under `data`, which starts `p` bytes before them. */
  function Overlaid(bytes: seq<byte>, p: int, data: seq<byte>): (r: seq<byte>)
    ensures |r| == |bytes| && forall i | 0 <= i < |r| :: r[i] == if 0 <= p + i < |data| then data[p + i] else bytes[i]
  {
    seq(|bytes|, i requires 0 <= i < |bytes| => if 0 <= p + i < |data| then data[p + i] else bytes[i])
  }

  /**
   * The heap and the FAT of a mounted volume. `fat` and `heap` are the abstract
   * contents of the two regions; `Valid` ties them to the bytes of the device,
   * and says that what lies before the FAT is as it was found, but for the bytes
   * of the super block that may change.
   */
  class Store {
    const dev: Device
    const sectorSize: nat
    const spc: nat                     // sectors per cluster
    const fatSectorStart: nat
    const clusterSectorStart: nat
    const clusterCount: nat
    ghost const head: seq<byte>        // the device before the FAT
    ghost var fat: seq<u32>            // fat[c] for 2 <= c < clusterCount + 2
    ghost var heap: seq<seq<byte>>     // heap[c - 2] is the contents of cluster c

    function ClusterSize(): nat { sectorSize * spc }

    /** Negation of CLUSTER_INVALID */
    predicate InHeap(c: int) { FIRST_DATA_CLUSTER <= c < clusterCount + 2 }

    function FatOffset(c: nat): nat { fatSectorStart * sectorSize + c * 4 }

    /** exfat_c2o */
    function C2o(c: nat): nat
      requires InHeap(c)
    {
      (clusterSectorStart + (c - FIRST_DATA_CLUSTER) * spc) * sectorSize
    }

    /** The FAT ends before the heap begins and the heap ends inside the device. */
    ghost predicate Geometry()
      reads dev
    {
      && sectorSize > 0 && spc > 0
      && clusterCount + 1 <= LAST_DATA_CLUSTER
      && FatOffset(clusterCount + 2) <= clusterSectorStart * sectorSize
      && clusterSectorStart * sectorSize + clusterCount * ClusterSize() <= dev.Capacity()
    }

    ghost function FatBytes(c: nat): seq<byte>
      requires dev.Valid() && Geometry() && InHeap(c)
      reads dev
    {
      Extent(c);
      var o := FatOffset(c);
      [dev.At(o), dev.At(o + 1), dev.At(o + 2), dev.At(o + 3)]
    }

    ghost function HeapByte(c: nat, i: nat): byte
      requires dev.Valid() && Geometry() && InHeap(c) && i < ClusterSize()
      reads dev
    {
      Extent(c);
      dev.At(C2o(c) + i)
    }

    /** Cluster `c` occupies its own stretch of the device, after the FAT. */
    lemma Extent(c: nat)
      requires Geometry() && InHeap(c)
      ensures C2o(c) == clusterSectorStart * sectorSize + (c - 2) * ClusterSize()
      ensures FatOffset(c) + 4 <= clusterSectorStart * sectorSize <= C2o(c)
      ensures C2o(c) + ClusterSize() <= dev.Capacity()
      ensures 0 < ClusterSize()
    {
      var k := c - 2;
      assert C2o(c) == clusterSectorStart * sectorSize + (k * spc) * sectorSize;
      assert (k * spc) * sectorSize == k * ClusterSize();
      MulMonotone(k + 1, clusterCount, ClusterSize());
    }

    lemma Apart(c: nat, d: nat)
      requires Geometry() && InHeap(c) && InHeap(d) && c < d
      ensures C2o(c) + ClusterSize() <= C2o(d)
    {
      hide C2o, ClusterSize, Geometry;
      Extent(c);
      Extent(d);
      MulMonotone(c - 1, d - 2, ClusterSize());
    }

    lemma FatInside()
      requires Geometry()
      ensures FatOffset(0) <= dev.Capacity()
    {
    }

    ghost predicate HeadKept()
      requires dev.Valid() && Geometry()
      reads dev
    {
      FatInside();
      |head| == FatOffset(0) && forall i | 0 <= i < |head| && i !in BootSkip :: dev.At(i) == head[i]
    }

    ghost predicate Valid()
      reads this, dev
    {
      && dev.Valid() && Geometry() && HeadKept()
      && |fat| == clusterCount + 2 && |heap| == clusterCount
      && (forall c: nat {:trigger FatBytes(c)} | InHeap(c) :: FromLe32(FatBytes(c)) == fat[c])
      && (forall k | 0 <= k < clusterCount :: |heap[k]| == ClusterSize())
      && (forall c: nat, i: nat {:trigger HeapByte(c, i)} |
            InHeap(c) && i < ClusterSize() :: HeapByte(c, i) == heap[c - 2][i])
    }

    /** Takes the geometry of a super block and reads the regions off the device. */
    constructor (dev: Device, sectorSize: nat, spc: nat, fatSectorStart: nat, clusterSectorStart: nat,
                 clusterCount: nat)
      requires dev.Valid() && sectorSize > 0 && spc > 0 && clusterCount + 1 <= LAST_DATA_CLUSTER
      requires fatSectorStart * sectorSize + (clusterCount + 2) * 4 <= clusterSectorStart * sectorSize
      requires clusterSectorStart * sectorSize + clusterCount * (sectorSize * spc) <= dev.Capacity()
      ensures Valid() && this.dev == dev && this.clusterCount == clusterCount
      ensures this.sectorSize == sectorSize && this.spc == spc && ClusterSize() == sectorSize * spc
      ensures this.fatSectorStart == fatSectorStart && this.clusterSectorStart == clusterSectorStart
    {
      this.dev, this.sectorSize, this.spc := dev, sectorSize, spc;
      this.fatSectorStart, this.clusterSectorStart := fatSectorStart, clusterSectorStart;
      this.clusterCount := clusterCount;
      head := HeadOf(dev, fatSectorStart * sectorSize);
      new;
      fat, heap := FatWords(), Clusters();
    }

    ghost function FatWords(): (words: seq<u32>)
      requires dev.Valid() && Geometry()
      reads dev
      ensures |words| == clusterCount + 2
      ensures forall c: nat {:trigger FatBytes(c)} | InHeap(c) :: FromLe32(FatBytes(c)) == words[c]
    {
      seq(clusterCount + 2, c requires dev.Valid() && Geometry() && 0 <= c < clusterCount + 2 reads dev =>
        if InHeap(c) then FromLe32(FatBytes(c)) else 0)
    }

    ghost function Cluster(c: nat): (bytes: seq<byte>)
      requires dev.Valid() && Geometry() && InHeap(c)
      reads dev
      ensures |bytes| == ClusterSize() && forall i: nat {:trigger HeapByte(c, i)} | i < ClusterSize() :: HeapByte(c, i) == bytes[i]
    {
      seq(ClusterSize(), i requires dev.Valid() && Geometry() && 0 <= i < ClusterSize() reads dev => HeapByte(c, i))
    }

    ghost function Clusters(): (clusters: seq<seq<byte>>)
      requires dev.Valid() && Geometry()
      reads dev
      ensures |clusters| == clusterCount && (forall k | 0 <= k < clusterCount :: |clusters[k]| == ClusterSize())
      ensures forall c: nat, i: nat {:trigger HeapByte(c, i)} | InHeap(c) && i < ClusterSize() :: HeapByte(c, i) == clusters[c - 2][i]
    {
      seq(clusterCount, k requires dev.Valid() && Geometry() && 0 <= k < clusterCount reads dev => Cluster(k + 2))
    }

    /** exfat_pwrite behind the FAT's beginning. */
    method Poke(data: seq<byte>, offset: nat)
      requires dev.Valid() && Geometry() && HeadKept() && FatOffset(0) <= offset && offset + |data| <= dev.Capacity()
      modifies dev
      ensures dev.Valid() && Geometry() && HeadKept() && dev.Capacity() == old(dev.Capacity())
      ensures forall i: nat | i < dev.Capacity() ::
                dev.At(i) == if offset <= i < offset + |data| then data[i - offset] else old(dev.At(i))
    {
      dev.Pwrite(data, offset);
    }

    /** The heap under `data`, which starts with cluster `c`. */
    ghost function Layered(heap: seq<seq<byte>>, c: nat, data: seq<byte>): (h: seq<seq<byte>>)
      requires |heap| == clusterCount && InHeap(c)
      ensures |h| == clusterCount && forall k | 0 <= k < |h| :: |h[k]| == |heap[k]|
    {
      seq(clusterCount, k requires 0 <= k < clusterCount => Overlaid(heap[k], C2o(k + 2) - C2o(c), data))
    }

    lemma OverlaidAt(heap: seq<seq<byte>>, c: nat, data: seq<byte>, k: nat, i: nat)
      requires |heap| == clusterCount && InHeap(c) && k < clusterCount && i < |heap[k]|
      ensures var p := C2o(k + 2) - C2o(c) + i; Layered(heap, c, data)[k][i] == if 0 <= p < |data| then data[p] else heap[k][i]
    {
      hide C2o;
    }

    /** `n` bytes from the start of cluster `c` on lie inside the heap. */
    ghost predicate HasRoom(c: nat, n: nat) { (c - 2) * ClusterSize() + n <= clusterCount * ClusterSize() }

    /** One write over consecutive clusters, from the start of `c` on: a byte of
      * the heap changes exactly where the data falls. */
    method WriteRun(c: nat, data: seq<byte>)
      requires Valid() && InHeap(c) && HasRoom(c, |data|)
      modifies this`heap, dev
      ensures Valid() && fat == old(fat) && |old(heap)| == clusterCount && dev.Capacity() == old(dev.Capacity())
      ensures heap == Layered(old(heap), c, data)
      ensures forall i: nat | i < |data| :: C2o(c) + i < dev.Capacity() && dev.At(C2o(c) + i) == data[i]
    {
      hide FromLe32, ClusterSize, C2o, HasRoom, Geometry, HeadKept, FatOffset, Layered, Overlaid;
      Extent(c);
      WriteInside(c, |data|);
      Poke(data, C2o(c));
      ghost var was := heap;
      heap := Layered(was, c, data);
      forall d: nat {:trigger FatBytes(d)} | InHeap(d)
        ensures FromLe32(FatBytes(d)) == fat[d]
      {
        Extent(d);
        assert FatBytes(d) == old(FatBytes(d));
      }
      forall d: nat, i: nat {:trigger HeapByte(d, i)} | InHeap(d) && i < ClusterSize()
        ensures HeapByte(d, i) == heap[d - 2][i]
      {
        Extent(d);
        assert old(HeapByte(d, i)) == was[d - 2][i];
        OverlaidAt(was, c, data, d - 2, i);
      }
      hide FatBytes, HeapByte;
    }

    lemma InFat(c: nat)
      requires Geometry() && InHeap(c)
      ensures FatOffset(0) <= FatOffset(c) && FatOffset(0) <= C2o(c)
    {
      hide C2o, ClusterSize;
      Extent(c);
    }

    lemma WriteInside(c: nat, n: nat)
      requires Geometry() && InHeap(c) && HasRoom(c, n)
      ensures FatOffset(0) <= C2o(c) && C2o(c) + n <= dev.Capacity()
    {
      hide C2o, ClusterSize;
      Extent(c);
    }

    lemma Distance(c: nat, d: nat)
      requires Geometry() && InHeap(c) && InHeap(d)
      ensures C2o(d) - C2o(c) == (d - 2 - (c - 2)) * ClusterSize()
    {
      hide C2o, ClusterSize, Geometry;
      Extent(c);
      Extent(d);
    }

    /** The FAT branch of exfat_next_cluster */
    method Next(c: nat) returns (next: u32)
      requires Valid() && InHeap(c)
      ensures next == fat[c]
    {
      Extent(c);
      var entry := dev.Pread(4, FatOffset(c));
      assert entry == FatBytes(c);
      next := FromLe32(entry);
    }

    /** The FAT branch of set_next_cluster */
    method SetNext(c: nat, next: u32)
      requires Valid() && InHeap(c)
      modifies this`fat, dev
      ensures Valid() && fat == old(fat)[c := next] && heap == old(heap)
      ensures dev.Capacity() == old(dev.Capacity())
    {
      hide Geometry, HeadKept, C2o, FromLe32;
      Extent(c);
      InFat(c);
      Poke(ToLe32(next), FatOffset(c));
      fat := fat[c := next];
      forall d: nat {:trigger FatBytes(d)} | InHeap(d)
        ensures FromLe32(FatBytes(d)) == fat[d]
      {
        Extent(d);
        if d == c {
          assert FatBytes(d) == ToLe32(next);
        } else {
          assert FatBytes(d) == old(FatBytes(d));
        }
      }
      forall d: nat, i: nat {:trigger HeapByte(d, i)} | InHeap(d) && i < ClusterSize()
        ensures HeapByte(d, i) == heap[d - 2][i]
      {
        Extent(d);
        assert HeapByte(d, i) == old(HeapByte(d, i));
      }
    }

    /** exfat_pread at a position inside a cluster */
    method Read(c: nat, at: nat, n: nat) returns (data: seq<byte>)
      requires Valid() && InHeap(c) && at + n <= ClusterSize()
      ensures data == heap[c - 2][at..at + n]
    {
      Extent(c);
      data := dev.Pread(n, C2o(c) + at);
      forall i | 0 <= i < n
        ensures data[i] == heap[c - 2][at + i]
      {
        assert data[i] == HeapByte(c, at + i);
      }
    }

    /** exfat_pwrite at a position inside a cluster */
    method Write(c: nat, at: nat, data: seq<byte>)
      requires Valid() && InHeap(c) && at + |data| <= ClusterSize()
      modifies this`heap, dev
      ensures Valid() && fat == old(fat)
      ensures heap == old(heap)[c - 2 := Splice(old(heap)[c - 2], at, data)]
      ensures dev.Capacity() == old(dev.Capacity())
    {
      hide Geometry, HeadKept, C2o, FatOffset, FromLe32, ClusterSize;
      Extent(c);
      InFat(c);
      Poke(data, C2o(c) + at);
      heap := heap[c - 2 := Splice(heap[c - 2], at, data)];
      forall d: nat {:trigger FatBytes(d)} | InHeap(d)
        ensures FromLe32(FatBytes(d)) == fat[d]
      {
        Extent(d);
        assert FatBytes(d) == old(FatBytes(d));
      }
      forall d: nat, i: nat {:trigger HeapByte(d, i)} | InHeap(d) && i < ClusterSize()
        ensures HeapByte(d, i) == heap[d - 2][i]
      {
        Extent(d);
        if d < c { Apart(d, c); }
        if c < d { Apart(c, d); }
        assert old(HeapByte(d, i)) == old(heap)[d - 2][i];
      }
      hide FatBytes, HeapByte;
    }
  }
}
