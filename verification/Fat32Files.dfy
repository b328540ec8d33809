/** Finding, reading, writing and deleting FAT32 files (fs/fat32/fat32.c). */
module Fat32Files {
  import opened Bytes
  import opened Chains
  import opened ClusterBitmap
  import opened Fat32Entries
  import opened Fat32Volume
  import opened Ownership

  const PER_CLUSTER: nat := 128       // directory entries in a cluster

  /** All chains are well-formed. */
  ghost predicate Sound(v: Fat32)
    reads v`fat, v`links, v`heap, v`freeClusters, v`chains, v`owner
  {
    v.Base() && |v.links| == v.total + 2 && forall k | k in v.chains :: ChainOk(v.links, v.chains[k])
  }

  /** `dir` has clusters, as every directory does. */
  ghost predicate Present(v: Fat32, dir: Key)
    reads v`chains
  {
    dir in v.chains && v.chains[dir] != []
  }

  ghost function Directory(v: Fat32, dir: Key): seq<byte>
    requires dir in v.chains
    reads v`heap, v`chains
  {
    v.Contents()[dir]
  }

  /** Cluster `k` of a chain holds its bytes from CLUSTER * k on. */
  lemma ClusterBytes(v: Fat32, key: Key, k: nat)
    requires v.Base() && key in v.chains && k < |v.chains[key]|
    ensures 2 <= v.chains[key][k] < v.total + 2 < EOC && |v.heap| == v.total
    ensures |v.Contents()[key]| == CLUSTER * |v.chains[key]|
    ensures v.heap[v.chains[key][k] - 2] == v.Contents()[key][CLUSTER * k..CLUSTER * k + CLUSTER]
  {
    hide OwnedBy, Marks, Raw, InUse, CountFree, Distinct;
    OwnedChain(v.chains, v.owner, v.total + 2, key);
    RawAt(v.heap, v.chains[key], CLUSTER, k);
  }

  /** The end of the scan: nothing is found behind an end mark, nor behind the last slot. */
  lemma NotFound(d: seq<byte>, name: seq<byte>, s: nat)
    requires NoMatch(d, s, name) && (HasSlot(d, s) ==> Mark(d, s) == 0)
    ensures Absent(d, name)
  {
    forall t: nat
      ensures !Found(d, name, t)
    {
      if Found(d, name, t) {
        assert HasSlot(d, t);
        assert t >= s ==> HasSlot(d, s);
      }
    }
  }

  /** Slot `i` of cluster `k` of the directory is slot PER_CLUSTER * k + i of the directory. */
  lemma SlotOfCluster(d: seq<byte>, buffer: seq<byte>, k: nat, i: nat)
    requires CLUSTER * k + CLUSTER <= |d| && buffer == d[CLUSTER * k..CLUSTER * k + CLUSTER] && i < PER_CLUSTER
    ensures HasSlot(d, PER_CLUSTER * k + i)
    ensures Entry(d, PER_CLUSTER * k + i) == Entry(buffer, i) && Mark(d, PER_CLUSTER * k + i) == Mark(buffer, i)
  {
    var p, base := ENTRY * i, CLUSTER * k;
    assert ENTRY * (PER_CLUSTER * k + i) == base + p && p + ENTRY <= CLUSTER;
    SubSlice(d, base, CLUSTER, p, ENTRY);
    assert d[base + p] == buffer[p];
  }

  /** How the scan of one directory cluster ends. */
  datatype Scan = AtEnd | Hit(index: nat) | Onward

  /** The inner loop of fat32_find_entry. */
  method FindInCluster(buffer: seq<byte>, name: seq<byte>, ghost d: seq<byte>, ghost k: nat) returns (r: Scan)
    requires CLUSTER * k + CLUSTER <= |d| && buffer == d[CLUSTER * k..CLUSTER * k + CLUSTER]
    requires NoEnd(d, PER_CLUSTER * k) && NoMatch(d, PER_CLUSTER * k, name)
    ensures r == AtEnd ==> Absent(d, name)
    ensures r.Hit? ==> r.index < PER_CLUSTER && Found(d, name, PER_CLUSTER * k + r.index)
    ensures r == Onward ==> NoEnd(d, PER_CLUSTER * (k + 1)) && NoMatch(d, PER_CLUSTER * (k + 1), name)
  {
    hide Entry, IsVolumeId, NameOf, Absent;
    var i := 0;
    while i < PER_CLUSTER
      invariant i <= PER_CLUSTER
      invariant NoEnd(d, PER_CLUSTER * k + i) && NoMatch(d, PER_CLUSTER * k + i, name)
    {
      SlotOfCluster(d, buffer, k, i);
      if Mark(buffer, i) == 0 {
        NotFound(d, name, PER_CLUSTER * k + i);
        return AtEnd;
      }
      if Matches(buffer, i, name) {
        return Hit(i);
      }
      i := i + 1;
    }
    return Onward;
  }

  /** The cluster behind cluster `k` of a chain, or an end mark behind the last. */
  method NextOf(v: Fat32, ghost key: Key, cur: nat, ghost k: nat) returns (next: nat)
    requires Sound(v) && key in v.chains && k < |v.chains[key]| && cur == v.chains[key][k]
    ensures if k + 1 < |v.chains[key]| then next == v.chains[key][k + 1] && 2 <= next < EOC else next >= EOC
  {
    hide OwnedBy, Marks, CountFree;
    next := v.GetNext(cur);
    if k + 1 < |v.chains[key]| { assert LinkAt(v.links, v.chains[key], false, k); }
  }

  /** fat32_find_entry */
  method FindEntry(v: Fat32, parent: nat, name: seq<byte>, ghost dir: Key)
    returns (found: bool, slot: nat, entry: seq<byte>, cluster: nat, index: nat)
    requires Sound(v) && Present(v, dir) && parent == v.chains[dir][0]
    ensures found ==>
              && Found(Directory(v, dir), name, slot) && entry == Entry(Directory(v, dir), slot)
              && slot == PER_CLUSTER * (slot / PER_CLUSTER) + index && index < PER_CLUSTER
              && slot / PER_CLUSTER < |v.chains[dir]| && cluster == v.chains[dir][slot / PER_CLUSTER]
    ensures !found ==> Absent(Directory(v, dir), name)
  {
    hide Fat32.Base, Fat32.Contents, Absent, Entry, Linked, Matches;
    ghost var d, trail := Directory(v, dir), v.chains[dir];
    ghost var k := 0;
    var cur, base := parent, 0;
    ClusterBytes(v, dir, 0);
    while cur >= 2 && cur < EOC
      invariant k <= |trail| && base == PER_CLUSTER * k
      invariant if k < |trail| then cur == trail[k] && 2 <= cur < EOC else cur >= EOC
      invariant NoEnd(d, base) && NoMatch(d, base, name)
      decreases |trail| - k
    {
      ClusterBytes(v, dir, k);
      var buffer := v.heap[cur - 2];
      var r := FindInCluster(buffer, name, d, k);
      if r == AtEnd {
        return false, 0, [], 0, 0;
      }
      if r.Hit? {
        SlotOfCluster(d, buffer, k, r.index);
        return true, base + r.index, Entry(buffer, r.index), cur, r.index;
      }
      cur := NextOf(v, dir, cur, k);
      k := k + 1;
      base := base + PER_CLUSTER;
    }
    NotFound(d, name, base);
    return false, 0, [], 0, 0;
  }

  /** A live entry points at the chain of its slot, which a directory always has; every other slot has none. */
  ghost predicate EntryOk(chains: map<Key, seq<nat>>, dir: Key, d: seq<byte>, s: nat)
    requires HasSlot(d, s)
  {
    Slot(dir, s) in chains &&
    var chain, first := chains[Slot(dir, s)], FirstOf(Entry(d, s));
    if !Owning(d, s) then chain == []
    else if chain == [] then (first < 2 || first >= EOC) && !IsDirectory(Entry(d, s))
    else first == chain[0]
  }

  ghost predicate EntriesOk(chains: map<Key, seq<nat>>, dir: Key, d: seq<byte>)
  {
    forall s: nat {:trigger HasSlot(d, s)} | HasSlot(d, s) :: EntryOk(chains, dir, d, s)
  }

  /** All chains are well-formed, and the entries of `dir` describe theirs. */
  ghost predicate WellFormed(v: Fat32, dir: Key)
    reads v`fat, v`links, v`heap, v`freeClusters, v`chains, v`owner
  {
    Sound(v) && Present(v, dir) && CleanTail(Directory(v, dir)) && EntriesOk(v.chains, dir, Directory(v, dir))
  }

  function Depth(k: Key): nat { if k.Root? then 0 else 1 + Depth(k.parent) }

  /** No directory is one of its own entries. */
  lemma NotSelf(dir: Key, s: nat)
    ensures Slot(dir, s) != dir
  {
    assert Depth(Slot(dir, s)) == 1 + Depth(dir);
  }

  /** A name as name_to_fat makes it: it does not begin with the end mark, nor with a dot. */
  predicate IsName(name: seq<byte>) { |name| == NAME && name[0] != 0 && name[0] != DOT }

  function Upper(c: byte): byte { if 0x61 <= c <= 0x7a then c - 32 else c }

  /** How many characters of a name come before its first dot, up to eight. */
  predicate IsBase(name: seq<byte>, n: nat) {
    && n <= 8 && n <= |name| && (forall i :: 0 <= i < n ==> name[i] != DOT)
    && (n == 8 || n == |name| || name[n] == DOT)
  }

  /** Letters lose bit 5, everything else stays. */
  lemma UpperLetters(c: byte)
    ensures 0x61 <= c <= 0x7a ==> 0x41 <= Upper(c) <= 0x5a && Upper(c) + 32 == c
    ensures !(0x61 <= c <= 0x7a) ==> Upper(c) == c
    ensures Upper(Upper(c)) == Upper(c)
  {
  }

  /** name_to_fat: upper case, the base padded to eight and the extension to
    * three characters; characters after a base of eight without a dot and
    * after an extension of three are dropped. */
  method NameToFat(name: seq<byte>) returns (r: seq<byte>, ghost n: nat)
    requires 0 !in name
    ensures IsName(r) && IsBase(name, n)
    ensures forall i :: 0 <= i < 8 ==> r[i] == if i < n then Upper(name[i]) else SPACE
    ensures forall i :: 8 <= i < 11 ==>
              r[i] == if n < |name| && name[n] == DOT && n + (i - 7) < |name| then Upper(name[n + (i - 7)]) else SPACE
  {
    r := seq(NAME, _ => SPACE);
    var i := 0;
    while i < |name| && name[i] != DOT && i < 8
      invariant 0 <= i <= 8 && i <= |name| && |r| == NAME
      invariant forall k :: 0 <= k < NAME ==> r[k] == if k < i then Upper(name[k]) else SPACE
      invariant forall k :: 0 <= k < i ==> name[k] != DOT && name[k] != 0
    {
      assert name[i] in name;
      r := r[i := Upper(name[i])];
      i := i + 1;
    }
    n := i;
    if i < |name| && name[i] == DOT {
      i := i + 1;
      var j := 8;
      while i < |name| && j < 11
        invariant 8 <= j <= 11 && i == n + (j - 7) && i <= |name| && |r| == NAME
        invariant forall k :: 0 <= k < 8 ==> r[k] == if k < n then Upper(name[k]) else SPACE
        invariant forall k :: 8 <= k < 11 ==> r[k] == if k < j then Upper(name[n + (k - 7)]) else SPACE
      {
        r := r[j := Upper(name[i])];
        i, j := i + 1, j + 1;
      }
    }
  }

  /** The slot a name is found in belongs to the file. */
  lemma FoundOwns(v: Fat32, dir: Key, name: seq<byte>, s: nat)
    requires WellFormed(v, dir) && IsName(name) && Found(Directory(v, dir), name, s)
    ensures Owning(Directory(v, dir), s) && EntryOk(v.chains, dir, Directory(v, dir), s) && ChainOk(v.links, v.chains[Slot(dir, s)])
  {
    assert Entry(Directory(v, dir), s)[0] == name[0];
  }

  /** The first `n` bytes, or as many as there are. */
  ghost function Prefix(bytes: seq<byte>, n: nat): seq<byte> { bytes[..Min(n, |bytes|)] }

  /** The data loop of fat32_read_file_in. */
  method ReadClusters(v: Fat32, ghost key: Key, first: u32, count: nat) returns (data: seq<byte>)
    requires Sound(v) && key in v.chains
    requires if v.chains[key] == [] then first < 2 || first >= EOC else first == v.chains[key][0]
    ensures data == Prefix(v.Contents()[key], count)
  {
    hide Fat32.Base, Fat32.Contents, ChainOk;
    ghost var chain, bytes := v.chains[key], v.Contents()[key];
    ghost var k := 0;
    var cluster := first;
    var remaining := count;
    data := [];
    if chain != [] { ClusterBytes(v, key, 0); } else { NoBytes(v, key); }
    while cluster >= 2 && cluster < EOC && remaining > 0
      invariant 0 <= remaining == count - |data|
      invariant k <= |chain| && |bytes| == CLUSTER * |chain|
      invariant if k < |chain| then cluster == chain[k] && 2 <= cluster < EOC else cluster < 2 || cluster >= EOC
      invariant remaining > 0 ==> |data| == CLUSTER * k
      invariant |data| <= |bytes| && data == bytes[..|data|]
      decreases |chain| - k
    {
      ClusterBytes(v, key, k);
      var buffer := v.heap[cluster - 2];
      var chunk := Min(remaining, CLUSTER);
      data := data + buffer[..chunk];
      remaining := remaining - chunk;
      cluster := NextOf(v, key, cluster, k);
      k := k + 1;
    }
  }

  lemma NoBytes(v: Fat32, key: Key)
    requires key in v.chains && v.chains[key] == []
    ensures v.Contents()[key] == []
  {
  }

  /** fat32_read_file_in; `slot` is where the name was found. */
  method ReadFileIn(v: Fat32, parent: nat, name: seq<byte>, maxSize: u32, ghost dir: Key)
    returns (rc: int, data: seq<byte>, bytesRead: nat, ghost slot: nat)
    requires WellFormed(v, dir) && parent == v.chains[dir][0] && IsName(name)
    ensures rc == 0 || rc == -1
    ensures rc == -1 ==> Absent(Directory(v, dir), name) && data == []
    ensures rc == 0 ==>
              && Found(Directory(v, dir), name, slot) && Slot(dir, slot) in v.chains
              && bytesRead == Min(SizeOf(Entry(Directory(v, dir), slot)), maxSize)
              && data == Prefix(v.Contents()[Slot(dir, slot)], bytesRead)
  {
    hide Fat32.Base, Fat32.Contents, CleanTail, EntriesOk, Entry, SizeOf, Matches;
    var found, s, entry, cluster, index := FindEntry(v, parent, name, dir);
    slot := s;
    if !found {
      return -1, [], 0, slot;
    }
    FoundOwns(v, dir, name, s);
    bytesRead := Min(SizeOf(entry), maxSize);
    data := ReadClusters(v, Slot(dir, s), FirstOf(entry), bytesRead);
    rc := 0;
  }

  /** The free slot remembered so far, if any: the first one of the slots scanned. */
  datatype Spot = Nowhere | Spot(slot: nat, cluster: nat, index: nat)

  ghost predicate FirstSpot(d: seq<byte>, trail: seq<nat>, scanned: nat, spot: Spot)
  {
    match spot
    case Nowhere => NoneFree(d, scanned)
    case Spot(slot, cluster, index) =>
      slot < scanned && HasSlot(d, slot) && IsFree(d, slot) && NoneFree(d, slot) && Located(trail, slot, cluster, index)
  }

  ghost predicate Located(trail: seq<nat>, slot: nat, cluster: nat, index: nat)
  {
    index < PER_CLUSTER && slot % PER_CLUSTER == index && slot / PER_CLUSTER < |trail| && cluster == trail[slot / PER_CLUSTER]
  }

  lemma LocatedAt(trail: seq<nat>, k: nat, i: nat)
    requires k < |trail| && i < PER_CLUSTER
    ensures Located(trail, PER_CLUSTER * k + i, trail[k], i)
  {
  }

  /** The inner loop of the scan of fat32_write_file_in. */
  method ScanCluster(buffer: seq<byte>, name: seq<byte>, cur: nat, base: nat, before: Spot,
                     ghost d: seq<byte>, ghost trail: seq<nat>, ghost k: nat) returns (r: Scan, spot: Spot)
    requires CLUSTER * k + CLUSTER <= |d| && buffer == d[CLUSTER * k..CLUSTER * k + CLUSTER]
    requires k < |trail| && cur == trail[k] && base == PER_CLUSTER * k
    requires NoEnd(d, base) && NoOccupant(d, base, name) && FirstSpot(d, trail, base, before)
    ensures r.Hit? ==> r.index < PER_CLUSTER && Existing(d, name, base + r.index)
    ensures r == AtEnd ==> spot.Spot? && Vacant(d, name, spot.slot) && Located(trail, spot.slot, spot.cluster, spot.index)
    ensures r == Onward ==>
              && NoEnd(d, base + PER_CLUSTER) && NoOccupant(d, base + PER_CLUSTER, name)
              && FirstSpot(d, trail, base + PER_CLUSTER, spot)
  {
    hide Entry, NameOf, Located;
    spot := before;
    var i := 0;
    while i < PER_CLUSTER
      invariant i <= PER_CLUSTER
      invariant NoEnd(d, base + i) && NoOccupant(d, base + i, name) && FirstSpot(d, trail, base + i, spot)
    {
      SlotOfCluster(d, buffer, k, i);
      LocatedAt(trail, k, i);
      if IsFree(buffer, i) {
        if spot.Nowhere? {
          spot := Spot(base + i, cur, i);
        }
        if Mark(buffer, i) == 0 {
          NoneBeforeEnd(d, name, base + i);
          return AtEnd, spot;
        }
      } else if NameOf(Entry(buffer, i)) == name {
        return Hit(i), spot;
      }
      i := i + 1;
    }
    return Onward, spot;
  }

  lemma NoneBeforeEnd(d: seq<byte>, name: seq<byte>, s: nat)
    requires NoOccupant(d, s, name) && (HasSlot(d, s) ==> Mark(d, s) == 0)
    ensures forall t: nat {:trigger HasSlot(d, t)} | HasSlot(d, t) && NoEnd(d, t + 1) :: !Occupies(d, t, name)
  {
    forall t: nat {:trigger HasSlot(d, t)} | HasSlot(d, t) && NoEnd(d, t + 1)
      ensures !Occupies(d, t, name)
    {
      assert t >= s ==> HasSlot(d, s);
    }
  }

  /** Every slot is taken, none of them by the file. */
  ghost predicate Full(d: seq<byte>, name: seq<byte>)
  {
    forall s: nat {:trigger HasSlot(d, s)} | HasSlot(d, s) :: !IsFree(d, s) && !Occupies(d, s, name)
  }

  lemma NotFull(d: seq<byte>, name: seq<byte>, s: nat)
    requires Chosen(d, name, s)
    ensures !Full(d, name)
  {
    assert HasSlot(d, s);
  }

  /** The directory scan of fat32_write_file_in. */
  method ChooseSlot(v: Fat32, parent: nat, name: seq<byte>, ghost dir: Key) returns (spot: Spot, existing: bool)
    requires Sound(v) && Present(v, dir) && parent == v.chains[dir][0]
    ensures spot == Nowhere ==> Full(Directory(v, dir), name)
    ensures spot.Spot? ==>
              && (if existing then Existing(Directory(v, dir), name, spot.slot) else Vacant(Directory(v, dir), name, spot.slot))
              && Located(v.chains[dir], spot.slot, spot.cluster, spot.index)
  {
    hide Fat32.Base, Fat32.Contents, Entry, Linked, Occupies, Vacant, Located, FirstSpot, NoEnd, NoOccupant, Existing, Full;
    ghost var d, trail := Directory(v, dir), v.chains[dir];
    ghost var k := 0;
    var cur, base := parent, 0;
    spot, existing := Nowhere, false;
    ClusterBytes(v, dir, 0);
    NothingScanned(d, trail, name);
    while cur >= 2 && cur < EOC
      invariant k <= |trail| && base == PER_CLUSTER * k
      invariant if k < |trail| then cur == trail[k] && 2 <= cur < EOC else cur >= EOC
      invariant NoEnd(d, base) && NoOccupant(d, base, name) && FirstSpot(d, trail, base, spot)
      decreases |trail| - k
    {
      ClusterBytes(v, dir, k);
      var r;
      r, spot := ScanCluster(v.heap[cur - 2], name, cur, base, spot, d, trail, k);
      if r == AtEnd {
        return;
      }
      if r.Hit? {
        LocatedAt(trail, k, r.index);
        return Spot(base + r.index, cur, r.index), true;
      }
      cur := NextOf(v, dir, cur, k);
      k := k + 1;
      base := base + PER_CLUSTER;
    }
    NothingLeft(d, trail, name, base, spot);
  }

  lemma NothingScanned(d: seq<byte>, trail: seq<nat>, name: seq<byte>)
    ensures NoEnd(d, 0) && NoOccupant(d, 0, name) && FirstSpot(d, trail, 0, Nowhere)
  {
  }

  lemma NothingLeft(d: seq<byte>, trail: seq<nat>, name: seq<byte>, base: nat, spot: Spot)
    requires !HasSlot(d, base) && NoOccupant(d, base, name) && FirstSpot(d, trail, base, spot)
    ensures spot == Nowhere ==> Full(d, name)
    ensures spot.Spot? ==> Vacant(d, name, spot.slot) && Located(trail, spot.slot, spot.cluster, spot.index)
  {
    NoneBeforeEnd(d, name, base);
    if spot == Nowhere {
      forall s: nat {:trigger HasSlot(d, s)} | HasSlot(d, s)
        ensures !IsFree(d, s) && !Occupies(d, s, name)
      {
        assert s < base;
      }
    }
  }

  /** The write of the directory cluster: the entry of one slot changes, and nothing else. */
  method PutEntry(v: Fat32, cluster: nat, index: nat, entry: seq<byte>, buffer: seq<byte>, ghost dir: Key, ghost slot: nat)
    requires v.Base() && dir in v.chains && Located(v.chains[dir], slot, cluster, index) && |entry| == ENTRY
    requires 2 <= cluster < |v.heap| + 2 && buffer == v.heap[cluster - 2]
    modifies v`heap
    ensures v.Base() && HasSlot(old(Directory(v, dir)), slot)
    ensures v.Contents() == old(v.Contents())[dir := WithEntry(old(Directory(v, dir)), slot, entry)]
  {
    hide OwnedBy, Marks, CountFree, Raw, Stored, InUse;
    ghost var k := slot / PER_CLUSTER;
    StoredWrite(v.heap, v.chains, v.owner, CLUSTER, dir, k, ENTRY * index, entry, ENTRY * slot);
    v.heap := v.heap[cluster - 2 := Splice(buffer, ENTRY * index, entry)];
  }

  /** The chains once slot `s` holds `chain` instead. */
  lemma EntriesMoved(chains: map<Key, seq<nat>>, dir: Key, chain: seq<nat>, d: seq<byte>, s: nat)
    requires EntriesOk(chains, dir, d) && HasSlot(d, s) && EntryOk(chains[Slot(dir, s) := chain], dir, d, s)
    ensures EntriesOk(chains[Slot(dir, s) := chain], dir, d)
  {
    forall t: nat {:trigger HasSlot(d, t)} | HasSlot(d, t)
      ensures EntryOk(chains[Slot(dir, s) := chain], dir, d, t)
    {
      assert EntryOk(chains, dir, d, t);
    }
  }

  /** Writing a slot leaves only end marks behind the end mark. */
  lemma CleanWritten(d: seq<byte>, s: nat, e: seq<byte>)
    requires CleanTail(d) && HasSlot(d, s) && NoEnd(d, s) && |e| == ENTRY && e[0] != 0
    ensures CleanTail(WithEntry(d, s, e))
  {
    var d' := WithEntry(d, s, e);
    forall t: nat, u: nat {:trigger HasSlot(d', t), HasSlot(d', u)} |
      t < u && HasSlot(d', t) && HasSlot(d', u) && Mark(d', t) == 0
      ensures Mark(d', u) == 0
    {
      assert HasSlot(d, t) && HasSlot(d, u);
      EntryWritten(d, s, e, t);
      EntryWritten(d, s, e, u);
    }
  }

  /** The slot is live after the write unless its entry begins with the deletion mark. */
  lemma WrittenOwns(d: seq<byte>, s: nat, e: seq<byte>)
    requires HasSlot(d, s) && NoEnd(d, s) && |e| == ENTRY && e[0] != 0 && e[0] != DOT
    ensures Owning(WithEntry(d, s, e), s) <==> e[0] != DELETED
  {
    var d' := WithEntry(d, s, e);
    EntryWritten(d, s, e, s);
    forall u: nat {:trigger HasSlot(d', u)} | u < s + 1 && HasSlot(d', u)
      ensures Mark(d', u) != 0
    {
      EntryWritten(d, s, e, u);
      assert HasSlot(d, u);
    }
  }

  /** The entries once the slot holds the new entry and the new chain. */
  lemma EntriesWritten(chains: map<Key, seq<nat>>, dir: Key, d: seq<byte>, s: nat, e: seq<byte>, chain: seq<nat>)
    requires EntriesOk(chains, dir, d) && CleanTail(d) && HasSlot(d, s) && NoEnd(d, s)
    requires |e| == ENTRY && e[0] != 0 && e[0] != DOT
    requires if e[0] == DELETED then chain == []
             else if chain == [] then FirstOf(e) < 2 && !IsDirectory(e)
             else FirstOf(e) == chain[0]
    ensures EntriesOk(chains[Slot(dir, s) := chain], dir, WithEntry(d, s, e))
  {
    hide FirstOf, NameOf, IsVolumeId, IsDirectory, CleanTail;
    var d', chains' := WithEntry(d, s, e), chains[Slot(dir, s) := chain];
    forall t: nat {:trigger HasSlot(d', t)} | HasSlot(d', t)
      ensures EntryOk(chains', dir, d', t)
    {
      assert HasSlot(d, t) && EntryOk(chains, dir, d, t);
      EntryWritten(d, s, e, t);
      if t == s {
        WrittenOwns(d, s, e);
      } else {
        WrittenEnd(d, s, e, t);
      }
    }
  }

  /** The chosen slot owns its chain exactly when the file exists; a vacant slot has none. */
  lemma ChosenChain(v: Fat32, dir: Key, name: seq<byte>, s: nat, existing: bool)
    requires WellFormed(v, dir) && IsName(name)
    requires if existing then Existing(Directory(v, dir), name, s) else Vacant(Directory(v, dir), name, s)
    ensures HasSlot(Directory(v, dir), s) && Slot(dir, s) in v.chains
    ensures if existing then Owning(Directory(v, dir), s) && EntryOk(v.chains, dir, Directory(v, dir), s)
            else v.chains[Slot(dir, s)] == [] && !Owning(Directory(v, dir), s)
  {
    var d := Directory(v, dir);
    assert HasSlot(d, s) && EntryOk(v.chains, dir, d, s);
    if existing {
      assert Entry(d, s)[0] == Mark(d, s);
    }
  }

  lemma StoredDropped(heap: seq<seq<byte>>, chains: map<Key, seq<nat>>, key: Key)
    requires key in chains
    ensures Stored(heap, chains[key := []], CLUSTER) == Stored(heap, chains, CLUSTER)[key := []]
  {
  }

  lemma StoredMoved(heap: seq<seq<byte>>, chains: map<Key, seq<nat>>, key: Key, chain: seq<nat>)
    requires key in chains
    ensures Stored(heap, chains[key := chain], CLUSTER)
            == Stored(heap, chains, CLUSTER)[key := Stored(heap, chains[key := chain], CLUSTER)[key]]
  {
  }

  /** fat32_write_file_in frees the clusters of the file it replaces. */
  method Vacate(v: Fat32, entry: seq<byte>, existing: bool, ghost key: Key)
    requires Sound(v) && key in v.chains && |entry| == ENTRY
    requires existing ==>
               if v.chains[key] == [] then FirstOf(entry) < 2 || FirstOf(entry) >= EOC
               else FirstOf(entry) == v.chains[key][0]
    requires !existing ==> v.chains[key] == []
    modifies v`fat, v`links, v`freeClusters, v`owner, v`chains
    ensures Sound(v) && v.chains == old(v.chains)[key := []]
    ensures v.owner == old(v.owner) - Elements(old(v.chains)[key])
    ensures v.Contents() == old(v.Contents())[key := []]
    ensures CountFree(InUse(v.links, v.total)) == CountFree(InUse(old(v.links), v.total)) + |old(v.chains)[key]|
  {
    hide Fat32.Base, FirstOf, Stored, InUse, CountFree, Linked, Ended;
    StoredDropped(v.heap, v.chains, key);
    EmptyChain(v.links);
    if existing {
      v.FreeChain(FirstOf(entry), key);
      EmptyChain(v.links);
      Reassemble(v, key);
    } else {
      assert v.chains == v.chains[key := []];
      assert v.owner - Elements([]) == v.owner;
    }
  }

  /** The cluster that held the file's first byte is in use again when the disk is full: the entry points into
      the clusters just written, and takes over the chain from there. */
  ghost method Salvage(v: Fat32, key: Key, c: nat)
    requires v.Base() && OthersOk(v.links, v.chains, key) && key in v.chains && ChainOk(v.links, v.chains[key])
    requires c in v.chains[key]
    modifies v`owner, v`chains
    ensures v.Base() && OthersOk(v.links, v.chains, key) && key in v.chains && ChainOk(v.links, v.chains[key])
    ensures v.chains == old(v.chains)[key := v.chains[key]] && v.chains[key] != [] && v.chains[key][0] == c
    ensures v.Contents() == old(v.Contents())[key := v.Contents()[key]]
    ensures forall b | b in v.Contents()[key] :: b in old(v.Contents())[key]
  {
    hide OwnedBy, Marks, CountFree, Stored, ChainOk, OthersOk;
    ghost var chain := v.chains[key];
    ghost var j: nat :| j < |chain| && chain[j] == c;
    OwnedSuffix(v.chains, v.owner, v.total + 2, InUse(v.links, v.total), key, j);
    SuffixOk(v.links, chain, j);
    StoredSuffix(v.heap, v.chains, v.owner, v.total + 2, key, j);
    StoredMoved(v.heap, v.chains, key, chain[j..]);
    OthersMoved(v.links, v.chains, key, chain[j..]);
    v.owner := Shifted(v.owner, key, j);
    v.chains := v.chains[key := chain[j..]];
  }

  lemma StoredSuffix(heap: seq<seq<byte>>, chains: map<Key, seq<nat>>, owner: map<nat, Use<Key>>, limit: nat, key: Key, j: nat)
    requires HeapOk(heap, CLUSTER) && limit == |heap| + 2 && OwnedBy(chains, owner, limit) && key in chains && j <= |chains[key]|
    ensures forall b | b in Stored(heap, chains[key := chains[key][j..]], CLUSTER)[key] :: b in Stored(heap, chains, CLUSTER)[key]
  {
    hide OwnedBy, Raw;
    OwnedChain(chains, owner, limit, key);
    RawSuffix(heap, chains[key], CLUSTER, j);
  }

  lemma SuffixOk(links: seq<u32>, chain: seq<nat>, j: nat)
    requires ChainOk(links, chain) && j <= |chain|
    ensures ChainOk(links, chain[j..])
  {
    forall i: nat {:trigger LinkAt(links, chain[j..], false, i)} | i + 1 < |chain[j..]|
      ensures LinkAt(links, chain[j..], false, i)
    {
      assert LinkAt(links, chain, false, j + i);
    }
  }

  /** Leaves the clusters of `key` to nobody. */
  ghost method Abandon(v: Fat32, key: Key)
    requires v.Base() && OthersOk(v.links, v.chains, key) && key in v.chains
    modifies v`owner, v`chains
    ensures v.Base() && OthersOk(v.links, v.chains, key) && v.chains == old(v.chains)[key := []]
    ensures v.owner == Released(old(v.owner), key, 0)
    ensures v.Contents() == old(v.Contents())[key := []]
  {
    hide OwnedBy, CountFree;
    OwnedCut(v.chains, v.owner, v.total + 2, key, 0);
    ReleasedKeys(v.owner, key, 0);
    StoredDropped(v.heap, v.chains, key);
    OthersMoved(v.links, v.chains, key, []);
    assert v.chains[key][..0] == [];
    v.owner := Released(v.owner, key, 0);
    v.chains := v.chains[key := []];
  }

  /** Whether a write finds room: the clusters of the file it replaces count as free. */
  ghost predicate Room(v: Fat32, key: Key, size: nat)
    requires key in v.chains && |v.links| == v.total + 2
    reads v`links, v`chains
  {
    DivRoundUp(size, CLUSTER) <= CountFree(InUse(v.links, v.total)) + |v.chains[key]|
  }

  lemma Reassemble(v: Fat32, key: Key)
    requires v.Base() && OthersOk(v.links, v.chains, key) && key in v.chains && ChainOk(v.links, v.chains[key])
    ensures Sound(v)
  {
  }

  /** The data of fat32_write_file_in; when the disk is full, an existing entry keeps a well-formed chain. */
  method WriteData(v: Fat32, data: seq<byte>, existing: bool, ghost key: Key, ghost c: u32) returns (ok: bool, first: u32)
    requires Sound(v) && key in v.chains && v.chains[key] == []
    requires existing && 2 <= c < EOC ==> c < v.total + 2 && c !in v.owner
    modifies v`fat, v`links, v`freeClusters, v`owner, v`chains, v`heap
    ensures Sound(v) && key in v.chains
    ensures v.chains == old(v.chains)[key := v.chains[key]]
    ensures v.Contents() == old(v.Contents())[key := v.Contents()[key]]
    ensures ok <==> DivRoundUp(|data|, CLUSTER) <= CountFree(InUse(old(v.links), v.total))
    ensures ok ==>
              && v.Contents()[key] == Padded(data)
              && first == (if v.chains[key] == [] then 0 else v.chains[key][0])
    ensures !ok ==> if existing && 2 <= c < EOC then v.chains[key] != [] && v.chains[key][0] == c
                    else v.chains[key] == []
    ensures !ok ==> forall b | b in v.Contents()[key] :: b in data
  {
    hide OwnedBy, Stored, InUse, CountFree, Linked, Ended, Padded, DivRoundUp;
    ok, first := v.WriteClusters(data, key);
    if !ok {
      ghost var chains1, contents1 := v.chains, v.Contents();
      if existing && 2 <= c < EOC {
        AllInUse(v, old(v.owner), v.chains[key], c);
        Salvage(v, key, c);
      } else {
        Abandon(v, key);
        EmptyChain(v.links);
      }
      ChangedTwice(old(v.chains), chains1, v.chains, key);
      ChangedTwice(old(v.Contents()), contents1, v.Contents(), key);
    }
    Reassemble(v, key);
  }

  /** On a full disk a cluster that was free before is one of those just taken. */
  lemma AllInUse(v: Fat32, before: map<nat, Use<Key>>, chain: seq<nat>, c: nat)
    requires v.Base() && CountFree(InUse(v.links, v.total)) == 0 && v.owner - Elements(chain) == before
    requires 2 <= c < v.total + 2 && c !in before
    ensures c in chain
  {
    hide OwnedBy;
    CountFreeZero(InUse(v.links, v.total));
    assert InUse(v.links, v.total)[c - 2];
    assert c in v.owner;
  }

  /**
   * fat32_write_file_in. Whatever the outcome the volume stays well-formed, and no chain and no byte of
   * any other entry changes; a success leaves `data` in the chosen slot.
   */
  method WriteFileIn(v: Fat32, parent: nat, name: seq<byte>, data: seq<byte>, ghost dir: Key)
    returns (rc: int, overDir: bool, ghost slot: nat, ghost first: u32)
    requires WellFormed(v, dir) && parent == v.chains[dir][0] && IsName(name) && |data| < 0x1_0000_0000
    modifies v`fat, v`links, v`freeClusters, v`owner, v`chains, v`heap
    ensures WellFormed(v, dir) && v.chains[dir] == old(v.chains)[dir]
    ensures Full(old(Directory(v, dir)), name) ==> rc == -1 && v.Contents() == old(v.Contents()) && v.chains == old(v.chains)
    ensures !Full(old(Directory(v, dir)), name) ==>
              && Chosen(old(Directory(v, dir)), name, slot) && Slot(dir, slot) in v.chains && Slot(dir, slot) in old(v.chains)
              && rc == (if old(Room(v, Slot(dir, slot), |data|)) then 0 else -1)
              && HasSlot(old(Directory(v, dir)), slot)
              && overDir == (Owning(old(Directory(v, dir)), slot) && IsDirectory(Entry(old(Directory(v, dir)), slot)))
              && v.chains == old(v.chains)[Slot(dir, slot) := v.chains[Slot(dir, slot)]]
              && v.Contents() == old(v.Contents())[Slot(dir, slot) := v.Contents()[Slot(dir, slot)]][dir := Directory(v, dir)]
    ensures rc != 0 ==> Directory(v, dir) == old(Directory(v, dir))
    ensures rc != 0 && !Full(old(Directory(v, dir)), name) ==> forall b | b in v.Contents()[Slot(dir, slot)] :: b in data
    ensures Full(old(Directory(v, dir)), name) ==> !overDir
    ensures rc == 0 ==>
              && HasSlot(old(Directory(v, dir)), slot)
              && Directory(v, dir) == WithEntry(old(Directory(v, dir)), slot, MakeEntry(name, ATTR_ARCHIVE, first, |data|))
              && (name[0] != DELETED ==> v.Contents()[Slot(dir, slot)] == Padded(data))
              && (name[0] != DELETED && v.chains[Slot(dir, slot)] != [] ==> first == v.chains[Slot(dir, slot)][0])
    ensures rc == 0 ==> Recorded(Directory(v, dir), 32 * slot, name, 0x20, first, |data|)
  {
    hide Fat32.Base, Fat32.Contents, CleanTail, EntriesOk, Entry, FirstOf, CountFree, InUse, Padded, DivRoundUp,
         ChainOk, Occupies, Existing, Vacant, Full, MakeEntry, Recorded;
    slot, first := 0, 0;
    ghost var d := Directory(v, dir);
    var spot, existing := ChooseSlot(v, parent, name, dir);
    if spot == Nowhere {
      return -1, false, slot, first;
    }
    slot := spot.slot;
    NotFull(Directory(v, dir), name, slot);
    rc, overDir, first := Replace(v, spot, existing, name, data, dir);
    if rc == 0 {
      EntryOnDisk(d, slot, name, ATTR_ARCHIVE, first, |data|);
      if name[0] != DELETED { EntryFirst(v.chains, dir, d, name, slot, ATTR_ARCHIVE, first, |data|); }
    }
  }

  /** A live entry just written points at the chain of its slot. */
  lemma EntryFirst(chains: map<Key, seq<nat>>, dir: Key, d: seq<byte>, name: seq<byte>, s: nat, attr: byte, first: u32, size: u32)
    requires IsName(name) && name[0] != DELETED && Chosen(d, name, s) && HasSlot(d, s) && attr / 8 % 2 == 0
    requires EntriesOk(chains, dir, WithEntry(d, s, MakeEntry(name, attr, first, size)))
    ensures Slot(dir, s) in chains && (chains[Slot(dir, s)] != [] ==> first == chains[Slot(dir, s)][0])
  {
    hide MakeEntry, Chosen, FirstOf, Entry;
    var e := MakeEntry(name, attr, first, size);
    var d' := WithEntry(d, s, e);
    WrittenFound(d, name, s, e);
    EntryWritten(d, s, e, s);
    assert EntryOk(chains, dir, d', s);
  }

  /** A file that is there starts at its first cluster, or has none. */
  lemma FirstFreed(v: Fat32, dir: Key, s: nat)
    requires WellFormed(v, dir) && HasSlot(Directory(v, dir), s) && Owning(Directory(v, dir), s)
    ensures Slot(dir, s) in v.chains && ChainOk(v.links, v.chains[Slot(dir, s)]) && |v.links| == v.total + 2
    ensures var c := FirstOf(Entry(Directory(v, dir), s));
            if 2 <= c < EOC then c < v.total + 2 && c in Elements(v.chains[Slot(dir, s)])
            else v.chains[Slot(dir, s)] == [] && !IsDirectory(Entry(Directory(v, dir), s))
  {
    assert EntryOk(v.chains, dir, Directory(v, dir), s);
  }

  /** After a write that ran out of space the directory still describes the chains. */
  lemma KeptEntries(chains: map<Key, seq<nat>>, dir: Key, d: seq<byte>, name: seq<byte>, s: nat, existing: bool, chain: seq<nat>)
    requires EntriesOk(chains, dir, d) && HasSlot(d, s)
    requires if existing then Owning(d, s) else Vacant(d, name, s)
    requires var c := FirstOf(Entry(d, s));
             if existing && 2 <= c < EOC then chain != [] && chain[0] == c
             else chain == [] && (existing ==> !IsDirectory(Entry(d, s)))
    ensures EntriesOk(chains[Slot(dir, s) := chain], dir, d)
  {
    hide FirstOf, Entry, IsDirectory;
    if !existing { assert IsFree(d, s); }
    EntriesMoved(chains, dir, chain, d, s);
  }

  /** The end of fat32_write_file_in: the directory entry. */
  method FinishWrite(v: Fat32, spot: Spot, name: seq<byte>, attr: byte, size: u32, first: u32, buffer: seq<byte>,
                     ghost dir: Key, ghost chains0: map<Key, seq<nat>>)
    requires Sound(v) && Present(v, dir) && IsName(name) && spot.Spot? && Slot(dir, spot.slot) in v.chains
    requires Located(v.chains[dir], spot.slot, spot.cluster, spot.index)
    requires 2 <= spot.cluster < |v.heap| + 2 && buffer == v.heap[spot.cluster - 2]
    requires Chosen(Directory(v, dir), name, spot.slot) && CleanTail(Directory(v, dir)) && EntriesOk(chains0, dir, Directory(v, dir))
    requires v.chains == chains0[Slot(dir, spot.slot) := v.chains[Slot(dir, spot.slot)]]
    requires first == if v.chains[Slot(dir, spot.slot)] == [] then 0 else v.chains[Slot(dir, spot.slot)][0]
    requires attr == ATTR_DIRECTORY ==> v.chains[Slot(dir, spot.slot)] != []
    requires attr == ATTR_DIRECTORY || attr == ATTR_ARCHIVE
    modifies v`heap, v`owner, v`chains
    ensures WellFormed(v, dir) && v.chains[dir] == old(v.chains)[dir] && Slot(dir, spot.slot) in v.chains
    ensures v.chains == old(v.chains)[Slot(dir, spot.slot) := v.chains[Slot(dir, spot.slot)]]
    ensures HasSlot(old(Directory(v, dir)), spot.slot)
    ensures Directory(v, dir) == WithEntry(old(Directory(v, dir)), spot.slot, MakeEntry(name, attr, first, size))
    ensures v.Contents() == old(v.Contents())[Slot(dir, spot.slot) := v.Contents()[Slot(dir, spot.slot)]][dir := Directory(v, dir)]
    ensures name[0] == DELETED ==> v.chains[Slot(dir, spot.slot)] == []
    ensures name[0] != DELETED ==>
              v.chains == old(v.chains) && v.Contents()[Slot(dir, spot.slot)] == old(v.Contents())[Slot(dir, spot.slot)]
  {
    hide Fat32.Base, Fat32.Contents, CleanTail, EntriesOk, Entry, FirstOf, ChainOk, Chosen, NoEnd;
    ghost var key, d := Slot(dir, spot.slot), Directory(v, dir);
    NotSelf(dir, spot.slot);
    var entry := MakeEntry(name, attr, first, size);
    PutEntry(v, spot.cluster, spot.index, entry, buffer, dir, spot.slot);
    ChosenReach(d, name, spot.slot);
    CleanWritten(d, spot.slot, entry);
    if name[0] == DELETED {
      assert OthersOk(v.links, v.chains, key);
      Abandon(v, key);
      EmptyChain(v.links);
      Reassemble(v, key);
    }
    assert v.chains == chains0[key := v.chains[key]];
    EntriesWritten(chains0, dir, d, spot.slot, entry, v.chains[key]);
    assert Directory(v, dir) == WithEntry(d, spot.slot, entry);
  }

  /** The rest of fat32_write_file_in, once a slot is chosen. */
  method Replace(v: Fat32, spot: Spot, existing: bool, name: seq<byte>, data: seq<byte>, ghost dir: Key)
    returns (rc: int, overDir: bool, ghost first: u32)
    requires WellFormed(v, dir) && IsName(name) && |data| < 0x1_0000_0000 && spot.Spot?
    requires if existing then Existing(Directory(v, dir), name, spot.slot) else Vacant(Directory(v, dir), name, spot.slot)
    requires Located(v.chains[dir], spot.slot, spot.cluster, spot.index)
    modifies v`fat, v`links, v`freeClusters, v`owner, v`chains, v`heap
    ensures WellFormed(v, dir) && v.chains[dir] == old(v.chains)[dir]
    ensures Slot(dir, spot.slot) in v.chains && Slot(dir, spot.slot) in old(v.chains)
    ensures rc == if old(Room(v, Slot(dir, spot.slot), |data|)) then 0 else -1
    ensures HasSlot(old(Directory(v, dir)), spot.slot)
    ensures overDir == (Owning(old(Directory(v, dir)), spot.slot) && IsDirectory(Entry(old(Directory(v, dir)), spot.slot)))
    ensures rc != 0 ==> forall b | b in v.Contents()[Slot(dir, spot.slot)] :: b in data
    ensures v.chains == old(v.chains)[Slot(dir, spot.slot) := v.chains[Slot(dir, spot.slot)]]
    ensures v.Contents() == old(v.Contents())[Slot(dir, spot.slot) := v.Contents()[Slot(dir, spot.slot)]][dir := Directory(v, dir)]
    ensures rc != 0 ==> Directory(v, dir) == old(Directory(v, dir))
    ensures rc == 0 ==>
              && HasSlot(old(Directory(v, dir)), spot.slot)
              && Directory(v, dir) == WithEntry(old(Directory(v, dir)), spot.slot, MakeEntry(name, ATTR_ARCHIVE, first, |data|))
              && (name[0] != DELETED ==> v.Contents()[Slot(dir, spot.slot)] == Padded(data))
  {
    hide Fat32.Base, Fat32.Contents, CleanTail, EntriesOk, Entry, FirstOf, CountFree, InUse, Padded, DivRoundUp,
         ChainOk, Occupies, NoEnd, NoOccupant, NoneFree, IsFree, MakeEntry;
    ghost var key, d := Slot(dir, spot.slot), Directory(v, dir);
    NotSelf(dir, spot.slot);
    ClusterBytes(v, dir, spot.slot / PER_CLUSTER);
    ChosenChain(v, dir, name, spot.slot, existing);
    var buffer := v.heap[spot.cluster - 2];
    var entry := Entry(buffer, spot.index);
    SlotOfCluster(d, buffer, spot.slot / PER_CLUSTER, spot.index);
    if existing { FirstFreed(v, dir, spot.slot); }
    overDir := existing && IsDirectory(entry);
    OwningChosen(d, name, spot.slot, existing);
    ghost var chains0, contents0 := v.chains, v.Contents();
    Vacate(v, entry, existing, key);
    ghost var chains1, contents1 := v.chains, v.Contents();
    var ok, f := WriteData(v, data, existing, key, FirstOf(entry));
    first := f;
    ghost var chain := v.chains[key];
    ChangedTwice(chains0, chains1, v.chains, key);
    ChangedTwice(contents0, contents1, v.Contents(), key);
    assert Directory(v, dir) == d;
    if !ok {
      KeptEntries(old(v.chains), dir, d, name, spot.slot, existing, chain);
      return -1, overDir, first;
    }
    ClusterBytes(v, dir, spot.slot / PER_CLUSTER);
    chains1, contents1 := v.chains, v.Contents();
    FinishWrite(v, spot, name, ATTR_ARCHIVE, |data|, f, buffer, dir, old(v.chains));
    ChangedTwice(chains0, chains1, v.chains, key);
    ChangedOnTop(contents0, contents1, v.Contents(), key, dir);
    return 0, overDir, first;
  }

  lemma OwningChosen(d: seq<byte>, name: seq<byte>, s: nat, existing: bool)
    requires IsName(name) && if existing then Existing(d, name, s) else Vacant(d, name, s)
    ensures Owning(d, s) == existing
  {
  }

  lemma ChangedOnTop<K, V>(a: map<K, V>, b: map<K, V>, c: map<K, V>, k: K, j: K)
    requires k in b && k in c && j in c && k != j && b == a[k := b[k]] && c == b[k := c[k]][j := c[j]]
    ensures c == a[k := c[k]][j := c[j]]
  {
  }

  lemma FoundPresent(d: seq<byte>, name: seq<byte>, s: nat)
    requires Found(d, name, s)
    ensures !Absent(d, name)
  {
    assert HasSlot(d, s);
  }

  /** A file written under any name that does not look deleted reads back; any other name is lost. */
  method WriteThenRead(v: Fat32, parent: nat, name: seq<byte>, data: seq<byte>, maxSize: u32, ghost dir: Key)
    returns (wrote: int, rc: int, out: seq<byte>, bytesRead: nat)
    requires WellFormed(v, dir) && parent == v.chains[dir][0] && IsName(name) && |data| <= maxSize
    modifies v`fat, v`links, v`freeClusters, v`owner, v`chains, v`heap
    ensures wrote == 0 && name[0] != DELETED ==> rc == 0 && out == data && bytesRead == |data|
    ensures wrote == 0 && name[0] == DELETED ==> rc == -1
  {
    hide Sound, EntriesOk, CleanTail, Fat32.Contents, Entry, Chosen, Found, Absent, Full, Room, Prefix, Padded;
    ghost var d := Directory(v, dir);
    ghost var slot, first, found;
    var overDir;
    wrote, overDir, slot, first := WriteFileIn(v, parent, name, data, dir);
    rc, out, bytesRead, found := ReadFileIn(v, parent, name, maxSize, dir);
    if wrote == 0 {
      ghost var e := MakeEntry(name, ATTR_ARCHIVE, first, |data|);
      ReadsBack(d, name, slot, e, data);
      if rc == 0 { FoundPresent(Directory(v, dir), name, found); }
      if rc == 0 && name[0] != DELETED { FoundOnce(Directory(v, dir), name, slot, found); }
    }
  }

  lemma ReadsBack(d: seq<byte>, name: seq<byte>, s: nat, e: seq<byte>, data: seq<byte>)
    requires IsName(name) && Chosen(d, name, s) && |e| == ENTRY && NameOf(e) == name && e[11] == ATTR_ARCHIVE
    ensures HasSlot(d, s)
    ensures var d' := WithEntry(d, s, e);
            && HasSlot(d', s) && Entry(d', s) == e
            && (if name[0] != DELETED then Found(d', name, s) && !Absent(d', name) else Absent(d', name))
    ensures Prefix(Padded(data), |data|) == data
  {
    ChosenReach(d, name, s);
    WrittenFound(d, name, s, e);
    EntryWritten(d, s, e, s);
  }

  /** The lookup of another name ends in the same slot, with the same entry, before and after. */
  lemma SameLookup(d: seq<byte>, name: seq<byte>, s: nat, e: seq<byte>, other: seq<byte>)
    requires |e| == ENTRY && NameOf(e) == name && name[0] != 0 && other != name && Chosen(d, name, s) && CleanTail(d)
    ensures HasSlot(d, s)
    ensures var d' := WithEntry(d, s, e);
            && (Absent(d', other) <==> Absent(d, other))
            && forall t: nat {:trigger Found(d, other, t)} {:trigger Found(d', other, t)} ::
                 && (Found(d', other, t) <==> Found(d, other, t))
                 && (Found(d, other, t) ==> t != s && Entry(d', t) == Entry(d, t))
  {
    ChosenReach(d, name, s);
    var d' := WithEntry(d, s, e);
    forall t: nat
      ensures Found(d', other, t) <==> Found(d, other, t)
      ensures Found(d, other, t) ==> t != s && Entry(d', t) == Entry(d, t)
    {
      OtherNames(d, name, s, e, other, t);
      NotChosen(d, name, s, other, t);
      if Found(d, other, t) { EntryWritten(d, s, e, t); }
    }
    hide Found;
    if Absent(d, other) {
      forall t: nat {:trigger HasSlot(d', t)}
        ensures !Found(d', other, t)
      {
        assert HasSlot(d, t) == HasSlot(d', t);
      }
    }
    if Absent(d', other) {
      forall t: nat {:trigger HasSlot(d, t)}
        ensures !Found(d, other, t)
      {
        assert HasSlot(d', t) == HasSlot(d, t);
      }
    }
  }

  /** The slot chosen for one name is not where another name is found. */
  lemma NotChosen(d: seq<byte>, name: seq<byte>, s: nat, other: seq<byte>, t: nat)
    requires Chosen(d, name, s) && other != name
    ensures Found(d, other, t) ==> t != s
  {
    assert HasSlot(d, s);
  }

  /** Reading any other name gives the same before and after a write, whether the write succeeds or not. */
  method ReadAround(v: Fat32, parent: nat, name: seq<byte>, data: seq<byte>, other: seq<byte>, maxSize: u32, ghost dir: Key)
    returns (wrote: int, rc1: int, out1: seq<byte>, rc2: int, out2: seq<byte>)
    requires WellFormed(v, dir) && parent == v.chains[dir][0] && IsName(name) && IsName(other) && other != name
    requires |data| < 0x1_0000_0000
    modifies v`fat, v`links, v`freeClusters, v`owner, v`chains, v`heap
    ensures rc1 == rc2 && out1 == out2
  {
    hide Sound, EntriesOk, CleanTail, Fat32.Contents, Entry, Chosen, Found, Absent, Full, Room, Prefix, Padded;
    ghost var d := Directory(v, dir);
    ghost var slot, first, s1, s2;
    var n1, n2;
    rc1, out1, n1, s1 := ReadFileIn(v, parent, other, maxSize, dir);
    var overDir;
    wrote, overDir, slot, first := WriteFileIn(v, parent, name, data, dir);
    rc2, out2, n2, s2 := ReadFileIn(v, parent, other, maxSize, dir);
    if wrote == 0 {
      SameLookup(d, name, slot, MakeEntry(name, ATTR_ARCHIVE, first, |data|), other);
    }
    if rc1 == 0 && rc2 == 0 {
      FoundOnce(d, other, s1, s2);
      NotSelf(dir, s1);
      if !Full(d, name) { NotChosen(d, name, slot, other, s1); }
    }
    if rc1 == 0 { FoundPresent(d, other, s1); }
    if rc2 == 0 { FoundPresent(Directory(v, dir), other, s2); }
  }
}
