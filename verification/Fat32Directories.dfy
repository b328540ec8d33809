/** Deleting files, and creating and deleting directories, on FAT32 (fs/fat32/fat32.c). */
module Fat32Directories {
  import opened Bytes
  import opened ClusterBitmap
  import opened Fat32Entries
  import opened Fat32Volume
  import opened Fat32Files
  import opened Ownership

  /** Marks a slot deleted whose chain has been given up. */
  method MarkDeleted(v: Fat32, cluster: nat, index: nat, entry: seq<byte>,
                     ghost dir: Key, ghost slot: nat, ghost chains0: map<Key, seq<nat>>)
    requires Sound(v) && Present(v, dir) && Slot(dir, slot) in v.chains && v.chains[Slot(dir, slot)] == []
    requires Located(v.chains[dir], slot, cluster, index)
    requires HasSlot(Directory(v, dir), slot) && NoEnd(Directory(v, dir), slot) && entry == Entry(Directory(v, dir), slot)
    requires CleanTail(Directory(v, dir)) && EntriesOk(chains0, dir, Directory(v, dir)) && v.chains == chains0[Slot(dir, slot) := []]
    modifies v`heap
    ensures WellFormed(v, dir)
    ensures v.Contents() == old(v.Contents())[dir := WithEntry(old(Directory(v, dir)), slot, entry[0 := DELETED])]
  {
    hide Fat32.Base, Fat32.Contents, CleanTail, EntriesOk, Entry, FirstOf, ChainOk, NoEnd;
    ghost var d := Directory(v, dir);
    ClusterBytes(v, dir, slot / PER_CLUSTER);
    var buffer := v.heap[cluster - 2];
    PutEntry(v, cluster, index, entry[0 := DELETED], buffer, dir, slot);
    CleanWritten(d, slot, entry[0 := DELETED]);
    EntriesWritten(chains0, dir, d, slot, entry[0 := DELETED], []);
  }

  lemma FoundReach(d: seq<byte>, name: seq<byte>, s: nat)
    requires Found(d, name, s)
    ensures HasSlot(d, s) && NoEnd(d, s)
  {
  }

  /** fat32_delete_file: gives back every cluster of the file. */
  method DeleteFile(v: Fat32, parent: nat, name: seq<byte>, ghost dir: Key) returns (rc: int, ghost slot: nat)
    requires WellFormed(v, dir) && parent == v.chains[dir][0] && IsName(name)
    modifies v`fat, v`links, v`freeClusters, v`owner, v`chains, v`heap
    ensures WellFormed(v, dir) && v.chains[dir] == old(v.chains)[dir]
    ensures rc == 0 || rc == -1
    ensures rc == -1 ==> Absent(old(Directory(v, dir)), name) && v.Contents() == old(v.Contents()) && v.links == old(v.links)
                         && v.chains == old(v.chains)
    ensures rc == 0 ==>
              && Found(old(Directory(v, dir)), name, slot) && Slot(dir, slot) in old(v.chains)
              && v.chains == old(v.chains)[Slot(dir, slot) := []]
              && v.Contents() == old(v.Contents())[Slot(dir, slot) := []]
                 [dir := WithEntry(old(Directory(v, dir)), slot, Entry(old(Directory(v, dir)), slot)[0 := DELETED])]
              && |v.links| == |old(v.links)| == v.total + 2
              && CountFree(InUse(v.links, v.total)) == CountFree(InUse(old(v.links), v.total)) + |old(v.chains)[Slot(dir, slot)]|
              && 32 * slot < |Directory(v, dir)| && Directory(v, dir)[32 * slot] == 0xe5
  {
    hide Fat32.Base, Fat32.Contents, CleanTail, EntriesOk, Entry, FirstOf, ChainOk, NoEnd, Matches, NoMatch, CountFree,
         InUse;
    var found, s, entry, cluster, index := FindEntry(v, parent, name, dir);
    slot := s;
    if !found {
      return -1, slot;
    }
    ghost var d := Directory(v, dir);
    FoundOwns(v, dir, name, s);
    FoundReach(d, name, s);
    NotSelf(dir, s);
    FirstFreed(v, dir, s);
    Vacate(v, entry, true, Slot(dir, s));
    assert Directory(v, dir) == d;
    MarkDeleted(v, cluster, index, entry, dir, s, old(v.chains));
    return 0, slot;
  }

  /** The cluster fat32_create_directory_in writes: the dot entries, then end marks. */
  function DotEntries(cluster: u32, dotdot: u32): (b: seq<byte>)
    ensures |b| == CLUSTER
  {
    MakeEntry([DOT] + Blanks(10), ATTR_DIRECTORY, cluster, 0)
    + MakeEntry([DOT, DOT] + Blanks(9), ATTR_DIRECTORY, dotdot, 0)
    + Zeros(CLUSTER - 2 * ENTRY)
  }

  /** The first cluster of a new directory, byte by byte: itself, its parent, and
    * end marks. */
  lemma DotLayout(cluster: u32, dotdot: u32)
    ensures var d := DotEntries(cluster, dotdot);
            && d[0] == 0x2e && (forall i | 1 <= i < 11 :: d[i] == 0x20) && d[11] == 0x10
            && HalfAt(d, 26) == cluster % 0x1_0000 && HalfAt(d, 20) == cluster / 0x1_0000
            && d[32] == 0x2e && d[33] == 0x2e && (forall i | 34 <= i < 43 :: d[i] == 0x20) && d[43] == 0x10
            && HalfAt(d, 58) == dotdot % 0x1_0000 && HalfAt(d, 52) == dotdot / 0x1_0000
            && forall i | 64 <= i < CLUSTER :: d[i] == 0
  {
    hide MakeEntry;
    var (a, b) := (MakeEntry([DOT] + Blanks(10), ATTR_DIRECTORY, cluster, 0), MakeEntry([DOT, DOT] + Blanks(9), ATTR_DIRECTORY, dotdot, 0));
    EntryLayout([DOT] + Blanks(10), ATTR_DIRECTORY, cluster, 0);
    EntryLayout([DOT, DOT] + Blanks(9), ATTR_DIRECTORY, dotdot, 0);
    var d := DotEntries(cluster, dotdot);
    assert forall i | 0 <= i < 32 :: d[i] == a[i];
    assert forall i | 32 <= i < 64 :: d[i] == b[i - 32];
    assert forall i | 0 <= i < 11 :: a[i] == a[..11][i] && b[i] == b[..11][i];
  }

  function Blanks(n: nat): (b: seq<byte>)
    ensures |b| == n
  {
    seq(n, _ => SPACE)
  }

  /** The cluster of a new directory; 0 when the disk is full. */
  method NewDirectory(v: Fat32, dotdot: u32, ghost key: Key) returns (cluster: u32)
    requires Sound(v) && key in v.chains && v.chains[key] == []
    modifies v`fat, v`links, v`freeClusters, v`owner, v`chains, v`heap
    ensures Sound(v) && key in v.chains
    ensures cluster == 0 <==> CountFree(InUse(old(v.links), v.total)) == 0
    ensures v.chains == if cluster == 0 then old(v.chains) else old(v.chains)[key := [cluster]]
    ensures v.Contents() ==
            if cluster == 0 then old(v.Contents()) else old(v.Contents())[key := DotEntries(cluster, dotdot)]
    ensures CountFree(InUse(v.links, v.total)) == CountFree(InUse(old(v.links), v.total)) - if cluster == 0 then 0 else 1
  {
    hide OwnedBy, Marks, CountFree, ChainOk, Stored, InUse, DotEntries;
    cluster := v.AllocateFor(key);
    if cluster == 0 {
      Reassemble(v, key);
      return;
    }
    var buffer := DotEntries(cluster, dotdot);
    StoredAppend(v.heap, v.chains, v.owner, CLUSTER, key, cluster, buffer);
    EmptyStored(v.heap, v.chains, key);
    assert v.chains[key] + [cluster] == [cluster] && [] + buffer == buffer;
    v.Link(0, cluster, key);
    v.heap := v.heap[cluster - 2 := buffer];
    Reassemble(v, key);
  }

  /**
   * fat32_create_directory_in. Its scan skips the dot entries, which are neither free nor ever equal to a
   * name, so it chooses the slot that fat32_write_file_in would.
   */
  method CreateDirectoryIn(v: Fat32, parent: u32, name: seq<byte>, root: u32, ghost dir: Key)
    returns (rc: int, ghost slot: nat, ghost cluster: u32)
    requires WellFormed(v, dir) && parent == v.chains[dir][0] && IsName(name)
    modifies v`fat, v`links, v`freeClusters, v`owner, v`chains, v`heap
    ensures WellFormed(v, dir) && v.chains[dir] == old(v.chains)[dir]
    ensures rc == 0 || rc == -1
    ensures rc == -1 ==> v.Contents() == old(v.Contents()) && v.chains == old(v.chains)
    ensures |v.links| == |old(v.links)| == v.total + 2
    ensures rc == 0 <==> CountFree(InUse(old(v.links), v.total)) > 0 && exists s: nat :: Vacant(old(Directory(v, dir)), name, s)
    ensures CountFree(InUse(v.links, v.total)) == CountFree(InUse(old(v.links), v.total)) - if rc == 0 then 1 else 0
    ensures rc == 0 ==>
              && Vacant(old(Directory(v, dir)), name, slot) && Slot(dir, slot) in old(v.chains) && Slot(dir, slot) in v.chains
              && Directory(v, dir) == WithEntry(old(Directory(v, dir)), slot, MakeEntry(name, ATTR_DIRECTORY, cluster, 0))
              && v.chains == old(v.chains)[Slot(dir, slot) := v.chains[Slot(dir, slot)]]
              && v.Contents() == old(v.Contents())[Slot(dir, slot) := v.Contents()[Slot(dir, slot)]][dir := Directory(v, dir)]
              && (name[0] == DELETED ==> v.chains[Slot(dir, slot)] == [])
              && (name[0] != DELETED ==>
                    && v.chains[Slot(dir, slot)] == [cluster]
                    && v.Contents()[Slot(dir, slot)] == DotEntries(cluster, if parent == root then 0 else parent))
    ensures rc == 0 ==> Recorded(Directory(v, dir), 32 * slot, name, 0x10, cluster, 0)
  {
    hide Fat32.Base, Fat32.Contents, CleanTail, EntriesOk, Entry, FirstOf, CountFree, InUse, DotEntries,
         ChainOk, Occupies, NoEnd, NoOccupant, NoneFree, IsFree, MakeEntry, Recorded;
    slot, cluster := 0, 0;
    var spot, existing := ChooseSlot(v, parent, name, dir);
    if spot == Nowhere || existing {
      NoVacancy(Directory(v, dir), name, spot, existing);
      return -1, slot, cluster;
    }
    slot := spot.slot;
    ghost var key, d := Slot(dir, spot.slot), Directory(v, dir);
    NotSelf(dir, spot.slot);
    ChosenChain(v, dir, name, spot.slot, false);
    ClusterBytes(v, dir, spot.slot / PER_CLUSTER);
    var buffer := v.heap[spot.cluster - 2];
    var c := NewDirectory(v, if parent == root then 0 else parent, key);
    cluster := c;
    if c == 0 {
      return -1, slot, cluster;
    }
    ghost var chains1, contents1 := v.chains, v.Contents();
    assert chains1 == old(v.chains)[key := chains1[key]];
    assert Directory(v, dir) == d;
    ClusterBytes(v, dir, spot.slot / PER_CLUSTER);
    FinishWrite(v, spot, name, ATTR_DIRECTORY, 0, c, buffer, dir, old(v.chains));
    ChangedTwice(old(v.chains), chains1, v.chains, key);
    ChangedOnTop(old(v.Contents()), contents1, v.Contents(), key, dir);
    EntryOnDisk(d, slot, name, ATTR_DIRECTORY, c, 0);
    return 0, slot, cluster;
  }

  /** A directory without a free slot, or with an entry of that name, has no slot for it. */
  lemma NoVacancy(d: seq<byte>, name: seq<byte>, spot: Spot, existing: bool)
    requires if spot == Nowhere then Full(d, name) else existing && Existing(d, name, spot.slot)
    ensures forall s: nat :: !Vacant(d, name, s)
  {
    forall s: nat ensures !Vacant(d, name, s) { assert HasSlot(d, s) ==> !Vacant(d, name, s); }
  }

  ghost predicate Hollow(d: seq<byte>, s: nat)
    requires HasSlot(d, s)
  {
    Mark(d, s) == DELETED || IsDotName(NameOf(Entry(d, s)))
  }

  predicate IsDotName(name: seq<byte>) { name == [DOT] + Blanks(10) || name == [DOT, DOT] + Blanks(9) }

  /** No slot before the end mark holds anything but dot entries. */
  ghost predicate IsEmpty(d: seq<byte>)
  {
    forall s: nat {:trigger HasSlot(d, s)} | HasSlot(d, s) && NoEnd(d, s + 1) :: Hollow(d, s)
  }

  ghost predicate HollowUpTo(d: seq<byte>, n: nat)
  {
    NoEnd(d, n) && forall s: nat {:trigger HasSlot(d, s)} | s < n && HasSlot(d, s) :: Hollow(d, s)
  }

  lemma EmptyUpTo(d: seq<byte>, n: nat)
    requires HollowUpTo(d, n) && (HasSlot(d, n) ==> Mark(d, n) == 0)
    ensures IsEmpty(d)
  {
    forall s: nat {:trigger HasSlot(d, s)} | HasSlot(d, s) && NoEnd(d, s + 1)
      ensures Hollow(d, s)
    {
      assert s >= n ==> HasSlot(d, n);
    }
  }

  /** The inner loop of fat32_is_directory_empty. */
  method EmptyCluster(buffer: seq<byte>, ghost d: seq<byte>, ghost k: nat) returns (r: Scan)
    requires CLUSTER * k + CLUSTER <= |d| && buffer == d[CLUSTER * k..CLUSTER * k + CLUSTER]
    requires HollowUpTo(d, PER_CLUSTER * k)
    ensures r == AtEnd ==> IsEmpty(d)
    ensures r.Hit? ==> !IsEmpty(d)
    ensures r == Onward ==> HollowUpTo(d, PER_CLUSTER * (k + 1))
  {
    hide Entry, NameOf, IsDotName;
    for i := 0 to PER_CLUSTER
      invariant HollowUpTo(d, PER_CLUSTER * k + i)
    {
      SlotOfCluster(d, buffer, k, i);
      if Mark(buffer, i) == 0 {
        EmptyUpTo(d, PER_CLUSTER * k + i);
        return AtEnd;
      }
      if Mark(buffer, i) != DELETED && !IsDotName(NameOf(Entry(buffer, i))) {
        return Hit(i);
      }
    }
    return Onward;
  }

  /** fat32_is_directory_empty */
  method IsDirectoryEmpty(v: Fat32, ghost key: Key, first: nat) returns (empty: bool)
    requires Sound(v) && key in v.chains && v.chains[key] != [] && first == v.chains[key][0]
    ensures empty <==> IsEmpty(v.Contents()[key])
  {
    hide Fat32.Base, Fat32.Contents, ChainOk, IsEmpty, HollowUpTo;
    ghost var d, chain := v.Contents()[key], v.chains[key];
    ghost var k := 0;
    var cur := first;
    ClusterBytes(v, key, 0);
    NothingYet(d);
    while cur >= 2 && cur < EOC
      invariant k <= |chain| && HollowUpTo(d, PER_CLUSTER * k)
      invariant if k < |chain| then cur == chain[k] && 2 <= cur < EOC else cur >= EOC
      decreases |chain| - k
    {
      ClusterBytes(v, key, k);
      var r := EmptyCluster(v.heap[cur - 2], d, k);
      if r == AtEnd {
        return true;
      }
      if r.Hit? {
        return false;
      }
      cur := NextOf(v, key, cur, k);
      k := k + 1;
    }
    EmptyUpTo(d, PER_CLUSTER * k);
    return true;
  }

  lemma NothingYet(d: seq<byte>)
    ensures HollowUpTo(d, 0)
  {
  }

  /** fat32_delete_directory_in frees the first cluster of the directory and leaves any others to nobody. */
  method FreeFirst(v: Fat32, cluster: nat, ghost key: Key)
    requires Sound(v) && key in v.chains && v.chains[key] != [] && cluster == v.chains[key][0]
    modifies v`fat, v`links, v`freeClusters, v`owner, v`chains
    ensures Sound(v) && v.chains == old(v.chains)[key := []]
    ensures v.Contents() == old(v.Contents())[key := []]
    ensures CountFree(InUse(v.links, v.total)) == CountFree(InUse(old(v.links), v.total)) + 1
  {
    hide OwnedBy, Marks, CountFree, ChainOk, Stored, InUse;
    FirstReserved(v.chains, v.owner, v.total + 2, key);
    ghost var uses := Released(v.owner, key, 0);
    Abandon(v, key);
    assert v.owner == uses;
    OthersKept(v.links, v.chains, v.owner, key, cluster, FREE);
    v.FreeCluster(cluster);
    EmptyChain(v.links);
    Reassemble(v, key);
  }

  lemma FirstReserved(chains: map<Key, seq<nat>>, owner: map<nat, Use<Key>>, limit: nat, key: Key)
    requires OwnedBy(chains, owner, limit) && key in chains && chains[key] != []
    ensures chains[key][0] < limit && chains[key][0] in Released(owner, key, 0)
    ensures Released(owner, key, 0)[chains[key][0]] == Reserved
  {
  }

  /** The name is that of an empty directory. */
  ghost predicate Removable(d: seq<byte>, contents: map<Key, seq<byte>>, dir: Key, name: seq<byte>)
  {
    exists s: nat :: Found(d, name, s) && IsDirectory(Entry(d, s)) && Slot(dir, s) in contents && IsEmpty(contents[Slot(dir, s)])
  }

  lemma NothingRemovable(d: seq<byte>, contents: map<Key, seq<byte>>, dir: Key, name: seq<byte>)
    requires Absent(d, name)
    ensures !Removable(d, contents, dir, name)
  {
    hide IsEmpty, IsDirectory;
    forall s: nat ensures !Found(d, name, s) { assert HasSlot(d, s) ==> !Found(d, name, s); }
  }

  lemma RemovableAt(d: seq<byte>, contents: map<Key, seq<byte>>, dir: Key, name: seq<byte>, s: nat)
    requires Found(d, name, s)
    ensures HasSlot(d, s)
    ensures Removable(d, contents, dir, name) <==> IsDirectory(Entry(d, s)) && Slot(dir, s) in contents && IsEmpty(contents[Slot(dir, s)])
  {
    hide IsEmpty, IsDirectory, NoEnd, Matches, NoMatch;
    forall t: nat | Found(d, name, t) ensures t == s { FoundOnce(d, name, s, t); }
  }

  /** fat32_delete_directory_in: succeeds exactly for an empty directory. */
  method DeleteDirectoryIn(v: Fat32, parent: nat, name: seq<byte>, ghost dir: Key) returns (rc: int, ghost slot: nat)
    requires WellFormed(v, dir) && parent == v.chains[dir][0] && IsName(name)
    modifies v`fat, v`links, v`freeClusters, v`owner, v`chains, v`heap
    ensures WellFormed(v, dir) && v.chains[dir] == old(v.chains)[dir]
    ensures rc == -1 ==> v.Contents() == old(v.Contents()) && v.links == old(v.links) && v.chains == old(v.chains)
    ensures rc == 0 ==>
              && Found(old(Directory(v, dir)), name, slot) && Slot(dir, slot) in old(v.chains)
              && IsDirectory(Entry(old(Directory(v, dir)), slot)) && IsEmpty(old(v.Contents())[Slot(dir, slot)])
              && v.chains == old(v.chains)[Slot(dir, slot) := []]
              && v.Contents() == old(v.Contents())[Slot(dir, slot) := []]
                 [dir := WithEntry(old(Directory(v, dir)), slot, Entry(old(Directory(v, dir)), slot)[0 := DELETED])]
    ensures rc == if Removable(old(Directory(v, dir)), old(v.Contents()), dir, name) then 0 else -1
  {
    hide Fat32.Base, Fat32.Contents, CleanTail, EntriesOk, Entry, FirstOf, ChainOk, NoEnd, Matches, NoMatch, CountFree,
         InUse, IsDirectory, IsEmpty, Removable, Absent;
    var found, s, entry, cluster, index := FindEntry(v, parent, name, dir);
    slot := s;
    ghost var d := Directory(v, dir);
    if !found {
      NothingRemovable(d, v.Contents(), dir, name);
      return -1, slot;
    }
    RemovableAt(d, v.Contents(), dir, name, s);
    if !IsDirectory(entry) {
      return -1, slot;
    }
    FoundOwns(v, dir, name, s);
    FoundReach(d, name, s);
    NotSelf(dir, s);
    var first := FirstOf(entry);
    var empty := IsDirectoryEmpty(v, Slot(dir, s), first);
    if !empty {
      return -1, slot;
    }
    FreeFirst(v, first, Slot(dir, s));
    assert Directory(v, dir) == d;
    MarkDeleted(v, cluster, index, entry, dir, s, old(v.chains));
    return 0, slot;
  }
}
