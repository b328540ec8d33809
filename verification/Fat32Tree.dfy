/** The directory tree of a FAT32 volume: what the operations on one directory
  * do to all the others (fs/fat32/fat32.c). */
module Fat32Tree {
  import opened Bytes
  import opened Chains
  import opened ClusterBitmap
  import opened Fat32Entries
  import opened Fat32Volume
  import opened Fat32Files
  import opened Fat32Directories
  import opened Ownership

  /** `k` is an entry of `key`, or of a directory beneath it. */
  predicate Beneath(k: Key, key: Key) { k.Slot? && (k.parent == key || Beneath(k.parent, key)) }

  ghost function Lost(keys: set<Key>, key: Key): set<Key> { set k | k in keys && Beneath(k, key) }

  // ---- the tree, as values ----

  /** A directory entry is one of the directories, or has been damaged. */
  ghost predicate DirsAt(dirs: set<Key>, damaged: set<Key>, dir: Key, d: seq<byte>) {
    forall s: nat {:trigger HasSlot(d, s)} | HasSlot(d, s) ::
      (Slot(dir, s) in dirs || Slot(dir, s) in damaged) <==> (Owning(d, s) && IsDirectory(Entry(d, s)))
  }

  /** One directory: the entries describe the chains and the directories below. */
  ghost predicate DirOk(chains: map<Key, seq<nat>>, dirs: set<Key>, damaged: set<Key>, dir: Key, d: seq<byte>) {
    && dir in chains && chains[dir] != []
    && CleanTail(d) && EntriesOk(chains, dir, d) && DirsAt(dirs, damaged, dir, d)
  }

  /** The chain of `k` is that of a slot of a directory. */
  ghost predicate Home(dirs: set<Key>, contents: map<Key, seq<byte>>, k: Key) {
    k.Root? || (k.parent in dirs && k.parent in contents && HasSlot(contents[k.parent], k.n))
  }

  ghost predicate Tree(chains: map<Key, seq<nat>>, dirs: set<Key>, damaged: set<Key>, contents: map<Key, seq<byte>>) {
    && Root in dirs && dirs !! damaged && contents.Keys == chains.Keys
    && (forall k | k in dirs :: k in contents && DirOk(chains, dirs, damaged, k, contents[k]))
    && (forall k | k in damaged :: k in chains && chains[k] != [])
    && (forall k | k in chains && chains[k] != [] :: Home(dirs, contents, k))
  }

  ghost predicate Whole(v: Fat32)
    reads v
  {
    Sound(v) && Tree(v.chains, v.dirs, v.damaged, v.Contents())
  }

  lemma WholeAt(v: Fat32, dir: Key)
    requires Whole(v) && dir in v.dirs
    ensures WellFormed(v, dir) && DirsAt(v.dirs, v.damaged, dir, Directory(v, dir))
  {
    hide OwnedBy, Marks, CountFree, CleanTail, EntriesOk, ChainOk;
    assert DirOk(v.chains, v.dirs, v.damaged, dir, v.Contents()[dir]);
  }

  lemma {:induction false} BeneathDeeper(k: Key, key: Key)
    requires Beneath(k, key)
    ensures Depth(k) > Depth(key)
  {
    if k.parent != key { BeneathDeeper(k.parent, key); }
  }

  /** Nothing hangs beneath an entry that is no directory. */
  lemma {:induction false} NothingBeneath(chains: map<Key, seq<nat>>, dirs: set<Key>, damaged: set<Key>, contents: map<Key, seq<byte>>,
                                          key: Key, k: Key)
    requires Tree(chains, dirs, damaged, contents) && key !in dirs && Beneath(k, key)
    ensures k !in dirs && k !in damaged && (k in chains ==> chains[k] == [])
  {
    hide DirOk;
    if k.parent != key { NothingBeneath(chains, dirs, damaged, contents, key, k.parent); }
    assert k in chains && chains[k] != [] ==> Home(dirs, contents, k);
    if k in dirs { DirPresent(chains, dirs, damaged, k, contents[k]); }
  }

  lemma DirPresent(chains: map<Key, seq<nat>>, dirs: set<Key>, damaged: set<Key>, dir: Key, d: seq<byte>)
    requires DirOk(chains, dirs, damaged, dir, d)
    ensures dir in chains && chains[dir] != []
  {
  }

  /** A directory keeps its form when none of its slots changes. */
  lemma DirKept(chains: map<Key, seq<nat>>, dirs: set<Key>, damaged: set<Key>,
                chains': map<Key, seq<nat>>, dirs': set<Key>, damaged': set<Key>, dir: Key, d: seq<byte>)
    requires DirOk(chains, dirs, damaged, dir, d) && dir in chains' && chains'[dir] == chains[dir]
    requires forall s: nat :: Slot(dir, s) in chains ==> Slot(dir, s) in chains' && chains'[Slot(dir, s)] == chains[Slot(dir, s)]
    requires forall s: nat :: (Slot(dir, s) in dirs' || Slot(dir, s) in damaged') <==> (Slot(dir, s) in dirs || Slot(dir, s) in damaged)
    ensures DirOk(chains', dirs', damaged', dir, d)
  {
    hide CleanTail, Owning, IsDirectory, Entry, FirstOf;
    forall s: nat {:trigger HasSlot(d, s)} | HasSlot(d, s)
      ensures EntryOk(chains', dir, d, s)
    {
      assert EntryOk(chains, dir, d, s);
    }
  }

  lemma BeneathSlot(dir: Key, s: nat, k: Key, t: nat)
    ensures Beneath(Slot(k, t), Slot(dir, s)) <==> k == Slot(dir, s) || Beneath(k, Slot(dir, s))
    ensures !Beneath(dir, Slot(dir, s)) && dir != Slot(dir, s)
  {
    NotSelf(dir, s);
    if Beneath(dir, Slot(dir, s)) { BeneathDeeper(dir, Slot(dir, s)); }
  }

  /** The directories once `key` is none: neither it nor anything beneath it. */
  ghost function Without(dirs: set<Key>, key: Key): set<Key> { dirs - {key} - Lost(dirs, key) }

  lemma SlotsKept(chains: map<Key, seq<nat>>, dirs: set<Key>, dir: Key, s: nat, chain: seq<nat>, k: Key, t: nat)
    requires k != Slot(dir, s) && !Beneath(k, Slot(dir, s)) && Slot(k, t) != Slot(dir, s)
    ensures var key := Slot(dir, s);
            var chains' := Emptied(chains[key := chain], Lost(chains.Keys, key));
            && (Slot(k, t) in Without(dirs, key) <==> Slot(k, t) in dirs)
            && (Slot(k, t) in chains ==> Slot(k, t) in chains' && chains'[Slot(k, t)] == chains[Slot(k, t)])
  {
    BeneathSlot(dir, s, k, t);
  }

  /** The directory at hand, once slot `s` holds another entry. */
  lemma DirChanged(chains: map<Key, seq<nat>>, dirs: set<Key>, damaged: set<Key>, dir: Key, s: nat, chain: seq<nat>, d: seq<byte>)
    requires dir in chains && chains[dir] != [] && CleanTail(d)
    requires EntriesOk(chains[Slot(dir, s) := chain], dir, d) && DirsAt(dirs, damaged, dir, d)
    ensures DirOk(Emptied(chains[Slot(dir, s) := chain], Lost(chains.Keys, Slot(dir, s))), dirs, damaged, dir, d)
  {
    hide CleanTail, Owning, IsDirectory, Entry, FirstOf;
    var key := Slot(dir, s);
    var chains1 := chains[key := chain];
    var chains' := Emptied(chains1, Lost(chains.Keys, key));
    forall t: nat ensures !Beneath(Slot(dir, t), key) && !Beneath(dir, key) && dir != key { BeneathSlot(dir, s, dir, t); }
    assert DirOk(chains1, dirs, damaged, dir, d);
    DirKept(chains1, dirs, damaged, chains', dirs, damaged, dir, d);
  }

  /** One slot of one directory holds a file, nothing, or a damaged directory
    * instead of what it held; what hung beneath it is gone. */
  lemma TreeReplaced(chains: map<Key, seq<nat>>, dirs: set<Key>, damaged: set<Key>, contents: map<Key, seq<byte>>,
                     dir: Key, s: nat, chain: seq<nat>, body: seq<byte>, d: seq<byte>, hurt: bool)
    requires Tree(chains, dirs, damaged, contents) && dir in dirs && Slot(dir, s) in chains
    requires HasSlot(contents[dir], s) && |d| == |contents[dir]| && (hurt ==> chain != [])
    requires CleanTail(d) && EntriesOk(chains[Slot(dir, s) := chain], dir, d)
    requires DirsAt(Without(dirs, Slot(dir, s)), Without(damaged, Slot(dir, s)) + (if hurt then {Slot(dir, s)} else {}), dir, d)
    ensures var key := Slot(dir, s);
            var lost := Lost(chains.Keys, key);
            Tree(Emptied(chains[key := chain], lost), Without(dirs, key),
                 Without(damaged, key) + (if hurt then {key} else {}),
                 Emptied(contents[key := body][dir := d], lost))
  {
    hide CleanTail, EntriesOk, DirsAt, DirOk, HasSlot;
    var key := Slot(dir, s);
    var lost := Lost(chains.Keys, key);
    var chains', dirs' := Emptied(chains[key := chain], lost), Without(dirs, key);
    var damaged' := Without(damaged, key) + (if hurt then {key} else {});
    var contents' := Emptied(contents[key := body][dir := d], lost);
    BeneathSlot(dir, s, dir, s);
    DirPresent(chains, dirs, damaged, dir, contents[dir]);
    SameLength(contents[dir], d);
    forall k | k in dirs'
      ensures k in contents' && DirOk(chains', dirs', damaged', k, contents'[k])
    {
      DirPresent(chains, dirs, damaged, k, contents[k]);
      if k == dir {
        DirChanged(chains, dirs', damaged', dir, s, chain, d);
      } else {
        forall t: nat
          ensures Slot(k, t) in chains ==> Slot(k, t) in chains' && chains'[Slot(k, t)] == chains[Slot(k, t)]
          ensures (Slot(k, t) in dirs' || Slot(k, t) in damaged') <==> (Slot(k, t) in dirs || Slot(k, t) in damaged)
        {
          SlotsKept(chains, dirs, dir, s, chain, k, t);
          SlotsKept(chains, damaged, dir, s, chain, k, t);
        }
        DirKept(chains, dirs, damaged, chains', dirs', damaged', k, contents[k]);
      }
    }
    forall k | k in chains' && chains'[k] != [] ensures Home(dirs', contents', k) {
      if k != key {
        assert Home(dirs, contents, k);
        if k.Slot? { BeneathSlot(dir, s, k.parent, k.n); }
      }
    }
  }

  lemma SameLength(a: seq<byte>, b: seq<byte>)
    requires |a| == |b|
    ensures forall s: nat :: HasSlot(a, s) == HasSlot(b, s)
  {
  }

  // ---- the ghost part of an operation ----

  /** Whatever hung beneath `key` is nobody's from now on. */
  ghost method Prune(v: Fat32, key: Key)
    requires Sound(v)
    modifies v`owner, v`chains
    ensures Sound(v)
    ensures v.chains == Emptied(old(v.chains), Lost(old(v.chains).Keys, key))
    ensures v.Contents() == Emptied(old(v.Contents()), Lost(old(v.chains).Keys, key))
  {
    hide OwnedBy, Marks, CountFree, ChainOk, InUse, HeapOk, Stored, Emptied, Disowned, Lost;
    var lost := Lost(v.chains.Keys, key);
    OwnedWithout(v.chains, v.owner, v.total + 2, lost);
    MarksSame(InUse(v.links, v.total), v.owner, Disowned(v.owner, lost));
    EmptyChain(v.links);
    StoredEmptied(v.heap, v.chains, lost);
    EmptiedOk(v.links, v.chains, lost);
    v.owner, v.chains := Disowned(v.owner, lost), Emptied(v.chains, lost);
  }

  lemma EmptiedOk(links: seq<u32>, chains: map<Key, seq<nat>>, lost: set<Key>)
    requires forall k | k in chains :: ChainOk(links, chains[k])
    ensures forall k | k in Emptied(chains, lost) :: ChainOk(links, Emptied(chains, lost)[k])
  {
    hide ChainOk;
    EmptyChain(links);
  }

  lemma MarksSame<K>(bits: seq<bool>, a: map<nat, Use<K>>, b: map<nat, Use<K>>)
    requires Marks(bits, a) && a.Keys == b.Keys
    ensures Marks(bits, b)
  {
  }

  lemma StoredEmptied(heap: seq<seq<byte>>, chains: map<Key, seq<nat>>, lost: set<Key>)
    ensures Stored(heap, Emptied(chains, lost), CLUSTER) == Emptied(Stored(heap, chains, CLUSTER), lost)
  {
  }

  /** The other slots of a directory keep what they say when one is written. */
  lemma DirsWritten(dirs: set<Key>, damaged: set<Key>, dirs': set<Key>, damaged': set<Key>, dir: Key, d: seq<byte>, s: nat, e: seq<byte>)
    requires DirsAt(dirs, damaged, dir, d) && CleanTail(d) && HasSlot(d, s) && NoEnd(d, s)
    requires |e| == ENTRY && e[0] != 0 && e[0] != DOT
    requires forall t: nat | t != s :: (Slot(dir, t) in dirs' || Slot(dir, t) in damaged') <==> (Slot(dir, t) in dirs || Slot(dir, t) in damaged)
    requires (Slot(dir, s) in dirs' || Slot(dir, s) in damaged') <==> (e[0] != DELETED && IsDirectory(e))
    ensures DirsAt(dirs', damaged', dir, WithEntry(d, s, e))
  {
    hide IsDirectory, CleanTail;
    var d' := WithEntry(d, s, e);
    forall t: nat {:trigger HasSlot(d', t)} | HasSlot(d', t)
      ensures (Slot(dir, t) in dirs' || Slot(dir, t) in damaged') <==> (Owning(d', t) && IsDirectory(Entry(d', t)))
    {
      assert HasSlot(d, t);
      EntryWritten(d, s, e, t);
      if t == s {
        WrittenOwns(d, s, e);
      } else {
        WrittenEnd(d, s, e, t);
      }
    }
  }

  /** Slots of the same directory are not beneath one another. */
  lemma Siblings(dirs: set<Key>, dir: Key, s: nat)
    ensures forall t: nat | t != s :: Slot(dir, t) in Without(dirs, Slot(dir, s)) <==> Slot(dir, t) in dirs
    ensures Slot(dir, s) !in Without(dirs, Slot(dir, s))
  {
    forall t: nat | t != s ensures Slot(dir, t) in Without(dirs, Slot(dir, s)) <==> Slot(dir, t) in dirs {
      BeneathSlot(dir, s, dir, t);
    }
  }

  /** What an operation on slot `key` of `dir` leaves alone: everything but the
    * directory, the slot and what hangs beneath the slot. */
  ghost predicate Spared(was: map<Key, seq<nat>>, now: map<Key, seq<nat>>, before: map<Key, seq<byte>>, after: map<Key, seq<byte>>,
                         dir: Key, key: Key)
  {
    forall k | k in was && k != dir && k != key && !Beneath(k, key) ::
      k in now && now[k] == was[k] && k in before && k in after && after[k] == before[k]
  }

  /** The new tree, once slot `s` of `dir` has changed on the disk. */
  ghost method Settle(v: Fat32, chains: map<Key, seq<nat>>, contents: map<Key, seq<byte>>, dir: Key, s: nat, hurt: bool)
    requires Tree(chains, v.dirs, v.damaged, contents) && dir in v.dirs && Slot(dir, s) in chains
    requires WellFormed(v, dir) && Slot(dir, s) in v.chains
    requires v.chains == chains[Slot(dir, s) := v.chains[Slot(dir, s)]]
    requires v.Contents() == contents[Slot(dir, s) := v.Contents()[Slot(dir, s)]][dir := Directory(v, dir)]
    requires HasSlot(contents[dir], s) && |Directory(v, dir)| == |contents[dir]| && (hurt ==> v.chains[Slot(dir, s)] != [])
    requires DirsAt(Without(v.dirs, Slot(dir, s)), Without(v.damaged, Slot(dir, s)) + (if hurt then {Slot(dir, s)} else {}),
                    dir, Directory(v, dir))
    modifies v`owner, v`chains, v`dirs, v`damaged
    ensures Whole(v) && v.dirs == Without(old(v.dirs), Slot(dir, s))
    ensures v.damaged == Without(old(v.damaged), Slot(dir, s)) + (if hurt then {Slot(dir, s)} else {})
    ensures v.chains == Emptied(old(v.chains), Lost(chains.Keys, Slot(dir, s)))
    ensures v.Contents() == Emptied(old(v.Contents()), Lost(chains.Keys, Slot(dir, s)))
  {
    hide Fat32.Base, Fat32.Contents, CleanTail, EntriesOk, DirsAt, HasSlot, ChainOk, Tree;
    var key := Slot(dir, s);
    TreeReplaced(chains, v.dirs, v.damaged, contents, dir, s, v.chains[key], v.Contents()[key], Directory(v, dir), hurt);
    BeneathSlot(dir, s, dir, s);
    TreeKeys(chains, v.dirs, v.damaged, contents);
    assert v.chains.Keys == chains.Keys;
    Prune(v, key);
    v.damaged := Without(v.damaged, key) + (if hurt then {key} else {});
    v.dirs := Without(v.dirs, key);
  }

  lemma BeneathSelf(key: Key)
    ensures !Beneath(key, key)
  {
    if Beneath(key, key) { BeneathDeeper(key, key); }
  }

  lemma TreeKeys(chains: map<Key, seq<nat>>, dirs: set<Key>, damaged: set<Key>, contents: map<Key, seq<byte>>)
    requires Tree(chains, dirs, damaged, contents)
    ensures contents.Keys == chains.Keys && dirs <= chains.Keys
  {
    hide CleanTail, EntriesOk, DirsAt;
    forall k | k in dirs ensures k in chains { assert DirOk(chains, dirs, damaged, k, contents[k]); }
  }

  lemma SparedBy(chains: map<Key, seq<nat>>, contents: map<Key, seq<byte>>, chains1: map<Key, seq<nat>>, contents1: map<Key, seq<byte>>,
                 dir: Key, s: nat)
    requires contents.Keys == chains.Keys && dir in chains && Slot(dir, s) in chains && dir in contents1 && Slot(dir, s) in contents1
    requires Slot(dir, s) in chains1 && chains1 == chains[Slot(dir, s) := chains1[Slot(dir, s)]]
    requires contents1 == contents[Slot(dir, s) := contents1[Slot(dir, s)]][dir := contents1[dir]]
    ensures var lost := Lost(chains.Keys, Slot(dir, s));
            var (now, after) := (Emptied(chains1, lost), Emptied(contents1, lost));
            && Spared(chains, now, contents, after, dir, Slot(dir, s))
            && now[dir] == chains[dir] && after[dir] == contents1[dir]
            && now[Slot(dir, s)] == chains1[Slot(dir, s)] && after[Slot(dir, s)] == contents1[Slot(dir, s)]
  {
    BeneathSlot(dir, s, dir, s);
    BeneathSelf(Slot(dir, s));
  }

  /** The slot an operation has to do with, and whether it held a directory. */
  ghost predicate IsDirSlot(v: Fat32, key: Key)
    reads v
  {
    key in v.dirs || key in v.damaged
  }

  /** The directory entries after a write: the slot is none, unless it is left
    * as it was. */
  lemma WriteDirs(dirs: set<Key>, damaged: set<Key>, dir: Key, d: seq<byte>, name: seq<byte>, s: nat, e: seq<byte>)
    requires DirsAt(dirs, damaged, dir, d) && CleanTail(d) && Chosen(d, name, s)
    requires |e| == ENTRY && e[0] != 0 && e[0] != DOT && !IsDirectory(e)
    ensures DirsAt(Without(dirs, Slot(dir, s)), Without(damaged, Slot(dir, s)), dir, WithEntry(d, s, e))
  {
    hide CleanTail, DirsAt, IsDirectory, Chosen, Without;
    ChosenReach(d, name, s);
    Siblings(dirs, dir, s);
    Siblings(damaged, dir, s);
    DirsWritten(dirs, damaged, Without(dirs, Slot(dir, s)), Without(damaged, Slot(dir, s)), dir, d, s, e);
  }

  /** A failed write leaves the directory as it was; a directory entry there is damaged. */
  lemma FailDirs(dirs: set<Key>, damaged: set<Key>, dir: Key, d: seq<byte>, s: nat, hurt: bool)
    requires DirsAt(dirs, damaged, dir, d) && (hurt <==> Slot(dir, s) in dirs || Slot(dir, s) in damaged)
    ensures DirsAt(Without(dirs, Slot(dir, s)), Without(damaged, Slot(dir, s)) + (if hurt then {Slot(dir, s)} else {}), dir, d)
  {
    hide Owning, IsDirectory, Entry, Without;
    Siblings(dirs, dir, s);
    Siblings(damaged, dir, s);
    forall t: nat {:trigger HasSlot(d, t)} | HasSlot(d, t)
      ensures (Slot(dir, t) in Without(dirs, Slot(dir, s)) || Slot(dir, t) in Without(damaged, Slot(dir, s)) + (if hurt then {Slot(dir, s)} else {}))
         <==> (Owning(d, t) && IsDirectory(Entry(d, t)))
    {
    }
  }

  lemma DirSlot(dirs: set<Key>, damaged: set<Key>, dir: Key, d: seq<byte>, s: nat)
    requires DirsAt(dirs, damaged, dir, d) && HasSlot(d, s)
    ensures (Slot(dir, s) in dirs || Slot(dir, s) in damaged) <==> (Owning(d, s) && IsDirectory(Entry(d, s)))
  {
  }

  lemma DirectoryChain(chains: map<Key, seq<nat>>, dirs: set<Key>, damaged: set<Key>, dir: Key, d: seq<byte>, s: nat)
    requires EntriesOk(chains, dir, d) && DirsAt(dirs, damaged, dir, d) && HasSlot(d, s)
    ensures Slot(dir, s) in chains
    ensures Slot(dir, s) in dirs || Slot(dir, s) in damaged ==> chains[Slot(dir, s)] != []
  {
    assert EntryOk(chains, dir, d, s);
  }

  lemma ArchiveEntry(name: seq<byte>, first: u32, size: u32)
    requires |name| == NAME
    ensures !IsDirectory(MakeEntry(name, ATTR_ARCHIVE, first, size)) && IsDirectory(MakeEntry(name, ATTR_DIRECTORY, first, size))
  {
  }

  /** fat32_write_file_in, seen from the whole tree. The tree stays whole. Every
    * chain and every byte outside the directory, the slot and what hangs
    * beneath it stays; overwriting a directory loses exactly what it held, and
    * running out of space while doing so damages its entry. */
  method WriteFile(v: Fat32, parent: nat, name: seq<byte>, data: seq<byte>, ghost dir: Key)
    returns (rc: int, overDir: bool, ghost slot: nat, ghost first: u32)
    requires Whole(v) && dir in v.dirs && dir in v.chains && v.chains[dir] != [] && parent == v.chains[dir][0]
    requires IsName(name) && |data| < 0x1_0000_0000
    modifies v
    ensures Whole(v) && dir in v.dirs && dir in v.chains && v.chains[dir] == old(v.chains)[dir]
    ensures Full(old(Directory(v, dir)), name) ==>
              rc == -1 && !overDir && v.Contents() == old(v.Contents()) && v.chains == old(v.chains)
              && v.dirs == old(v.dirs) && v.damaged == old(v.damaged)
    ensures !Full(old(Directory(v, dir)), name) ==>
              var key := Slot(dir, slot);
              && Chosen(old(Directory(v, dir)), name, slot) && key in old(v.chains) && key in v.chains
              && rc == (if old(Room(v, key, |data|)) then 0 else -1) && overDir == old(IsDirSlot(v, key))
              && v.dirs == Without(old(v.dirs), key)
              && v.damaged == Without(old(v.damaged), key) + (if rc != 0 && old(IsDirSlot(v, key)) then {key} else {})
              && Spared(old(v.chains), v.chains, old(v.Contents()), v.Contents(), dir, key)
    ensures rc != 0 ==> Directory(v, dir) == old(Directory(v, dir))
    ensures rc != 0 && !Full(old(Directory(v, dir)), name) ==> forall b | b in v.Contents()[Slot(dir, slot)] :: b in data
    ensures rc == 0 ==>
              && HasSlot(old(Directory(v, dir)), slot)
              && Directory(v, dir) == WithEntry(old(Directory(v, dir)), slot, MakeEntry(name, ATTR_ARCHIVE, first, |data|))
              && (name[0] != DELETED ==> v.Contents()[Slot(dir, slot)] == Padded(data))
  {
    hide Sound, Fat32.Contents, CleanTail, EntriesOk, DirsAt, Tree, Chosen, Full, Room, Padded, MakeEntry, Without, Spared, Entry, Owning, IsDirectory;
    WholeAt(v, dir);
    ghost var d, was, before := Directory(v, dir), v.chains, v.Contents();
    rc, overDir, slot, first := WriteFileIn(v, parent, name, data, dir);
    if !Full(d, name) {
      ghost var hurt := rc != 0 && IsDirSlot(v, Slot(dir, slot));
      ChosenReach(d, name, slot);
      DirSlot(v.dirs, v.damaged, dir, d, slot);
      if rc == 0 {
        ArchiveEntry(name, first, |data|);
        WriteDirs(v.dirs, v.damaged, dir, d, name, slot, MakeEntry(name, ATTR_ARCHIVE, first, |data|));
      } else {
        FailDirs(v.dirs, v.damaged, dir, d, slot, hurt);
        DirectoryChain(v.chains, v.dirs, v.damaged, dir, d, slot);
      }
      SparedBy(was, before, v.chains, v.Contents(), dir, slot);
      assert rc == 0 ==> Without(v.damaged, Slot(dir, slot)) + (if hurt then {Slot(dir, slot)} else {}) == Without(v.damaged, Slot(dir, slot));
      Settle(v, was, before, dir, slot, hurt);
      StaysDir(old(v.dirs), dir, slot);
    }
  }

  lemma StaysDir(dirs: set<Key>, dir: Key, s: nat)
    requires dir in dirs
    ensures dir in Without(dirs, Slot(dir, s))
  {
    BeneathSlot(dir, s, dir, s);
  }

  /** The directory entries once slot `s` is marked deleted. */
  lemma DeleteDirs(dirs: set<Key>, damaged: set<Key>, dir: Key, d: seq<byte>, s: nat, e: seq<byte>)
    requires DirsAt(dirs, damaged, dir, d) && CleanTail(d) && HasSlot(d, s) && NoEnd(d, s) && |e| == ENTRY && e[0] == DELETED
    ensures DirsAt(Without(dirs, Slot(dir, s)), Without(damaged, Slot(dir, s)) + {}, dir, WithEntry(d, s, e))
  {
    hide CleanTail, DirsAt, IsDirectory, Without;
    Siblings(dirs, dir, s);
    Siblings(damaged, dir, s);
    DirsWritten(dirs, damaged, Without(dirs, Slot(dir, s)), Without(damaged, Slot(dir, s)) + {}, dir, d, s, e);
  }

  /** fat32_delete_file, seen from the whole tree: deleting a directory by it
    * loses exactly what hung beneath. */
  method RemoveFile(v: Fat32, parent: nat, name: seq<byte>, ghost dir: Key) returns (rc: int, ghost slot: nat)
    requires Whole(v) && dir in v.dirs && dir in v.chains && v.chains[dir] != [] && parent == v.chains[dir][0] && IsName(name)
    modifies v
    ensures Whole(v) && dir in v.dirs && dir in v.chains && v.chains[dir] == old(v.chains)[dir] && (rc == 0 || rc == -1)
    ensures rc == -1 ==> Absent(old(Directory(v, dir)), name) && v.Contents() == old(v.Contents()) && v.chains == old(v.chains)
                         && v.dirs == old(v.dirs) && v.damaged == old(v.damaged)
    ensures rc == 0 ==>
              && Found(old(Directory(v, dir)), name, slot)
              && v.dirs == Without(old(v.dirs), Slot(dir, slot)) && v.damaged == Without(old(v.damaged), Slot(dir, slot))
              && Spared(old(v.chains), v.chains, old(v.Contents()), v.Contents(), dir, Slot(dir, slot))
              && Directory(v, dir) == WithEntry(old(Directory(v, dir)), slot, Entry(old(Directory(v, dir)), slot)[0 := DELETED])
  {
    hide Sound, Fat32.Contents, CleanTail, EntriesOk, DirsAt, Tree, Found, Without, Spared, Entry, CountFree, InUse;
    WholeAt(v, dir);
    ghost var d, was, before := Directory(v, dir), v.chains, v.Contents();
    rc, slot := DeleteFile(v, parent, name, dir);
    if rc == 0 {
      FoundReach(d, name, slot);
      DeleteDirs(v.dirs, v.damaged, dir, d, slot, Entry(d, slot)[0 := DELETED]);
      NotSelf(dir, slot);
      SparedBy(was, before, v.chains, v.Contents(), dir, slot);
      Settle(v, was, before, dir, slot, false);
      StaysDir(old(v.dirs), dir, slot);
    }
  }

  /** An empty directory has nothing beneath it. */
  lemma {:induction false} EmptyBeneath(chains: map<Key, seq<nat>>, dirs: set<Key>, damaged: set<Key>, contents: map<Key, seq<byte>>,
                                        key: Key, k: Key)
    requires Tree(chains, dirs, damaged, contents) && key in dirs && IsEmpty(contents[key]) && Beneath(k, key)
    ensures k !in dirs && k !in damaged && (k in chains ==> chains[k] == [])
  {
    hide DirOk, IsEmpty;
    if k.parent == key {
      assert DirOk(chains, dirs, damaged, key, contents[key]);
      assert k in chains && chains[k] != [] ==> Home(dirs, contents, k);
      if HasSlot(contents[key], k.n) { EmptySlot(chains, dirs, damaged, key, contents[key], k.n); }
    } else {
      EmptyBeneath(chains, dirs, damaged, contents, key, k.parent);
      NothingBeneath(chains, dirs, damaged, contents, k.parent, k);
    }
    if k in dirs { DirPresent(chains, dirs, damaged, k, contents[k]); }
  }

  lemma EmptySlot(chains: map<Key, seq<nat>>, dirs: set<Key>, damaged: set<Key>, dir: Key, d: seq<byte>, s: nat)
    requires DirOk(chains, dirs, damaged, dir, d) && IsEmpty(d) && HasSlot(d, s)
    ensures Slot(dir, s) !in dirs && Slot(dir, s) !in damaged && Slot(dir, s) in chains && chains[Slot(dir, s)] == []
  {
    hide CleanTail, IsDirectory, FirstOf;
    assert EntryOk(chains, dir, d, s);
    if NoEnd(d, s + 1) {
      assert Hollow(d, s);
      if Mark(d, s) != DELETED { assert Entry(d, s)[0] == DOT && Entry(d, s)[0] == Mark(d, s); }
    }
  }

  /** fat32_delete_directory_in, seen from the whole tree: nothing but the
    * directory itself goes. */
  method RemoveDirectory(v: Fat32, parent: nat, name: seq<byte>, ghost dir: Key) returns (rc: int, ghost slot: nat)
    requires Whole(v) && dir in v.dirs && dir in v.chains && v.chains[dir] != [] && parent == v.chains[dir][0] && IsName(name)
    modifies v
    ensures Whole(v) && dir in v.dirs && dir in v.chains && v.chains[dir] == old(v.chains)[dir]
    ensures rc == if Removable(old(Directory(v, dir)), old(v.Contents()), dir, name) then 0 else -1
    ensures rc == -1 ==> v.Contents() == old(v.Contents()) && v.chains == old(v.chains)
                         && v.dirs == old(v.dirs) && v.damaged == old(v.damaged)
    ensures rc == 0 ==>
              var key := Slot(dir, slot);
              && Found(old(Directory(v, dir)), name, slot) && old(IsDirSlot(v, key)) && IsEmpty(old(v.Contents())[key])
              && v.dirs == old(v.dirs) - {key} == Without(old(v.dirs), key)
              && v.damaged == old(v.damaged) - {key} == Without(old(v.damaged), key)
              && Directory(v, dir) == WithEntry(old(Directory(v, dir)), slot, Entry(old(Directory(v, dir)), slot)[0 := DELETED])
              && (forall k | k in old(v.chains) && k != dir && k != key ::
                    k in v.chains && v.chains[k] == old(v.chains)[k] && k in v.Contents() && k in old(v.Contents()) && v.Contents()[k] == old(v.Contents())[k])
  {
    hide Sound, Fat32.Contents, CleanTail, EntriesOk, DirsAt, Tree, Found, Without, Spared, Entry, IsEmpty, IsDirectory, Removable;
    WholeAt(v, dir);
    ghost var d, was, before, dirs, damaged := Directory(v, dir), v.chains, v.Contents(), v.dirs, v.damaged;
    EmptyContents(v);
    rc, slot := DeleteDirectoryIn(v, parent, name, dir);
    if rc == 0 {
      FoundReach(d, name, slot);
      FoundDirectory(dirs, damaged, dir, d, name, slot);
      DeleteDirs(v.dirs, v.damaged, dir, d, slot, Entry(d, slot)[0 := DELETED]);
      NotSelf(dir, slot);
      SparedBy(was, before, v.chains, v.Contents(), dir, slot);
      Settle(v, was, before, dir, slot, false);
      StaysDir(old(v.dirs), dir, slot);
      NothingLost(was, dirs, damaged, before, v.chains, v.Contents(), dir, slot);
    }
  }

  lemma FoundDirectory(dirs: set<Key>, damaged: set<Key>, dir: Key, d: seq<byte>, name: seq<byte>, s: nat)
    requires DirsAt(dirs, damaged, dir, d) && Found(d, name, s) && IsName(name)
    ensures HasSlot(d, s) && (Slot(dir, s) in dirs || Slot(dir, s) in damaged <==> IsDirectory(Entry(d, s)))
  {
    hide IsDirectory;
    assert HasSlot(d, s) && Entry(d, s)[0] == name[0];
  }

  lemma NothingLost(chains: map<Key, seq<nat>>, dirs: set<Key>, damaged: set<Key>, contents: map<Key, seq<byte>>,
                    chains': map<Key, seq<nat>>, contents': map<Key, seq<byte>>, dir: Key, s: nat)
    requires Tree(chains, dirs, damaged, contents) && Slot(dir, s) in chains && Slot(dir, s) in contents
    requires Slot(dir, s) in dirs ==> IsEmpty(contents[Slot(dir, s)])
    requires chains' == Emptied(chains[Slot(dir, s) := []], Lost(chains.Keys, Slot(dir, s)))
    requires dir in contents' && contents' == Emptied(contents[Slot(dir, s) := []][dir := contents'[dir]], Lost(chains.Keys, Slot(dir, s)))
    requires forall k | k in chains && chains[k] == [] :: k in contents && contents[k] == []
    ensures Without(dirs, Slot(dir, s)) == dirs - {Slot(dir, s)} && Without(damaged, Slot(dir, s)) == damaged - {Slot(dir, s)}
    ensures forall k | k in chains && k != dir && k != Slot(dir, s) ::
              k in chains' && chains'[k] == chains[k] && k in contents && k in contents' && contents'[k] == contents[k]
  {
    hide Tree, IsEmpty;
    var key := Slot(dir, s);
    TreeKeys(chains, dirs, damaged, contents);
    forall k | Beneath(k, key)
      ensures k !in dirs && k !in damaged && (k in chains ==> chains[k] == [])
    {
      if key in dirs { EmptyBeneath(chains, dirs, damaged, contents, key, k); }
      else { NothingBeneath(chains, dirs, damaged, contents, key, k); }
    }
  }

  lemma EmptyContents(v: Fat32)
    ensures forall k | k in v.chains && v.chains[k] == [] :: k in v.Contents() && v.Contents()[k] == []
  {
  }

  // ---- new directories ----

  ghost function SlotKeys(key: Key): set<Key> { set i: nat | i < PER_CLUSTER :: Slot(key, i) }

  /** The slots of a new directory, all without a chain. */
  ghost function NewSlots<V>(key: Key): (m: map<Key, seq<V>>)
    ensures m.Keys == SlotKeys(key)
  {
    map k | k in SlotKeys(key) :: []
  }

  /** The dot entries own nothing, and end marks follow. */
  lemma DotSlots(d: seq<byte>, s: nat)
    requires |d| == CLUSTER && Mark(d, 0) == DOT && Mark(d, 1) == DOT && (forall i | 2 * ENTRY <= i < CLUSTER :: d[i] == 0)
    ensures HasSlot(d, s) ==> s < PER_CLUSTER && !Owning(d, s) && Mark(d, s) == if s < 2 then DOT else 0
  {
    if HasSlot(d, s) && s >= 2 { assert Mark(d, s) == 0; }
  }

  lemma DotMarks(cluster: u32, dotdot: u32)
    ensures var d := DotEntries(cluster, dotdot);
            Mark(d, 0) == DOT && Mark(d, 1) == DOT && forall i | 2 * ENTRY <= i < CLUSTER :: d[i] == 0
  {
    hide MakeEntry;
    var (a, b) := (MakeEntry([DOT] + Blanks(10), ATTR_DIRECTORY, cluster, 0), MakeEntry([DOT, DOT] + Blanks(9), ATTR_DIRECTORY, dotdot, 0));
    var d := DotEntries(cluster, dotdot);
    assert d[0] == a[0] && d[ENTRY] == b[0];
  }

  lemma NewDirOk(chains: map<Key, seq<nat>>, dirs: set<Key>, damaged: set<Key>, key: Key, d: seq<byte>)
    requires |d| == CLUSTER && Mark(d, 0) == DOT && Mark(d, 1) == DOT && (forall i | 2 * ENTRY <= i < CLUSTER :: d[i] == 0)
    requires key in chains && chains[key] != []
    requires forall s: nat | s < PER_CLUSTER :: Slot(key, s) in chains && chains[Slot(key, s)] == []
    requires forall s: nat :: Slot(key, s) !in dirs && Slot(key, s) !in damaged
    ensures DirOk(chains, dirs, damaged, key, d)
  {
    hide FirstOf, IsDirectory, Entry;
    forall s: nat {:trigger HasSlot(d, s)} | HasSlot(d, s)
      ensures EntryOk(chains, key, d, s) && !Owning(d, s) && Mark(d, s) == if s < 2 then DOT else 0
    {
      DotSlots(d, s);
    }
  }

  /** A free slot of a directory holds a new directory. */
  lemma TreeAdded(chains: map<Key, seq<nat>>, dirs: set<Key>, damaged: set<Key>, contents: map<Key, seq<byte>>,
                  dir: Key, s: nat, c: nat, body: seq<byte>, d: seq<byte>)
    requires Tree(chains, dirs, damaged, contents) && dir in dirs && Slot(dir, s) in chains
    requires Slot(dir, s) !in dirs && Slot(dir, s) !in damaged
    requires HasSlot(contents[dir], s) && |d| == |contents[dir]|
    requires CleanTail(d) && EntriesOk(chains[Slot(dir, s) := [c]], dir, d) && DirsAt(dirs + {Slot(dir, s)}, damaged, dir, d)
    requires |body| == CLUSTER && Mark(body, 0) == DOT && Mark(body, 1) == DOT && (forall i | 2 * ENTRY <= i < CLUSTER :: body[i] == 0)
    ensures var key := Slot(dir, s);
            Tree(chains[key := [c]] + NewSlots(key), dirs + {key}, damaged, contents[key := body][dir := d] + NewSlots(key))
    ensures forall k | k in SlotKeys(Slot(dir, s)) && k in chains :: chains[k] == []
  {
    hide CleanTail, EntriesOk, DirsAt, DirOk, HasSlot;
    var key := Slot(dir, s);
    var chains1: map<Key, seq<nat>> := chains[key := [c]];
    var chains' := chains1 + NewSlots(key);
    var dirs' := dirs + {key};
    var contents' := contents[key := body][dir := d] + NewSlots(key);
    BeneathSlot(dir, s, dir, s);
    SameLength(contents[dir], d);
    forall t: nat
      ensures Slot(key, t) !in dirs && Slot(key, t) !in damaged && (Slot(key, t) in chains ==> chains[Slot(key, t)] == [])
      ensures Slot(key, t) != key
    {
      NothingBeneath(chains, dirs, damaged, contents, key, Slot(key, t));
      NotSelf(key, t);
    }
    forall k | k in dirs'
      ensures k in contents' && DirOk(chains', dirs', damaged, k, contents'[k])
    {
      if k == key {
        NewDirOk(chains', dirs', damaged, key, body);
      } else if k == dir {
        DirPresent(chains, dirs, damaged, dir, contents[dir]);
        MakeDirOk(chains1, dirs', damaged, dir, d);
        forall t: nat ensures Slot(dir, t) !in SlotKeys(key) && dir !in SlotKeys(key) { BeneathSlot(dir, s, dir, t); }
        DirKept(chains1, dirs', damaged, chains', dirs', damaged, dir, d);
      } else {
        DirPresent(chains, dirs, damaged, k, contents[k]);
        DirKept(chains, dirs, damaged, chains', dirs', damaged, k, contents[k]);
      }
    }
    forall k | k in chains' && chains'[k] != [] ensures Home(dirs', contents', k) {
      if k != key { assert Home(dirs, contents, k); }
    }
  }

  lemma MakeDirOk(chains: map<Key, seq<nat>>, dirs: set<Key>, damaged: set<Key>, dir: Key, d: seq<byte>)
    requires dir in chains && chains[dir] != [] && CleanTail(d) && EntriesOk(chains, dir, d) && DirsAt(dirs, damaged, dir, d)
    ensures DirOk(chains, dirs, damaged, dir, d)
  {
  }

  lemma OwnedMore(chains: map<Key, seq<nat>>, owner: map<nat, Use<Key>>, limit: nat, key: Key)
    requires OwnedBy(chains, owner, limit) && forall k | k in SlotKeys(key) && k in chains :: chains[k] == []
    ensures OwnedBy(chains + NewSlots(key), owner, limit)
  {
    var chains' := chains + NewSlots(key);
    forall c | c in owner && owner[c].At? ensures UsedAt(chains', owner[c], c) {
      assert UsedAt(chains, owner[c], c);
    }
  }

  lemma StoredMore(heap: seq<seq<byte>>, chains: map<Key, seq<nat>>, key: Key)
    ensures Stored(heap, chains + NewSlots(key), CLUSTER) == Stored(heap, chains, CLUSTER) + NewSlots(key)
  {
  }

  lemma ChainsMore(links: seq<u32>, chains: map<Key, seq<nat>>, key: Key)
    requires forall k | k in chains :: ChainOk(links, chains[k])
    ensures forall k | k in chains + NewSlots(key) :: ChainOk(links, (chains + NewSlots(key))[k])
  {
    hide ChainOk;
    EmptyChain(links);
  }

  ghost method AddSlots(v: Fat32, key: Key)
    requires Sound(v) && forall k | k in SlotKeys(key) && k in v.chains :: v.chains[k] == []
    modifies v`chains
    ensures Sound(v) && v.chains == old(v.chains) + NewSlots(key) && v.Contents() == old(v.Contents()) + NewSlots(key)
  {
    hide OwnedBy, Marks, CountFree, ChainOk, InUse, HeapOk, Stored, NewSlots;
    OwnedMore(v.chains, v.owner, v.total + 2, key);
    StoredMore(v.heap, v.chains, key);
    ChainsMore(v.links, v.chains, key);
    v.chains := v.chains + NewSlots(key);
  }

  lemma VacantSlot(dirs: set<Key>, damaged: set<Key>, dir: Key, d: seq<byte>, name: seq<byte>, s: nat)
    requires DirsAt(dirs, damaged, dir, d) && Vacant(d, name, s)
    ensures Slot(dir, s) !in dirs && Slot(dir, s) !in damaged && HasSlot(d, s) && NoEnd(d, s)
  {
    hide IsDirectory, Entry, Occupies;
    assert HasSlot(d, s);
    ChosenReach(d, name, s);
  }

  lemma MakeDirs(dirs: set<Key>, damaged: set<Key>, dir: Key, d: seq<byte>, s: nat, e: seq<byte>)
    requires DirsAt(dirs, damaged, dir, d) && CleanTail(d) && HasSlot(d, s) && NoEnd(d, s)
    requires |e| == ENTRY && e[0] != 0 && e[0] != DOT && e[0] != DELETED && IsDirectory(e)
    ensures DirsAt(dirs + {Slot(dir, s)}, damaged, dir, WithEntry(d, s, e))
  {
    hide CleanTail, DirsAt, IsDirectory;
    DirsWritten(dirs, damaged, dirs + {Slot(dir, s)}, damaged, dir, d, s, e);
  }

  /** The rest of the tree is as it was. */
  ghost predicate Kept(was: map<Key, seq<nat>>, now: map<Key, seq<nat>>, before: map<Key, seq<byte>>, after: map<Key, seq<byte>>,
                       dir: Key, key: Key)
  {
    forall k | k in was && k != dir && k != key ::
      k in now && now[k] == was[k] && k in before && k in after && after[k] == before[k]
  }

  /** fat32_create_directory_in, seen from the whole tree. */
  method MakeDirectory(v: Fat32, parent: u32, name: seq<byte>, root: u32, ghost dir: Key) returns (rc: int, ghost slot: nat, ghost cluster: u32)
    requires Whole(v) && dir in v.dirs && dir in v.chains && v.chains[dir] != [] && parent == v.chains[dir][0] && IsName(name)
    modifies v
    ensures Whole(v) && dir in v.dirs && dir in v.chains && v.chains[dir] == old(v.chains)[dir] && (rc == 0 || rc == -1)
    ensures v.damaged == old(v.damaged)
    ensures rc == -1 ==> v.Contents() == old(v.Contents()) && v.chains == old(v.chains) && v.dirs == old(v.dirs)
    ensures |v.links| == |old(v.links)| == v.total + 2
    ensures rc == 0 <==> CountFree(InUse(old(v.links), v.total)) > 0 && exists s: nat :: Vacant(old(Directory(v, dir)), name, s)
    ensures CountFree(InUse(v.links, v.total)) == CountFree(InUse(old(v.links), v.total)) - if rc == 0 then 1 else 0
    ensures rc == 0 ==>
              var key := Slot(dir, slot);
              && Vacant(old(Directory(v, dir)), name, slot) && key !in old(v.dirs) && key in v.chains
              && v.dirs == (if name[0] == DELETED then old(v.dirs) else old(v.dirs) + {key})
              && Kept(old(v.chains), v.chains, old(v.Contents()), v.Contents(), dir, key)
              && Directory(v, dir) == WithEntry(old(Directory(v, dir)), slot, MakeEntry(name, ATTR_DIRECTORY, cluster, 0))
              && (name[0] != DELETED ==>
                    v.chains[key] == [cluster] && v.Contents()[key] == DotEntries(cluster, if parent == root then 0 else parent))
  {
    hide Sound, Fat32.Contents, CleanTail, EntriesOk, DirsAt, Tree, Vacant, Without, Kept, Entry, MakeEntry, DotEntries, CountFree, InUse;
    WholeAt(v, dir);
    ghost var d, was, before := Directory(v, dir), v.chains, v.Contents();
    EmptyContents(v);
    rc, slot, cluster := CreateDirectoryIn(v, parent, name, root, dir);
    if rc == 0 {
      VacantSlot(v.dirs, v.damaged, dir, d, name, slot);
      NotSelf(dir, slot);
      ArchiveEntry(name, cluster, 0);
      EmptyContents(v);
      if name[0] == DELETED {
        WastedDirectory(v, was, before, dir, slot, MakeEntry(name, ATTR_DIRECTORY, cluster, 0));
      } else {
        EnterDirectory(v, was, before, dir, slot, cluster, if parent == root then 0 else parent, MakeEntry(name, ATTR_DIRECTORY, cluster, 0));
      }
    }
  }

  /** A directory whose name begins with the deletion mark is none. */
  ghost method WastedDirectory(v: Fat32, was: map<Key, seq<nat>>, before: map<Key, seq<byte>>, dir: Key, s: nat, e: seq<byte>)
    requires Tree(was, v.dirs, v.damaged, before) && dir in v.dirs && dir in before && DirsAt(v.dirs, v.damaged, dir, before[dir])
    requires Slot(dir, s) in was && Slot(dir, s) !in v.dirs && Slot(dir, s) !in v.damaged
    requires CleanTail(before[dir]) && HasSlot(before[dir], s) && NoEnd(before[dir], s) && |e| == ENTRY && e[0] == DELETED
    requires WellFormed(v, dir) && v.chains == was[Slot(dir, s) := []]
    requires v.Contents() == before[Slot(dir, s) := []][dir := WithEntry(before[dir], s, e)]
    requires forall k | k in was && was[k] == [] :: k in before && before[k] == []
    modifies v`owner, v`chains, v`dirs, v`damaged
    ensures Whole(v) && v.dirs == old(v.dirs) && v.damaged == old(v.damaged) && dir in v.chains && v.chains[dir] == was[dir]
    ensures Kept(was, v.chains, before, v.Contents(), dir, Slot(dir, s)) && v.Contents()[dir] == WithEntry(before[dir], s, e)
    ensures Slot(dir, s) in v.chains
  {
    hide Sound, Fat32.Contents, CleanTail, EntriesOk, DirsAt, Tree, Entry, NoEnd, HasSlot;
    NotSelf(dir, s);
    TreeKeys(was, v.dirs, v.damaged, before);
    DeleteDirs(v.dirs, v.damaged, dir, before[dir], s, e);
    ghost var dirs, damaged := v.dirs, v.damaged;
    SparedBy(was, before, v.chains, v.Contents(), dir, s);
    Settle(v, was, before, dir, s, false);
    NothingLost(was, dirs, damaged, before, v.chains, v.Contents(), dir, s);
  }

  ghost method EnterDirectory(v: Fat32, was: map<Key, seq<nat>>, before: map<Key, seq<byte>>, dir: Key, s: nat, c: u32, dotdot: u32, e: seq<byte>)
    requires Tree(was, v.dirs, v.damaged, before) && dir in v.dirs && dir in before && DirsAt(v.dirs, v.damaged, dir, before[dir])
    requires Slot(dir, s) in was && Slot(dir, s) !in v.dirs && Slot(dir, s) !in v.damaged
    requires CleanTail(before[dir]) && HasSlot(before[dir], s) && NoEnd(before[dir], s)
    requires |e| == ENTRY && e[0] != 0 && e[0] != DELETED && e[0] != DOT && IsDirectory(e)
    requires WellFormed(v, dir) && v.chains == was[Slot(dir, s) := [c]]
    requires v.Contents() == before[Slot(dir, s) := DotEntries(c, dotdot)][dir := WithEntry(before[dir], s, e)]
    requires forall k | k in was && was[k] == [] :: k in before && before[k] == []
    modifies v`chains, v`dirs
    ensures Whole(v) && v.dirs == old(v.dirs) + {Slot(dir, s)} && dir in v.chains && v.chains[dir] == was[dir]
    ensures Kept(was, v.chains, before, v.Contents(), dir, Slot(dir, s)) && v.Contents()[dir] == WithEntry(before[dir], s, e)
    ensures Slot(dir, s) in v.chains && v.chains[Slot(dir, s)] == [c] && v.Contents()[Slot(dir, s)] == DotEntries(c, dotdot)
  {
    hide Sound, Fat32.Contents, CleanTail, EntriesOk, DirsAt, Tree, Entry, NoEnd, HasSlot, DotEntries, IsDirectory;
    ghost var key := Slot(dir, s);
    NotSelf(dir, s);
    TreeKeys(was, v.dirs, v.damaged, before);
    MakeDirs(v.dirs, v.damaged, dir, before[dir], s, e);
    DotMarks(c, dotdot);
    TreeAdded(was, v.dirs, v.damaged, before, dir, s, c, DotEntries(c, dotdot), WithEntry(before[dir], s, e));
    assert forall k | k in SlotKeys(key) && k in v.chains :: v.chains[k] == [] by {
      forall k | k in SlotKeys(key) ensures k != key { var i: nat :| k == Slot(key, i); NotSelf(key, i); }
    }
    SlotsApart(was, dir, s);
    AddSlots(v, key);
    v.dirs := v.dirs + {key};
  }

  lemma SlotsApart(chains: map<Key, seq<nat>>, dir: Key, s: nat)
    ensures dir !in SlotKeys(Slot(dir, s)) && Slot(dir, s) !in SlotKeys(Slot(dir, s))
  {
    if dir in SlotKeys(Slot(dir, s)) { BeneathSlot(dir, s, dir, s); }
    if Slot(dir, s) in SlotKeys(Slot(dir, s)) { NotSelf(Slot(dir, s), s); BeneathSelf(Slot(dir, s)); }
  }
}
