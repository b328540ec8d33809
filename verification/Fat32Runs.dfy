/** Path resolution, and runs of operations all over a FAT32 volume
  * (fs/fat32/fat32.c). */
module Fat32Runs {
  import opened Bytes
  import opened Chains
  import opened ClusterBitmap
  import opened Fat32Entries
  import opened Fat32Volume
  import opened Fat32Files
  import opened Fat32Directories
  import opened Fat32Tree
  import opened Fat32Format
  import opened Fat32Paths
  import opened Fat32Steps
  import opened Ownership

  /** `v.dirs` has `k`, whose first cluster is `cluster`. */
  ghost predicate Starts(v: Fat32, k: Key, cluster: nat)
    reads v
  {
    k in v.dirs && k in v.chains && v.chains[k] != [] && cluster == v.chains[k][0]
  }

  /** The entry `name` of a directory is itself a directory, at `k`. */
  ghost predicate IsChild(v: Fat32, dir: Key, name: seq<byte>, k: Key)
    requires dir in v.chains
    reads v
  {
    k.Slot? && k.parent == dir && Found(Directory(v, dir), name, k.n) && IsDirSlot(v, k)
  }

  /** fat32_find_directory */
  method FindDirectory(v: Fat32, parent: nat, name: seq<byte>, ghost dir: Key) returns (cluster: u32, ghost k: Key)
    requires Whole(v) && Starts(v, dir, parent) && IsName(name)
    ensures cluster == 0 ==> forall j :: !IsChild(v, dir, name, j)
    ensures cluster != 0 ==> IsChild(v, dir, name, k) && k in v.chains && v.chains[k] != [] && cluster == v.chains[k][0]
    ensures cluster != 0 && v.damaged == {} ==> Starts(v, k, cluster)
  {
    hide Sound, Fat32.Contents, CleanTail, EntriesOk, DirsAt, Tree, Found, Entry, FirstOf, IsDirectory;
    WholeAt(v, dir);
    k := Root;
    ghost var d := Directory(v, dir);
    var found, slot, entry, c, i := FindEntry(v, parent, name, dir);
    if !found {
      forall j ensures !IsChild(v, dir, name, j) { if j.Slot? { NeverFound(d, name, j.n); } }
      return 0, k;
    }
    FoundDirectory(v.dirs, v.damaged, dir, d, name, slot);
    if !IsDirectory(entry) {
      forall j ensures !IsChild(v, dir, name, j) { if j.Slot? && Found(d, name, j.n) { FoundOnce(d, name, slot, j.n); } }
      return 0, k;
    }
    k := Slot(dir, slot);
    FirstCluster(v, dir, name, slot);
    cluster := FirstOf(entry);
  }

  lemma NeverFound(d: seq<byte>, name: seq<byte>, s: nat)
    requires Absent(d, name)
    ensures !Found(d, name, s)
  {
    assert HasSlot(d, s) ==> !Found(d, name, s);
  }

  lemma FirstCluster(v: Fat32, dir: Key, name: seq<byte>, s: nat)
    requires WellFormed(v, dir) && IsName(name) && Found(Directory(v, dir), name, s) && IsDirectory(Entry(Directory(v, dir), s))
    ensures Slot(dir, s) in v.chains && v.chains[Slot(dir, s)] != []
    ensures 2 <= FirstOf(Entry(Directory(v, dir), s)) == v.chains[Slot(dir, s)][0]
  {
    hide OwnedBy, Marks, CountFree, CleanTail, IsDirectory, Entry, FirstOf, Found, Linked;
    FoundOwns(v, dir, name, s);
  }

  // ---- paths ----

  lemma DirsListed(v: Fat32)
    requires Whole(v)
    ensures v.dirs <= v.chains.Keys && Root in v.dirs && Root in v.chains && v.chains[Root] != []
  {
    TreeKeys(v.chains, v.dirs, v.damaged, v.Contents());
    WholeAt(v, Root);
  }

  /** Follows a path by fat32_find_directory; 0 when it leads nowhere. */
  method Resolve(v: Fat32, root: u32, path: Path) returns (cluster: u32, ghost k: Key)
    requires Whole(v) && v.damaged == {} && Starts(v, Root, root) && root != 0 && IsPath(path)
    ensures cluster != 0 ==> PathTo(ViewOf(v), path, k) && Starts(v, k, cluster)
    ensures cluster == 0 ==> forall j :: !PathTo(ViewOf(v), path, j)
  {
    hide Whole, IsChild, Fat32.Contents, Walk;
    ghost var t := ViewOf(v);
    EmptyPath(t);
    cluster, k := root, Root;
    var i := 0;
    while i < |path|
      invariant 0 <= i <= |path| && cluster != 0 && PathTo(t, path[..i], k) && Starts(v, k, cluster)
    {
      ghost var dir := k;
      cluster, k := FindDirectory(v, cluster, path[i], dir);
      StepInto(v, path, i, dir, path[i], k, cluster != 0);
      if cluster == 0 { return; }
      i := i + 1;
    }
    assert path[..i] == path;
  }

  lemma EmptyPath(t: View)
    ensures Walk(t, []) == Here(Root)
  {
  }

  /** One more name of a path: where it leads, or that the path leads nowhere. */
  lemma StepInto(v: Fat32, path: Path, i: nat, dir: Key, name: seq<byte>, k: Key, child: bool)
    requires Whole(v) && v.damaged == {} && i < |path| && name == path[i] && PathTo(ViewOf(v), path[..i], dir) && dir in v.chains
    requires if child then IsChild(v, dir, name, k) else forall j :: !IsChild(v, dir, name, j)
    ensures if child then PathTo(ViewOf(v), path[..i + 1], k) else forall j :: !PathTo(ViewOf(v), path, j)
  {
    hide Whole, Fat32.Contents, Found, Walk;
    var t, d := ViewOf(v), Directory(v, dir);
    assert path[..i + 1] == path[..i] + [name];
    WalkInto(t, path[..i], name);
    WholeNeat(v);
    if child {
      FindIs(d, name, k.n);
    } else {
      var s := Find(d, name);
      assert s >= 0 ==> !IsChild(v, dir, name, Slot(dir, s));
      forall j ensures !PathTo(t, path, j) {
        if i + 1 < |path| { DeadEnd(t, path[..i + 1], path); } else { assert path[..i + 1] == path; }
      }
    }
  }

  // ---- runs ----

  /** fat32_delete_file looks in the root directory only. */
  predicate Allowed(op: Op) {
    && IsPath(op.path) && IsName(op.act.name)
    && (op.act.PutFile? ==> |op.act.data| < 0x1_0000_0000) && (op.act.DropFile? ==> op.path == [])
  }

  lemma Counted(v: Fat32)
    requires Whole(v)
    ensures |v.links| == v.total + 2 && (v.counting ==> v.freeClusters == CountFree(InUse(v.links, v.total)))
  {
  }

  lemma RootCluster(v: Fat32)
    requires Whole(v)
    ensures Root in v.chains && v.chains[Root] != [] && v.chains[Root][0] >= 2
  {
    hide OwnedBy, Marks, CountFree, Tree, Linked;
    DirsListed(v);
    assert ChainOk(v.links, v.chains[Root]);
  }

  /** On a volume whose directories are plain, a step of the map from paths to
    * items; and they stay plain. */
  ghost predicate Follows(t: View, op: Op, r: Reply, t': View) {
    Tidy(t) ==> Tidy(t') && Step(FilesOf(t), op, r, FilesOf(t'))
  }

  /** The directory an operation works on, and how the path reached it. */
  ghost predicate Reached(v: Fat32, root: u32, path: Path, k: Key, cluster: nat)
    reads v
  {
    Starts(v, Root, root) && Starts(v, k, cluster) && v.damaged == {} && IsPath(path) && PathTo(ViewOf(v), path, k)
  }

  method PutAt(v: Fat32, root: u32, cluster: u32, name: seq<byte>, data: seq<byte>, ghost path: Path, ghost k: Key)
    returns (rc: int, spoiled: bool)
    requires Whole(v) && Reached(v, root, path, k, cluster) && IsName(name) && |data| < 0x1_0000_0000
    modifies v
    ensures Whole(v) && Starts(v, Root, root) && if spoiled then rc == -1 else v.damaged == {}
    ensures Follows(old(ViewOf(v)), Op(path, PutFile(name, data)), Reply(rc, []), ViewOf(v))
  {
    hide Whole, Fat32.Contents, IsName, IsPath, Full, Room, Spared, Without, Chosen, Tidy, Neat, PathTo, Around, Gone, MakeEntry, Padded, Step, FilesOf;
    WholeNeat(v);
    ghost var t, was, before, d := ViewOf(v), v.chains, v.Contents(), Directory(v, k);
    var over;
    ghost var s, f;
    rc, over, s, f := WriteFile(v, cluster, name, data, k);
    spoiled := rc != 0 && over;
    WholeNeat(v);
    WithoutNone(Slot(k, s));
    if !Full(d, name) {
      RootSpared(was, v.chains, before, v.Contents(), k, s);
      SparedAround(t, ViewOf(v), was, v.chains, k, s, spoiled);
    }
    if Tidy(t) { PutFollows(t, ViewOf(v), path, k, s, name, data, f, rc); }
    DirsListed(v);
  }

  /** What a write has done, in either outcome, is a step. */
  lemma PutFollows(t: View, t': View, path: Path, k: Key, s: nat, name: seq<byte>, data: seq<byte>, first: u32, rc: int)
    requires Tidy(t) && Neat(t') && PathTo(t, path, k) && t.damaged == {} && IsPath(path) && IsName(name) && |data| < 0x1_0000_0000
    requires k in t.contents && k in t'.contents
    requires if Full(t.contents[k], name) then t' == t && rc == -1
             else
               && Chosen(t.contents[k], name, s) && Around(t, t', k, s) && Gone(t', Slot(k, s)) && Slot(k, s) in t'.contents
               && if rc == 0 then
                    && Slot(k, s) !in t'.damaged && HasSlot(t.contents[k], s)
                    && t'.contents[k] == WithEntry(t.contents[k], s, MakeEntry(name, ATTR_ARCHIVE, first, |data|))
                    && (name[0] != DELETED ==> t'.contents[Slot(k, s)] == Padded(data))
                  else
                    && rc == -1 && t'.contents[k] == t.contents[k] && (forall b | b in t'.contents[Slot(k, s)] :: b in data)
                    && (Slot(k, s) in t'.damaged <==> Slot(k, s) in t.dirs)
    ensures Follows(t, Op(path, PutFile(name, data)), Reply(rc, []), t')
  {
    if Full(t.contents[k], name) {
      FullAbsent(t.contents[k], name);
      AtFolder(t, path, k, name);
    } else if rc == 0 {
      hide Tidy, Neat, PathTo, IsPath, IsName, Around, Gone, Chosen, MakeEntry, Padded, FilesOf, Step;
      PutDone(t, t', path, k, s, name, data, first);
    } else {
      hide Tidy, Neat, PathTo, IsPath, IsName, Around, Gone, Chosen, MakeEntry, Padded, FilesOf, Step;
      PutFailed(t, t', path, k, s, name, data);
    }
  }

  method FetchAt(v: Fat32, root: u32, cluster: u32, name: seq<byte>, maxSize: u32, ghost path: Path, ghost k: Key)
    returns (rc: int, data: seq<byte>)
    requires Whole(v) && Reached(v, root, path, k, cluster) && IsName(name)
    ensures Follows(ViewOf(v), Op(path, FetchFile(name, maxSize)), Reply(rc, data), ViewOf(v))
  {
    hide Sound, Tree, CleanTail, EntriesOk, DirsAt, Fat32.Contents, IsName, IsPath, Tidy, PathTo, Step, FilesOf, Found, Absent, Prefix, SizeOf, Entry, IsDirectory;
    WholeNeat(v);
    hide Neat;
    WholeAt(v, k);
    var n;
    ghost var s;
    rc, data, n, s := ReadFileIn(v, cluster, name, maxSize, k);
    if rc == 0 {
      FoundDirectory(v.dirs, v.damaged, k, Directory(v, k), name, s);
      if Tidy(ViewOf(v)) { Fetched(ViewOf(v), path, k, s, name, maxSize, data); }
    } else if Tidy(ViewOf(v)) {
      NotFetched(ViewOf(v), path, k, name, maxSize);
    }
  }

  lemma NotFetched(t: View, path: Path, k: Key, name: seq<byte>, maxSize: u32)
    requires Tidy(t) && PathTo(t, path, k) && k in t.contents && t.damaged == {} && IsPath(path) && IsName(name) && Absent(t.contents[k], name)
    ensures Step(FilesOf(t), Op(path, FetchFile(name, maxSize)), Reply(-1, []), FilesOf(t))
    ensures Step(FilesOf(t), Op(path, DropFile(name)), Reply(-1, []), FilesOf(t))
  {
    hide Plain, CleanTail, Rooted, Found, FilesOf, Walk;
    AbsentFind(t.contents[k], name);
    AtFolder(t, path, k, name);
  }

  lemma AbsentFind(d: seq<byte>, name: seq<byte>)
    requires Absent(d, name)
    ensures Find(d, name) == -1
  {
    hide Found;
    if Find(d, name) >= 0 { NeverFound(d, name, Find(d, name)); }
  }

  method DropAt(v: Fat32, root: u32, cluster: u32, name: seq<byte>, ghost path: Path, ghost k: Key) returns (rc: int)
    requires Whole(v) && Reached(v, root, path, k, cluster) && IsName(name)
    modifies v
    ensures Whole(v) && Starts(v, Root, root) && v.damaged == {}
    ensures Follows(old(ViewOf(v)), Op(path, DropFile(name)), Reply(rc, []), ViewOf(v))
  {
    hide Whole, Fat32.Contents, IsName, IsPath, Spared, Without, Absent, Found, Tidy, Neat, PathTo, Around, Gone, Step, FilesOf, Entry;
    WholeNeat(v);
    ghost var t, was, before, d := ViewOf(v), v.chains, v.Contents(), Directory(v, k);
    ghost var s;
    rc, s := RemoveFile(v, cluster, name, k);
    WholeNeat(v);
    WithoutNone(Slot(k, s));
    if rc == 0 {
      RootSpared(was, v.chains, before, v.Contents(), k, s);
      SparedAround(t, ViewOf(v), was, v.chains, k, s, false);
      FoundReach(d, name, s);
      if Tidy(t) { DroppedFile(t, ViewOf(v), path, k, s, name); }
    } else if Tidy(t) {
      NotFetched(t, path, k, name, 0);
    }
    DirsListed(v);
  }

  method RemoveAt(v: Fat32, root: u32, cluster: u32, name: seq<byte>, ghost path: Path, ghost k: Key) returns (rc: int)
    requires Whole(v) && Reached(v, root, path, k, cluster) && IsName(name)
    modifies v
    ensures Whole(v) && Starts(v, Root, root) && v.damaged == {}
    ensures Follows(old(ViewOf(v)), Op(path, DropDirectory(name)), Reply(rc, []), ViewOf(v))
  {
    hide Whole, Fat32.Contents, IsName, IsPath, Without, Found, Tidy, Neat, PathTo, Around, Gone, Step, FilesOf, Entry, IsEmpty, Removable;
    WholeNeat(v);
    ghost var t, was, before := ViewOf(v), v.chains, v.Contents();
    if Tidy(t) { RemovableOn(v, path, k, name); }
    ghost var s;
    rc, s := RemoveDirectory(v, cluster, name, k);
    WholeNeat(v);
    WithoutNone(Slot(k, s));
    if rc == 0 {
      AllSpared(was, v.chains, before, v.Contents(), k, s);
      SparedAround(t, ViewOf(v), was, v.chains, k, s, false);
      FoundReach(t.contents[k], name, s);
      if Tidy(t) { DroppedDirectory(t, ViewOf(v), path, k, s, name); }
    } else if Tidy(t) {
      NotRemoved(t, path, k, name);
    }
    DirsListed(v);
  }

  lemma AllSpared(was: map<Key, seq<nat>>, now: map<Key, seq<nat>>, before: map<Key, seq<byte>>, after: map<Key, seq<byte>>, k: Key, s: nat)
    requires forall j | j in was && j != k && j != Slot(k, s) ::
               j in now && now[j] == was[j] && j in after && j in before && after[j] == before[j]
    ensures Spared(was, now, before, after, k, Slot(k, s))
  {
    hide Beneath;
  }

  lemma RemovableOn(v: Fat32, path: Path, k: Key, name: seq<byte>)
    requires Whole(v) && Tidy(ViewOf(v)) && PathTo(ViewOf(v), path, k) && k in v.chains && v.damaged == {} && IsPath(path) && IsName(name)
    ensures var fs, p := FilesOf(ViewOf(v)), path + [name];
            Removable(Directory(v, k), v.Contents(), k, name) <==> p in fs && fs[p] == Folder && Childless(fs, p)
  {
    hide Sound, Tree, CleanTail, EntriesOk, Fat32.Contents, IsName, IsPath, FilesOf, Found, IsEmpty, Removable, Entry, IsDirectory, Plain, Rooted, Childless, Owning, Walk;
    WholeAt(v, k);
    RemovableExact(ViewOf(v), path, k, name);
  }

  lemma NotRemoved(t: View, path: Path, k: Key, name: seq<byte>)
    requires Tidy(t) && PathTo(t, path, k) && t.damaged == {} && IsPath(path) && IsName(name)
    requires var fs, p := FilesOf(t), path + [name]; !(p in fs && fs[p] == Folder && Childless(fs, p))
    ensures Step(FilesOf(t), Op(path, DropDirectory(name)), Reply(-1, []), FilesOf(t))
  {
    hide Plain, CleanTail, Rooted, Found, FilesOf, Walk, Childless;
    AtFolder(t, path, k, name);
  }

  method MakeAt(v: Fat32, root: u32, cluster: u32, name: seq<byte>, ghost path: Path, ghost k: Key) returns (rc: int)
    requires Whole(v) && Reached(v, root, path, k, cluster) && IsName(name)
    modifies v
    ensures Whole(v) && Starts(v, Root, root) && v.damaged == {}
    ensures Follows(old(ViewOf(v)), Op(path, AddDirectory(name)), Reply(rc, []), ViewOf(v))
  {
    hide Whole, Fat32.Contents, IsName, IsPath, Kept, Vacant, Tidy, Neat, PathTo, Around, Gone, Step, FilesOf, MakeEntry, DotEntries, CountFree, InUse, AtOrBeneath;
    WholeNeat(v);
    ghost var t, was, before, dirs := ViewOf(v), v.chains, v.Contents(), v.dirs;
    WholeTree(v);
    ghost var s, c;
    rc, s, c := MakeDirectory(v, cluster, name, root, k);
    WholeNeat(v);
    if rc == 0 {
      RootKept(was, v.chains, before, v.Contents(), k, s);
      KeptAround(t, ViewOf(v), was, v.chains, k, s, name);
      if Tidy(t) {
        MadeHas(t, k, name, s);
        if name[0] == DELETED { MadeNothing(t, ViewOf(v), path, k, s, name, c); }
        else { MadeDirectory(t, ViewOf(v), path, k, s, name, c, if cluster == root then 0 else cluster); }
      }
    } else if Tidy(t) {
      NotMade(t, path, k, name);
    }
    DirsListed(v);
  }

  lemma WholeTree(v: Fat32)
    requires Whole(v)
    ensures Tree(v.chains, v.dirs, v.damaged, v.Contents())
  {
  }

  lemma MadeHas(t: View, k: Key, name: seq<byte>, s: nat)
    requires k in t.contents && Vacant(t.contents[k], name, s)
    ensures HasSlot(t.contents[k], s)
  {
  }

  lemma KeptAround(t: View, t': View, was: map<Key, seq<nat>>, now: map<Key, seq<nat>>, k: Key, s: nat, name: seq<byte>)
    requires k in t.dirs && k in t'.dirs && was.Keys == t.contents.Keys && Kept(was, now, t.contents, t'.contents, k, Slot(k, s)) && |name| > 0
    requires Tree(was, t.dirs, t.damaged, t.contents) && Slot(k, s) !in t.dirs && t'.damaged == t.damaged
    requires t'.dirs == if name[0] == DELETED then t.dirs else t.dirs + {Slot(k, s)}
    ensures Around(t, t', k, s) && forall j | j in t'.dirs && AtOrBeneath(j, Slot(k, s)) :: j == Slot(k, s)
    ensures name[0] == DELETED ==> Gone(t', Slot(k, s))
  {
    hide Beneath, Tree;
    forall j | j in t.dirs ensures !AtOrBeneath(j, Slot(k, s)) {
      if Beneath(j, Slot(k, s)) { NothingBeneath(was, t.dirs, t.damaged, t.contents, Slot(k, s), j); }
    }
  }

  lemma NotMade(t: View, path: Path, k: Key, name: seq<byte>)
    requires Tidy(t) && PathTo(t, path, k) && t.damaged == {} && IsPath(path) && IsName(name)
    ensures Step(FilesOf(t), Op(path, AddDirectory(name)), Reply(-1, []), FilesOf(t))
  {
    hide Plain, CleanTail, Rooted, Found, FilesOf, Walk;
    AtFolder(t, path, k, name);
  }

  /** An operation whose path leads to no directory fails and changes nothing. */
  lemma Unreached(t: View, op: Op)
    requires (forall j :: !PathTo(t, op.path, j)) && t.damaged == {}
    ensures Follows(t, op, Reply(-1, []), t)
  {
    hide Walk, Tidy;
    var at := Walk(t, op.path);
    assert at.Here? ==> !PathTo(t, op.path, at.key);
  }

  /** One operation, where its path leads; -1 when it leads nowhere. */
  method Perform(v: Fat32, root: u32, op: Op) returns (r: Reply, spoiled: bool)
    requires Whole(v) && v.damaged == {} && Starts(v, Root, root) && Allowed(op)
    modifies v
    ensures Whole(v) && Starts(v, Root, root)
    ensures if spoiled then op.act.PutFile? && r.rc == -1 else v.damaged == {}
    ensures Follows(old(ViewOf(v)), op, r, ViewOf(v))
  {
    hide Whole, IsName, IsPath, Fat32.Contents, Follows, PathTo;
    RootCluster(v);
    var cluster, k := Resolve(v, root, op.path);
    spoiled := false;
    if cluster == 0 {
      Unreached(ViewOf(v), op);
      return Reply(-1, []), false;
    }
    var rc, data := 0, [];
    match op.act {
      case PutFile(name, bytes) => rc, spoiled := PutAt(v, root, cluster, name, bytes, op.path, k);
      case FetchFile(name, maxSize) => rc, data := FetchAt(v, root, cluster, name, maxSize, op.path, k);
      case DropFile(name) => rc := DropAt(v, root, cluster, name, op.path, k);
      case AddDirectory(name) => rc := MakeAt(v, root, cluster, name, op.path, k);
      case DropDirectory(name) => rc := RemoveAt(v, root, cluster, name, op.path, k);
    }
    r := Reply(rc, data);
  }

  lemma WithoutNone(key: Key)
    ensures Without({}, key) == {}
  {
  }

  lemma RootSpared(was: map<Key, seq<nat>>, now: map<Key, seq<nat>>, before: map<Key, seq<byte>>, after: map<Key, seq<byte>>, dir: Key, s: nat)
    requires Spared(was, now, before, after, dir, Slot(dir, s)) && dir in was && dir in now && now[dir] == was[dir] && Root in was
    ensures Root in now && now[Root] == was[Root]
  {
  }

  lemma RootKept(was: map<Key, seq<nat>>, now: map<Key, seq<nat>>, before: map<Key, seq<byte>>, after: map<Key, seq<byte>>, dir: Key, s: nat)
    requires Kept(was, now, before, after, dir, Slot(dir, s)) && dir in was && dir in now && now[dir] == was[dir] && Root in was
    ensures Root in now && now[Root] == was[Root]
  {
  }

  /** The replies and the maps between them are those of a run. */
  ghost predicate IsRun(ops: seq<Op>, replies: seq<Reply>, trace: seq<Files>) {
    && |replies| <= |ops| && |trace| == |replies| + 1
    && forall i | 0 <= i < |replies| :: Step(trace[i], ops[i], replies[i], trace[i + 1])
  }

  lemma RunMore(ops: seq<Op>, replies: seq<Reply>, trace: seq<Files>, r: Reply, fs: Files)
    requires IsRun(ops, replies, trace) && |replies| < |ops| && Step(trace[|replies|], ops[|replies|], r, fs)
    ensures IsRun(ops, replies + [r], trace + [fs])
  {
    hide Step;
  }

  /** Any sequence of operations anywhere in the tree, failed ones included,
    * keeps the tree whole and the cached free count exact, up to and including
    * the first write that runs out of space over a directory; and if the
    * directories are plain, it is a run of the map from paths to items. */
  method Run(v: Fat32, root: u32, ops: seq<Op>) returns (replies: seq<Reply>, spoiled: bool, ghost trace: seq<Files>)
    requires Whole(v) && v.damaged == {} && Starts(v, Root, root) && forall i | 0 <= i < |ops| :: Allowed(ops[i])
    modifies v
    ensures Whole(v) && Starts(v, Root, root)
    ensures |v.links| == v.total + 2 && (v.counting ==> v.freeClusters == CountFree(InUse(v.links, v.total)))
    ensures if spoiled then 0 < |replies| <= |ops| && ops[|replies| - 1].act.PutFile? && replies[|replies| - 1].rc == -1
            else |replies| == |ops| && v.damaged == {}
    ensures old(Tidy(ViewOf(v))) ==>
              && Tidy(ViewOf(v)) && IsRun(ops, replies, trace)
              && trace[0] == FilesOf(old(ViewOf(v))) && trace[|replies|] == FilesOf(ViewOf(v))
  {
    hide Whole, Starts, Allowed, CountFree, InUse, Tidy, FilesOf, ViewOf, Step, IsRun;
    replies, spoiled, trace := [], false, [FilesOf(ViewOf(v))];
    var i := 0;
    Counted(v);
    NoRun(ops, trace);
    while i < |ops| && !spoiled
      invariant 0 <= i <= |ops| && |replies| == i && |trace| == i + 1 && Whole(v) && Starts(v, Root, root)
      invariant |v.links| == v.total + 2 && (v.counting ==> v.freeClusters == CountFree(InUse(v.links, v.total)))
      invariant if spoiled then 0 < i && ops[i - 1].act.PutFile? && replies[i - 1].rc == -1 else v.damaged == {}
      invariant old(Tidy(ViewOf(v))) ==> Tidy(ViewOf(v)) && IsRun(ops, replies, trace)
      invariant trace[0] == FilesOf(old(ViewOf(v))) && trace[i] == FilesOf(ViewOf(v))
    {
      var r;
      r, spoiled := Perform(v, root, ops[i]);
      Counted(v);
      if old(Tidy(ViewOf(v))) { RunMore(ops, replies, trace, r, FilesOf(ViewOf(v))); }
      replies, trace := replies + [r], trace + [FilesOf(ViewOf(v))];
      i := i + 1;
    }
  }

  lemma NoRun(ops: seq<Op>, trace: seq<Files>)
    requires |trace| == 1
    ensures IsRun(ops, [], trace)
  {
  }

  /** Format, and then any operations: a run of the map that begins with an empty
    * root folder. */
  method FormatAndRun(total: nat, disk: seq<seq<byte>>, ops: seq<Op>) returns (v: Fat32, replies: seq<Reply>, spoiled: bool, ghost trace: seq<Files>)
    requires var s := Sectors(total);
             && 1 <= TotalClusters(s) && TotalClusters(s) + 2 <= Min(128 * FatSize(s), BAD)
             && |disk| == TotalClusters(s) && HeapOk(disk, CLUSTER)
    requires forall i | 0 <= i < |ops| :: Allowed(ops[i])
    ensures Whole(v) && |v.links| == v.total + 2 && v.freeClusters == CountFree(InUse(v.links, v.total))
    ensures if spoiled then 0 < |replies| <= |ops| && ops[|replies| - 1].act.PutFile? && replies[|replies| - 1].rc == -1
            else |replies| == |ops| && v.damaged == {}
    ensures IsRun(ops, replies, trace) && trace[0] == imap[[] := Folder] && trace[|replies|] == FilesOf(ViewOf(v))
  {
    hide Whole, Fat32.Contents, Sectors, TotalClusters, FatSize, CountFree, InUse, Blank, Allowed, FilesOf, IsRun, Tidy;
    v := Format(total, disk);
    DirsListed(v);
    FreshTidy(v);
    replies, spoiled, trace := Run(v, 2, ops);
  }

  lemma FreshTidy(v: Fat32)
    requires Whole(v) && v.dirs == {Root} && v.damaged == {} && Root in v.chains && Blank(Directory(v, Root))
    ensures Tidy(ViewOf(v)) && FilesOf(ViewOf(v)) == imap[[] := Folder]
  {
    hide Whole, Fat32.Contents, Find;
    WholeNeat(v);
    var t, d := ViewOf(v), Directory(v, Root);
    forall s: nat ensures !Live(d, s) && forall m :: !Found(d, m, s) { assert HasSlot(d, s) ==> Mark(d, s) == 0; }
    forall m ensures Find(d, m) == -1 { FindNone(d, m); }
    EmptyPath(t);
    hide Live, Found;
    forall q ensures q in FilesOf(t) <==> q == [] {
      if q != [] { Barren(t, q); }
    }
  }

  lemma FindNone(d: seq<byte>, m: seq<byte>)
    requires forall s: nat :: !Found(d, m, s)
    ensures Find(d, m) == -1
  {
  }

  /** Where no name is found in the root, no path leads anywhere. */
  lemma {:induction false} Barren(t: View, q: Path)
    requires q != [] && (Root in t.contents ==> forall m :: Find(t.contents[Root], m) == -1)
    ensures Walk(t, q) == Missing
  {
    if |q| > 1 { Barren(t, q[..|q| - 1]); } else { assert q[..0] == []; }
  }

  // ---- files elsewhere ----

  /** `dir2` is neither the slot of `dir` that a write to `name` will take, nor
    * beneath it; and `other` is not the directory `dir` itself. */
  ghost predicate Elsewhere(v: Fat32, dir: Key, name: seq<byte>, dir2: Key, other: seq<byte>)
    requires dir in v.chains && dir2 in v.chains
    reads v
  {
    && (dir2 == dir ==> other != name)
    && (forall s: nat {:trigger Slot(dir, s)} | Chosen(Directory(v, dir), name, s) :: dir2 != Slot(dir, s) && !Beneath(dir2, Slot(dir, s)))
    && (forall s: nat {:trigger Slot(dir2, s)} | Found(Directory(v, dir2), other, s) :: Slot(dir2, s) != dir)
  }

  /** Reading a file of any directory gives the same before and after a write to
    * any directory, whether the write succeeds or not, unless the write
    * replaces a directory above the file. */
  method ReadAcross(v: Fat32, parent: nat, name: seq<byte>, data: seq<byte>, parent2: nat, other: seq<byte>, maxSize: u32,
                    ghost dir: Key, ghost dir2: Key)
    returns (wrote: int, rc1: int, out1: seq<byte>, rc2: int, out2: seq<byte>)
    requires Whole(v) && Starts(v, dir, parent) && Starts(v, dir2, parent2) && IsName(name) && IsName(other)
    requires |data| < 0x1_0000_0000 && Elsewhere(v, dir, name, dir2, other)
    modifies v
    ensures rc1 == rc2 && out1 == out2
    ensures Whole(v) && Starts(v, dir2, parent2)
  {
    hide Sound, Fat32.Contents, CleanTail, EntriesOk, DirsAt, Tree, Chosen, Full, Room, Padded, MakeEntry, Without, Spared, Entry,
         Found, Absent, Prefix;
    WholeAt(v, dir2);
    WholeAt(v, dir);
    ghost var d, d2, was, before, dirs := Directory(v, dir), Directory(v, dir2), v.chains, v.Contents(), v.dirs;
    ghost var s1, s2, slot, first;
    var n1, n2, over;
    rc1, out1, n1, s1 := ReadFileIn(v, parent2, other, maxSize, dir2);
    wrote, over, slot, first := WriteFile(v, parent, name, data, dir);
    if !Full(d, name) {
      StillThere(dirs, dir, slot, dir2);
      if dir2 != dir { SparedAt(was, v.chains, before, v.Contents(), dir, Slot(dir, slot), dir2); }
    }
    WholeAt(v, dir2);
    rc2, out2, n2, s2 := ReadFileIn(v, parent2, other, maxSize, dir2);
    if wrote == 0 && dir2 == dir {
      SameLookup(d, name, slot, MakeEntry(name, ATTR_ARCHIVE, first, |data|), other);
    }
    if rc1 == 0 { FoundPresent(d2, other, s1); }
    if rc2 == 0 { FoundPresent(Directory(v, dir2), other, s2); }
    if rc1 == 0 && rc2 == 0 {
      FoundOnce(d2, other, s1, s2);
      if !Full(d, name) {
        if dir2 == dir { NotChosen(d, name, slot, other, s1); }
        SameFile(was, v.chains, before, v.Contents(), dir, slot, dir2, s1);
      }
    }
  }

  lemma StillThere(dirs: set<Key>, dir: Key, s: nat, dir2: Key)
    requires dir2 in dirs && dir2 != Slot(dir, s) && !Beneath(dir2, Slot(dir, s))
    ensures dir2 in Without(dirs, Slot(dir, s))
  {
  }

  lemma SparedAt(was: map<Key, seq<nat>>, now: map<Key, seq<nat>>, before: map<Key, seq<byte>>, after: map<Key, seq<byte>>,
                 dir: Key, key: Key, k: Key)
    requires Spared(was, now, before, after, dir, key) && k in was && k != dir && k != key && !Beneath(k, key)
    ensures k in now && now[k] == was[k] && k in before && k in after && after[k] == before[k]
  {
  }

  lemma SameFile(was: map<Key, seq<nat>>, now: map<Key, seq<nat>>, before: map<Key, seq<byte>>, after: map<Key, seq<byte>>,
                 dir: Key, s: nat, dir2: Key, s2: nat)
    requires Spared(was, now, before, after, dir, Slot(dir, s)) && Slot(dir2, s2) in was
    requires dir2 != Slot(dir, s) && !Beneath(dir2, Slot(dir, s)) && Slot(dir2, s2) != dir && (dir2 == dir ==> s2 != s)
    ensures Slot(dir2, s2) in before && Slot(dir2, s2) in after && after[Slot(dir2, s2)] == before[Slot(dir2, s2)]
  {
    BeneathSlot(dir, s, dir2, s2);
  }

  // ---- a directory overwritten without room ----

  /** Data that reads as directory entries of files no volume can have: each
    * claims the same first cluster. */
  function Ones(n: nat): seq<byte> { seq(n, _ => 1) }

  /** When the disk is too full to overwrite a directory, its entry survives and
    * points into the data: no longer a directory any operation may enter. */
  method Spoil(v: Fat32, parent: nat, name: seq<byte>, n: nat, ghost dir: Key, ghost s: nat) returns (rc: int)
    requires Whole(v) && Starts(v, dir, parent) && IsName(name) && n < 0x1_0000_0000
    requires Existing(Directory(v, dir), name, s) && Slot(dir, s) in v.dirs && Slot(dir, s) in v.chains
    requires |v.links| == v.total + 2 && !Room(v, Slot(dir, s), n)
    modifies v
    ensures rc == -1 && Whole(v) && Slot(dir, s) in v.damaged && Slot(dir, s) in v.chains
    ensures !WellFormed(v, Slot(dir, s))
  {
    hide Sound, Fat32.Contents, CleanTail, EntriesOk, DirsAt, Tree, Full, Room, Padded, MakeEntry, Without, Spared, Entry, Existing, Chosen;
    ghost var d := Directory(v, dir);
    ghost var slot, first;
    var over;
    ExistingChosen(d, name, s);
    rc, over, slot, first := WriteFile(v, parent, name, Ones(n), dir);
    ChosenOnce(d, name, s, slot);
    DamagedPresent(v, Slot(dir, s));
    OnesNotOk(v, Slot(dir, s), n);
  }

  lemma ExistingChosen(d: seq<byte>, name: seq<byte>, s: nat)
    requires Existing(d, name, s)
    ensures Chosen(d, name, s) && !Full(d, name)
  {
    assert HasSlot(d, s);
  }

  lemma ChosenOnce(d: seq<byte>, name: seq<byte>, s: nat, t: nat)
    requires Existing(d, name, s) && Chosen(d, name, t)
    ensures s == t
  {
    hide Entry, NameOf;
    assert HasSlot(d, s) && HasSlot(d, t);
  }

  lemma DamagedPresent(v: Fat32, k: Key)
    requires Whole(v) && k in v.damaged
    ensures k in v.chains && v.chains[k] != [] && k in v.Contents() && |v.Contents()[k]| >= CLUSTER
  {
    hide OwnedBy, Marks, CountFree, DirOk, Linked, Raw;
    ClusterBytes(v, k, 0);
  }

  lemma OnesNotOk(v: Fat32, k: Key, n: nat)
    requires k in v.chains && |v.Contents()[k]| >= CLUSTER && forall b | b in v.Contents()[k] :: b in Ones(n)
    ensures !WellFormed(v, k)
  {
    var d := v.Contents()[k];
    forall i | 0 <= i < |d| ensures d[i] == 1 {
      assert d[i] in d && d[i] in Ones(n);
    }
    if WellFormed(v, k) {
      OnesSlot(v.chains, k, d, 0);
      OnesSlot(v.chains, k, d, 1);
      Clash(v.chains, v.owner, v.total + 2, Slot(k, 0), Slot(k, 1));
    }
  }

  lemma OnesSlot(chains: map<Key, seq<nat>>, k: Key, d: seq<byte>, s: nat)
    requires EntriesOk(chains, k, d) && s < 2 && |d| >= CLUSTER && forall i | 0 <= i < |d| :: d[i] == 1
    ensures Slot(k, s) in chains && chains[Slot(k, s)] != [] && chains[Slot(k, s)][0] == 0x0101_0101
  {
    assert HasSlot(d, s) && EntryOk(chains, k, d, s);
    assert Entry(d, s)[26] == 1 && Entry(d, s)[27] == 1 && Entry(d, s)[20] == 1 && Entry(d, s)[21] == 1;
  }

  lemma Clash(chains: map<Key, seq<nat>>, owner: map<nat, Use<Key>>, limit: nat, a: Key, b: Key)
    requires OwnedBy(chains, owner, limit) && a in chains && b in chains && a != b && chains[a] != [] && chains[b] != []
    ensures chains[a][0] != chains[b][0]
  {
    Foreign(chains, owner, limit, a, 0, b);
  }

  // ---- the installer's run ----

  /** The first slot behind the dot entries, or the first of all, is free in a new directory. */
  lemma NewVacant(d: seq<byte>, name: seq<byte>, s: nat)
    requires IsName(name) && HasSlot(d, s) && Mark(d, s) == 0 && forall t: nat | t < s && HasSlot(d, t) :: Mark(d, t) == DOT
    ensures Vacant(d, name, s)
  {
    forall t: nat {:trigger HasSlot(d, t)} | HasSlot(d, t) && NoEnd(d, t + 1) ensures !Occupies(d, t, name) {
      assert HasSlot(d, s) && Entry(d, t)[0] == Mark(d, t);
    }
  }

  /** Creates a directory and looks it up, as the installer does. */
  method MakeAndEnter(v: Fat32, parent: u32, name: seq<byte>, root: u32, ghost dir: Key) returns (cluster: u32, ghost k: Key)
    requires Whole(v) && v.damaged == {} && Starts(v, dir, parent) && IsName(name) && name[0] != DELETED
    requires |v.links| == v.total + 2 && CountFree(InUse(v.links, v.total)) > 0
    requires exists s: nat :: Vacant(Directory(v, dir), name, s)
    modifies v
    ensures Whole(v) && v.damaged == {} && Starts(v, k, cluster) && cluster != 0
    ensures exists c, dotdot :: v.Contents()[k] == DotEntries(c, dotdot)
    ensures |v.links| == v.total + 2 && CountFree(InUse(v.links, v.total)) == CountFree(InUse(old(v.links), v.total)) - 1
  {
    hide Sound, Fat32.Contents, CleanTail, EntriesOk, DirsAt, Tree, Vacant, Kept, Entry, MakeEntry, DotEntries, CountFree, InUse, Found,
         IsDirectory, Chosen, IsVolumeId, NameOf;
    ghost var d := Directory(v, dir);
    ghost var slot, c;
    var rc;
    rc, slot, c := MakeDirectory(v, parent, name, root, dir);
    ghost var key := Slot(dir, slot);
    MadeFound(d, name, slot, c);
    ghost var j;
    cluster, j := FindDirectory(v, parent, name, dir);
    assert IsChild(v, dir, name, key);
    FoundOnce(Directory(v, dir), name, slot, j.n);
    k := key;
  }

  lemma MadeFound(d: seq<byte>, name: seq<byte>, s: nat, c: u32)
    requires IsName(name) && name[0] != DELETED && Vacant(d, name, s)
    ensures HasSlot(d, s) && Found(WithEntry(d, s, MakeEntry(name, ATTR_DIRECTORY, c, 0)), name, s)
  {
    WrittenFound(d, name, s, MakeEntry(name, ATTR_DIRECTORY, c, 0));
  }

  lemma DotVacant(c: u32, dotdot: u32, name: seq<byte>)
    requires IsName(name)
    ensures Vacant(DotEntries(c, dotdot), name, 2)
  {
    hide DotEntries;
    var d := DotEntries(c, dotdot);
    DotMarks(c, dotdot);
    DotSlots(d, 0);
    DotSlots(d, 1);
    DotSlots(d, 2);
    NewVacant(d, name, 2);
  }

  /** Format, a directory, a directory inside it and a file inside that: with
    * three clusters and those of the file to spare, all of it succeeds and the
    * file reads back. */
  method Install(total: nat, disk: seq<seq<byte>>, first: seq<byte>, second: seq<byte>, name: seq<byte>, data: seq<byte>, maxSize: u32)
    returns (v: Fat32, rc: int, out: seq<byte>)
    requires var s := Sectors(total);
             && DivRoundUp(|data|, CLUSTER) + 3 <= TotalClusters(s) && TotalClusters(s) + 2 <= Min(128 * FatSize(s), BAD)
             && |disk| == TotalClusters(s) && HeapOk(disk, CLUSTER)
    requires IsName(first) && IsName(second) && IsName(name) && |data| <= maxSize
    requires first[0] != DELETED && second[0] != DELETED && name[0] != DELETED
    ensures rc == 0 && out == data && Whole(v)
  {
    hide Whole, Fat32.Contents, Sectors, TotalClusters, FatSize, Vacant, CountFree, InUse, DotEntries, Found, Chosen, Entry, Full,
         MakeEntry, Padded, Prefix, IsName, Blank, DivRoundUp;
    v := Format(total, disk);
    Counted(v);
    DirsListed(v);
    BlankVacant(v, first);
    var c1, k1 := MakeAndEnter(v, 2, first, 2, Root);
    ghost var a, b :| v.Contents()[k1] == DotEntries(a, b);
    DotVacant(a, b, second);
    assert Vacant(Directory(v, k1), second, 2);
    var c2, k2 := MakeAndEnter(v, c1, second, 2, k1);
    a, b :| v.Contents()[k2] == DotEntries(a, b);
    DotVacant(a, b, name);
    assert Vacant(Directory(v, k2), name, 2);
    rc, out := StoreAndFetch(v, c2, name, data, maxSize, k2);
  }

  lemma BlankVacant(v: Fat32, name: seq<byte>)
    requires Whole(v) && Root in v.chains && v.chains[Root] == [2] && Blank(Directory(v, Root)) && IsName(name)
    ensures Vacant(Directory(v, Root), name, 0)
  {
    hide OwnedBy, Marks, CountFree, Tree, Vacant, Raw, IsName, Linked;
    ClusterBytes(v, Root, 0);
    assert HasSlot(Directory(v, Root), 0);
    NewVacant(Directory(v, Root), name, 0);
  }

  /** A file written to a directory with a free slot reads back. */
  method StoreAndFetch(v: Fat32, parent: nat, name: seq<byte>, data: seq<byte>, maxSize: u32, ghost dir: Key) returns (rc: int, out: seq<byte>)
    requires Whole(v) && Starts(v, dir, parent) && IsName(name) && name[0] != DELETED && |data| <= maxSize
    requires |v.links| == v.total + 2 && DivRoundUp(|data|, CLUSTER) <= CountFree(InUse(v.links, v.total))
    requires exists s: nat :: Vacant(Directory(v, dir), name, s)
    modifies v
    ensures Whole(v) && rc == 0 && out == data
  {
    hide Sound, Fat32.Contents, CleanTail, EntriesOk, DirsAt, Tree, Chosen, Full, Padded, MakeEntry, Without, Spared, Entry,
         Found, Absent, Prefix, CountFree, InUse, DivRoundUp, Vacant;
    ghost var d := Directory(v, dir);
    ghost var s: nat :| Vacant(d, name, s);
    VacantChosen(d, name, s);
    ghost var slot, first, found;
    var over, n;
    rc, over, slot, first := WriteFile(v, parent, name, data, dir);
    WholeAt(v, dir);
    var got;
    got, out, n, found := ReadFileIn(v, parent, name, maxSize, dir);
    ReadsBack(d, name, slot, MakeEntry(name, ATTR_ARCHIVE, first, |data|), data);
    if got == 0 { FoundOnce(Directory(v, dir), name, slot, found); }
  }

  lemma VacantChosen(d: seq<byte>, name: seq<byte>, s: nat)
    requires Vacant(d, name, s)
    ensures Chosen(d, name, s) && !Full(d, name)
  {
    assert HasSlot(d, s);
  }
}
