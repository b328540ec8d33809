/** The operations of fs/fat32/fat32.c as steps of a map from paths to files and
  * folders. */
module Fat32Steps {
  import opened Bytes
  import opened Fat32Entries
  import opened Fat32Volume
  import opened Fat32Files
  import opened Fat32Directories
  import opened Fat32Tree
  import opened Fat32Paths

  datatype Act =
    | PutFile(name: seq<byte>, data: seq<byte>)
    | FetchFile(name: seq<byte>, maxSize: u32)
    | DropFile(name: seq<byte>)
    | AddDirectory(name: seq<byte>)
    | DropDirectory(name: seq<byte>)

  /** An operation on the directory at the end of a path. */
  datatype Op = Op(path: Path, act: Act)

  /** What it returns: its result, and the bytes of a read. */
  datatype Reply = Reply(rc: int, data: seq<byte>)

  /** What a write without room leaves of an item: of a file only bytes of the
    * data, of a folder a damaged entry. */
  ghost predicate Remains(was: Item, data: seq<byte>, now: Item) {
    if was.File? then now.File? && forall b | b in now.bytes :: b in data else now == Damaged
  }

  /** What an operation does to the map. Only lack of room leaves a choice. */
  ghost predicate Step(fs: Files, op: Op, r: Reply, fs': Files) {
    var p := op.path + [op.act.name];
    if op.path !in fs || fs[op.path] != Folder then r == Reply(-1, []) && fs' == fs
    else
      match op.act
      case PutFile(name, data) =>
        && r.data == [] && |name| > 0
        && if r.rc == 0 then fs' == if name[0] == DELETED then fs else Plant(fs, p, File(data))
           else r.rc == -1 && if p !in fs then fs' == fs else exists item :: Remains(fs[p], data, item) && fs' == Plant(fs, p, item)
      case FetchFile(_, maxSize) =>
        fs' == fs && r == if p !in fs then Reply(-1, []) else Reply(0, if fs[p].File? then Prefix(fs[p].bytes, maxSize) else [])
      case DropFile(_) =>
        if p in fs then r == Reply(0, []) && fs' == Cut(fs, p) else r == Reply(-1, []) && fs' == fs
      case AddDirectory(name) =>
        && r.data == [] && |name| > 0
        && if r.rc == 0 then p !in fs && fs' == (if name[0] == DELETED then fs else Plant(fs, p, Folder))
           else r.rc == -1 && fs' == fs
      case DropDirectory(_) =>
        if p in fs && fs[p] == Folder && Childless(fs, p) then r == Reply(0, []) && fs' == Cut(fs, p)
        else r == Reply(-1, []) && fs' == fs
  }

  // ---- volumes whose directories are plain ----

  /** What a whole tree gives. */
  ghost predicate Neat(t: View) { Rooted(t) && forall k | k in t.dirs :: CleanTail(t.contents[k]) }

  ghost predicate Tidy(t: View) { Neat(t) && forall k | k in t.dirs :: Plain(t.contents[k]) }

  lemma WholeNeat(v: Fat32)
    requires Whole(v)
    ensures Neat(ViewOf(v)) && v.Contents().Keys == v.chains.Keys && Root in v.dirs
  {
    hide Sound, Fat32.Contents, CleanTail, DirsAt, HasSlot;
    TreeKeys(v.chains, v.dirs, v.damaged, v.Contents());
    forall k | k in v.dirs ensures CleanTail(v.Contents()[k]) && forall s: nat | HasSlot(v.Contents()[k], s) :: Slot(k, s) in v.Contents() {
      assert DirOk(v.chains, v.dirs, v.damaged, k, v.Contents()[k]);
      forall s: nat | HasSlot(v.Contents()[k], s) ensures Slot(k, s) in v.Contents() {
        assert EntryOk(v.chains, k, v.Contents()[k], s);
      }
    }
  }

  /** Outside the slot and what hangs beneath it, only `dir` may change. */
  ghost predicate Around(t: View, t': View, dir: Key, s: nat) {
    var key := Slot(dir, s);
    && dir in t.dirs && dir in t'.dirs
    && (forall k: Key | !AtOrBeneath(k, key) :: (k in t.dirs <==> k in t'.dirs) && (k in t.damaged <==> k in t'.damaged))
    && (forall k: Key | k in t.contents && k != dir && !AtOrBeneath(k, key) :: k in t'.contents && t'.contents[k] == t.contents[k])
  }

  /** Neither the slot nor anything beneath it is a directory. */
  ghost predicate Gone(t: View, key: Key) { forall k | k in t.dirs :: !AtOrBeneath(k, key) }

  lemma SparedAround(t: View, t': View, was: map<Key, seq<nat>>, now: map<Key, seq<nat>>, dir: Key, s: nat, hurt: bool)
    requires dir in t.dirs && dir in t'.dirs && was.Keys == t.contents.Keys
    requires Spared(was, now, t.contents, t'.contents, dir, Slot(dir, s)) && t'.dirs == Without(t.dirs, Slot(dir, s))
    requires t'.damaged == Without(t.damaged, Slot(dir, s)) + (if hurt then {Slot(dir, s)} else {})
    ensures Around(t, t', dir, s) && Gone(t', Slot(dir, s)) && (Slot(dir, s) in t'.damaged <==> hurt)
  {
  }

  lemma HasBoth(t: View, t': View, dir: Key, s: nat)
    requires Neat(t) && Neat(t') && Around(t, t', dir, s)
    ensures dir in t.contents && dir in t'.contents
  {
    hide CleanTail, Beneath;
  }

  lemma AroundChanged(t: View, t': View, dir: Key, s: nat, name: seq<byte>)
    requires Tidy(t) && Neat(t') && Around(t, t', dir, s) && OnlySlot(t.contents[dir], t'.contents[dir], s, name)
    requires Plain(t'.contents[dir])
    requires forall k | k in t'.dirs && AtOrBeneath(k, Slot(dir, s)) :: Plain(t'.contents[k])
    ensures Changed(t, t', dir, s, name) && Tidy(t')
  {
    hide Plain, OnlySlot, CleanTail, Beneath;
    forall k | k in t'.dirs ensures Plain(t'.contents[k]) {
      if k != dir && !AtOrBeneath(k, Slot(dir, s)) { assert t'.contents[k] == t.contents[k]; }
    }
  }

  lemma AtFolder(t: View, path: Path, dir: Key, name: seq<byte>)
    requires PathTo(t, path, dir) && Neat(t) && dir !in t.damaged && IsPath(path) && IsName(name)
    ensures var fs, p, r := FilesOf(t), path + [name], Find(t.contents[dir], name);
            && path in fs && fs[path] == Folder
            && (p in fs <==> r >= 0) && (r >= 0 ==> fs[p] == ItemAt(t, Slot(dir, r)) && Walk(t, p) == Here(Slot(dir, r)))
            && (r < 0 ==> Walk(t, p) == Missing)
  {
    Last(path, name);
    WalkInto(t, path, name);
  }

  // ---- the steps ----

  lemma MadePlain(name: seq<byte>, first: u32, size: u32)
    requires IsName(name)
    ensures PlainEntry(MakeEntry(name, ATTR_ARCHIVE, first, size)) && PlainEntry(MakeEntry(name, ATTR_DIRECTORY, first, 0))
  {
    hide MakeEntry;
  }

  lemma PutDone(t: View, t': View, path: Path, dir: Key, s: nat, name: seq<byte>, data: seq<byte>, first: u32)
    requires Tidy(t) && Neat(t') && PathTo(t, path, dir) && dir !in t.damaged && IsPath(path) && IsName(name) && |data| < 0x1_0000_0000
    requires Around(t, t', dir, s) && Gone(t', Slot(dir, s)) && Slot(dir, s) !in t'.damaged && Slot(dir, s) in t'.contents
    requires Chosen(t.contents[dir], name, s) && HasSlot(t.contents[dir], s)
    requires t'.contents[dir] == WithEntry(t.contents[dir], s, MakeEntry(name, ATTR_ARCHIVE, first, |data|))
    requires name[0] != DELETED ==> t'.contents[Slot(dir, s)] == Padded(data)
    ensures Tidy(t') && Step(FilesOf(t), Op(path, PutFile(name, data)), Reply(0, []), FilesOf(t'))
  {
    var d, e := t.contents[dir], MakeEntry(name, ATTR_ARCHIVE, first, |data|);
    MadePlain(name, first, |data|);
    hide MakeEntry, Plain, PlainEntry, CleanTail, Chosen, Around, OnlySlot, Rooted, Found, NameOf, Padded, Entry, FilesOf, Walk, Changed, Plant, Cut, ItemAt, AtOrBeneath;
    HasBoth(t, t', dir, s);
    SlotWritten(d, name, s, e);
    AroundChanged(t, t', dir, s, name);
    AtFolder(t, path, dir, name);
    if name[0] == DELETED {
      Uprooted(t, t', path, dir, s, name);
      DeletedAbsent(d, name);
      CutNothing(t, path + [name]);
    } else {
      Planted(t, t', path, dir, s, name);
      FileItem(t', dir, s, d, e, data);
    }
  }

  lemma FileItem(t: View, dir: Key, s: nat, d: seq<byte>, e: seq<byte>, data: seq<byte>)
    requires Slot(dir, s) !in t.dirs && Slot(dir, s) !in t.damaged && Slot(dir, s) in t.contents && dir in t.contents
    requires HasSlot(d, s) && |e| == ENTRY && t.contents[dir] == WithEntry(d, s, e) && SizeOf(e) == |data|
    requires t.contents[Slot(dir, s)] == Padded(data)
    ensures ItemAt(t, Slot(dir, s)) == File(data)
  {
    EntryWritten(d, s, e, s);
    hide Entry, DivRoundUp;
  }

  /** A write that ran out of room: only what was there before has suffered. */
  lemma PutFailed(t: View, t': View, path: Path, dir: Key, s: nat, name: seq<byte>, data: seq<byte>)
    requires Tidy(t) && Neat(t') && PathTo(t, path, dir) && t.damaged == {} && IsPath(path) && IsName(name)
    requires Around(t, t', dir, s) && Gone(t', Slot(dir, s)) && (Slot(dir, s) in t'.damaged <==> Slot(dir, s) in t.dirs)
    requires Slot(dir, s) in t'.contents && forall b | b in t'.contents[Slot(dir, s)] :: b in data
    requires Chosen(t.contents[dir], name, s) && t'.contents[dir] == t.contents[dir]
    ensures Tidy(t') && Step(FilesOf(t), Op(path, PutFile(name, data)), Reply(-1, []), FilesOf(t'))
  {
    var d, p, key := t.contents[dir], path + [name], Slot(dir, s);
    if Existing(d, name, s) { ExistingFound(d, name, s); }
    hide Plain, CleanTail, Around, OnlySlot, Rooted, Found, FilesOf, Walk, Changed, Plant, Cut, ItemAt, Vacant, Existing, AtOrBeneath;
    SameSlot(d, s, name);
    AroundChanged(t, t', dir, s, name);
    AtFolder(t, path, dir, name);
    if Existing(d, name, s) {
      FindIs(d, name, s);
      Planted(t, t', path, dir, s, name);
      FailedItem(t, t', dir, s, data);
    } else {
      VacantAbsent(d, name, s);
      Uprooted(t, t', path, dir, s, name);
      CutNothing(t, p);
    }
  }

  lemma SameSlot(d: seq<byte>, s: nat, name: seq<byte>)
    requires Chosen(d, name, s)
    ensures OnlySlot(d, d, s, name)
  {
    if Vacant(d, name, s) { VacantAbsent(d, name, s); }
    forall m | Found(d, m, s) ensures m == name { FoundLive(d, m, s); }
  }

  lemma FailedItem(t: View, t': View, dir: Key, s: nat, data: seq<byte>)
    requires t.damaged == {} && Gone(t', Slot(dir, s)) && (Slot(dir, s) in t'.damaged <==> Slot(dir, s) in t.dirs)
    requires Slot(dir, s) in t'.contents && forall b | b in t'.contents[Slot(dir, s)] :: b in data
    ensures Remains(ItemAt(t, Slot(dir, s)), data, ItemAt(t', Slot(dir, s)))
  {
    assert AtOrBeneath(Slot(dir, s), Slot(dir, s));
  }

  /** A deletion that took effect. */
  lemma Dropped(t: View, t': View, path: Path, dir: Key, s: nat, name: seq<byte>)
    requires Tidy(t) && Neat(t') && PathTo(t, path, dir) && t.damaged == {} && IsPath(path) && IsName(name)
    requires Around(t, t', dir, s) && Gone(t', Slot(dir, s)) && Found(t.contents[dir], name, s) && HasSlot(t.contents[dir], s)
    requires t'.contents[dir] == WithEntry(t.contents[dir], s, Entry(t.contents[dir], s)[0 := DELETED])
    ensures Tidy(t') && FilesOf(t') == Cut(FilesOf(t), path + [name])
    ensures Find(t.contents[dir], name) == s
  {
    hide Plain, CleanTail, Around, OnlySlot, Found, FilesOf, Walk, Changed, Cut, Entry;
    SlotDeleted(t.contents[dir], name, s);
    FindIs(t.contents[dir], name, s);
    AroundChanged(t, t', dir, s, name);
    Uprooted(t, t', path, dir, s, name);
  }

  lemma DroppedFile(t: View, t': View, path: Path, dir: Key, s: nat, name: seq<byte>)
    requires Tidy(t) && Neat(t') && PathTo(t, path, dir) && t.damaged == {} && IsPath(path) && IsName(name)
    requires Around(t, t', dir, s) && Gone(t', Slot(dir, s)) && Found(t.contents[dir], name, s) && HasSlot(t.contents[dir], s)
    requires t'.contents[dir] == WithEntry(t.contents[dir], s, Entry(t.contents[dir], s)[0 := DELETED])
    ensures Tidy(t') && Step(FilesOf(t), Op(path, DropFile(name)), Reply(0, []), FilesOf(t'))
  {
    hide Plain, CleanTail, Around, Rooted, Found, FilesOf, Walk, Cut, Entry, ItemAt;
    Dropped(t, t', path, dir, s, name);
    AtFolder(t, path, dir, name);
  }

  /** The emptiness test of the disk is that of the map. */
  lemma RemovableExact(t: View, path: Path, dir: Key, name: seq<byte>)
    requires Tidy(t) && PathTo(t, path, dir) && t.damaged == {} && IsPath(path) && IsName(name)
    requires forall s: nat | HasSlot(t.contents[dir], s) :: Slot(dir, s) in t.dirs <==> Owning(t.contents[dir], s) && IsDirectory(Entry(t.contents[dir], s))
    ensures var fs, p := FilesOf(t), path + [name];
            Removable(t.contents[dir], t.contents, dir, name) <==> p in fs && fs[p] == Folder && Childless(fs, p)
  {
    var d, fs, p := t.contents[dir], FilesOf(t), path + [name];
    hide Plain, CleanTail, Rooted, Found, Walk, Entry, IsEmpty, IsDirectory;
    AtFolder(t, path, dir, name);
    var s := Find(d, name);
    if s >= 0 {
      RemovableAt(d, t.contents, dir, name, s);
      FoundOwning(d, name, s);
      if Slot(dir, s) in t.dirs {
        EmptyExact(t.contents[Slot(dir, s)]);
        EmptyFolder(t, p, Slot(dir, s));
      }
    } else {
      forall x: nat ensures !Found(d, name, x) { }
    }
  }

  lemma FoundOwning(d: seq<byte>, name: seq<byte>, s: nat)
    requires Found(d, name, s) && IsName(name)
    ensures Owning(d, s)
  {
    assert Entry(d, s)[0] == Mark(d, s);
  }

  lemma EmptyFolder(t: View, p: Path, k: Key)
    requires Neat(t) && PathTo(t, p, k) && IsPath(p) && k !in t.damaged
    ensures Childless(FilesOf(t), p) <==> forall m | IsName(m) :: Find(t.contents[k], m) == -1
  {
    hide Found, Walk, CleanTail, ItemAt;
    forall m | IsName(m) ensures p + [m] in FilesOf(t) <==> Find(t.contents[k], m) >= 0 { AtFolder(t, p, k, m); }
  }

  lemma DroppedDirectory(t: View, t': View, path: Path, dir: Key, s: nat, name: seq<byte>)
    requires Tidy(t) && Neat(t') && PathTo(t, path, dir) && t.damaged == {} && IsPath(path) && IsName(name)
    requires Around(t, t', dir, s) && Gone(t', Slot(dir, s)) && Found(t.contents[dir], name, s) && HasSlot(t.contents[dir], s)
    requires t'.contents[dir] == WithEntry(t.contents[dir], s, Entry(t.contents[dir], s)[0 := DELETED])
    requires var fs, p := FilesOf(t), path + [name]; p in fs && fs[p] == Folder && Childless(fs, p)
    ensures Tidy(t') && Step(FilesOf(t), Op(path, DropDirectory(name)), Reply(0, []), FilesOf(t'))
  {
    hide Plain, CleanTail, Around, Rooted, Found, FilesOf, Walk, Cut, Entry, ItemAt, Childless;
    Dropped(t, t', path, dir, s, name);
    AtFolder(t, path, dir, name);
  }

  /** A slot that nobody had is written: the name was not there before. */
  lemma MadeChanged(t: View, t': View, path: Path, dir: Key, s: nat, name: seq<byte>, c: u32)
    requires Tidy(t) && Neat(t') && PathTo(t, path, dir) && t.damaged == {} && IsPath(path) && IsName(name)
    requires Around(t, t', dir, s) && Vacant(t.contents[dir], name, s) && HasSlot(t.contents[dir], s)
    requires forall k | k in t'.dirs && AtOrBeneath(k, Slot(dir, s)) :: Plain(t'.contents[k])
    requires t'.contents[dir] == WithEntry(t.contents[dir], s, MakeEntry(name, ATTR_DIRECTORY, c, 0))
    ensures Changed(t, t', dir, s, name) && Tidy(t')
    ensures if name[0] == DELETED then Find(t'.contents[dir], name) == -1 else Found(t'.contents[dir], name, s)
    ensures var fs := FilesOf(t); path in fs && fs[path] == Folder && path + [name] !in fs && Walk(t, path + [name]) == Missing
  {
    var d, e := t.contents[dir], MakeEntry(name, ATTR_DIRECTORY, c, 0);
    MadePlain(name, c, 0);
    hide MakeEntry, Plain, PlainEntry, CleanTail, Vacant, Around, OnlySlot, Rooted, Found, NameOf, Entry, FilesOf, Walk, Changed, ItemAt, AtOrBeneath;
    SlotWritten(d, name, s, e);
    VacantAbsent(d, name, s);
    AroundChanged(t, t', dir, s, name);
    AtFolder(t, path, dir, name);
  }

  lemma MadeDirectory(t: View, t': View, path: Path, dir: Key, s: nat, name: seq<byte>, c: u32, dotdot: u32)
    requires Tidy(t) && Neat(t') && PathTo(t, path, dir) && t.damaged == {} && t'.damaged == {} && IsPath(path) && IsName(name)
    requires Around(t, t', dir, s) && (forall k | k in t'.dirs && AtOrBeneath(k, Slot(dir, s)) :: k == Slot(dir, s))
    requires Vacant(t.contents[dir], name, s) && HasSlot(t.contents[dir], s) && name[0] != DELETED
    requires t'.contents[dir] == WithEntry(t.contents[dir], s, MakeEntry(name, ATTR_DIRECTORY, c, 0))
    requires Slot(dir, s) in t'.dirs && t'.contents[Slot(dir, s)] == DotEntries(c, dotdot)
    ensures Tidy(t') && Step(FilesOf(t), Op(path, AddDirectory(name)), Reply(0, []), FilesOf(t'))
  {
    hide MakeEntry, Plain, CleanTail, Vacant, Around, Rooted, Found, DotEntries, FilesOf, Walk, Changed, Plant, Cut, ItemAt, AtOrBeneath;
    DotsPlain(c, dotdot);
    MadeChanged(t, t', path, dir, s, name, c);
    Planted(t, t', path, dir, s, name);
    FolderItem(t', Slot(dir, s));
  }

  /** A directory whose name begins with the deletion mark is lost. */
  lemma MadeNothing(t: View, t': View, path: Path, dir: Key, s: nat, name: seq<byte>, c: u32)
    requires Tidy(t) && Neat(t') && PathTo(t, path, dir) && t.damaged == {} && IsPath(path) && IsName(name)
    requires Around(t, t', dir, s) && Gone(t', Slot(dir, s))
    requires Vacant(t.contents[dir], name, s) && HasSlot(t.contents[dir], s) && name[0] == DELETED
    requires t'.contents[dir] == WithEntry(t.contents[dir], s, MakeEntry(name, ATTR_DIRECTORY, c, 0))
    ensures Tidy(t') && Step(FilesOf(t), Op(path, AddDirectory(name)), Reply(0, []), FilesOf(t'))
  {
    hide MakeEntry, Plain, CleanTail, Vacant, Around, Rooted, Found, FilesOf, Walk, Changed, Plant, Cut, ItemAt, AtOrBeneath;
    MadeChanged(t, t', path, dir, s, name, c);
    Uprooted(t, t', path, dir, s, name);
    CutNothing(t, path + [name]);
  }

  lemma FolderItem(t: View, k: Key)
    requires k in t.dirs && k !in t.damaged
    ensures ItemAt(t, k) == Folder
  {
  }

  /** A read gives the file's bytes. */
  lemma Fetched(t: View, path: Path, dir: Key, s: nat, name: seq<byte>, maxSize: u32, data: seq<byte>)
    requires Tidy(t) && PathTo(t, path, dir) && t.damaged == {} && IsPath(path) && IsName(name)
    requires Found(t.contents[dir], name, s) && HasSlot(t.contents[dir], s) && Slot(dir, s) in t.contents
    requires Slot(dir, s) in t.dirs ==> IsDirectory(Entry(t.contents[dir], s))
    requires data == Prefix(t.contents[Slot(dir, s)], Min(SizeOf(Entry(t.contents[dir], s)), maxSize))
    ensures Step(FilesOf(t), Op(path, FetchFile(name, maxSize)), Reply(0, data), FilesOf(t))
  {
    var d := t.contents[dir];
    FindIs(d, name, s);
    AtFolder(t, path, dir, name);
    FoundLive(d, name, s);
    LivePlain(d, s);
    hide Plain, Found, FilesOf, Walk, Entry, SizeOf, IsDirectory, Rooted, Neat;
  }
}
