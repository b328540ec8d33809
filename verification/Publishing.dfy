/** A file from its creation to its entry on the disk (fs/exfat/node.c,
  * fs/exfat/io.c): create, write, flush, and read the directory again. */
module Publishing {
  import opened Bytes
  import opened Chains
  import opened ClusterBitmap
  import opened ClusterStore
  import opened Ownership
  import opened ExfatVolume
  import opened FlatFile
  import opened FileIo
  import opened DirectorySlots
  import opened Directory
  import E = EntrySets
  import T = Timestamps

  const ARCH: u16 := 0x20

  function GeometryOf(vol: Volume): E.Geometry { E.Geometry(vol.store.clusterCount, vol.store.ClusterSize()) }

  /** What a node tells exfat_flush_node. */
  function NodeInfo(file: Node, continuations: byte, t: int, name: seq<u16>): (i: E.Info)
    requires |name| <= 255 && file.start < 0x1_0000_0000
    reads file
  {
    E.Info(ARCH, continuations, t, t, file.validSize, file.size, file.start, file.isContiguous, E.Padded(name))
  }

  /** The entries of a set that parses are announced by their first one. */
  lemma Announces(bytes: seq<byte>, offset: nat, n: nat, g: E.Geometry, tz: int, info: E.Info, i: E.Info)
    requires SetAt(bytes, offset, 32 * n, g, tz, info) && n == 1 + info.continuations as int && i.continuations == info.continuations
    ensures Announced(bytes, offset, i) && WellTyped(bytes, offset, i)
    ensures E.NameBuffer(SetBytes(bytes, offset, i), E.NameEntryCount(SetBytes(bytes, offset, i))) == info.name
  {
    hide E.Grammar, E.Sane, E.NameBuffer;
  }

  /** A settled file meets check_node's conditions, once an empty one is not contiguous. */
  lemma SaneFile(vol: Volume, file: Node, i: E.Info)
    requires vol.Valid() && file in vol.chains && i.attrib == ARCH && !i.isContiguous
    requires i.validSize == file.validSize && i.size == file.size && i.start == file.start
    ensures E.Sane(GeometryOf(vol), i) && E.Sane(GeometryOf(vol), i.(isContiguous := i.size != 0))
    ensures file.size > 0 ==> vol.chains[file] != [] && file.start == vol.chains[file][0]
  {
    hide OwnedBy, Marks, Bitmap.Valid, Store.Valid, Linked, Distinct, Spares, Volume.Contents, Store.ClusterSize, DivRoundUp;
    vol.Open(file);
    Filled(vol, file);
    var chain, cs := vol.chains[file], vol.store.ClusterSize();
    Pigeonhole(chain, vol.Limit());
    DivRoundUpBounds(file.size, cs);
    MulMonotone(|chain|, vol.store.clusterCount, cs);
  }

  lemma StartFits(vol: Volume, file: Node)
    requires vol.Valid() && file in vol.chains
    ensures file.start < 0x1_0000_0000
  {
    vol.Open(file);
  }

  /** What the directory tells of the file: its name, its size, and where the
    * chain with its bytes starts. */
  ghost predicate Published(vol: Volume, dir: Node, file: Node, offset: nat, name: seq<u16>, tz: int, data: seq<byte>, info: E.Info)
    requires dir in vol.chains && file in vol.chains && |name| <= 255
    reads vol, vol.store, dir, file
  {
    && SetAt(vol.Flat(dir).bytes, offset, 32 * (1 + info.continuations as int), GeometryOf(vol), tz, info)
    && info.name == E.Padded(name) && info.attrib == ARCH && info.size == info.validSize == |data| && vol.Flat(file).bytes == data
    && info.isContiguous == (data != [] && file.isContiguous)
    && (data != [] ==> vol.chains[file] != [] && info.start == vol.chains[file][0])
  }

  /** The write of a new file's bytes. */
  method WriteNew(vol: Volume, file: Node, data: seq<byte>) returns (rc: int)
    requires vol.Valid() && file in vol.chains && file.size == 0 && |data| <= MaxSize(vol.store.ClusterSize())
    modifies vol`owner, vol`chains, vol.store`fat, vol.store`heap, vol.store.dev, vol.cmap`bits, vol.cmap.words
    modifies file`start, file`fptrIndex, file`fptrCluster, file`isContiguous, file`isDirty, file`validSize, file`size
    ensures vol.Valid() && file in vol.chains && vol.store.ClusterSize() > 0
    ensures rc == if DivRoundUp(|data|, vol.store.ClusterSize()) <= CountFree(old(vol.cmap.bits)) then |data| else -ENOSPC
    ensures vol.Contents() == old(vol.Contents())[file := vol.Contents()[file]]
    ensures rc < 0 ==> vol.Flat(file) == old(vol.Flat(file))
    ensures rc >= 0 ==> vol.Flat(file).bytes == data && file.size == file.validSize == |data|
  {
    hide Volume.Valid, Volume.Contents, Store.ClusterSize, CountFree, DivRoundUp, MaxSize, View, Wrote;
    Shown(vol, file);
    NewBytes(vol.store.ClusterSize(), CountFree(vol.cmap.bits), data);
    assert vol.Flat(file) == File([], 0);
    rc := Pwrite(vol, file, data, 0);
    Shown(vol, file);
  }

  lemma NewBytes(cs: nat, free: nat, data: seq<byte>)
    requires cs > 0
    ensures var o := Wrote(cs, File([], 0), free, data, 0);
            && !Gap(File([], 0), 0) && o.rc == (if DivRoundUp(|data|, cs) <= free then |data| else -ENOSPC)
            && o.file == if o.rc >= 0 then File(data, |data|) else File([], 0)
  {
    WroteSucceeds(cs, File([], 0), free, data, 0);
    DivRoundUpBounds(0, cs);
    hide DivRoundUp;
    assert Splice(Resize([], |data|), 0, data) == data;
    if data != [] && Wrote(cs, File([], 0), free, data, 0).rc >= 0 { WroteBytes(cs, File([], 0), free, data, 0); }
  }

  /** exfat_flush_node of a file whose set was created at `offset`. */
  method FlushFile(vol: Volume, dir: Node, file: Node, offset: nat, name: seq<u16>, data: seq<byte>, t: int, tz: int,
                   ghost created: E.Info) returns (ghost info: E.Info)
    requires vol.Valid() && dir in vol.chains && file in vol.chains && file != dir && dir.validSize == dir.size && E.IsName(name)
    requires vol.Flat(file).bytes == data && file.size == file.validSize == |data| < 0x1_0000_0000_0000_0000
    requires SetAt(vol.Flat(dir).bytes, offset, 32 * (2 + E.EntriesFor(name)), GeometryOf(vol), tz, created)
    requires created.continuations == 1 + E.EntriesFor(name) && created.name == E.Padded(name)
    requires T.DayOf(T.Local(t, tz)) < 23937024 && dir.size <= MaxSize(vol.store.ClusterSize())
    modifies vol`owner, vol`chains, vol.store`fat, vol.store`heap, vol.store.dev, vol.cmap`bits, vol.cmap.words
    modifies dir`start, dir`fptrIndex, dir`fptrCluster, dir`isContiguous, dir`isDirty, dir`validSize, dir`size
    ensures vol.Valid() && dir in vol.chains && file in vol.chains && Published(vol, dir, file, offset, name, tz, data, info)
    ensures info.continuations == 1 + E.EntriesFor(name)
    ensures KeptOutside(old(vol.Flat(dir)).bytes, vol.Flat(dir).bytes, offset, 32 * (2 + E.EntriesFor(name)), 0, 0)
    ensures vol.Contents() == old(vol.Contents())[dir := vol.Contents()[dir]]
  {
    hide Volume.Valid, Volume.Contents, Store.ClusterSize, MaxSize, View, T.DayOf, T.Local, E.EntriesFor, E.Padded, SetAt, E.Sane,
         Announced, WellTyped, E.NameBuffer, E.NameEntryCount, SetBytes, KeptOutside, Flushed, CountFree;
    StartFits(vol, file);
    var i := NodeInfo(file, 1 + E.EntriesFor(name), t, name);
    ghost var was := vol.Flat(dir).bytes;
    Announces(was, offset, 2 + E.EntriesFor(name), GeometryOf(vol), tz, created, i);
    SaneFile(vol, file, i.(isContiguous := false));
    var rc := FlushNode(vol, dir, offset, i, tz, GeometryOf(vol));
    StartFits(vol, file);
    SaneFile(vol, file, i.(isContiguous := false));
    info := FlushedAs(was, vol.Flat(dir).bytes, offset, GeometryOf(vol), tz, i);
  }

  lemma FlushedAs(was: seq<byte>, now: seq<byte>, offset: nat, g: E.Geometry, tz: int, i: E.Info) returns (info: E.Info)
    requires Announced(was, offset, i) && Flushed(was, now, offset, g, tz, i)
    ensures SetAt(now, offset, 32 * (1 + info.continuations as int), g, tz, info)
    ensures info.continuations == i.continuations && KeptOutside(was, now, offset, 32 * (1 + i.continuations as int), 0, 0)
    ensures info.attrib == i.attrib && info.validSize == i.validSize && info.size == i.size && info.start == i.start
    ensures info.isContiguous == (i.size != 0 && i.isContiguous)
    ensures E.NameEntryCount(SetBytes(was, offset, i)) < i.continuations as int
    ensures info.name == E.NameBuffer(SetBytes(was, offset, i), E.NameEntryCount(SetBytes(was, offset, i)))
  {
    hide SetAt, E.NameBuffer;
    info := E.FlushedInfo(SetBytes(was, offset, i), i, tz);
  }

  /** Create, write, flush: reading the directory again gives an entry whose size
    * and start cluster denote a chain that holds exactly the bytes written. That
    * succeeds if and only if the clusters for the entry and for the data are
    * free; no other file changes, nor any other entry of the directory. */
  method Publish(vol: Volume, dir: Node, file: Node, isRoot: bool, spans: seq<Span>, upcase: E.Upcase, name: seq<u16>,
                 data: seq<byte>, t: int, tz: int) returns (rc: int, offset: nat, ghost info: E.Info)
    requires vol.Valid() && dir in vol.chains && file in vol.chains && file != dir && file.size == 0
    requires |vol.Flat(dir).bytes| % 32 == 0 && dir.validSize == dir.size
    requires forall p :: 0 <= p < |spans| ==> spans[p].at + spans[p].count <= |vol.Flat(dir).bytes| / 32
    requires E.IsName(name) && T.DayOf(T.Local(t, tz)) < 23937024
    requires dir.size + 32 * 19 + vol.store.ClusterSize() <= MaxSize(vol.store.ClusterSize())
    requires |data| <= MaxSize(vol.store.ClusterSize()) && |data| < 0x1_0000_0000_0000_0000
    modifies vol`owner, vol`chains, vol.store`fat, vol.store`heap, vol.store.dev, vol.cmap`bits, vol.cmap.words
    modifies dir`start, dir`fptrIndex, dir`fptrCluster, dir`isContiguous, dir`isDirty, dir`validSize, dir`size
    modifies file`start, file`fptrIndex, file`fptrCluster, file`isContiguous, file`isDirty, file`validSize, file`size
    ensures vol.Valid() && dir in vol.chains && file in vol.chains && vol.store.ClusterSize() > 0
    ensures rc == if Affordable(vol.store.ClusterSize(), old(vol.Flat(dir)).bytes, spans, isRoot, name, data, CountFree(old(vol.cmap.bits)))
                  then 0 else -ENOSPC
    ensures rc == 0 ==> Published(vol, dir, file, offset, name, tz, data, info)
    ensures rc == 0 ==> Created(old(vol.Flat(dir)).bytes, vol.Flat(dir).bytes, spans, isRoot, 2 + E.EntriesFor(name), offset,
                                GeometryOf(vol), tz, info)
    ensures rc != 0 ==> vol.Flat(file) == old(vol.Flat(file))
    ensures forall n | n in old(vol.Contents()) && n != dir && n != file :: n in vol.Contents() && vol.Contents()[n] == old(vol.Contents())[n]
  {
    hide Volume.Valid, Volume.Contents, MaxSize, View, T.DayOf, T.Local, E.EntriesFor, E.Padded, Published, Created, T.Encoded, E.NewInfo,
         Store.ClusterSize, SetAt, CountFree, DivRoundUp, SlotCost, KeptOutside, Stands, E.WithSum, E.NewSet, E.NameHash;
    ghost var g := GeometryOf(vol);
    info := E.NewInfo(name, ARCH, T.Encoded(t, tz), tz);
    NewInfoIs(name, T.Encoded(t, tz), tz);
    Shown(vol, dir);
    ghost var was := vol.Flat(dir).bytes;
    rc, offset := CreateEntry(vol, dir, isRoot, spans, upcase, name, ARCH, t, tz, g);
    Listed(vol);
    ghost var mid := vol.Contents();
    CostNotNegative(vol.store.ClusterSize(), was, spans, isRoot, 2 + E.EntriesFor(name));
    if rc != 0 { return; }
    ghost var made := vol.Flat(dir).bytes;
    ghost var created := info;
    CreatedSet(was, made, spans, isRoot, 2 + E.EntriesFor(name), offset, g, tz, created);
    rc, info := Fill(vol, dir, file, offset, name, data, t, tz, created);
    if rc == 0 { CreatedRewritten(was, made, vol.Flat(dir).bytes, spans, isRoot, 2 + E.EntriesFor(name), offset, g, tz, created, info); }
    KeptTwice(old(vol.Contents()), mid, vol.Contents(), dir, file);
  }

  lemma KeptTwice<K, V>(a: map<K, V>, b: map<K, V>, c: map<K, V>, j: K, k: K)
    requires j in b && b == a[j := b[j]]
    requires forall n | n in b && n != j && n != k :: n in c && c[n] == b[n]
    ensures forall n | n in a && n != j && n != k :: n in c && c[n] == a[n]
  {
  }

  /** The write of the data, and the flush of the entry it goes with. */
  method Fill(vol: Volume, dir: Node, file: Node, offset: nat, name: seq<u16>, data: seq<byte>, t: int, tz: int,
              ghost created: E.Info) returns (rc: int, ghost info: E.Info)
    requires vol.Valid() && dir in vol.chains && file in vol.chains && file != dir && file.size == 0 && E.IsName(name)
    requires dir.validSize == dir.size <= MaxSize(vol.store.ClusterSize()) && T.DayOf(T.Local(t, tz)) < 23937024
    requires SetAt(vol.Flat(dir).bytes, offset, 32 * (2 + E.EntriesFor(name)), GeometryOf(vol), tz, created)
    requires created.continuations == 1 + E.EntriesFor(name) && created.name == E.Padded(name)
    requires |data| <= MaxSize(vol.store.ClusterSize()) && |data| < 0x1_0000_0000_0000_0000
    modifies vol`owner, vol`chains, vol.store`fat, vol.store`heap, vol.store.dev, vol.cmap`bits, vol.cmap.words
    modifies dir`start, dir`fptrIndex, dir`fptrCluster, dir`isContiguous, dir`isDirty, dir`validSize, dir`size
    modifies file`start, file`fptrIndex, file`fptrCluster, file`isContiguous, file`isDirty, file`validSize, file`size
    ensures vol.Valid() && dir in vol.chains && file in vol.chains && vol.store.ClusterSize() > 0
    ensures rc == if DivRoundUp(|data|, vol.store.ClusterSize()) <= CountFree(old(vol.cmap.bits)) then 0 else -ENOSPC
    ensures rc == 0 ==> Published(vol, dir, file, offset, name, tz, data, info) && info.continuations == 1 + E.EntriesFor(name)
    ensures rc == 0 ==> SetAt(vol.Flat(dir).bytes, offset, 32 * (2 + E.EntriesFor(name)), GeometryOf(vol), tz, info)
    ensures rc == 0 ==> KeptOutside(old(vol.Flat(dir)).bytes, vol.Flat(dir).bytes, offset, 32 * (2 + E.EntriesFor(name)), 0, 0)
    ensures rc != 0 ==> vol.Flat(file) == old(vol.Flat(file))
    ensures forall n | n in old(vol.Contents()) && n != dir && n != file :: n in vol.Contents() && vol.Contents()[n] == old(vol.Contents())[n]
  {
    hide Volume.Valid, Volume.Contents, MaxSize, View, T.DayOf, T.Local, E.EntriesFor, E.Padded, Published,
         Store.ClusterSize, SetAt, CountFree, DivRoundUp, KeptOutside;
    info := created;
    ghost var d, before := vol.Flat(dir), vol.Contents();
    Listed(vol);
    var w := WriteNew(vol, file, data);
    Listed(vol);
    if w < 0 { return w, info; }
    assert vol.Flat(dir) == d;
    ghost var mid := vol.Contents();
    info := FlushFile(vol, dir, file, offset, name, data, t, tz, created);
    PublishedSet(vol, dir, file, offset, name, tz, data, info);
    Listed(vol);
    KeptBoth(before, mid, vol.Contents(), file, dir);
    rc := 0;
  }

  /** The clusters of the entry and of the data are free. */
  ghost predicate Affordable(cs: nat, bytes: seq<byte>, spans: seq<Span>, isRoot: bool, name: seq<u16>, data: seq<byte>, free: nat)
    requires cs > 0 && E.IsName(name)
  {
    SlotCost(cs, bytes, spans, isRoot, 2 + E.EntriesFor(name)) + DivRoundUp(|data|, cs) <= free
  }

  lemma CostNotNegative(cs: nat, bytes: seq<byte>, spans: seq<Span>, isRoot: bool, n: nat)
    requires cs > 0
    ensures SlotCost(cs, bytes, spans, isRoot, n) >= 0
  {
    var tail := |bytes| / 32 - TailBegin(|bytes| / 32, spans, n);
    if tail <= n { DivRoundUpMonotone(|bytes|, |bytes| + 32 * (n - tail), cs); }
    hide DivRoundUp, TailBegin, HasRoom;
  }

  lemma PublishedSet(vol: Volume, dir: Node, file: Node, offset: nat, name: seq<u16>, tz: int, data: seq<byte>, info: E.Info)
    requires dir in vol.chains && file in vol.chains && |name| <= 255 && Published(vol, dir, file, offset, name, tz, data, info)
    ensures SetAt(vol.Flat(dir).bytes, offset, 32 * (1 + info.continuations as int), GeometryOf(vol), tz, info)
  {
    hide SetAt;
  }

  lemma NewInfoIs(name: seq<u16>, st: T.Stamp, tz: int)
    requires E.IsName(name)
    ensures var i := E.NewInfo(name, ARCH, st, tz); i.continuations == 1 + E.EntriesFor(name) && i.name == E.Padded(name)
  {
  }

  lemma CreatedSet(was: seq<byte>, now: seq<byte>, spans: seq<Span>, isRoot: bool, n: nat, offset: nat,
                   g: E.Geometry, tz: int, info: E.Info)
    requires Created(was, now, spans, isRoot, n, offset, g, tz, info)
    ensures SetAt(now, offset, 32 * n, g, tz, info)
  {
  }
}
