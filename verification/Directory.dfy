/** Entry sets in the directories of a volume (fs/exfat/node.c): creating a file
  * and flushing a node, down to the clusters of the directory. */
module Directory {
  import opened Bytes
  import opened ClusterBitmap
  import opened ExfatVolume
  import opened FlatFile
  import opened FileIo
  import opened DirectorySlots
  import E = EntrySets
  import T = Timestamps

  /** write_entries, inside an initialised directory: the bytes are spliced in
    * and no other file changes. */
  method WriteEntries(vol: Volume, dir: Node, data: seq<byte>, offset: nat)
    requires vol.Valid() && dir in vol.chains && dir.validSize == dir.size && offset + |data| <= dir.size
    requires offset + |data| <= MaxSize(vol.store.ClusterSize())
    modifies vol`owner, vol`chains, vol.store`fat, vol.store`heap, vol.store.dev, vol.cmap`bits, vol.cmap.words
    modifies dir`start, dir`fptrIndex, dir`fptrCluster, dir`isContiguous, dir`isDirty, dir`validSize, dir`size
    ensures vol.Valid() && dir in vol.chains
    ensures |old(vol.Flat(dir)).bytes| == old(dir.size)
    ensures vol.Flat(dir) == old(vol.Flat(dir)).(bytes := Splice(old(vol.Flat(dir)).bytes, offset, data))
    ensures vol.Contents() == old(vol.Contents())[dir := vol.Contents()[dir]]
    ensures dir.validSize == dir.size == old(dir.size) && CountFree(vol.cmap.bits) == CountFree(old(vol.cmap.bits))
  {
    hide Volume.Valid, Volume.Contents, View, MaxSize, CountFree, DivRoundUp;
    ghost var f := vol.Flat(dir);
    Shown(vol, dir);
    InPlace(vol.store.ClusterSize(), f, CountFree(vol.cmap.bits), data, offset);
    var _ := Pwrite(vol, dir, data, offset);
    Shown(vol, dir);
  }

  /** A write inside an initialised file changes only the bytes written. */
  lemma InPlace(cs: nat, f: File, free: nat, data: seq<byte>, off: nat)
    requires cs > 0 && f.valid == |f.bytes| && off + |data| <= |f.bytes|
    ensures !Gap(f, off) && Wrote(cs, f, free, data, off).rc >= 0 && Wrote(cs, f, free, data, off).free == free
    ensures Wrote(cs, f, free, data, off).file == f.(bytes := Splice(f.bytes, off, data))
  {
    if data == [] { assert Splice(f.bytes, off, data) == f.bytes; }
  }

  /** read_entries, for entries that lie inside the directory. */
  method ReadEntries(vol: Volume, dir: Node, size: nat, offset: nat) returns (data: seq<byte>)
    requires vol.Valid() && dir in vol.chains && offset + size <= |vol.Flat(dir).bytes|
    modifies dir`fptrIndex, dir`fptrCluster
    ensures vol.Valid() && vol.Flat(dir) == old(vol.Flat(dir))
    ensures data == vol.Flat(dir).bytes[offset..offset + size]
  {
    hide Volume.Valid, Volume.Contents, View;
    var _, d := Pread(vol, dir, size, offset);
    data := d;
  }

  /** The set of entries that starts at `offset`. */
  ghost predicate SetAt(bytes: seq<byte>, offset: nat, size: nat, g: E.Geometry, tz: int, info: E.Info) {
    offset + size <= |bytes| && Reads(bytes[offset..offset + size], g, tz, info)
  }

  /** A set of entries that parses to `info`. */
  ghost predicate Reads(data: seq<byte>, g: E.Geometry, tz: int, info: E.Info) {
    E.IsSet(data) && E.Parse(g, tz, data) == E.Some(info)
  }

  /** The bytes at `at` are `data`. */
  ghost predicate Stands(bytes: seq<byte>, at: nat, data: seq<byte>) {
    at + |data| <= |bytes| && bytes[at..at + |data|] == data
  }

  lemma SplicedStands(bytes: seq<byte>, at: nat, data: seq<byte>)
    requires at + |data| <= |bytes|
    ensures Stands(Splice(bytes, at, data), at, data)
  {
  }

  lemma SetWritten(bytes: seq<byte>, offset: nat, data: seq<byte>, g: E.Geometry, tz: int, info: E.Info)
    requires offset + |data| <= |bytes| && Reads(data, g, tz, info)
    ensures SetAt(Splice(bytes, offset, data), offset, |data|, g, tz, info)
  {
    assert Splice(bytes, offset, data)[offset..offset + |data|] == data;
  }

  /** Every entry of the children keeps its bytes. */
  ghost predicate ChildrenKept(was: seq<byte>, now: seq<byte>, spans: seq<Span>) {
    |was| <= |now| && forall k: nat, b :: Covered(spans, k) && 32 * k <= b < 32 * k + 32 && b < |was| ==> now[b] == was[b]
  }

  /** Writing into entries that belong to no child. */
  lemma SlotKept(was: seq<byte>, grown: seq<byte>, spans: seq<Span>, at: nat, n: nat, data: seq<byte>)
    requires Open(was, grown, spans, n, at) && |data| == 32 * n
    ensures ChildrenKept(was, Splice(grown, 32 * at, data), spans)
  {
  }

  /** Every valid entry outside the slot keeps its bytes. */
  ghost predicate ValidKept(was: seq<byte>, now: seq<byte>, spans: seq<Span>, isRoot: bool, n: nat) {
    |was| <= |now| && forall k: nat, b :: 32 * k <= b < 32 * k + 32 <= |was| && Safe(was, spans, isRoot, n, k) ==> now[b] == was[b]
  }

  /** A valid entry that a slot of `n` entries will not touch. */
  ghost predicate Safe(bytes: seq<byte>, spans: seq<Span>, isRoot: bool, n: nat, k: nat)
    requires 32 * k < |bytes|
  {
    ValidAt(bytes, k) && (HasRoom(bytes, spans, isRoot, n) || k < TailBegin(|bytes| / 32, spans, n))
  }

  ghost predicate HasRoom(bytes: seq<byte>, spans: seq<Span>, isRoot: bool, n: nat) {
    exists t: nat :: Room(bytes, spans, isRoot, n, t)
  }

  /** The slot holds no valid entry of the root when it was found in place, and
    * begins the tail otherwise. */
  ghost predicate Sited(was: seq<byte>, spans: seq<Span>, isRoot: bool, n: nat, s: nat) {
    if HasRoom(was, spans, isRoot, n) then Room(was, spans, isRoot, n, s) else s == TailBegin(|was| / 32, spans, n)
  }

  /** The slot is no child's, and holds no valid entry of the root that is safe. */
  ghost predicate Placed(was: seq<byte>, spans: seq<Span>, isRoot: bool, n: nat, s: nat) {
    forall k: nat :: s <= k < s + n ==> !Covered(spans, k) && (isRoot && 32 * k + 32 <= |was| ==> !Safe(was, spans, true, n, k))
  }

  /** The clusters a slot of `n` entries costs: none in place, else those that
    * the entries missing at the tail ask for. */
  ghost function SlotCost(cs: nat, bytes: seq<byte>, spans: seq<Span>, isRoot: bool, n: nat): int
    requires cs > 0
  {
    var tail := |bytes| / 32 - TailBegin(|bytes| / 32, spans, n);
    if HasRoom(bytes, spans, isRoot, n) || tail > n then 0
    else DivRoundUp(|bytes| + 32 * (n - tail), cs) - DivRoundUp(|bytes|, cs)
  }

  lemma CostTruncated(cs: nat, f: File, free: nat, spans: seq<Span>, isRoot: bool, n: nat, s: nat)
    requires cs > 0 && |f.bytes| % 32 == 0 && !HasRoom(f.bytes, spans, isRoot, n) && n > 0 && Tail(|f.bytes| / 32, spans, n, s)
    ensures var o := Truncated(cs, f, free, DirectorySlots.Extended(cs, |f.bytes|, n, |f.bytes| / 32 - s), true);
            && (o.rc == 0 <==> SlotCost(cs, f.bytes, spans, isRoot, n) <= free)
            && o.free == if o.rc == 0 then free - SlotCost(cs, f.bytes, spans, isRoot, n) else free
  {
    TailExact(|f.bytes| / 32, spans, n, s);
    var x := |f.bytes| + 32 * (n - (|f.bytes| / 32 - s));
    DivRoundUpBounds(x, cs);
    WholeClusters(DivRoundUp(x, cs), cs);
    hide DivRoundUp, TailBegin, Covered, HasRoom, Resize;
  }

  lemma WholeClusters(q: nat, cs: nat)
    requires cs > 0
    ensures DivRoundUp(q * cs, cs) == q
  {
    DivModUnique(q, cs - 1, cs);
  }

  lemma PlacedIn(was: seq<byte>, grown: seq<byte>, spans: seq<Span>, isRoot: bool, n: nat, s: nat)
    requires Open(was, grown, spans, n, s) && Sited(was, spans, isRoot, n, s)
    ensures Placed(was, spans, isRoot, n, s)
  {
    hide Covered, TailBegin, Room;
    forall k: nat | s <= k < s + n && isRoot && 32 * k + 32 <= |was| ensures !Safe(was, spans, true, n, k) {
      if HasRoom(was, spans, true, n) { NotValid(was, spans, n, s, k); }
    }
  }

  lemma ValidSpared(was: seq<byte>, grown: seq<byte>, spans: seq<Span>, n: nat, s: nat, data: seq<byte>)
    requires Open(was, grown, spans, n, s) && |data| == 32 * n && Sited(was, spans, true, n, s)
    ensures ValidKept(was, Splice(grown, 32 * s, data), spans, true, n)
  {
    hide Covered, TailBegin, Room, HasRoom;
    var now := Splice(grown, 32 * s, data);
    forall k: nat, b | 32 * k <= b < 32 * k + 32 <= |was| && Safe(was, spans, true, n, k)
      ensures now[b] == was[b]
    {
      if HasRoom(was, spans, true, n) && s <= k < s + n { NotValid(was, spans, n, s, k); }
    }
  }

  lemma NotValid(bytes: seq<byte>, spans: seq<Span>, n: nat, s: nat, k: nat)
    requires Room(bytes, spans, true, n, s) && s <= k < s + n
    ensures 32 * k < |bytes| && !ValidAt(bytes, k)
  {
    hide Covered;
    assert Usable(bytes, spans, true, k);
  }

  lemma RoomFree(bytes: seq<byte>, spans: seq<Span>, isRoot: bool, n: nat, s: nat)
    requires Room(bytes, spans, isRoot, n, s)
    ensures 32 * (s + n) <= |bytes| && forall k: nat :: s <= k < s + n ==> !Covered(spans, k)
  {
    hide Covered;
    forall k: nat | s <= k < s + n ensures !Covered(spans, k) { assert Usable(bytes, spans, isRoot, k); }
  }

  lemma ResizeKeeps(was: seq<byte>, now: seq<byte>)
    requires |was| <= |now| && now == Resize(was, |now|)
    ensures forall b :: 0 <= b < |was| ==> now[b] == was[b]
  {
  }

  method NewData(upcase: E.Upcase, name: seq<u16>, attrib: u16, t: int, tz: int, ghost g: E.Geometry) returns (data: seq<byte>)
    requires E.IsName(name) && g.clusterSize > 0 && T.DayOf(T.Local(t, tz)) < 23937024
    ensures |data| == 64 + 32 * E.EntriesFor(name) && Reads(data, g, tz, E.NewInfo(name, attrib, T.Encoded(t, tz), tz))
    ensures data == E.WithSum(E.NewSet(name, attrib, E.NameHash(upcase, name), T.Encoded(t, tz)))
  {
    hide E.WithSum, E.NewSet, E.Parse, E.EntriesFor, T.Encoded, T.DayOf, T.Local, E.NameHash, E.NewInfo;
    data := E.BuildSet(upcase, name, attrib, t, tz);
    E.CommitParses(g, tz, name, attrib, E.NameHash(upcase, name), T.Encoded(t, tz));
  }

  /** The set at `offset` parses to `info`, the children's entries are kept, and
    * in the root so is every valid entry outside the slot. */
  ghost predicate Created(was: seq<byte>, now: seq<byte>, spans: seq<Span>, isRoot: bool, n: nat, offset: nat,
                          g: E.Geometry, tz: int, info: E.Info)
  {
    && SetAt(now, offset, 32 * n, g, tz, info) && ChildrenKept(was, now, spans)
    && (isRoot ==> ValidKept(was, now, spans, true, n))
    && offset % 32 == 0 && Placed(was, spans, isRoot, n, offset / 32)
  }

  /** Rewriting the set keeps what its creation kept. */
  lemma CreatedRewritten(was: seq<byte>, mid: seq<byte>, now: seq<byte>, spans: seq<Span>, isRoot: bool, n: nat, offset: nat,
                         g: E.Geometry, tz: int, info: E.Info, info': E.Info)
    requires Created(was, mid, spans, isRoot, n, offset, g, tz, info) && KeptOutside(mid, now, offset, 32 * n, 0, 0)
    requires SetAt(now, offset, 32 * n, g, tz, info')
    ensures Created(was, now, spans, isRoot, n, offset, g, tz, info')
  {
    hide SetAt, Covered, Safe;
  }

  /** What a directory holds once a set is written into a claimed slot. */
  lemma Entered(was: seq<byte>, grown: seq<byte>, spans: seq<Span>, isRoot: bool, n: nat, offset: nat, data: seq<byte>,
                g: E.Geometry, tz: int, info: E.Info)
    requires offset % 32 == 0 && Open(was, grown, spans, n, offset / 32) && Sited(was, spans, isRoot, n, offset / 32)
    requires |data| == 32 * n && offset + |data| <= |grown| && Reads(data, g, tz, info)
    ensures Created(was, Splice(grown, offset, data), spans, isRoot, n, offset, g, tz, info)
  {
    hide Open, Sited, Reads, SetAt, ChildrenKept, ValidKept, Splice;
    SetWritten(grown, offset, data, g, tz, info);
    SlotKept(was, grown, spans, offset / 32, n, data);
    PlacedIn(was, grown, spans, isRoot, n, offset / 32);
    hide Placed;
    if isRoot { ValidSpared(was, grown, spans, n, offset / 32, data); }
  }

  /** create, once the path is resolved: room is found, and the entry set
    * written there parses back as the new file; the entries of the other
    * children stay as they are. Without room nothing changes. */
  method CreateEntry(vol: Volume, dir: Node, isRoot: bool, spans: seq<Span>, upcase: E.Upcase, name: seq<u16>,
                     attrib: u16, t: int, tz: int, ghost g: E.Geometry) returns (rc: int, offset: nat)
    requires vol.Valid() && dir in vol.chains && |vol.Flat(dir).bytes| % 32 == 0 && dir.validSize == dir.size
    requires forall p :: 0 <= p < |spans| ==> spans[p].at + spans[p].count <= |vol.Flat(dir).bytes| / 32
    requires E.IsName(name) && g.clusterSize > 0 && T.DayOf(T.Local(t, tz)) < 23937024
    requires dir.size + 32 * 19 + vol.store.ClusterSize() <= MaxSize(vol.store.ClusterSize())
    modifies vol`owner, vol`chains, vol.store`fat, vol.store`heap, vol.store.dev, vol.cmap`bits, vol.cmap.words
    modifies dir`start, dir`fptrIndex, dir`fptrCluster, dir`isContiguous, dir`isDirty, dir`validSize, dir`size
    ensures vol.Valid() && dir in vol.chains && vol.store.ClusterSize() > 0
    ensures var cost := SlotCost(vol.store.ClusterSize(), old(vol.Flat(dir)).bytes, spans, isRoot, 2 + E.EntriesFor(name));
            && rc == (if cost <= CountFree(old(vol.cmap.bits)) then 0 else -ENOSPC)
            && CountFree(vol.cmap.bits) == CountFree(old(vol.cmap.bits)) - if rc == 0 then cost else 0
    ensures vol.Contents() == old(vol.Contents())[dir := vol.Contents()[dir]]
    ensures rc != 0 ==> vol.Flat(dir) == old(vol.Flat(dir))
    ensures dir.validSize == dir.size <= MaxSize(vol.store.ClusterSize())
    ensures rc == 0 ==> Created(old(vol.Flat(dir)).bytes, vol.Flat(dir).bytes, spans, isRoot, 2 + E.EntriesFor(name), offset,
                                g, tz, E.NewInfo(name, attrib, T.Encoded(t, tz), tz))
    ensures rc == 0 ==> Stands(vol.Flat(dir).bytes, offset, E.WithSum(E.NewSet(name, attrib, E.NameHash(upcase, name), T.Encoded(t, tz))))
  {
    hide Volume.Valid, Volume.Contents, View, MaxSize, CountFree, DivRoundUp, Room, Tail, Covered, Resize, Created, Stands, E.WithSum, E.NewSet,
         Open, Reads, Sited, E.EntriesFor, T.Encoded, T.DayOf, T.Local, E.NewInfo, E.NameHash, Volume.Flat, Splice, SlotCost;
    ghost var was := vol.Flat(dir).bytes;
    Shown(vol, dir);
    var n := 2 + E.EntriesFor(name);
    rc, offset := ClaimSlot(vol, dir, isRoot, spans, n);
    if rc != 0 { return; }
    ghost var grown := vol.Flat(dir).bytes;
    Inside(was, grown, spans, n, offset / 32);
    ghost var mid := vol.Contents();
    var data := NewData(upcase, name, attrib, t, tz, g);
    FillSlot(vol, dir, isRoot, spans, n, was, offset, data, tz, g, E.NewInfo(name, attrib, T.Encoded(t, tz), tz));
    ChangedTwice(old(vol.Contents()), mid, vol.Contents(), dir);
  }

  /** The write of a set into a slot found for it. */
  method FillSlot(vol: Volume, dir: Node, ghost isRoot: bool, ghost spans: seq<Span>, ghost n: nat, ghost was: seq<byte>, offset: nat,
                  data: seq<byte>, ghost tz: int, ghost g: E.Geometry, ghost info: E.Info)
    requires vol.Valid() && dir in vol.chains && dir.validSize == dir.size == |vol.Flat(dir).bytes| <= MaxSize(vol.store.ClusterSize())
    requires offset % 32 == 0 && |data| == 32 * n && offset + |data| <= dir.size && Reads(data, g, tz, info)
    requires Open(was, vol.Flat(dir).bytes, spans, n, offset / 32) && Sited(was, spans, isRoot, n, offset / 32)
    modifies vol`owner, vol`chains, vol.store`fat, vol.store`heap, vol.store.dev, vol.cmap`bits, vol.cmap.words
    modifies dir`start, dir`fptrIndex, dir`fptrCluster, dir`isContiguous, dir`isDirty, dir`validSize, dir`size
    ensures vol.Valid() && dir in vol.chains && dir.validSize == dir.size == old(dir.size)
    ensures CountFree(vol.cmap.bits) == CountFree(old(vol.cmap.bits))
    ensures Created(was, vol.Flat(dir).bytes, spans, isRoot, n, offset, g, tz, info) && Stands(vol.Flat(dir).bytes, offset, data)
    ensures vol.Contents() == old(vol.Contents())[dir := vol.Contents()[dir]]
  {
    hide Volume.Valid, Volume.Contents, View, MaxSize, Open, Reads, Sited, Created, Splice, CountFree, Stands;
    SplicedStands(vol.Flat(dir).bytes, offset, data);
    Entered(was, vol.Flat(dir).bytes, spans, isRoot, n, offset, data, g, tz, info);
    WriteEntries(vol, dir, data, offset);
  }

  /** The bytes of a directory while `n` of its entries at `s` may be written. */
  ghost predicate Open(was: seq<byte>, grown: seq<byte>, spans: seq<Span>, n: nat, s: nat) {
    && |was| <= |grown| && 32 * (s + n) <= |grown| && 32 * s <= |was| && (forall b :: 0 <= b < |was| ==> grown[b] == was[b])
    && forall k: nat :: s <= k < s + n ==> !Covered(spans, k)
  }

  /** find_slot, with what its two answers have in common. */
  method ClaimSlot(vol: Volume, dir: Node, isRoot: bool, spans: seq<Span>, n: nat) returns (rc: int, offset: nat)
    requires vol.Valid() && dir in vol.chains && 0 < n <= 19 && |vol.Flat(dir).bytes| % 32 == 0 && dir.validSize == dir.size
    requires forall p :: 0 <= p < |spans| ==> spans[p].at + spans[p].count <= |vol.Flat(dir).bytes| / 32
    requires dir.size + 32 * 19 + vol.store.ClusterSize() <= MaxSize(vol.store.ClusterSize())
    modifies vol`owner, vol`chains, vol.store`fat, vol.store`heap, vol.store.dev, vol.cmap`bits, vol.cmap.words
    modifies dir`start, dir`fptrIndex, dir`fptrCluster, dir`isContiguous, dir`isDirty, dir`validSize, dir`size
    ensures vol.Valid() && dir in vol.chains && offset % 32 == 0 && vol.store.ClusterSize() > 0
    ensures var cost := SlotCost(vol.store.ClusterSize(), old(vol.Flat(dir)).bytes, spans, isRoot, n);
            && rc == (if cost <= CountFree(old(vol.cmap.bits)) then 0 else -ENOSPC)
            && CountFree(vol.cmap.bits) == CountFree(old(vol.cmap.bits)) - if rc == 0 then cost else 0
    ensures vol.Contents() == old(vol.Contents())[dir := vol.Contents()[dir]]
    ensures rc != 0 ==> vol.Flat(dir) == old(vol.Flat(dir))
    ensures dir.validSize == dir.size == |vol.Flat(dir).bytes| <= MaxSize(vol.store.ClusterSize())
    ensures offset + 32 * n <= MaxSize(vol.store.ClusterSize())
    ensures rc == 0 ==> Open(old(vol.Flat(dir).bytes), vol.Flat(dir).bytes, spans, n, offset / 32)
    ensures Sited(old(vol.Flat(dir).bytes), spans, isRoot, n, offset / 32)
  {
    hide Volume.Valid, Volume.Contents, View, MaxSize, CountFree, DivRoundUp, Room, Tail, Covered, Resize, TailBegin, Truncated, SlotCost, DirectorySlots.Extended;
    ghost var was, f, free := vol.Flat(dir).bytes, vol.Flat(dir), CountFree(vol.cmap.bits);
    Shown(vol, dir);
    rc, offset := FindSlot(vol, dir, isRoot, spans, n);
    Shown(vol, dir);
    if exists t: nat :: Room(was, spans, isRoot, n, t) {
      RoomFree(was, spans, isRoot, n, offset / 32);
      CostNothing(vol.store.ClusterSize(), was, spans, isRoot, n);
    } else {
      CostTruncated(vol.store.ClusterSize(), f, free, spans, isRoot, n, offset / 32);
      TailStart(|was| / 32, spans, n, offset / 32);
      TailExact(|was| / 32, spans, n, offset / 32);
    }
    if rc == 0 { Found(was, vol.Flat(dir).bytes, spans, isRoot, n, offset / 32); }
  }

  lemma CostNothing(cs: nat, bytes: seq<byte>, spans: seq<Span>, isRoot: bool, n: nat)
    requires cs > 0 && HasRoom(bytes, spans, isRoot, n)
    ensures SlotCost(cs, bytes, spans, isRoot, n) == 0
  {
  }

  lemma Inside(was: seq<byte>, grown: seq<byte>, spans: seq<Span>, n: nat, s: nat)
    requires Open(was, grown, spans, n, s)
    ensures 32 * (s + n) <= |grown|
  {
  }

  lemma TailStart(count: nat, spans: seq<Span>, n: nat, at: nat)
    requires Tail(count, spans, n, at)
    ensures at <= count
  {
  }

  /** Either answer of find_slot is a slot inside the directory that crosses no
    * child, and the bytes there were kept. */
  lemma Found(was: seq<byte>, grown: seq<byte>, spans: seq<Span>, isRoot: bool, n: nat, s: nat)
    requires |was| % 32 == 0 && forall p :: 0 <= p < |spans| ==> spans[p].at + spans[p].count <= |was| / 32
    requires (Room(was, spans, isRoot, n, s) && grown == was)
          || (Tail(|was| / 32, spans, n, s) && |grown| > |was| && grown == Resize(was, |grown|) && 32 * s + 32 * n <= |grown|)
    ensures |was| <= |grown| && 32 * (s + n) <= |grown| && forall b :: 0 <= b < |was| ==> grown[b] == was[b]
    ensures forall k: nat :: s <= k < s + n ==> !Covered(spans, k)
  {
    hide Room, Tail, Covered, Resize;
    if Room(was, spans, isRoot, n, s) && grown == was {
      RoomFree(was, spans, isRoot, n, s);
    } else {
      TailDisjoint(|was| / 32, spans, n, s);
      ResizeKeeps(was, grown);
    }
  }

  const EIO: int := 5

  ghost function SetBytes(bytes: seq<byte>, offset: nat, i: E.Info): (b: seq<byte>)
    requires offset + 32 * (1 + i.continuations as int) <= |bytes|
    ensures |b| == 32 * (1 + i.continuations as int)
  {
    bytes[offset..offset + 32 * (1 + i.continuations as int)]
  }

  /** The entries at `offset` are those of a node with these continuations. */
  ghost predicate Announced(bytes: seq<byte>, offset: nat, i: E.Info) {
    && i.continuations >= 1 && offset + 32 * (1 + i.continuations as int) <= |bytes|
    && SetBytes(bytes, offset, i)[1] == i.continuations
    && E.NameEntryCount(SetBytes(bytes, offset, i)) < i.continuations as int
  }

  ghost predicate WellTyped(bytes: seq<byte>, offset: nat, i: E.Info)
    requires offset + 32 * (1 + i.continuations as int) <= |bytes|
  {
    E.Grammar(SetBytes(bytes, offset, i), 1 + i.continuations as int)
  }

  /** The set at `offset` is refreshed and parses to the flushed node, and the
    * rest of the directory is as it was. */
  ghost predicate Flushed(was: seq<byte>, now: seq<byte>, offset: nat, g: E.Geometry, tz: int, i: E.Info)
    requires Announced(was, offset, i)
  {
    var n := 32 * (1 + i.continuations as int);
    && |now| == |was|
    && SetAt(now, offset, n, g, tz, E.FlushedInfo(SetBytes(was, offset, i), i, tz))
    && SetBytes(now, offset, i) == E.WithSum(E.Refreshed(SetBytes(was, offset, i), i, tz))
    && forall b :: 0 <= b < |was| && !(offset <= b < offset + n) ==> now[b] == was[b]
  }

  lemma FlushWritten(was: seq<byte>, offset: nat, i: E.Info, tz: int, g: E.Geometry, data: seq<byte>)
    requires Announced(was, offset, i) && WellTyped(was, offset, i)
    requires E.Fits64(i) && E.Sane(g, i.(isContiguous := i.size != 0 && i.isContiguous))
    requires data == E.WithSum(E.Refreshed(SetBytes(was, offset, i), i, tz))
    ensures Flushed(was, Splice(was, offset, data), offset, g, tz, i)
  {
    hide E.Grammar, E.WithSum, E.Refreshed, E.FlushedInfo, E.Parse, E.Sane, E.NameEntryCount, SetAt;
    E.FlushParses(g, tz, SetBytes(was, offset, i), i);
    SetWritten(was, offset, data, g, tz, E.FlushedInfo(SetBytes(was, offset, i), i, tz));
    assert SetBytes(Splice(was, offset, data), offset, i) == data;
  }

  /** exfat_flush_node of a dirty node whose entries start at `offset` of its
    * parent. */
  method FlushNode(vol: Volume, parent: Node, offset: nat, i: E.Info, tz: int, ghost g: E.Geometry) returns (rc: int)
    requires vol.Valid() && parent in vol.chains && parent.validSize == parent.size
    requires E.Fits64(i) && E.Sane(g, i.(isContiguous := i.size != 0 && i.isContiguous))
    requires T.DayOf(T.Local(i.mtime, tz)) < 23937024 && T.DayOf(T.Local(i.atime, tz)) < 23937024
    requires Announced(vol.Flat(parent).bytes, offset, i) && parent.size <= MaxSize(vol.store.ClusterSize())
    modifies vol`owner, vol`chains, vol.store`fat, vol.store`heap, vol.store.dev, vol.cmap`bits, vol.cmap.words
    modifies parent`start, parent`fptrIndex, parent`fptrCluster, parent`isContiguous, parent`isDirty, parent`validSize, parent`size
    ensures vol.Valid() && parent in vol.chains
    ensures vol.Contents() == old(vol.Contents())[parent := vol.Contents()[parent]]
    ensures var was := old(vol.Flat(parent)).bytes;
            if WellTyped(was, offset, i) then rc == 0 && Flushed(was, vol.Flat(parent).bytes, offset, g, tz, i)
            else rc == -EIO && vol.Flat(parent) == old(vol.Flat(parent))
  {
    hide Volume.Valid, Volume.Contents, View, MaxSize, E.Grammar, E.Sane, E.Refreshed, E.WithSum, E.NameEntryCount, Flushed,
         T.DayOf, T.Local;
    var n := 1 + i.continuations as int;
    ghost var was := vol.Flat(parent).bytes;
    Shown(vol, parent);
    var bytes := ReadEntries(vol, parent, 32 * n, offset);
    assert bytes == SetBytes(was, offset, i);
    var ok := E.CheckEntries(bytes, n);
    if !ok { return -EIO; }
    var data := E.Refresh(bytes, i, tz);
    FlushWritten(was, offset, i, tz, g, data);
    WriteEntries(vol, parent, data, offset);
    rc := 0;
  }

  // ---- the tail of the root ----

  /** A root directory of one cluster: the bitmap and upcase entries, a child of
    * 125 entries, and the volume label in the last entry. */
  predicate TightRoot(bytes: seq<byte>, spans: seq<Span>) {
    && |bytes| == 4096 && spans == [Span(2, 125)]
    && bytes[0] == 0x81 && bytes[32] == 0x82 && bytes[4064] == 0x83
  }

  lemma TightTail(bytes: seq<byte>, spans: seq<Span>)
    requires TightRoot(bytes, spans)
    ensures !HasRoom(bytes, spans, true, 3) && TailBegin(128, spans, 3) == 127 && ValidAt(bytes, 127)
  {
    forall t: nat ensures !Room(bytes, spans, true, 3, t) {
      if t < 2 {
        assert 32 * (t + 3) <= |bytes| ==> !Usable(bytes, spans, true, t);
      } else if t <= 126 {
        assert InSpan(spans[0], t);
        assert 32 * (t + 3) <= |bytes| ==> !Usable(bytes, spans, true, t);
      }
    }
    assert InSpan(spans[0], 126) && !InSpan(spans[0], 127);
    assert Tail(128, spans, 3, 127);
    TailExact(128, spans, 3, 127);
  }

  /** Placing a file of three entries there writes over the label. */
  method TailExample(vol: Volume, root: Node, spans: seq<Span>, data: seq<byte>) returns (rc: int, offset: nat)
    requires vol.Valid() && root in vol.chains && TightRoot(vol.Flat(root).bytes, spans) && root.validSize == root.size && |data| == 96
    requires vol.store.ClusterSize() == 4096 && CountFree(vol.cmap.bits) >= 1
    modifies vol`owner, vol`chains, vol.store`fat, vol.store`heap, vol.store.dev, vol.cmap`bits, vol.cmap.words
    modifies root`start, root`fptrIndex, root`fptrCluster, root`isContiguous, root`isDirty, root`validSize, root`size
    ensures vol.Valid() && root in vol.chains && rc == 0 && offset == 4064
    ensures ValidAt(old(vol.Flat(root).bytes), 127) && |vol.Flat(root).bytes| >= 4160 && vol.Flat(root).bytes[4064..4160] == data
  {
    hide Volume.Valid, Volume.Contents, View, CountFree, Room, Covered, Resize, TailBegin, Tail, Truncated;
    ghost var was := vol.Flat(root).bytes;
    Shown(vol, root);
    TightTail(was, spans);
    rc, offset := FindSlot(vol, root, true, spans, 3);
    TailExact(128, spans, 3, offset / 32);
    TightRoom(vol.store.ClusterSize(), File(was, 4096), CountFree(old(vol.cmap.bits)));
    Shown(vol, root);
    WriteEntries(vol, root, data, offset);
  }

  lemma TightRoom(cs: nat, f: File, free: nat)
    requires cs == 4096 && |f.bytes| == 4096 && free >= 1
    ensures Truncated(cs, f, free, DirectorySlots.Extended(cs, 4096, 3, 1), true).rc == 0
  {
    assert DirectorySlots.Extended(cs, 4096, 3, 1) == 8192;
  }

  // ---- renaming ----

  /** The bytes once `n` entries from `offset` on have lost their valid mark. */
  ghost predicate Invalidated(was: seq<byte>, now: seq<byte>, offset: nat, n: nat) {
    && |now| == |was| && offset + 32 * n <= |was|
    && (forall k: nat :: k < n ==> now[offset + 32 * k] == was[offset + 32 * k] % 0x80)
    && (forall b :: 0 <= b < |was| && !(offset <= b < offset + 32 * n && (b - offset) % 32 == 0) ==> now[b] == was[b])
  }

  /** erase_entries */
  method EraseEntries(vol: Volume, dir: Node, n: nat, offset: nat)
    requires vol.Valid() && dir in vol.chains && dir.validSize == dir.size <= MaxSize(vol.store.ClusterSize())
    requires offset + 32 * n <= dir.size == |vol.Flat(dir).bytes|
    modifies vol`owner, vol`chains, vol.store`fat, vol.store`heap, vol.store.dev, vol.cmap`bits, vol.cmap.words
    modifies dir`start, dir`fptrIndex, dir`fptrCluster, dir`isContiguous, dir`isDirty, dir`validSize, dir`size
    ensures vol.Valid() && dir in vol.chains && dir.validSize == dir.size == old(dir.size)
    ensures Invalidated(old(vol.Flat(dir).bytes), vol.Flat(dir).bytes, offset, n) && CountFree(vol.cmap.bits) == CountFree(old(vol.cmap.bits))
    ensures vol.Contents() == old(vol.Contents())[dir := vol.Contents()[dir]]
  {
    hide Volume.Valid, Volume.Contents, View, MaxSize, Invalidated, CountFree;
    ghost var was := vol.Flat(dir).bytes;
    var entries := ReadEntries(vol, dir, 32 * n, offset);
    var cleared := ClearMarks(entries, n);
    ClearedAt(was, offset, n, entries, cleared);
    WriteEntries(vol, dir, cleared, offset);
  }

  method ClearMarks(entries: seq<byte>, n: nat) returns (r: seq<byte>)
    requires |entries| == 32 * n
    ensures |r| == |entries|
    ensures forall b :: 0 <= b < |r| ==> r[b] == if b % 32 == 0 then entries[b] % 0x80 else entries[b]
  {
    r := entries;
    var i := 0;
    while i < n
      invariant 0 <= i <= n && |r| == |entries|
      invariant forall b :: 0 <= b < |r| ==> r[b] == if b % 32 == 0 && b < 32 * i then entries[b] % 0x80 else entries[b]
    {
      r := r[32 * i := r[32 * i] % 0x80];
      i := i + 1;
    }
  }

  lemma ClearedAt(was: seq<byte>, offset: nat, n: nat, entries: seq<byte>, cleared: seq<byte>)
    requires offset + 32 * n <= |was| && entries == was[offset..offset + 32 * n] && |cleared| == |entries|
    requires forall b :: 0 <= b < |cleared| ==> cleared[b] == if b % 32 == 0 then entries[b] % 0x80 else entries[b]
    ensures Invalidated(was, Splice(was, offset, cleared), offset, n)
  {
    var now := Splice(was, offset, cleared);
    forall k: nat | k < n ensures now[offset + 32 * k] == was[offset + 32 * k] % 0x80 {
      assert cleared[32 * k] == entries[32 * k] % 0x80;
    }
  }

  /** The old entries are gone: they have lost their valid marks, and nothing else. */
  ghost predicate Gone(was: seq<byte>, now: seq<byte>, offset: nat, n: nat) {
    offset + 32 * n <= |was| && offset + 32 * n <= |now|
    && forall b | offset <= b < offset + 32 * n :: now[b] == if (b - offset) % 32 == 0 then was[b] % 0x80 else was[b]
  }

  /** Every byte outside two stretches is as it was. */
  ghost predicate KeptOutside(was: seq<byte>, now: seq<byte>, at: nat, n: nat, at2: nat, n2: nat) {
    |now| == |was| && forall b :: 0 <= b < |was| && !(at <= b < at + n) && !(at2 <= b < at2 + n2) ==> now[b] == was[b]
  }

  /** The set that takes the place of the one at `offset` under a new name. */
  ghost function Moved(bytes: seq<byte>, offset: nat, upcase: E.Upcase, name: seq<u16>): seq<byte>
    requires offset + 64 <= |bytes| && E.IsName(name)
  {
    E.WithSum(E.RenamedSet(bytes[offset..offset + 64], name, E.NameHash(upcase, name)))
  }

  /** rename_entry: the set at the new place parses to the same node under the
    * new name, the old set is no longer valid, and both directories are
    * otherwise as they were. `parent` is where the node
    * was, `dir` where it goes; they may be the same. */
  method RenameEntry(vol: Volume, parent: Node, dir: Node, offset: nat, upcase: E.Upcase, name: seq<u16>, newOffset: nat,
                     tz: int, ghost g: E.Geometry, ghost info: E.Info, continuations: byte)
    requires vol.Valid() && parent in vol.chains && dir in vol.chains && E.IsName(name) && info.continuations == continuations >= 2
    requires parent.validSize == parent.size == |vol.Flat(parent).bytes| <= MaxSize(vol.store.ClusterSize())
    requires dir.validSize == dir.size == |vol.Flat(dir).bytes| <= MaxSize(vol.store.ClusterSize())
    requires SetAt(vol.Flat(parent).bytes, offset, 32 * (1 + continuations as int), g, tz, info)
    requires newOffset + 64 + 32 * E.EntriesFor(name) <= dir.size
    requires parent == dir ==> offset + 32 * (1 + continuations as int) <= newOffset || newOffset + 64 + 32 * E.EntriesFor(name) <= offset
    modifies vol`owner, vol`chains, vol.store`fat, vol.store`heap, vol.store.dev, vol.cmap`bits, vol.cmap.words
    modifies parent`start, parent`fptrIndex, parent`fptrCluster, parent`isContiguous, parent`isDirty, parent`validSize, parent`size
    modifies dir`start, dir`fptrIndex, dir`fptrCluster, dir`isContiguous, dir`isDirty, dir`validSize, dir`size
    ensures vol.Valid() && parent in vol.chains && dir in vol.chains
    ensures SetAt(vol.Flat(dir).bytes, newOffset, 64 + 32 * E.EntriesFor(name), g, tz,
                  E.Retitled(info, name))
    ensures |old(vol.Flat(parent)).bytes| >= offset + 64
    ensures Stands(vol.Flat(dir).bytes, newOffset, Moved(old(vol.Flat(parent)).bytes, offset, upcase, name))
    ensures Gone(old(vol.Flat(parent)).bytes, vol.Flat(parent).bytes, offset, 1 + continuations as int)
    ensures KeptOutside(old(vol.Flat(parent)).bytes, vol.Flat(parent).bytes, offset, 32 * (1 + continuations as int),
                        newOffset, if parent == dir then 64 + 32 * E.EntriesFor(name) else 0)
    ensures KeptOutside(old(vol.Flat(dir)).bytes, vol.Flat(dir).bytes, newOffset, 64 + 32 * E.EntriesFor(name),
                        offset, if parent == dir then 32 * (1 + continuations as int) else 0)
    ensures forall n | n in old(vol.Contents()) && n != parent && n != dir :: n in vol.Contents() && vol.Contents()[n] == old(vol.Contents())[n]
  {
    hide Volume.Valid, Volume.Contents, View, MaxSize, SetAt, Gone, E.EntriesFor, E.Retitled, Reads, KeptOutside, Stands, Moved;
    ghost var title := E.Retitled(info, name);
    var data := TakeSet(vol, parent, offset, upcase, name, tz, g, info, continuations);
    Listed(vol);
    hide Volume.Flat;
    ghost var before := vol.Flat(dir).bytes;
    ghost var mid := vol.Flat(parent).bytes;
    SetWritten(before, newOffset, data, g, tz, title);
    SplicedStands(before, newOffset, data);
    if parent == dir { StillGone(old(vol.Flat(parent)).bytes, mid, offset, 1 + continuations as int, newOffset, data); }
    SecondEmpty(old(vol.Flat(parent)).bytes, mid, offset, 32 * (1 + continuations as int), newOffset);
    SameBytes(before, offset);
    SplicedOutside(old(vol.Flat(dir)).bytes, before, offset, if parent == dir then 32 * (1 + continuations as int) else 0, newOffset, data);
    ghost var contents1 := vol.Contents();
    PutSet(vol, dir, parent, data, newOffset);
    Listed(vol);
    KeptBoth(old(vol.Contents()), contents1, vol.Contents(), parent, dir);
  }

  /** WriteEntries, as another directory sees it too. */
  method PutSet(vol: Volume, dir: Node, ghost other: Node, data: seq<byte>, offset: nat)
    requires vol.Valid() && dir in vol.chains && other in vol.chains && dir.validSize == dir.size && offset + |data| <= dir.size
    requires offset + |data| <= MaxSize(vol.store.ClusterSize())
    modifies vol`owner, vol`chains, vol.store`fat, vol.store`heap, vol.store.dev, vol.cmap`bits, vol.cmap.words
    modifies dir`start, dir`fptrIndex, dir`fptrCluster, dir`isContiguous, dir`isDirty, dir`validSize, dir`size
    ensures vol.Valid() && dir in vol.chains && other in vol.chains
    ensures |old(vol.Flat(dir)).bytes| == old(dir.size)
    ensures vol.Flat(dir).bytes == Splice(old(vol.Flat(dir)).bytes, offset, data)
    ensures other != dir ==> vol.Flat(other).bytes == old(vol.Flat(other)).bytes
    ensures vol.Contents() == old(vol.Contents())[dir := vol.Contents()[dir]]
  {
    hide Volume.Valid, Volume.Contents, View, MaxSize, Splice;
    WriteEntries(vol, dir, data, offset);
    Listed(vol);
  }

  /** Reads the head of the old set, builds the new one, and erases the old. */
  method TakeSet(vol: Volume, parent: Node, offset: nat, upcase: E.Upcase, name: seq<u16>, tz: int, ghost g: E.Geometry,
                 ghost info: E.Info, continuations: byte) returns (data: seq<byte>)
    requires vol.Valid() && parent in vol.chains && E.IsName(name) && info.continuations == continuations >= 2
    requires parent.validSize == parent.size == |vol.Flat(parent).bytes| <= MaxSize(vol.store.ClusterSize())
    requires SetAt(vol.Flat(parent).bytes, offset, 32 * (1 + continuations as int), g, tz, info)
    modifies vol`owner, vol`chains, vol.store`fat, vol.store`heap, vol.store.dev, vol.cmap`bits, vol.cmap.words
    modifies parent`start, parent`fptrIndex, parent`fptrCluster, parent`isContiguous, parent`isDirty, parent`validSize, parent`size
    ensures vol.Valid() && parent in vol.chains && parent.validSize == parent.size == old(parent.size) == |vol.Flat(parent).bytes|
    ensures |data| == 64 + 32 * E.EntriesFor(name)
    ensures Reads(data, g, tz, E.Retitled(info, name))
    ensures |old(vol.Flat(parent)).bytes| >= offset + 64
    ensures data == Moved(old(vol.Flat(parent)).bytes, offset, upcase, name)
    ensures Gone(old(vol.Flat(parent)).bytes, vol.Flat(parent).bytes, offset, 1 + continuations as int)
    ensures KeptOutside(old(vol.Flat(parent)).bytes, vol.Flat(parent).bytes, offset, 32 * (1 + continuations as int), 0, 0)
    ensures vol.Contents() == old(vol.Contents())[parent := vol.Contents()[parent]]
  {
    hide Volume.Valid, Volume.Contents, View, MaxSize, SetAt, Invalidated, Gone, E.EntriesFor, E.Retitled, E.WithSum, E.RenamedSet, E.NameHash, Reads;
    var n := 1 + continuations as int;
    ghost var was := vol.Flat(parent).bytes;
    SetInside(was, offset, 32 * n, g, tz, info);
    var head := ReadEntries(vol, parent, 64, offset);
    data := E.Retitle(head, upcase, name);
    Renamed(was, offset, n, g, tz, info, head, name, E.NameHash(upcase, name));
    EraseEntries(vol, parent, n, offset);
    Erased(was, vol.Flat(parent).bytes, offset, n);
  }

  lemma StillGone(was: seq<byte>, bytes: seq<byte>, offset: nat, n: nat, at: nat, data: seq<byte>)
    requires Gone(was, bytes, offset, n) && at + |data| <= |bytes| && (offset + 32 * n <= at || at + |data| <= offset)
    ensures Gone(was, Splice(bytes, at, data), offset, n)
  {
  }

  lemma SplicedOutside(was: seq<byte>, mid: seq<byte>, at: nat, n: nat, at2: nat, data: seq<byte>)
    requires KeptOutside(was, mid, at, n, 0, 0) && at2 + |data| <= |mid|
    ensures KeptOutside(was, Splice(mid, at2, data), at2, |data|, at, n) && KeptOutside(was, Splice(mid, at2, data), at, n, at2, |data|)
  {
  }

  lemma SecondEmpty(was: seq<byte>, now: seq<byte>, at: nat, n: nat, at2: nat)
    requires KeptOutside(was, now, at, n, 0, 0)
    ensures KeptOutside(was, now, at, n, at2, 0)
  {
  }

  lemma SameBytes(bytes: seq<byte>, at: nat)
    ensures KeptOutside(bytes, bytes, at, 0, 0, 0)
  {
  }

  lemma KeptBoth<K, V>(a: map<K, V>, b: map<K, V>, c: map<K, V>, j: K, k: K)
    requires j in b && k in c && b == a[j := b[j]] && c == b[k := c[k]]
    ensures forall n | n in a && n != j && n != k :: n in c && c[n] == a[n]
  {
  }

  lemma Erased(was: seq<byte>, mid: seq<byte>, offset: nat, n: nat)
    requires Invalidated(was, mid, offset, n)
    ensures Gone(was, mid, offset, n) && |mid| == |was| && KeptOutside(was, mid, offset, 32 * n, 0, 0)
  {
    forall b | offset <= b < offset + 32 * n && (b - offset) % 32 == 0
      ensures mid[b] == was[b] % 0x80
    {
      var k := (b - offset) / 32;
      assert b == offset + 32 * k;
    }
  }

  lemma Listed(vol: Volume)
    ensures vol.Contents().Keys == vol.chains.Keys
  {
  }

  lemma SetInside(bytes: seq<byte>, offset: nat, size: nat, g: E.Geometry, tz: int, info: E.Info)
    requires SetAt(bytes, offset, size, g, tz, info)
    ensures offset + size <= |bytes|
  {
  }

  lemma Renamed(was: seq<byte>, offset: nat, n: nat, g: E.Geometry, tz: int, info: E.Info, head: seq<byte>, name: seq<u16>, hash: u16)
    requires n >= 2 && SetAt(was, offset, 32 * n, g, tz, info) && head == was[offset..offset + 64] && E.IsName(name)
    ensures |head| == 64
    ensures Reads(E.WithSum(E.RenamedSet(head, name, hash)), g, tz, E.Retitled(info, name))
  {
    hide E.Parse, E.WithSum, E.RenamedSet, E.EntriesFor, E.Retitled;
    var bytes := was[offset..offset + 32 * n];
    assert bytes[..64] == head;
    E.RenameParses(g, tz, bytes, info, name, hash);
  }
}
