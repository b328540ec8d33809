/** Renaming and deleting a file on the volume (exfat_rename and delete of
  * fs/exfat/node.c): the entry sets, the directories and the clusters together. */
module DirectoryChanges {
  import opened Bytes
  import opened ClusterBitmap
  import opened ClusterStore
  import opened ExfatVolume
  import opened FlatFile
  import opened FileIo
  import opened DirectorySlots
  import opened Directory
  import S = DirectoryShrink
  import E = EntrySets

  // ---- renaming ----

  /** The node's own entries are among the children's. */
  predicate Among(spans: seq<Span>, offset: nat, n: nat) { offset % 32 == 0 && Span(offset / 32, n) in spans }

  /** The bytes before the rename, outside two stretches. */
  ghost predicate KeptBut(was: seq<byte>, now: seq<byte>, at: nat, n: nat, at2: nat, n2: nat) {
    |was| <= |now| && forall b :: 0 <= b < |was| && !(at <= b < at + n) && !(at2 <= b < at2 + n2) ==> now[b] == was[b]
  }

  /** A slot that is no child's crosses none of the node's entries. */
  lemma SlotAside(spans: seq<Span>, offset: nat, n: nat, at: nat, m: nat)
    requires Among(spans, offset, n) && n > 0 && m > 0 && at % 32 == 0
    requires forall k: nat :: at / 32 <= k < at / 32 + m ==> !Covered(spans, k)
    ensures offset + 32 * n <= at || at + 32 * m <= offset
  {
    var p :| 0 <= p < |spans| && spans[p] == Span(offset / 32, n);
    var s, o := at / 32, offset / 32;
    if s < o + n && o < s + m {
      var k := if s < o then o else s;
      assert InSpan(spans[p], k);
      assert Covered(spans, k);
      assert false;
    }
  }

  /** A set keeps its meaning when the directory grows. */
  lemma SetGrown(was: seq<byte>, grown: seq<byte>, spans: seq<Span>, m: nat, s: nat, offset: nat, size: nat, g: E.Geometry, tz: int, info: E.Info)
    requires SetAt(was, offset, size, g, tz, info) && Open(was, grown, spans, m, s)
    ensures SetAt(grown, offset, size, g, tz, info)
  {
    hide Reads, Covered;
    assert grown[offset..offset + size] == was[offset..offset + size];
  }

  lemma GrownKept(was: seq<byte>, grown: seq<byte>, now: seq<byte>, spans: seq<Span>, m: nat, s: nat, at: nat, n: nat, at2: nat, n2: nat)
    requires Open(was, grown, spans, m, s) && KeptOutside(grown, now, at, n, at2, n2)
    ensures KeptBut(was, now, at, n, at2, n2)
  {
    hide Covered;
  }

  /** exfat_rename, once the paths are resolved and the target is gone: a slot is
    * found for the new name, the set there parses to the same node under the new
    * name, and the old set is no longer valid. It succeeds if and only if the
    * clusters of the slot are free. No other child of either directory is
    * touched, no safe entry of the root, and no other file. */
  method RenameFile(vol: Volume, parent: Node, dir: Node, isRoot: bool, spans: seq<Span>, offset: nat, upcase: E.Upcase, name: seq<u16>,
                    tz: int, ghost g: E.Geometry, ghost info: E.Info, continuations: byte) returns (rc: int, newOffset: nat)
    requires vol.Valid() && parent in vol.chains && dir in vol.chains && E.IsName(name) && info.continuations == continuations >= 2
    requires parent.validSize == parent.size == |vol.Flat(parent).bytes| <= MaxSize(vol.store.ClusterSize())
    requires |vol.Flat(dir).bytes| % 32 == 0 && dir.validSize == dir.size
    requires forall p :: 0 <= p < |spans| ==> spans[p].at + spans[p].count <= |vol.Flat(dir).bytes| / 32
    requires dir.size + 32 * 19 + vol.store.ClusterSize() <= MaxSize(vol.store.ClusterSize())
    requires SetAt(vol.Flat(parent).bytes, offset, 32 * (1 + continuations as int), g, tz, info)
    requires parent == dir ==> Among(spans, offset, 1 + continuations as int)
    modifies vol`owner, vol`chains, vol.store`fat, vol.store`heap, vol.store.dev, vol.cmap`bits, vol.cmap.words
    modifies parent`start, parent`fptrIndex, parent`fptrCluster, parent`isContiguous, parent`isDirty, parent`validSize, parent`size
    modifies dir`start, dir`fptrIndex, dir`fptrCluster, dir`isContiguous, dir`isDirty, dir`validSize, dir`size
    ensures vol.Valid() && parent in vol.chains && dir in vol.chains && vol.store.ClusterSize() > 0
    ensures rc == if SlotCost(vol.store.ClusterSize(), old(vol.Flat(dir)).bytes, spans, isRoot, 2 + E.EntriesFor(name)) <= CountFree(old(vol.cmap.bits))
                  then 0 else -ENOSPC
    ensures rc != 0 ==> vol.Flat(dir) == old(vol.Flat(dir)) && vol.Flat(parent) == old(vol.Flat(parent))
    ensures rc == 0 ==>
      && SetAt(vol.Flat(dir).bytes, newOffset, 64 + 32 * E.EntriesFor(name), g, tz, E.Retitled(info, name))
      && Gone(old(vol.Flat(parent)).bytes, vol.Flat(parent).bytes, offset, 1 + continuations as int)
      && newOffset % 32 == 0 && Placed(old(vol.Flat(dir)).bytes, spans, isRoot, 2 + E.EntriesFor(name), newOffset / 32)
      && KeptBut(old(vol.Flat(dir)).bytes, vol.Flat(dir).bytes, newOffset, 64 + 32 * E.EntriesFor(name),
                 offset, if parent == dir then 32 * (1 + continuations as int) else 0)
      && (parent != dir ==> KeptBut(old(vol.Flat(parent)).bytes, vol.Flat(parent).bytes, offset, 32 * (1 + continuations as int), 0, 0))
    ensures forall n | n in old(vol.Contents()) && n != parent && n != dir :: n in vol.Contents() && vol.Contents()[n] == old(vol.Contents())[n]
  {
    hide Volume.Valid, Volume.Contents, View, MaxSize, SetAt, Gone, E.EntriesFor, E.Retitled, Reads, KeptOutside, KeptBut, Open, Sited, Placed,
         SlotCost, CountFree, Covered, Stands, Moved;
    var m := 2 + E.EntriesFor(name);
    ghost var was, before := vol.Flat(dir).bytes, vol.Flat(parent).bytes;
    SetInside(before, offset, 32 * (1 + continuations as int), g, tz, info);
    Listed(vol);
    rc, newOffset := ClaimSlot(vol, dir, isRoot, spans, m);
    Listed(vol);
    if rc != 0 { return; }
    ghost var grown, mid := vol.Flat(dir).bytes, vol.Contents();
    ghost var parentBytes := vol.Flat(parent).bytes;
    Inside(was, grown, spans, m, newOffset / 32);
    PlacedIn(was, grown, spans, isRoot, m, newOffset / 32);
    if parent == dir {
      SetGrown(was, grown, spans, m, newOffset / 32, offset, 32 * (1 + continuations as int), g, tz, info);
      PlacedAside(was, spans, isRoot, m, newOffset, offset, 1 + continuations as int);
    }
    RenameEntry(vol, parent, dir, offset, upcase, name, newOffset, tz, g, info, continuations);
    GrownKept(was, grown, vol.Flat(dir).bytes, spans, m, newOffset / 32, newOffset, 64 + 32 * E.EntriesFor(name),
              offset, if parent == dir then 32 * (1 + continuations as int) else 0);
    if parent == dir { GoneGrown(was, grown, vol.Flat(dir).bytes, spans, m, newOffset / 32, offset, 1 + continuations as int); }
    if parent != dir { SameKept(parentBytes, vol.Flat(parent).bytes, offset, 32 * (1 + continuations as int), newOffset); }
  }

  lemma PlacedAside(was: seq<byte>, spans: seq<Span>, isRoot: bool, m: nat, at: nat, offset: nat, n: nat)
    requires Placed(was, spans, isRoot, m, at / 32) && Among(spans, offset, n) && n > 0 && m > 0 && at % 32 == 0
    ensures offset + 32 * n <= at || at + 32 * m <= offset
  {
    hide Covered, Among, Safe;
    SlotAside(spans, offset, n, at, m);
  }

  lemma SameKept(was: seq<byte>, now: seq<byte>, at: nat, n: nat, at2: nat)
    requires KeptOutside(was, now, at, n, at2, 0)
    ensures KeptBut(was, now, at, n, 0, 0)
  {
  }

  // ---- deletion ----

  /** No remaining child shares an entry with the set at `offset`. */
  predicate Aside(children: seq<S.Child>, offset: nat, n: nat) {
    offset % 32 == 0 && forall i :: 0 <= i < |children| ==>
      children[i].at + children[i].count <= offset / 32 || offset / 32 + n <= children[i].at
  }

  lemma GoneGrown(was: seq<byte>, grown: seq<byte>, now: seq<byte>, spans: seq<Span>, m: nat, s: nat, offset: nat, n: nat)
    requires Open(was, grown, spans, m, s) && Gone(grown, now, offset, n) && offset + 32 * n <= |was|
    ensures Gone(was, now, offset, n)
  {
    hide Covered;
  }

  /** Byte `b` is the first of one of the `n` entries from `offset` on. */
  predicate Starts(offset: nat, n: nat, b: int) { offset <= b < offset + 32 * n && (b - offset) % 32 == 0 }

  /** What remains of a directory: the entries of the set have lost their valid
    * marks, and every other byte that is left is as it was. */
  ghost predicate Erased(was: seq<byte>, now: seq<byte>, offset: nat, n: nat) {
    |now| <= |was| && forall b | 0 <= b < |now| :: now[b] == if Starts(offset, n, b) then was[b] % 0x80 else was[b]
  }

  lemma ErasedCut(was: seq<byte>, mid: seq<byte>, now: seq<byte>, offset: nat, n: nat)
    requires Invalidated(was, mid, offset, n) && |now| <= |mid| && now == mid[..|now|]
    ensures Erased(was, now, offset, n)
  {
    forall b | 0 <= b < |now| && Starts(offset, n, b) ensures now[b] == was[b] % 0x80 {
      var k := (b - offset) / 32;
      assert b == offset + 32 * k;
    }
  }

  /** The sets of the remaining children that are left read as before. */
  lemma ChildKept(was: seq<byte>, now: seq<byte>, children: seq<S.Child>, offset: nat, n: nat, i: nat)
    requires Erased(was, now, offset, n) && Aside(children, offset, n) && i < |children|
    requires 32 * (children[i].at + children[i].count) <= |now|
    ensures now[32 * children[i].at..32 * (children[i].at + children[i].count)]
         == was[32 * children[i].at..32 * (children[i].at + children[i].count)]
  {
  }

  lemma Emptied(cs: nat, f: File, free: nat)
    requires cs > 0
    ensures var o := Truncated(cs, f, free, 0, true);
            o.rc == 0 && o.file.bytes == [] && o.free == free + DivRoundUp(|f.bytes|, cs)
  {
    DivRoundUpBounds(0, cs);
    hide DivRoundUp;
  }

  /** delete: the set is no longer valid and the directory is shrunk. */
  method Unlist(vol: Volume, dir: Node, children: seq<S.Child>, offset: nat, continuations: byte) returns (rc: int)
    requires vol.Valid() && dir in vol.chains && vol.store.ClusterSize() > 0 && dir.size % vol.store.ClusterSize() == 0
    requires vol.store.ClusterSize() <= dir.validSize == dir.size == |vol.Flat(dir).bytes| <= MaxSize(vol.store.ClusterSize())
    requires offset + 32 * (1 + continuations as int) <= dir.size && S.Apart(children) && S.Inside(children, dir.size)
    modifies vol`owner, vol`chains, vol.store`fat, vol.store`heap, vol.store.dev, vol.cmap`bits, vol.cmap.words
    modifies dir`start, dir`fptrIndex, dir`fptrCluster, dir`isContiguous, dir`isDirty, dir`validSize, dir`size
    ensures vol.Valid() && dir in vol.chains && rc == 0 && dir.size == |vol.Flat(dir).bytes|
    ensures Erased(old(vol.Flat(dir)).bytes, vol.Flat(dir).bytes, offset, 1 + continuations as int)
    ensures S.Inside(children, dir.size) <==>
            S.Followed(children, offset) || forall k: nat | S.IsLast(children, k) :: S.EndsWithName(vol.store.ClusterSize(), children[k])
    ensures CountFree(vol.cmap.bits) == CountFree(old(vol.cmap.bits))
            + DivRoundUp(old(dir.size), vol.store.ClusterSize()) - DivRoundUp(dir.size, vol.store.ClusterSize())
    ensures vol.Contents() == old(vol.Contents())[dir := vol.Contents()[dir]]
  {
    hide Volume.Valid, Volume.Contents, View, MaxSize, CountFree, DivRoundUp, Invalidated, Erased, S.Apart, S.Inside, S.Followed, S.IsLast,
         S.EndsWithName, S.EndsBy, S.IsExtent, S.NewSize, Store.ClusterSize;
    ghost var was, c0 := vol.Flat(dir).bytes, vol.Contents();
    EraseEntries(vol, dir, 1 + continuations as int, offset);
    ghost var mid, c1 := vol.Flat(dir).bytes, vol.Contents();
    SameLength(was, mid, offset, 1 + continuations as int);
    ghost var entries;
    rc, entries := S.ShrinkDirectory(vol, dir, children, offset);
    Listed(vol);
    ChangedTwice(c0, c1, vol.Contents(), dir);
    ErasedCut(was, mid, vol.Flat(dir).bytes, offset, 1 + continuations as int);
  }

  /** delete and exfat_cleanup_node: the set is no longer valid, the directory is
    * shrunk, the file has no bytes, and exactly the clusters of the file and
    * those cut off the directory are free again. The remaining children keep
    * their sets if and only if a child follows the set or the last one's
    * optional entries end where its name does. No other file changes. */
  method DeleteFile(vol: Volume, dir: Node, file: Node, children: seq<S.Child>, offset: nat, continuations: byte) returns (rc: int)
    requires vol.Valid() && dir in vol.chains && file in vol.chains && file != dir
    requires vol.store.ClusterSize() > 0 && dir.size % vol.store.ClusterSize() == 0
    requires vol.store.ClusterSize() <= dir.validSize == dir.size == |vol.Flat(dir).bytes| <= MaxSize(vol.store.ClusterSize())
    requires offset + 32 * (1 + continuations as int) <= dir.size && S.Apart(children) && S.Inside(children, dir.size)
    modifies vol`owner, vol`chains, vol.store`fat, vol.store`heap, vol.store.dev, vol.cmap`bits, vol.cmap.words
    modifies dir`start, dir`fptrIndex, dir`fptrCluster, dir`isContiguous, dir`isDirty, dir`validSize, dir`size
    modifies file`start, file`fptrIndex, file`fptrCluster, file`isContiguous, file`isDirty, file`validSize, file`size
    ensures vol.Valid() && dir in vol.chains && file in vol.chains && rc == 0 && vol.Flat(file).bytes == [] && dir.size == |vol.Flat(dir).bytes|
    ensures Erased(old(vol.Flat(dir)).bytes, vol.Flat(dir).bytes, offset, 1 + continuations as int)
    ensures S.Inside(children, dir.size) <==>
            S.Followed(children, offset) || forall k: nat | S.IsLast(children, k) :: S.EndsWithName(vol.store.ClusterSize(), children[k])
    ensures CountFree(vol.cmap.bits) == CountFree(old(vol.cmap.bits))
            + DivRoundUp(old(dir.size), vol.store.ClusterSize()) - DivRoundUp(dir.size, vol.store.ClusterSize())
            + DivRoundUp(|old(vol.Flat(file)).bytes|, vol.store.ClusterSize())
    ensures forall n | n in old(vol.Contents()) && n != dir && n != file :: n in vol.Contents() && vol.Contents()[n] == old(vol.Contents())[n]
  {
    hide Volume.Valid, Volume.Contents, View, MaxSize, CountFree, DivRoundUp, Erased, S.Apart, S.Inside, S.Followed, S.IsLast,
         S.EndsWithName, Truncated, Store.ClusterSize;
    ghost var c0 := vol.Contents();
    Listed(vol);
    rc := Unlist(vol, dir, children, offset, continuations);
    Listed(vol);
    ghost var d, c1 := vol.Flat(dir), vol.Contents();
    Emptied(vol.store.ClusterSize(), vol.Flat(file), CountFree(vol.cmap.bits));
    rc := Truncate(vol, file, 0, true);
    Listed(vol);
    assert vol.Flat(dir) == d;
    KeptBoth(c0, c1, vol.Contents(), dir, file);
  }

  lemma SameLength(was: seq<byte>, now: seq<byte>, offset: nat, n: nat)
    requires Invalidated(was, now, offset, n)
    ensures |now| == |was|
  {
  }
}
