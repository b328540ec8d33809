/** Shrinking a directory after a deletion (shrink_directory of fs/exfat/node.c). */
module DirectoryShrink {
  import opened Bytes
  import opened ClusterBitmap
  import opened ExfatVolume
  import opened FlatFile
  import opened FileIo

  /** A child: the place of its entry set, how many entries the set has, and how
    * many units its name has. */
  datatype Child = Child(at: nat, count: nat, units: nat)

  /** The entries shrink_directory allows for a child: two, and those of its name. */
  function Needed(c: Child): nat { 2 + DivRoundUp(c.units, 15) }

  /** The child that comes last in the directory. */
  predicate IsLast(children: seq<Child>, k: nat) {
    k < |children| && forall i :: 0 <= i < |children| ==> children[i].at <= children[k].at
  }

  /** The children's sets follow one another without overlap. */
  predicate Apart(children: seq<Child>) {
    && (forall i :: 0 <= i < |children| ==> children[i].count >= Needed(children[i]))
    && (forall i, j :: 0 <= i < |children| && 0 <= j < |children| && children[i].at < children[j].at
          ==> children[i].at + children[i].count <= children[j].at)
    && (forall i, j :: 0 <= i < |children| && 0 <= j < |children| && children[i].at == children[j].at ==> i == j)
  }

  function NewSize(cs: nat, entries: nat): (size: nat)
    requires cs > 0
  {
    var size := DivRoundUp(entries * 32, cs) * cs;
    if size == 0 then cs else size
  }

  /** The entries to keep room for: up to the end of the last child's name. */
  ghost predicate IsExtent(children: seq<Child>, entries: nat) {
    if children == [] then entries == 0
    else exists k: nat :: IsLast(children, k) && entries == children[k].at + Needed(children[k])
  }

  /** Some child lies behind the deleted entry. */
  predicate Followed(children: seq<Child>, deleted: nat) {
    exists i :: 0 <= i < |children| && deleted < 32 * children[i].at
  }

  /** Every child's whole set lies inside the directory. */
  predicate Inside(children: seq<Child>, size: nat) {
    forall i :: 0 <= i < |children| ==> 32 * (children[i].at + children[i].count) <= size
  }

  /** The child's set, optional entries included, ends in the cluster in which
    * its name ends. */
  predicate EndsWithName(cs: nat, c: Child)
    requires cs > 0
  {
    DivRoundUp(32 * (c.at + c.count), cs) == DivRoundUp(32 * (c.at + Needed(c)), cs)
  }

  /** Entry `e` lies in the first cluster, or in one no later than the last of
    * the first `entries` entries. */
  predicate EndsBy(cs: nat, e: nat, entries: nat)
    requires cs > 0
  {
    DivRoundUp(32 * (e + 1), cs) <= if entries == 0 then 1 else DivRoundUp(32 * entries, cs)
  }

  /** The scan for the last child. */
  method LastChild(children: seq<Child>, deleted: nat) returns (stop: bool, entries: nat)
    ensures stop == Followed(children, deleted)
    ensures !stop ==> IsExtent(children, entries)
  {
    var last, i := 0, 0;
    while i < |children|
      invariant 0 <= i <= |children| && (last < i || last == 0 == i)
      invariant forall j :: 0 <= j < i ==> children[j].at <= children[last].at && deleted >= 32 * children[j].at
    {
      if deleted < 32 * children[i].at { return true, 0; }
      if children[last].at < children[i].at { last := i; }
      i := i + 1;
    }
    if children == [] { return false, 0; }
    assert IsLast(children, last);
    return false, children[last].at + Needed(children[last]);
  }

  lemma NewSizeBounds(cs: nat, entries: nat, size: nat)
    requires cs > 0 && size % cs == 0 && size >= cs && 32 * entries <= size
    ensures 32 * entries <= NewSize(cs, entries) <= size && NewSize(cs, entries) % cs == 0 && NewSize(cs, entries) >= cs
  {
    var q, p := DivRoundUp(entries * 32, cs), size / cs;
    DivRoundUpBounds(entries * 32, cs);
    hide DivRoundUp;
    assert size == p * cs;
    if q > p { MulMonotone(p, q - 1, cs); }
    MulMonotone(q, p, cs);
    DivModUnique(q, 0, cs);
    DivModUnique(1, 0, cs);
    if q > 0 { MulMonotone(1, q, cs); }
  }

  lemma ExtentInside(children: seq<Child>, entries: nat, size: nat)
    requires Apart(children) && IsExtent(children, entries) && Inside(children, size)
    ensures 32 * entries <= size
  {
  }

  /** shrink_directory: never fails. A directory with a child behind the deleted
    * entry stays as it is; otherwise whole clusters are cut off behind the last
    * child's name, and the bytes before them stay. The children keep their sets
    * if and only if the last child's optional entries end in the cluster where
    * its name ends; any other entry, such as those of the root that belong to no
    * child, is kept if and only if it lies no later than that cluster. */
  method ShrinkDirectory(vol: Volume, dir: Node, children: seq<Child>, deleted: nat) returns (rc: int, ghost entries: nat)
    requires vol.Valid() && dir in vol.chains && vol.store.ClusterSize() > 0 && dir.size % vol.store.ClusterSize() == 0
    requires vol.store.ClusterSize() <= dir.size <= MaxSize(vol.store.ClusterSize()) && Apart(children)
    requires Inside(children, dir.size)
    modifies vol`owner, vol`chains, vol.store`fat, vol.store`heap, vol.store.dev, vol.cmap`bits, vol.cmap.words
    modifies dir`start, dir`fptrIndex, dir`fptrCluster, dir`isContiguous, dir`isDirty, dir`validSize, dir`size
    ensures vol.Valid() && dir in vol.chains && rc == 0
    ensures vol.Contents() == old(vol.Contents())[dir := vol.Contents()[dir]]
    ensures vol.store.ClusterSize() > 0 && dir.size == |vol.Flat(dir).bytes| && CountFree(vol.cmap.bits) ==
            CountFree(old(vol.cmap.bits)) + DivRoundUp(old(dir.size), vol.store.ClusterSize()) - DivRoundUp(dir.size, vol.store.ClusterSize())
    ensures Followed(children, deleted) ==> vol.Flat(dir) == old(vol.Flat(dir))
    ensures !Followed(children, deleted) ==>
      && IsExtent(children, entries) && 32 * entries <= dir.size == NewSize(vol.store.ClusterSize(), entries) <= |old(vol.Flat(dir)).bytes|
      && vol.Flat(dir).bytes == old(vol.Flat(dir)).bytes[..dir.size]
      && (Inside(children, dir.size) <==> forall k: nat | IsLast(children, k) :: EndsWithName(vol.store.ClusterSize(), children[k]))
      && (forall e: nat :: 32 * (e + 1) <= dir.size <==> EndsBy(vol.store.ClusterSize(), e, entries))
  {
    hide Volume.Valid, Volume.Contents, View, MaxSize, CountFree, Apart, IsExtent, Followed, NewSize, DivRoundUp, Inside, EndsWithName, EndsBy, IsLast;
    Shown(vol, dir);
    var stop, e := LastChild(children, deleted);
    entries := e;
    if stop { return 0, entries; }
    var cs := vol.store.ClusterSize();
    ExtentInside(children, e, dir.size);
    NewSizeBounds(cs, e, dir.size);
    var size := NewSize(cs, e);
    AllKept(cs, children, e);
    EntriesKept(cs, e);
    CutWhole(cs, vol.Flat(dir), CountFree(vol.cmap.bits), size);
    if size == dir.size { return 0, entries; }
    rc := Truncate(vol, dir, size, true);
    Shown(vol, dir);
  }

  lemma CutWhole(cs: nat, f: File, free: nat, size: nat)
    requires cs > 0 && size <= |f.bytes|
    ensures Truncated(cs, f, free, size, true).rc == 0 && Truncated(cs, f, free, size, true).file.bytes == f.bytes[..size]
    ensures Truncated(cs, f, free, size, true).free == free + DivRoundUp(|f.bytes|, cs) - DivRoundUp(size, cs)
  {
    DivRoundUpMonotone(size, |f.bytes|, cs);
    hide DivRoundUp;
  }

  /** What fits in `q` clusters. */
  lemma InClusters(cs: nat, n: nat, q: nat)
    requires cs > 0
    ensures n <= q * cs <==> DivRoundUp(n, cs) <= q
  {
    DivRoundUpBounds(n, cs);
    var d := DivRoundUp(n, cs);
    hide DivRoundUp;
    if d <= q { MulMonotone(d, q, cs); } else { MulMonotone(q, d - 1, cs); }
  }

  lemma NewSizeIs(cs: nat, entries: nat)
    requires cs > 0
    ensures NewSize(cs, entries) == (if entries == 0 then 1 else DivRoundUp(32 * entries, cs)) * cs
  {
    DivRoundUpBounds(32 * entries, cs);
    hide DivRoundUp;
    if entries > 0 { MulMonotone(1, DivRoundUp(32 * entries, cs), cs); }
  }

  lemma EntriesKept(cs: nat, entries: nat)
    requires cs > 0
    ensures forall e: nat :: 32 * (e + 1) <= NewSize(cs, entries) <==> EndsBy(cs, e, entries)
  {
    hide DivRoundUp, NewSize;
    forall e: nat ensures 32 * (e + 1) <= NewSize(cs, entries) <==> EndsBy(cs, e, entries) {
      NewSizeIs(cs, entries);
      InClusters(cs, 32 * (e + 1), if entries == 0 then 1 else DivRoundUp(32 * entries, cs));
    }
  }

  /** One child: its set fits in the size its name asks for if and only if it
    * ends in the same cluster as the name. */
  lemma ChildKept(cs: nat, c: Child)
    requires cs > 0 && c.count >= Needed(c)
    ensures 32 * (c.at + c.count) <= NewSize(cs, c.at + Needed(c)) <==> EndsWithName(cs, c)
  {
    NewSizeIs(cs, c.at + Needed(c));
    DivRoundUpMonotone(32 * (c.at + Needed(c)), 32 * (c.at + c.count), cs);
    InClusters(cs, 32 * (c.at + c.count), DivRoundUp(32 * (c.at + Needed(c)), cs));
    hide DivRoundUp, NewSize;
  }

  /** Every child's whole set survives the cut if and only if the last child's
    * set ends in the cluster where its name ends. */
  lemma AllKept(cs: nat, children: seq<Child>, entries: nat)
    requires cs > 0 && Apart(children) && IsExtent(children, entries)
    ensures Inside(children, NewSize(cs, entries)) <==> forall k: nat | IsLast(children, k) :: EndsWithName(cs, children[k])
  {
    hide DivRoundUp, NewSize, EndsWithName, Needed;
    forall k: nat | IsLast(children, k)
      ensures Inside(children, NewSize(cs, entries)) <==> EndsWithName(cs, children[k])
    {
      ChildKept(cs, children[k]);
    }
  }

  /** The call on a directory of two clusters whose last child has a name of one
    * unit and an optional entry in the second cluster: it succeeds and cuts that
    * entry off. */
  method CutOptional(vol: Volume, dir: Node) returns (rc: int)
    requires vol.Valid() && dir in vol.chains && vol.store.ClusterSize() == 4096 && dir.size == 8192 <= MaxSize(4096)
    modifies vol`owner, vol`chains, vol.store`fat, vol.store`heap, vol.store.dev, vol.cmap`bits, vol.cmap.words
    modifies dir`start, dir`fptrIndex, dir`fptrCluster, dir`isContiguous, dir`isDirty, dir`validSize, dir`size
    ensures vol.Valid() && dir in vol.chains && rc == 0
    ensures dir.size == |vol.Flat(dir).bytes| == 4096 && !Inside([Child(125, 4, 1)], dir.size)
  {
    hide Volume.Valid, Volume.Contents, View, MaxSize, CountFree, Apart, Inside, Followed, IsExtent, IsLast, EndsWithName, EndsBy, NewSize, Needed;
    var c := Child(125, 4, 1);
    OptionalLast(c);
    ghost var entries;
    rc, entries := ShrinkDirectory(vol, dir, [c], 32 * 129);
    Shown(vol, dir);
  }

  lemma OptionalLast(c: Child)
    requires c == Child(125, 4, 1)
    ensures Apart([c]) && Inside([c], 8192) && !Followed([c], 32 * 129) && !Inside([c], 4096)
    ensures forall entries: nat :: IsExtent([c], entries) ==> NewSize(4096, entries) == 4096
  {
    assert [c][0] == c && Needed(c) == 3 && NewSize(4096, 128) == 4096;
  }
}
