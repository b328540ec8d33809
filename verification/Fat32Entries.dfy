/** FAT32 directory entries as bytes, and the scans over them (fs/fat32/fat32.c). */
module Fat32Entries {
  import opened Bytes

  const ENTRY: nat := 32
  const NAME: nat := 11
  const DELETED: byte := 0xe5
  const DOT: byte := 0x2e
  const SPACE: byte := 0x20
  const ATTR_ARCHIVE: byte := 0x20
  const ATTR_DIRECTORY: byte := 0x10

  ghost predicate HasSlot(d: seq<byte>, s: nat) { ENTRY * s + ENTRY <= |d| }

  function Entry(d: seq<byte>, s: nat): (e: seq<byte>)
    requires ENTRY * s + ENTRY <= |d|
    ensures |e| == ENTRY
  {
    d[ENTRY * s..ENTRY * s + ENTRY]
  }

  /** entry.name[0] */
  function Mark(d: seq<byte>, s: nat): byte
    requires ENTRY * s + ENTRY <= |d|
  {
    d[ENTRY * s]
  }

  function NameOf(e: seq<byte>): seq<byte>
    requires |e| == ENTRY
  {
    e[..NAME]
  }

  predicate IsDirectory(e: seq<byte>)
    requires |e| == ENTRY
  {
    e[11] / 16 % 2 == 1
  }

  predicate IsVolumeId(e: seq<byte>)
    requires |e| == ENTRY
  {
    e[11] / 8 % 2 == 1
  }

  /** first_cluster_hi and first_cluster_lo together: the high half stands at byte
    * 20, the low half at byte 26. */
  function FirstOf(e: seq<byte>): (c: u32)
    requires |e| == ENTRY
    ensures c == HalfAt(e, 26) + 0x1_0000 * HalfAt(e, 20)
  {
    FromLe32([e[26], e[27], e[20], e[21]])
  }

  function SizeOf(e: seq<byte>): u32
    requires |e| == ENTRY
  {
    FromLe32(e[28..32])
  }

  /** The entry fat32_write_file_in and fat32_create_directory_in write. */
  function MakeEntry(name: seq<byte>, attr: byte, first: u32, size: u32): (e: seq<byte>)
    requires |name| == NAME
    ensures |e| == ENTRY && NameOf(e) == name && e[11] == attr && FirstOf(e) == first && SizeOf(e) == size
    ensures e[0] == name[0]
  {
    var f := ToLe32(first);
    var e := name + [attr] + Zeros(8) + [f[2], f[3]] + Zeros(4) + [f[0], f[1]] + ToLe32(size);
    assert e[28..32] == ToLe32(size);
    assert [e[26], e[27], e[20], e[21]] == f;
    e
  }

  /** Where every field of a written entry stands. */
  lemma EntryLayout(name: seq<byte>, attr: byte, first: u32, size: u32)
    requires |name| == NAME
    ensures var e := MakeEntry(name, attr, first, size);
            && |e| == 32 && e[..11] == name && e[11] == attr && (forall i | 12 <= i < 20 :: e[i] == 0) && (forall i | 22 <= i < 26 :: e[i] == 0)
            && HalfAt(e, 26) == first % 0x1_0000 && HalfAt(e, 20) == first / 0x1_0000
            && HalfAt(e, 28) == size % 0x1_0000 && HalfAt(e, 30) == size / 0x1_0000
  {
    var e := MakeEntry(name, attr, first, size);
    HalvesOf(first, e[26], e[27], e[20], e[21]);
    HalvesOf(size, e[28], e[29], e[30], e[31]);
  }

  lemma HalvesOf(v: u32, a: byte, b: byte, c: byte, d: byte)
    requires [a, b, c, d] == ToLe32(v)
    ensures a as int + b as int * 0x100 == v % 0x1_0000 && c as int + d as int * 0x100 == v / 0x1_0000
  {
    assert FromLe32([a, b, c, d]) == v;
  }

  /** The bytes of an entry at byte `p` of a directory: its name and attributes,
    * the low half of its first cluster at byte 26, the high half at byte 20, and
    * its size at byte 28. */
  ghost predicate Recorded(d: seq<byte>, p: nat, name: seq<byte>, attr: byte, first: u32, size: u32) {
    && p + 32 <= |d| && d[p..p + 11] == name && d[p + 11] == attr
    && HalfAt(d, p + 26) == first % 0x1_0000 && HalfAt(d, p + 20) == first / 0x1_0000
    && HalfAt(d, p + 28) == size % 0x1_0000 && HalfAt(d, p + 30) == size / 0x1_0000
  }

  /** A written entry on the disk, in slot `s` of a directory. */
  lemma EntryOnDisk(d: seq<byte>, s: nat, name: seq<byte>, attr: byte, first: u32, size: u32)
    requires HasSlot(d, s) && |name| == NAME
    ensures Recorded(WithEntry(d, s, MakeEntry(name, attr, first, size)), 32 * s, name, attr, first, size)
  {
    hide MakeEntry;
    var e := MakeEntry(name, attr, first, size);
    EntryLayout(name, attr, first, size);
    var (d', p) := (WithEntry(d, s, e), 32 * s);
    assert forall j | p <= j < p + 32 :: d'[j] == e[j - p];
    assert d'[p..p + 11] == e[..11];
  }

  /** No end mark among the first `s` slots. */
  ghost predicate NoEnd(d: seq<byte>, s: nat)
  {
    forall t: nat {:trigger HasSlot(d, t)} | t < s && HasSlot(d, t) :: Mark(d, t) != 0
  }

  /** What fat32_find_entry looks for in one slot. */
  predicate Matches(d: seq<byte>, s: nat, name: seq<byte>)
    requires ENTRY * s + ENTRY <= |d|
  {
    Mark(d, s) != DELETED && !IsVolumeId(Entry(d, s)) && NameOf(Entry(d, s)) == name
  }

  /** What the scan of fat32_write_file_in takes for the file itself: volume labels count too. */
  predicate Occupies(d: seq<byte>, s: nat, name: seq<byte>)
    requires ENTRY * s + ENTRY <= |d|
  {
    Mark(d, s) != 0 && Mark(d, s) != DELETED && NameOf(Entry(d, s)) == name
  }

  predicate IsFree(d: seq<byte>, s: nat)
    requires ENTRY * s + ENTRY <= |d|
  {
    Mark(d, s) == 0 || Mark(d, s) == DELETED
  }

  ghost predicate NoMatch(d: seq<byte>, s: nat, name: seq<byte>)
  {
    forall t: nat {:trigger HasSlot(d, t)} | t < s && HasSlot(d, t) :: !Matches(d, t, name)
  }

  ghost predicate NoOccupant(d: seq<byte>, s: nat, name: seq<byte>)
  {
    forall t: nat {:trigger HasSlot(d, t)} | t < s && HasSlot(d, t) :: !Occupies(d, t, name)
  }

  ghost predicate NoneFree(d: seq<byte>, s: nat)
  {
    forall t: nat {:trigger HasSlot(d, t)} | t < s && HasSlot(d, t) :: !IsFree(d, t)
  }

  /** fat32_find_entry finds `name` in slot `s`. */
  ghost predicate Found(d: seq<byte>, name: seq<byte>, s: nat)
  {
    HasSlot(d, s) && NoEnd(d, s + 1) && Matches(d, s, name) && NoMatch(d, s, name)
  }

  /** The same by the bytes of the directory: neither deleted nor a volume label,
    * the first of its name, and no end mark before it. */
  ghost predicate Named(d: seq<byte>, t: nat, name: seq<byte>)
    requires HasSlot(d, t)
  {
    d[32 * t..32 * t + 11] == name && d[32 * t] != 0xe5 && d[32 * t + 11] / 8 % 2 == 0
  }

  lemma FoundBytes(d: seq<byte>, name: seq<byte>, s: nat)
    ensures Found(d, name, s) <==>
              && HasSlot(d, s) && Named(d, s, name)
              && (forall t: nat {:trigger HasSlot(d, t)} | t <= s && HasSlot(d, t) :: d[32 * t] != 0)
              && (forall t: nat {:trigger HasSlot(d, t)} | t < s && HasSlot(d, t) :: !Named(d, t, name))
  {
    forall t: nat | HasSlot(d, t)
      ensures Matches(d, t, name) <==> Named(d, t, name)
    {
      assert Entry(d, t)[..11] == d[32 * t..32 * t + 11];
    }
  }

  lemma FoundOnce(d: seq<byte>, name: seq<byte>, s: nat, t: nat)
    requires Found(d, name, s) && Found(d, name, t)
    ensures s == t
  {
    assert HasSlot(d, s) && HasSlot(d, t);
  }

  ghost predicate Absent(d: seq<byte>, name: seq<byte>)
  {
    forall s: nat {:trigger HasSlot(d, s)} :: !Found(d, name, s)
  }

  /** The slot fat32_write_file_in reuses for a file that is there already. */
  ghost predicate Existing(d: seq<byte>, name: seq<byte>, s: nat)
  {
    HasSlot(d, s) && NoEnd(d, s + 1) && Occupies(d, s, name) && NoOccupant(d, s, name)
  }

  /** The slot it takes otherwise: the first free one, the file being nowhere before the end mark. */
  ghost predicate Vacant(d: seq<byte>, name: seq<byte>, s: nat)
  {
    && HasSlot(d, s) && IsFree(d, s) && NoneFree(d, s)
    && (forall t: nat {:trigger HasSlot(d, t)} | HasSlot(d, t) && NoEnd(d, t + 1) :: !Occupies(d, t, name))
  }

  /** Behind the end mark there are only end marks. */
  ghost predicate CleanTail(d: seq<byte>)
  {
    forall s: nat, t: nat {:trigger HasSlot(d, s), HasSlot(d, t)} |
      s < t && HasSlot(d, s) && HasSlot(d, t) && Mark(d, s) == 0 :: Mark(d, t) == 0
  }

  /** The slot holds a live entry other than the dot entries of a subdirectory. */
  ghost predicate Owning(d: seq<byte>, s: nat)
  {
    HasSlot(d, s) && NoEnd(d, s + 1) && Mark(d, s) != DELETED && Mark(d, s) != DOT
  }

  ghost function WithEntry(d: seq<byte>, s: nat, e: seq<byte>): (d': seq<byte>)
    requires HasSlot(d, s) && |e| == ENTRY
    ensures |d'| == |d|
  {
    Splice(d, ENTRY * s, e)
  }

  /** Writing one slot leaves the others as they were. */
  lemma EntryWritten(d: seq<byte>, s: nat, e: seq<byte>, t: nat)
    requires HasSlot(d, s) && |e| == ENTRY && HasSlot(d, t)
    ensures HasSlot(WithEntry(d, s, e), t)
    ensures Entry(WithEntry(d, s, e), t) == if t == s then e else Entry(d, t)
    ensures Mark(WithEntry(d, s, e), t) == if t == s then e[0] else Mark(d, t)
  {
    var d' := WithEntry(d, s, e);
    if t == s {
      assert Entry(d', t) == e;
    } else {
      assert Entry(d', t) == Entry(d, t);
      assert d'[ENTRY * t] == d[ENTRY * t];
    }
  }

  ghost predicate Chosen(d: seq<byte>, name: seq<byte>, s: nat)
  {
    Existing(d, name, s) || Vacant(d, name, s)
  }

  /** No end mark precedes the chosen slot, nor any entry of that name. */
  lemma ChosenFirst(d: seq<byte>, name: seq<byte>, s: nat, t: nat)
    requires Chosen(d, name, s) && t < s
    ensures HasSlot(d, t) && Mark(d, t) != 0 && !Matches(d, t, name)
  {
    assert HasSlot(d, t);
    if Vacant(d, name, s) {
      assert NoEnd(d, t + 1);
    }
  }

  lemma ChosenReach(d: seq<byte>, name: seq<byte>, s: nat)
    requires Chosen(d, name, s)
    ensures HasSlot(d, s) && NoEnd(d, s)
  {
    forall t: nat {:trigger HasSlot(d, t)} | t < s && HasSlot(d, t)
      ensures Mark(d, t) != 0
    {
      ChosenFirst(d, name, s, t);
    }
  }

  /** A file just written is found again exactly when its name does not begin with the deletion mark. */
  lemma WrittenFound(d: seq<byte>, name: seq<byte>, s: nat, e: seq<byte>)
    requires |e| == ENTRY && NameOf(e) == name && name[0] != 0 && !IsVolumeId(e) && Chosen(d, name, s)
    ensures var d' := WithEntry(d, s, e);
            && (Found(d', name, s) <==> name[0] != DELETED)
            && (name[0] == DELETED ==> Absent(d', name))
  {
    var d' := WithEntry(d, s, e);
    EntryWritten(d, s, e, s);
    forall t: nat | t < s
      ensures HasSlot(d', t) && Mark(d', t) != 0 && !Matches(d', t, name)
    {
      ChosenFirst(d, name, s, t);
      EntryWritten(d, s, e, t);
    }
    if name[0] == DELETED {
      forall t: nat
        ensures !Found(d', name, t)
      {
        if HasSlot(d', t) && NameOf(Entry(d', t)) == name {
          assert Entry(d', t)[0] == Mark(d', t);
        }
      }
    }
  }

  /** The end marks before and after the write, slot by slot. */
  lemma WrittenEnd(d: seq<byte>, s: nat, e: seq<byte>, t: nat)
    requires |e| == ENTRY && e[0] != 0 && HasSlot(d, s) && CleanTail(d) && HasSlot(d, t) && t != s
    ensures NoEnd(WithEntry(d, s, e), t + 1) <==> NoEnd(d, t + 1)
  {
    var d' := WithEntry(d, s, e);
    forall u: nat | HasSlot(d, u)
      ensures HasSlot(d', u) && Mark(d', u) == if u == s then e[0] else Mark(d, u)
    {
      EntryWritten(d, s, e, u);
    }
    if NoEnd(d', t + 1) {
      forall u: nat | u < t + 1 && HasSlot(d, u)
        ensures Mark(d, u) != 0
      {
        assert HasSlot(d', u);
      }
    }
    if NoEnd(d, t + 1) {
      forall u: nat {:trigger HasSlot(d', u)} | u < t + 1 && HasSlot(d', u)
        ensures Mark(d', u) != 0
      {
        assert HasSlot(d, u);
      }
    }
  }

  /** Every other name is found where it was found before, or nowhere as before. */
  lemma OtherNames(d: seq<byte>, name: seq<byte>, s: nat, e: seq<byte>, other: seq<byte>, t: nat)
    requires |e| == ENTRY && NameOf(e) == name && name[0] != 0 && other != name && Chosen(d, name, s) && CleanTail(d)
    ensures Found(WithEntry(d, s, e), other, t) <==> Found(d, other, t)
  {
    assert e[0] != 0;
    hide Entry, NameOf, IsVolumeId;
    var d' := WithEntry(d, s, e);
    if HasSlot(d, t) && t != s {
      WrittenEnd(d, s, e, t);
      if NoEnd(d, t + 1) {
        forall u: nat {:trigger HasSlot(d, u)} {:trigger HasSlot(d', u)} | u <= t
          ensures HasSlot(d', u) && HasSlot(d, u) && Matches(d', u, other) == Matches(d, u, other)
        {
          assert HasSlot(d, u);
          OtherSlot(d, name, s, e, other, u);
        }
      }
    } else if t == s {
      EntryWritten(d, s, e, s);
    }
  }

  lemma OtherSlot(d: seq<byte>, name: seq<byte>, s: nat, e: seq<byte>, other: seq<byte>, u: nat)
    requires |e| == ENTRY && NameOf(e) == name && other != name && Chosen(d, name, s)
    requires HasSlot(d, u) && Mark(d, u) != 0
    ensures HasSlot(WithEntry(d, s, e), u) && Matches(WithEntry(d, s, e), u, other) == Matches(d, u, other)
  {
    EntryWritten(d, s, e, u);
  }
}
