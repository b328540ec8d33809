/** A FAT32 volume as a map from paths to files and folders, and what one changed
  * slot does to that map (fs/fat32/fat32.c). */
module Fat32Paths {
  import opened Bytes
  import opened Fat32Entries
  import opened Fat32Volume
  import opened Fat32Files
  import opened Fat32Directories
  import opened Fat32Tree

  type Path = seq<seq<byte>>

  /** A damaged folder is one whose clusters a write without room has taken. */
  datatype Item = File(bytes: seq<byte>) | Folder | Damaged

  /** The directories of a volume and the bytes of all chains, as a value. */
  datatype View = View(dirs: set<Key>, damaged: set<Key>, contents: map<Key, seq<byte>>)

  ghost function ViewOf(v: Fat32): View
    reads v
  {
    View(v.dirs, v.damaged, v.Contents())
  }

  predicate IsPath(path: Path) { forall i | 0 <= i < |path| :: IsName(path[i]) }

  // ---- one directory ----

  /** The slot in which a name is found, or -1. */
  ghost function Find(d: seq<byte>, name: seq<byte>): (r: int)
    ensures if r >= 0 then Found(d, name, r) else r == -1 && forall s: nat :: !Found(d, name, s)
  {
    if exists s: nat :: Found(d, name, s) then var s: nat :| Found(d, name, s); s else -1
  }

  lemma FindIs(d: seq<byte>, name: seq<byte>, s: nat)
    requires Found(d, name, s)
    ensures Find(d, name) == s
  {
    hide Found;
    FoundOnce(d, name, s, Find(d, name));
  }

  lemma FindSame(d: seq<byte>, d': seq<byte>, name: seq<byte>)
    requires forall s: nat :: Found(d, name, s) <==> Found(d', name, s)
    ensures Find(d, name) == Find(d', name)
  {
    hide Found;
    var r := Find(d, name);
    if r >= 0 { FindIs(d', name, r); }
  }

  /** The slot holds an entry that the scans do not pass over. */
  ghost predicate Live(d: seq<byte>, s: nat) { HasSlot(d, s) && NoEnd(d, s + 1) && Mark(d, s) != DELETED }

  /** No volume label, a dot only in the names of the dot entries, and no size
    * for a directory. */
  ghost predicate PlainEntry(e: seq<byte>)
    requires |e| == ENTRY
  {
    !IsVolumeId(e) && (e[0] == DOT ==> IsDotName(NameOf(e))) && (IsDirectory(e) ==> SizeOf(e) == 0)
  }

  /** A directory as the operations leave it: plain entries, each with a name of
    * its own. */
  ghost predicate Plain(d: seq<byte>) {
    && (forall s: nat {:trigger Live(d, s)} | Live(d, s) :: PlainEntry(Entry(d, s)))
    && (forall s: nat, t: nat {:trigger Live(d, s), Live(d, t)} | Live(d, s) && Live(d, t) && NameOf(Entry(d, s)) == NameOf(Entry(d, t)) :: s == t)
  }

  lemma FoundLive(d: seq<byte>, name: seq<byte>, s: nat)
    requires Found(d, name, s)
    ensures Live(d, s) && NameOf(Entry(d, s)) == name
  {
  }

  lemma LiveFound(d: seq<byte>, s: nat)
    requires Plain(d) && Live(d, s)
    ensures Found(d, NameOf(Entry(d, s)), s)
  {
    hide PlainEntry, Entry, NameOf;
    assert PlainEntry(Entry(d, s));
    LivePlain(d, s);
    var name := NameOf(Entry(d, s));
    forall t: nat {:trigger HasSlot(d, t)} | t < s && HasSlot(d, t) ensures !Matches(d, t, name) {
      assert Mark(d, t) != DELETED ==> Live(d, t);
    }
  }

  lemma LivePlain(d: seq<byte>, s: nat)
    requires Plain(d) && Live(d, s)
    ensures !IsVolumeId(Entry(d, s)) && (Mark(d, s) == DOT ==> IsDotName(NameOf(Entry(d, s)))) && (IsDirectory(Entry(d, s)) ==> SizeOf(Entry(d, s)) == 0)
  {
    hide IsVolumeId, IsDotName, IsDirectory, SizeOf;
    assert Entry(d, s)[0] == Mark(d, s);
  }

  /** In a plain directory, to be taken for the file is to be found. */
  lemma ExistingFound(d: seq<byte>, name: seq<byte>, s: nat)
    requires Plain(d) && Existing(d, name, s)
    ensures Found(d, name, s)
  {
    hide Plain;
    assert Live(d, s);
    LiveFound(d, s);
  }

  lemma VacantAbsent(d: seq<byte>, name: seq<byte>, s: nat)
    requires Vacant(d, name, s)
    ensures Find(d, name) == -1 && forall m :: !Found(d, m, s)
  {
    hide Entry, NameOf;
    forall t: nat ensures !Found(d, name, t) { assert HasSlot(d, t) ==> !(NoEnd(d, t + 1) && Occupies(d, t, name)); }
    assert HasSlot(d, s);
  }

  lemma FullAbsent(d: seq<byte>, name: seq<byte>)
    requires Full(d, name)
    ensures Find(d, name) == -1
  {
    hide Entry, NameOf;
    forall t: nat ensures !Found(d, name, t) { assert HasSlot(d, t) ==> !Occupies(d, t, name); }
  }

  /** A name that begins with the deletion mark is never found. */
  lemma DeletedAbsent(d: seq<byte>, name: seq<byte>)
    requires IsName(name) && name[0] == DELETED
    ensures Find(d, name) == -1
  {
    forall s: nat ensures !Found(d, name, s) { assert HasSlot(d, s) ==> Entry(d, s)[0] == Mark(d, s); }
  }

  /** A plain directory is empty if and only if no name is found in it. */
  lemma EmptyExact(d: seq<byte>)
    requires Plain(d)
    ensures IsEmpty(d) <==> forall name | IsName(name) :: Find(d, name) == -1
  {
    hide Plain, Found;
    if IsEmpty(d) {
      forall name | IsName(name) ensures Find(d, name) == -1 {
        if Find(d, name) >= 0 { FoundSolid(d, name, Find(d, name)); }
      }
    } else {
      var s: nat :| HasSlot(d, s) && NoEnd(d, s + 1) && !Hollow(d, s);
      LiveNamed(d, s);
      FindIs(d, NameOf(Entry(d, s)), s);
    }
  }

  lemma FoundSolid(d: seq<byte>, name: seq<byte>, s: nat)
    requires IsName(name) && Found(d, name, s)
    ensures HasSlot(d, s) && NoEnd(d, s + 1) && !Hollow(d, s)
  {
    assert Entry(d, s)[0] == Mark(d, s);
  }

  lemma LiveNamed(d: seq<byte>, s: nat)
    requires Plain(d) && HasSlot(d, s) && NoEnd(d, s + 1) && !Hollow(d, s)
    ensures IsName(NameOf(Entry(d, s))) && Found(d, NameOf(Entry(d, s)), s)
  {
    hide Plain, Found;
    assert Live(d, s);
    LiveFound(d, s);
    LivePlain(d, s);
    assert Entry(d, s)[0] == Mark(d, s);
  }

  // ---- a directory with one slot rewritten ----

  /** Slot `s`, which only `name` can be found in, is all that differs. */
  ghost predicate OnlySlot(d: seq<byte>, d': seq<byte>, s: nat, name: seq<byte>) {
    && (forall m | Found(d, m, s) :: m == name)
    && (forall m | m != name :: Find(d', m) == Find(d, m))
    && (forall x: nat | x != s && HasSlot(d, x) :: HasSlot(d', x) && Entry(d', x) == Entry(d, x))
  }

  /** The other slots are live as before, with the same entries. */
  lemma LiveKept(d: seq<byte>, s: nat, e: seq<byte>, x: nat)
    requires HasSlot(d, s) && CleanTail(d) && |e| == ENTRY && e[0] != 0 && x != s
    ensures Live(WithEntry(d, s, e), x) <==> Live(d, x)
    ensures HasSlot(WithEntry(d, s, e), x) <==> HasSlot(d, x)
    ensures HasSlot(d, x) ==> Entry(WithEntry(d, s, e), x) == Entry(d, x)
  {
    hide CleanTail, NoEnd, Entry;
    if HasSlot(d, x) {
      EntryWritten(d, s, e, x);
      WrittenEnd(d, s, e, x);
    }
  }

  lemma LiveSlot(d: seq<byte>, s: nat, e: seq<byte>)
    requires HasSlot(d, s) && |e| == ENTRY
    ensures Live(WithEntry(d, s, e), s) ==> e[0] != DELETED
    ensures HasSlot(WithEntry(d, s, e), s) && Entry(WithEntry(d, s, e), s) == e
  {
    EntryWritten(d, s, e, s);
  }

  /** The directory stays plain if the new entry's name is nobody else's. */
  lemma StaysPlain(d: seq<byte>, s: nat, e: seq<byte>)
    requires Plain(d) && CleanTail(d) && HasSlot(d, s) && |e| == ENTRY && e[0] != 0 && (e[0] != DELETED ==> PlainEntry(e))
    requires e[0] != DELETED ==> forall x: nat | x != s && Live(d, x) :: NameOf(Entry(d, x)) != NameOf(e)
    ensures Plain(WithEntry(d, s, e))
  {
    hide Live, PlainEntry, NameOf, Entry, CleanTail;
    var d' := WithEntry(d, s, e);
    LiveSlot(d, s, e);
    forall x: nat ensures x != s ==> (Live(d', x) <==> Live(d, x)) && (HasSlot(d', x) <==> HasSlot(d, x))
                                     && (HasSlot(d, x) ==> Entry(d', x) == Entry(d, x))
                  ensures Live(d, x) ==> HasSlot(d, x)
    {
      if x != s { LiveKept(d, s, e, x); }
      LiveHas(d, x);
    }
  }

  lemma LiveHas(d: seq<byte>, x: nat)
    ensures Live(d, x) ==> HasSlot(d, x)
  {
  }

  lemma FoundExact(d: seq<byte>, m: seq<byte>, x: nat)
    requires Plain(d)
    ensures Found(d, m, x) <==> Live(d, x) && NameOf(Entry(d, x)) == m
  {
    hide Plain;
    if Live(d, x) { LiveFound(d, x); }
  }

  lemma Rewritten(d: seq<byte>, s: nat, e: seq<byte>, name: seq<byte>)
    requires Plain(d) && CleanTail(d) && HasSlot(d, s) && |e| == ENTRY && e[0] != 0 && Plain(WithEntry(d, s, e))
    requires Live(d, s) ==> NameOf(Entry(d, s)) == name
    requires e[0] != DELETED ==> NameOf(e) == name
    ensures OnlySlot(d, WithEntry(d, s, e), s, name)
  {
    hide Plain, CleanTail, Live, Found, NameOf, Entry;
    var d' := WithEntry(d, s, e);
    LiveSlot(d, s, e);
    forall x: nat, m ensures x != s ==> (Found(d', m, x) <==> Found(d, m, x))
                     ensures x == s && m != name ==> !Found(d', m, x) && !Found(d, m, x)
    {
      FoundExact(d, m, x);
      FoundExact(d', m, x);
      LiveHas(d, x);
      if x != s { LiveKept(d, s, e, x); }
    }
    forall m | m != name ensures Find(d', m) == Find(d, m) { FindSame(d, d', m); }
    forall x: nat | x != s && HasSlot(d, x) ensures HasSlot(d', x) && Entry(d', x) == Entry(d, x) { LiveKept(d, s, e, x); }
  }

  /** The slot a write chooses is the name's own, or nobody's. */
  lemma ChosenLive(d: seq<byte>, name: seq<byte>, s: nat, x: nat)
    requires Plain(d) && Chosen(d, name, s) && Live(d, x)
    ensures NameOf(Entry(d, x)) == name <==> x == s
  {
    hide Entry, NameOf, PlainEntry;
    if Existing(d, name, s) {
      assert Live(d, s);
    } else {
      assert HasSlot(d, s) && HasSlot(d, x);
    }
  }

  lemma SlotWritten(d: seq<byte>, name: seq<byte>, s: nat, e: seq<byte>)
    requires Plain(d) && CleanTail(d) && Chosen(d, name, s) && IsName(name) && |e| == ENTRY && NameOf(e) == name && PlainEntry(e)
    ensures HasSlot(d, s) && Plain(WithEntry(d, s, e)) && OnlySlot(d, WithEntry(d, s, e), s, name)
    ensures if name[0] == DELETED then Find(WithEntry(d, s, e), name) == -1 else Found(WithEntry(d, s, e), name, s)
  {
    assert e[0] == name[0] && !IsVolumeId(e);
    hide Plain, CleanTail, Chosen, PlainEntry, NameOf, Entry, Live, Found, IsVolumeId;
    ChosenReach(d, name, s);
    forall x: nat | Live(d, x) ensures NameOf(Entry(d, x)) == name <==> x == s { ChosenLive(d, name, s, x); }
    StaysPlain(d, s, e);
    Rewritten(d, s, e, name);
    WrittenFound(d, name, s, e);
    if name[0] == DELETED { DeletedAbsent(WithEntry(d, s, e), name); }
  }

  lemma SlotDeleted(d: seq<byte>, name: seq<byte>, s: nat)
    requires Plain(d) && CleanTail(d) && Found(d, name, s)
    ensures HasSlot(d, s)
    ensures var d' := WithEntry(d, s, Entry(d, s)[0 := DELETED]);
            Plain(d') && OnlySlot(d, d', s, name) && Find(d', name) == -1
  {
    hide Plain, CleanTail, NameOf, Entry;
    FoundLive(d, name, s);
    var e := Entry(d, s)[0 := DELETED];
    StaysPlain(d, s, e);
    Rewritten(d, s, e, name);
    var d' := WithEntry(d, s, e);
    forall x: nat ensures !Found(d', name, x) {
      FoundExact(d', name, x);
      FoundExact(d, name, x);
      if x == s { LiveSlot(d, s, e); } else { LiveKept(d, s, e, x); }
      if Found(d, name, x) { FoundOnce(d, name, s, x); }
    }
  }

  /** A new directory: dot entries, and no name to be found. */
  lemma DotsPlain(c: u32, dotdot: u32)
    ensures Plain(DotEntries(c, dotdot)) && forall m | IsName(m) :: Find(DotEntries(c, dotdot), m) == -1
  {
    hide DotEntries, PlainEntry, NameOf, Entry, MakeEntry;
    var d := DotEntries(c, dotdot);
    DotNames(c, dotdot);
    DotMarks(c, dotdot);
    forall s: nat | HasSlot(d, s) ensures Live(d, s) ==> s < 2 && Mark(d, s) == DOT { DotSlots(d, s); }
    forall m | IsName(m) ensures Find(d, m) == -1 {
      forall s: nat ensures !Found(d, m, s) { NotDot(d, m, s); }
    }
  }

  lemma NotDot(d: seq<byte>, m: seq<byte>, s: nat)
    requires IsName(m) && (HasSlot(d, s) && Live(d, s) ==> Mark(d, s) == DOT)
    ensures !Found(d, m, s)
  {
    assert HasSlot(d, s) ==> Entry(d, s)[0] == Mark(d, s);
  }

  lemma DotNames(c: u32, dotdot: u32)
    ensures var d := DotEntries(c, dotdot);
            PlainEntry(Entry(d, 0)) && PlainEntry(Entry(d, 1)) && NameOf(Entry(d, 0)) != NameOf(Entry(d, 1))
  {
    var d := DotEntries(c, dotdot);
    hide MakeEntry;
    assert Entry(d, 0) == MakeEntry([DOT] + Blanks(10), ATTR_DIRECTORY, c, 0);
    assert Entry(d, 1) == MakeEntry([DOT, DOT] + Blanks(9), ATTR_DIRECTORY, dotdot, 0);
    assert NameOf(Entry(d, 0))[1] == SPACE && NameOf(Entry(d, 1))[1] == DOT;
  }

  // ---- paths ----

  datatype Place = Missing | Here(key: Key)

  ghost function Into(t: View, at: Place, name: seq<byte>): Place {
    if at.Here? && at.key in t.dirs && at.key in t.contents && Find(t.contents[at.key], name) >= 0
    then Here(Slot(at.key, Find(t.contents[at.key], name)))
    else Missing
  }

  /** The entry that a path of names leads to from the root. */
  ghost function Walk(t: View, path: Path): Place {
    if path == [] then Here(Root) else Into(t, Walk(t, path[..|path| - 1]), path[|path| - 1])
  }

  /** The directory that a path leads to. */
  ghost predicate PathTo(t: View, path: Path, k: Key) { Walk(t, path) == Here(k) && k in t.dirs }

  ghost function ItemAt(t: View, k: Key): Item {
    if k in t.damaged then Damaged
    else if k in t.dirs then Folder
    else if k.Slot? && k in t.contents && k.parent in t.contents && HasSlot(t.contents[k.parent], k.n)
    then File(Prefix(t.contents[k], SizeOf(Entry(t.contents[k.parent], k.n))))
    else File([])
  }

  type Files = imap<Path, Item>

  /** What the volume holds at every path. */
  ghost function FilesOf(t: View): Files {
    imap path: Path | IsPath(path) && Walk(t, path).Here? :: ItemAt(t, Walk(t, path).key)
  }

  /** `item` at `p`, in place of what was there and beneath. */
  ghost function Plant(fs: Files, p: Path, item: Item): Files {
    imap q: Path | q == p || (q in fs && !(p <= q)) :: if q == p then item else fs[q]
  }

  /** Nothing at `p`, nor beneath. */
  ghost function Cut(fs: Files, p: Path): Files { imap q: Path | q in fs && !(p <= q) :: fs[q] }

  ghost predicate Childless(fs: Files, p: Path) { forall name | IsName(name) :: p + [name] !in fs }

  lemma Last(path: Path, name: seq<byte>)
    ensures (path + [name])[..|path + [name]| - 1] == path && (path + [name])[|path + [name]| - 1] == name
    ensures IsPath(path + [name]) <==> IsPath(path) && IsName(name)
  {
    if IsPath(path + [name]) {
      forall i | 0 <= i < |path| ensures IsName(path[i]) { assert path[i] == (path + [name])[i]; }
      assert (path + [name])[|path|] == name;
    }
  }

  lemma WalkInto(t: View, path: Path, name: seq<byte>)
    ensures Walk(t, path + [name]) == Into(t, Walk(t, path), name)
  {
    Last(path, name);
  }

  lemma Extends(p: Path, q: Path)
    requires q != []
    ensures p <= q <==> p == q || p <= q[..|q| - 1]
  {
    if p <= q && p != q { assert q[..|q| - 1][..|p|] == p; }
    if p <= q[..|q| - 1] { assert q[..|p|] == p; }
  }

  /** Only one path leads to an entry. */
  lemma {:induction false} WalkOnce(t: View, p: Path, q: Path)
    requires Walk(t, p).Here? && Walk(t, p) == Walk(t, q)
    ensures p == q
  {
    hide Found;
    if p != [] && q != [] {
      WalkOnce(t, p[..|p| - 1], q[..|q| - 1]);
      var d, s := t.contents[Walk(t, p).key.parent], Walk(t, p).key.n;
      FoundLive(d, p[|p| - 1], s);
      FoundLive(d, q[|q| - 1], s);
      assert p == p[..|p| - 1] + [p[|p| - 1]];
      assert q == q[..|q| - 1] + [q[|q| - 1]];
    }
  }

  /** A path behind a file, or behind nothing, leads nowhere. */
  lemma {:induction false} DeadEnd(t: View, p: Path, q: Path)
    requires p <= q && p != q && (Walk(t, p).Here? ==> Walk(t, p).key !in t.dirs)
    ensures Walk(t, q) == Missing
  {
    var q0 := q[..|q| - 1];
    Extends(p, q);
    if p != q0 { DeadEnd(t, p, q0); }
  }

  /** Nothing lies beneath a path that leads nowhere. */
  lemma CutNothing(t: View, p: Path)
    requires Walk(t, p) == Missing
    ensures p !in FilesOf(t) && Cut(FilesOf(t), p) == FilesOf(t)
  {
    forall q | q in FilesOf(t) ensures !(p <= q) {
      if p <= q && p != q { DeadEnd(t, p, q); }
    }
  }

  // ---- one changed slot ----

  predicate AtOrBeneath(k: Key, key: Key) { k == key || Beneath(k, key) }

  /** Slot `s` of `dir`, which only `name` can be found in, is all that changes,
    * with what hangs beneath it. */
  ghost predicate Changed(t: View, t': View, dir: Key, s: nat, name: seq<byte>) {
    var key := Slot(dir, s);
    && t.dirs <= t.contents.Keys && t'.dirs <= t'.contents.Keys && dir in t.dirs && dir in t'.dirs
    && (forall k: Key | !AtOrBeneath(k, key) :: (k in t.dirs <==> k in t'.dirs) && (k in t.damaged <==> k in t'.damaged))
    && (forall k: Key | k in t.contents && k != dir && !AtOrBeneath(k, key) :: k in t'.contents && t'.contents[k] == t.contents[k])
    && OnlySlot(t.contents[dir], t'.contents[dir], s, name)
  }

  /** The paths that lead to the slot or beneath it. */
  lemma {:induction false} Reach(t: View, t': View, path: Path, dir: Key, s: nat, name: seq<byte>, q: Path)
    requires Changed(t, t', dir, s, name) && Walk(t, path) == Here(dir)
    requires Walk(t, q).Here? && AtOrBeneath(Walk(t, q).key, Slot(dir, s))
    ensures path + [name] <= q
  {
    hide Found;
    assert q != [];
    var q0, m, k := q[..|q| - 1], q[|q| - 1], Walk(t, q).key;
    assert q == q0 + [m];
    if k == Slot(dir, s) {
      WalkOnce(t, path, q0);
    } else {
      Reach(t, t', path, dir, s, name, q0);
      Extends(path + [name], q);
    }
  }

  /** Every other path leads where it led. */
  lemma {:induction false} WalkKept(t: View, t': View, path: Path, dir: Key, s: nat, name: seq<byte>, q: Path)
    requires Changed(t, t', dir, s, name) && Walk(t, path) == Here(dir) && !(path + [name] <= q)
    ensures Walk(t', q) == Walk(t, q)
    ensures Walk(t, q).Here? ==> !AtOrBeneath(Walk(t, q).key, Slot(dir, s))
  {
    if Walk(t, q).Here? && AtOrBeneath(Walk(t, q).key, Slot(dir, s)) { Reach(t, t', path, dir, s, name, q); }
    if q != [] {
      var q0, m := q[..|q| - 1], q[|q| - 1];
      assert q == q0 + [m];
      Extends(path + [name], q);
      WalkKept(t, t', path, dir, s, name, q0);
      if Walk(t, q0) == Here(dir) { WalkOnce(t, path, q0); }
    }
  }

  lemma ItemKept(t: View, t': View, dir: Key, s: nat, name: seq<byte>, k: Key)
    requires Changed(t, t', dir, s, name) && !AtOrBeneath(k, Slot(dir, s))
    requires k.Slot? ==> k in t.contents && k.parent in t.contents && HasSlot(t.contents[k.parent], k.n)
    ensures ItemAt(t', k) == ItemAt(t, k)
  {
    hide Found, SizeOf, Entry;
    if k.Slot? { BeneathSlot(dir, s, k.parent, k.n); }
  }

  /** Every slot of a directory has a chain, if only an empty one. */
  ghost predicate Rooted(t: View) {
    && t.dirs <= t.contents.Keys
    && forall k: Key, s: nat {:trigger Slot(k, s)} | k in t.dirs && HasSlot(t.contents[k], s) :: Slot(k, s) in t.contents
  }

  lemma Grounded(t: View, q: Path)
    requires Rooted(t) && Walk(t, q).Here?
    ensures var k := Walk(t, q).key;
            k.Slot? ==> k.parent in t.dirs && k.parent in t.contents && HasSlot(t.contents[k.parent], k.n) && k in t.contents
  {
    hide Found;
    if q != [] {
      var k := Walk(t, q).key;
      FoundLive(t.contents[k.parent], q[|q| - 1], k.n);
    }
  }

  lemma OthersKept(t: View, t': View, path: Path, dir: Key, s: nat, name: seq<byte>, q: Path)
    requires Rooted(t) && Changed(t, t', dir, s, name) && Walk(t, path) == Here(dir) && !(path + [name] <= q)
    ensures q in FilesOf(t') <==> q in FilesOf(t)
    ensures q in FilesOf(t) ==> FilesOf(t')[q] == FilesOf(t)[q]
  {
    hide Changed, Rooted;
    WalkKept(t, t', path, dir, s, name, q);
    if Walk(t, q).Here? {
      Grounded(t, q);
      ItemKept(t, t', dir, s, name, Walk(t, q).key);
    }
  }

  lemma PathKept(t: View, t': View, path: Path, dir: Key, s: nat, name: seq<byte>)
    requires Changed(t, t', dir, s, name) && Walk(t, path) == Here(dir)
    ensures Walk(t', path + [name]) == Into(t', Here(dir), name)
  {
    hide Changed;
    WalkKept(t, t', path, dir, s, name, path);
    WalkInto(t', path, name);
  }

  /** The slot now holds a file, a damaged folder or a folder without entries. */
  lemma Planted(t: View, t': View, path: Path, dir: Key, s: nat, name: seq<byte>)
    requires Rooted(t) && Changed(t, t', dir, s, name) && Walk(t, path) == Here(dir) && IsPath(path) && IsName(name)
    requires Found(t'.contents[dir], name, s)
    requires Slot(dir, s) in t'.dirs ==> forall m | IsName(m) :: Find(t'.contents[Slot(dir, s)], m) == -1
    ensures FilesOf(t') == Plant(FilesOf(t), path + [name], ItemAt(t', Slot(dir, s)))
  {
    hide Found, Rooted;
    var p := path + [name];
    Last(path, name);
    FindIs(t'.contents[dir], name, s);
    PathKept(t, t', path, dir, s, name);
    hide Changed, ItemAt;
    forall q ensures q in FilesOf(t') <==> q in Plant(FilesOf(t), p, ItemAt(t', Slot(dir, s)))
      ensures q in FilesOf(t') ==> FilesOf(t')[q] == Plant(FilesOf(t), p, ItemAt(t', Slot(dir, s)))[q]
    {
      if !(p <= q) {
        OthersKept(t, t', path, dir, s, name, q);
      } else if q != p && IsPath(q) {
        NothingIn(t', p, q);
      }
    }
  }

  /** Nothing lies beneath a path to no directory, or to one without entries. */
  lemma {:induction false} NothingIn(t: View, p: Path, q: Path)
    requires p <= q && p != q && IsPath(q)
    requires Walk(t, p).Here? && Walk(t, p).key in t.dirs && Walk(t, p).key in t.contents
             ==> forall m | IsName(m) :: Find(t.contents[Walk(t, p).key], m) == -1
    ensures Walk(t, q) == Missing
  {
    var q0 := q[..|q| - 1];
    Extends(p, q);
    Last(q0, q[|q| - 1]);
    assert q == q0 + [q[|q| - 1]];
    if p != q0 { NothingIn(t, p, q0); }
  }

  /** The name is no longer found. */
  lemma Uprooted(t: View, t': View, path: Path, dir: Key, s: nat, name: seq<byte>)
    requires Rooted(t) && Changed(t, t', dir, s, name) && Walk(t, path) == Here(dir)
    requires Find(t'.contents[dir], name) == -1
    ensures FilesOf(t') == Cut(FilesOf(t), path + [name])
  {
    hide Rooted;
    var p := path + [name];
    PathKept(t, t', path, dir, s, name);
    assert Walk(t', p) == Missing;
    hide Changed, ItemAt;
    forall q ensures q in FilesOf(t') <==> q in Cut(FilesOf(t), p)
      ensures q in FilesOf(t') ==> FilesOf(t')[q] == Cut(FilesOf(t), p)[q]
    {
      if !(p <= q) {
        OthersKept(t, t', path, dir, s, name, q);
      } else if q != p {
        DeadEnd(t', p, q);
      }
    }
  }
}
