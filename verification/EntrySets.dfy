/** Directory entry sets (fs/exfat/node.c): what is written for a file, and how
  * it is checked and read back. */
module EntrySets {
  import opened Bytes
  import opened Checksums
  import opened Timestamps

  const FILE: byte := 0x85
  const INFO: byte := 0xc0
  const NAME: byte := 0xc1
  const TAIL: byte := 0xe0
  const DIR: u16 := 0x10
  const ALWAYS1: byte := 1
  const CONTIGUOUS: byte := 2

  datatype Option<T> = None | Some(value: T)

  /** The clusters of the heap and their size. */
  datatype Geometry = Geometry(clusterCount: nat, clusterSize: nat)

  /** What a node knows from its entries; the name is a buffer of 256 units. */
  datatype Info = Info(attrib: u16, continuations: byte, mtime: int, atime: int,
                       validSize: nat, size: nat, start: u32, isContiguous: bool, name: seq<u16>)

  // ---- the types of the entries of a set ----

  function TypeAt(bytes: seq<byte>, i: nat): byte
    requires 32 * i < |bytes|
  {
    bytes[32 * i]
  }

  /** A file entry, an info entry, one or more name entries, and any number of
    * optional entries. */
  predicate NamesUpTo(bytes: seq<byte>, n: nat, k: nat)
    requires 32 * n <= |bytes| && k <= n
  {
    && (forall i: nat :: 2 <= i < k ==> TypeAt(bytes, i) == NAME)
    && (forall i: nat :: k <= i < n ==> TypeAt(bytes, i) >= TAIL)
  }

  ghost predicate Grammar(bytes: seq<byte>, n: nat)
    requires 32 * n <= |bytes|
  {
    n >= 3 && TypeAt(bytes, 0) == FILE && TypeAt(bytes, 1) == INFO
    && exists k: nat :: 3 <= k <= n && NamesUpTo(bytes, n, k)
  }

  /** The transitions check_entries allows; -1 stands before the first entry
    * and after the last. */
  predicate Allowed(previous: int, current: int) {
    if previous == -1 then current == FILE
    else if previous == FILE then current == INFO
    else if previous == INFO then current == NAME
    else if previous == NAME then current == NAME || current == -1 || current >= TAIL
    else previous >= TAIL && (current >= TAIL || current == -1)
  }

  ghost predicate Path(bytes: seq<byte>, n: nat, upto: nat)
    requires 32 * n <= |bytes| && upto <= n + 1
  {
    forall i: nat :: i < upto ==> Allowed(Around(bytes, n, i - 1), Around(bytes, n, i))
  }

  function Around(bytes: seq<byte>, n: nat, i: int): int
    requires 32 * n <= |bytes|
  {
    if 0 <= i < n then TypeAt(bytes, i) else -1
  }

  /** check_entries */
  method CheckEntries(bytes: seq<byte>, n: nat) returns (ok: bool)
    requires 32 * n <= |bytes|
    ensures ok == Grammar(bytes, n)
  {
    var previous, i := -1, 0;
    while i < n + 1
      invariant 0 <= i <= n + 1 && previous == Around(bytes, n, i - 1)
      invariant Path(bytes, n, i)
    {
      var current := if i < n then TypeAt(bytes, i) else -1;
      if !Allowed(previous, current) {
        if Grammar(bytes, n) { GrammarPath(bytes, n); }
        return false;
      }
      previous := current;
      i := i + 1;
    }
    PathGrammar(bytes, n);
    return true;
  }

  lemma GrammarPath(bytes: seq<byte>, n: nat)
    requires 32 * n <= |bytes| && Grammar(bytes, n)
    ensures Path(bytes, n, n + 1)
  {
    var k: nat :| 3 <= k <= n && NamesUpTo(bytes, n, k);
  }

  /** Where the name entries end. */
  lemma PathGrammar(bytes: seq<byte>, n: nat)
    requires 32 * n <= |bytes| && Path(bytes, n, n + 1)
    ensures Grammar(bytes, n)
  {
    assert Allowed(Around(bytes, n, -1), Around(bytes, n, 0));
    assert Allowed(Around(bytes, n, 0), Around(bytes, n, 1));
    assert Allowed(Around(bytes, n, 1), Around(bytes, n, 2));
    var k := PathNames(bytes, n, n);
  }

  lemma {:induction false} PathNames(bytes: seq<byte>, n: nat, m: nat) returns (k: nat)
    requires 32 * n <= |bytes| && Path(bytes, n, n + 1) && 3 <= m <= n
    requires TypeAt(bytes, 2) == NAME
    ensures 3 <= k <= m && NamesUpTo(bytes, m, k)
  {
    k := 3;
    if m > 3 {
      k := PathNames(bytes, n, m - 1);
      assert Allowed(Around(bytes, n, m - 2), Around(bytes, n, m - 1));
      if k == m - 1 && TypeAt(bytes, m - 1) == NAME { k := m; }
    }
  }

  // ---- reading a set ----

  /** Unit `j` of the name, across the name entries. */
  function UnitAt(bytes: seq<byte>, j: nat): u16
    requires 96 + 32 * (j / 15) <= |bytes|
  {
    HalfAt(bytes, 66 + 32 * (j / 15) + 2 * (j % 15))
  }

  /** init_node_name into a zeroed buffer. */
  function NameBuffer(bytes: seq<byte>, entries: nat): (name: seq<u16>)
    requires 64 + 32 * entries <= |bytes|
    ensures |name| == 256
  {
    seq(256, j requires 0 <= j < 256 => if j < 15 * entries then UnitAt(bytes, j) else 0)
  }

  function MStamp(bytes: seq<byte>): Stamp
    requires |bytes| >= 64
  {
    Stamp(HalfAt(bytes, 14), HalfAt(bytes, 12), bytes[21], bytes[23])
  }

  /** There are no centiseconds for the access time. */
  function AStamp(bytes: seq<byte>): Stamp
    requires |bytes| >= 64
  {
    Stamp(HalfAt(bytes, 18), HalfAt(bytes, 16), 0, bytes[24])
  }

  function NameEntryCount(bytes: seq<byte>): nat
    requires |bytes| >= 64
  {
    DivRoundUp(bytes[35], 15)
  }

  /** The node of a set: init_node_meta1, init_node_meta2, init_node_name. */
  function InfoOf(bytes: seq<byte>, tz: int): Info
    requires |bytes| >= 64 && 64 + 32 * NameEntryCount(bytes) <= |bytes|
  {
    Info(HalfAt(bytes, 4), bytes[1], Decoded(MStamp(bytes), tz), Decoded(AStamp(bytes), tz),
         LongAt(bytes, 40), LongAt(bytes, 56), WordAt(bytes, 52), bytes[33] / 2 % 2 == 1,
         NameBuffer(bytes, NameEntryCount(bytes)))
  }

  /** What check_node asks of a node besides its checksum. */
  predicate Sane(g: Geometry, i: Info) {
    && i.validSize <= i.size
    && (i.size == 0 ==> i.start == 0 && !i.isContiguous)
    && (i.size > 0 ==> 2 <= i.start < g.clusterCount + 2)
    && i.size <= g.clusterCount * g.clusterSize
    && (i.attrib / DIR % 2 == 1 ==> g.clusterSize > 0 && i.size % g.clusterSize == 0)
  }

  /** A whole set: as many entries as its first one announces. */
  predicate IsSet(bytes: seq<byte>) { |bytes| >= 32 && |bytes| == 32 * (1 + bytes[1] as int) }

  /** parse_file_entries */
  ghost function Parse(g: Geometry, tz: int, bytes: seq<byte>): (r: Option<Info>)
    requires IsSet(bytes)
  {
    if !Grammar(bytes, 1 + bytes[1] as int) then None
    else if bytes[1] < 2 || bytes[33] >= 4 || bytes[1] as int < 1 + NameEntryCount(bytes) then None
    else
      var info := InfoOf(bytes, tz);
      if SetAccepted(bytes) && Sane(g, info) then Some(info) else None
  }

  /** The bytes of a set as separate entries. */
  function Entries(bytes: seq<byte>): (es: seq<seq<byte>>)
    requires |bytes| % 32 == 0
  {
    seq(|bytes| / 32, i requires 0 <= i < |bytes| / 32 => bytes[32 * i..32 * i + 32])
  }

  lemma {:induction false} EntriesJoin(bytes: seq<byte>, k: nat)
    requires |bytes| % 32 == 0 && k <= |bytes| / 32
    ensures Concat(Entries(bytes)[..k]) == bytes[..32 * k]
  {
    if k > 0 {
      EntriesJoin(bytes, k - 1);
      var es := Entries(bytes);
      assert es[..k][..k - 1] == es[..k - 1];
      assert bytes[..32 * (k - 1)] + bytes[32 * (k - 1)..32 * k] == bytes[..32 * k];
    }
  }

  method ParseFileEntries(g: Geometry, tz: int, bytes: seq<byte>) returns (r: Option<Info>)
    requires IsSet(bytes)
    ensures r == Parse(g, tz, bytes)
  {
    hide Grammar, InfoOf, Sane, Digest, NameEntryCount, Concat;
    var n := 1 + bytes[1] as int;
    var ok := CheckEntries(bytes, n);
    if !ok { return None; }
    GrammarSize(bytes, n);
    if bytes[1] < 2 { return None; }
    if bytes[33] >= 4 { return None; }
    var mandatory := 2 + NameEntryCount(bytes);
    if bytes[1] as int < mandatory - 1 { return None; }
    var info := InfoOf(bytes, tz);
    var es := Entries(bytes);
    var sum := CalcChecksum(es);
    EntriesJoin(bytes, n);
    assert es[..n] == es && bytes[..32 * n] == bytes;
    if sum != HalfAt(bytes, 2) || !Sane(g, info) { return None; }
    return Some(info);
  }

  lemma GrammarSize(bytes: seq<byte>, n: nat)
    requires 32 * n <= |bytes| && Grammar(bytes, n)
    ensures n >= 3 && TypeAt(bytes, 0) == FILE
  {
  }

  // ---- writing a set ----

  /** A name in its zeroed buffer. */
  function Padded(name: seq<u16>): (buf: seq<u16>)
    requires |name| <= 255
    ensures |buf| == 256
  {
    seq(256, j requires 0 <= j < 256 => if j < |name| then name[j] else 0)
  }

  function Meta1(continuations: byte, attrib: u16, st: Stamp): (e: seq<byte>)
    ensures |e| == 32
  {
    [FILE, continuations, 0, 0] + Le16(attrib) + [0, 0]
    + Le16(st.time) + Le16(st.date) + Le16(st.time) + Le16(st.date) + Le16(st.time) + Le16(st.date)
    + [st.centisec, st.centisec, st.tzoffset, st.tzoffset, st.tzoffset] + Zeros(7)
  }

  function Meta2(nameLength: byte, hash: u16): (e: seq<byte>)
    ensures |e| == 32
  {
    [INFO, ALWAYS1, 0, nameLength] + Le16(hash) + [0, 0] + Le64(0) + Zeros(4) + ToLe32(0) + Le64(0)
  }

  /** Byte `k` of name entry `i`. */
  function NameByte(buf: seq<u16>, i: nat, k: nat): byte
    requires |buf| == 256 && i < 17 && k < 32
  {
    if k == 0 then NAME else if k == 1 then 0 else Le16(buf[15 * i + (k - 2) / 2])[(k - 2) % 2]
  }

  function NameEntries(buf: seq<u16>, n: nat): (b: seq<byte>)
    requires |buf| == 256 && n <= 17
    ensures |b| == 32 * n
  {
    seq(32 * n, p requires 0 <= p < 32 * n => NameByte(buf, p / 32, p % 32))
  }

  function WithSum(bytes: seq<byte>): (r: seq<byte>)
    requires |bytes| >= 4
    ensures |r| == |bytes| && forall i :: 0 <= i < |bytes| && i != 2 && i != 3 ==> r[i] == bytes[i]
  {
    var sum := Digest(WORD16, SetSkip, bytes);
    bytes[2 := sum % 0x100][3 := sum / 0x100]
  }

  /** Storing the checksum does not change it. */
  lemma SumStored(bytes: seq<byte>)
    requires |bytes| >= 4
    ensures SetAccepted(WithSum(bytes))
  {
    hide Digest;
    DigestAgrees(WORD16, SetSkip, bytes, WithSum(bytes));
  }

  predicate IsName(name: seq<u16>) { 1 <= |name| <= 255 && 0 !in name }

  function EntriesFor(name: seq<u16>): (n: nat)
    requires IsName(name)
    ensures 1 <= n <= 17 && |name| <= 15 * n
  {
    DivRoundUp(|name|, 15)
  }

  /** What commit_entry writes for a new file, before the checksum. */
  function NewSet(name: seq<u16>, attrib: u16, hash: u16, st: Stamp): (b: seq<byte>)
    requires IsName(name)
    ensures |b| == 64 + 32 * EntriesFor(name)
  {
    var n := EntriesFor(name);
    Meta1(1 + n, attrib, st) + Meta2(|name|, hash) + NameEntries(Padded(name), n)
  }

  lemma NewSetFields(name: seq<u16>, attrib: u16, hash: u16, st: Stamp)
    requires IsName(name)
    ensures var b := NewSet(name, attrib, hash, st);
            && b[0] == FILE && b[1] == 1 + EntriesFor(name) && HalfAt(b, 4) == attrib
            && MStamp(b) == st && AStamp(b) == st.(centisec := 0)
            && b[32] == INFO && b[33] == ALWAYS1 && b[35] == |name|
            && LongAt(b, 40) == 0 && LongAt(b, 56) == 0 && WordAt(b, 52) == 0
  {
    hide NameEntries, Padded, EntriesFor, ToLe32, FromLe32;
    var b := NewSet(name, attrib, hash, st);
    var (m, i) := (Meta1(1 + EntriesFor(name), attrib, st), Meta2(|name|, hash));
    assert b[..32] == m && b[32..64] == i;
    Meta1Fields(1 + EntriesFor(name), attrib, st);
    Meta2Fields(|name|, hash);
    hide Meta1, Meta2, NewSet;
    assert forall k :: 0 <= k < 32 ==> b[k] == m[k] && b[32 + k] == i[k];
    assert b[40..44] == i[8..12] && b[44..48] == i[12..16] && b[52..56] == i[20..24];
    assert b[56..60] == i[24..28] && b[60..64] == i[28..32];
  }

  lemma Meta1Fields(continuations: byte, attrib: u16, st: Stamp)
    ensures var m := Meta1(continuations, attrib, st);
            && m[0] == FILE && m[1] == continuations && HalfAt(m, 4) == attrib
            && HalfAt(m, 12) == st.time && HalfAt(m, 14) == st.date && HalfAt(m, 16) == st.time && HalfAt(m, 18) == st.date
            && m[21] == st.centisec && m[23] == st.tzoffset && m[24] == st.tzoffset
  {
  }

  lemma Meta2Fields(nameLength: byte, hash: u16)
    ensures var m := Meta2(nameLength, hash);
            && m[0] == INFO && m[1] == ALWAYS1 && m[3] == nameLength
            && LongAt(m, 8) == 0 && WordAt(m, 20) == 0 && LongAt(m, 24) == 0
  {
    hide ToLe32, FromLe32;
    var m := Meta2(nameLength, hash);
    assert m[8..16] == Le64(0) && m[24..32] == Le64(0) && m[20..24] == ToLe32(0);
    LongStored(m, 8, 0);
    LongStored(m, 24, 0);
  }

  /** The name entries hold the units of the buffer in order. */
  lemma NameUnits(buf: seq<u16>, n: nat, bytes: seq<byte>, j: nat)
    requires |buf| == 256 && n <= 17 && j < 15 * n && |bytes| == 64 + 32 * n && bytes[64..] == NameEntries(buf, n)
    ensures UnitAt(bytes, j) == buf[j]
  {
    var (i, r) := (j / 15, j % 15);
    var p := 2 + 32 * i + 2 * r;
    NamePosition(i, r);
    assert bytes[64 + p] == bytes[64..][p] == NameByte(buf, i, 2 + 2 * r);
    assert bytes[64 + p + 1] == bytes[64..][p + 1] == NameByte(buf, i, 3 + 2 * r);
  }

  lemma NamePosition(i: nat, r: nat)
    requires r < 15
    ensures var p := 2 + 32 * i + 2 * r;
            p / 32 == i && p % 32 == 2 + 2 * r && (p + 1) / 32 == i && (p + 1) % 32 == 3 + 2 * r
  {
  }

  lemma NewSetName(name: seq<u16>, bytes: seq<byte>)
    requires IsName(name) && |bytes| == 64 + 32 * EntriesFor(name) && bytes[64..] == NameEntries(Padded(name), EntriesFor(name))
    ensures NameBuffer(bytes, EntriesFor(name)) == Padded(name)
    ensures forall i: nat :: 2 <= i < 2 + EntriesFor(name) ==> TypeAt(bytes, i) == NAME
  {
    hide EntriesFor, UnitAt, NameEntries;
    var (n, buf) := (EntriesFor(name), Padded(name));
    forall j | 0 <= j < 256 ensures NameBuffer(bytes, n)[j] == buf[j] {
      if j < 15 * n { NameUnits(buf, n, bytes, j); }
    }
    forall i: nat | 2 <= i < 2 + n ensures TypeAt(bytes, i) == NAME { NameType(buf, n, bytes, i); }
  }

  lemma NameType(buf: seq<u16>, n: nat, bytes: seq<byte>, i: nat)
    requires |buf| == 256 && n <= 17 && |bytes| == 64 + 32 * n && bytes[64..] == NameEntries(buf, n) && 2 <= i < 2 + n
    ensures TypeAt(bytes, i) == NAME
  {
    assert bytes[32 * i] == bytes[64..][32 * (i - 2)];
    assert 32 * (i - 2) / 32 == i - 2 && 32 * (i - 2) % 32 == 0;
  }

  /** What a new file's set parses to. */
  function NewInfo(name: seq<u16>, attrib: u16, st: Stamp, tz: int): Info
    requires IsName(name)
  {
    Info(attrib, 1 + EntriesFor(name), Decoded(st, tz), Decoded(st.(centisec := 0), tz), 0, 0, 0, false, Padded(name))
  }

  /** The set written for any name of 1 to 255 units is accepted and gives back
    * the name, the attributes and an empty extent. */
  lemma CommitParses(g: Geometry, tz: int, name: seq<u16>, attrib: u16, hash: u16, st: Stamp)
    requires IsName(name) && g.clusterSize > 0
    ensures var b := WithSum(NewSet(name, attrib, hash, st));
            IsSet(b) && Parse(g, tz, b) == Some(NewInfo(name, attrib, st, tz))
  {
    hide NewSet, EntriesFor, Padded, NameBuffer, UnitAt, NameEntries, Decoded, SetAccepted, WordAt, LongAt, Sane, Grammar,
         NameEntryCount, DivRoundUp, MStamp, AStamp;
    var (r, n) := (NewSet(name, attrib, hash, st), EntriesFor(name));
    var b := WithSum(r);
    NewSetFields(name, attrib, hash, st);
    NewSetTail(name, attrib, hash, st);
    SumStored(r);
    hide WithSum;
    SameWords(r, b);
    SameStamps(r, b);
    assert b[64..] == r[64..];
    NewSetName(name, b);
    Counted(name, b);
    NewGrammar(b, n);
    NewSane(g, NewInfo(name, attrib, st, tz));
    assert HalfAt(b, 4) == attrib && b[1] == 1 + n && b[33] == ALWAYS1;
    assert InfoOf(b, tz) == NewInfo(name, attrib, st, tz);
  }

  lemma NewGrammar(b: seq<byte>, n: nat)
    requires |b| == 64 + 32 * n && n >= 1 && b[0] == FILE && b[32] == INFO
    requires forall i: nat :: 2 <= i < 2 + n ==> TypeAt(b, i) == NAME
    ensures Grammar(b, 2 + n)
  {
    assert NamesUpTo(b, 2 + n, 2 + n);
  }

  lemma NewSane(g: Geometry, i: Info)
    requires g.clusterSize > 0 && i.size == i.validSize == i.start == 0 && !i.isContiguous
    ensures Sane(g, i)
  {
  }

  lemma SameStamps(a: seq<byte>, b: seq<byte>)
    requires |a| == |b| >= 64 && forall i :: 4 <= i < |a| ==> a[i] == b[i]
    ensures MStamp(a) == MStamp(b) && AStamp(a) == AStamp(b)
  {
  }

  lemma Counted(name: seq<u16>, b: seq<byte>)
    requires IsName(name) && |b| >= 64 && b[35] == |name|
    ensures NameEntryCount(b) == EntriesFor(name)
  {
  }

  lemma NewSetTail(name: seq<u16>, attrib: u16, hash: u16, st: Stamp)
    requires IsName(name)
    ensures NewSet(name, attrib, hash, st)[64..] == NameEntries(Padded(name), EntriesFor(name))
  {
    hide NameEntries, Padded, EntriesFor;
  }

  lemma SameWords(a: seq<byte>, b: seq<byte>)
    requires |a| == |b| >= 64 && forall i :: 4 <= i < |a| ==> a[i] == b[i]
    ensures LongAt(a, 40) == LongAt(b, 40) && LongAt(a, 56) == LongAt(b, 56) && WordAt(a, 52) == WordAt(b, 52)
  {
    assert a[40..44] == b[40..44] && a[44..48] == b[44..48] && a[52..56] == b[52..56];
    assert a[56..60] == b[56..60] && a[60..64] == b[60..64];
  }

  // ---- commit_entry ----

  type Upcase = u: seq<u16> | |u| == 0x1_0000 witness seq(0x1_0000, _ => 0)

  /** The upper-case bytes of a name, low byte first. */
  function UpperBytes(upcase: Upcase, name: seq<u16>): seq<byte> {
    if name == [] then [] else UpperBytes(upcase, name[..|name| - 1]) + Le16(upcase[name[|name| - 1]])
  }

  function NameHash(upcase: Upcase, name: seq<u16>): u16 { Digest(WORD16, {}, UpperBytes(upcase, name)) }

  /** exfat_calc_name_hash */
  method CalcNameHash(upcase: Upcase, name: seq<u16>) returns (hash: u16)
    ensures hash == NameHash(upcase, name)
  {
    hash := 0;
    var i := 0;
    while i < |name|
      invariant 0 <= i <= |name| && hash == NameHash(upcase, name[..i])
    {
      var c := upcase[name[i]];
      ghost var before := UpperBytes(upcase, name[..i]);
      DigestStep(WORD16, {}, before, c % 0x100);
      DigestStep(WORD16, {}, before + [c % 0x100], c / 0x100);
      assert name[..i + 1][..i] == name[..i];
      assert before + [c % 0x100] + [c / 0x100] == UpperBytes(upcase, name[..i + 1]);
      hash := AddByte(WORD16, hash, c % 0x100);
      hash := AddByte(WORD16, hash, c / 0x100);
      i := i + 1;
    }
    assert name[..i] == name;
  }

  /** The entries commit_entry builds for a new file. */
  method BuildSet(upcase: Upcase, name: seq<u16>, attrib: u16, t: int, tz: int) returns (bytes: seq<byte>)
    requires IsName(name) && DayOf(Local(t, tz)) < 23937024
    ensures bytes == WithSum(NewSet(name, attrib, NameHash(upcase, name), Encoded(t, tz)))
  {
    hide Digest, NameHash, Meta1, Meta2, EntriesFor, DayOf, Local, Encoded, NameEntries, Padded, WithSum;
    var n := EntriesFor(name);
    var st := UnixToExfat(t, tz);
    var hash := CalcNameHash(upcase, name);
    var names := BuildNames(Padded(name), n);
    bytes := Seal(Meta1(1 + n, attrib, st) + Meta2(|name|, hash) + names);
  }

  method BuildNames(buf: seq<u16>, n: nat) returns (names: seq<byte>)
    requires |buf| == 256 && n <= 17
    ensures names == NameEntries(buf, n)
  {
    hide NameByte;
    names := [];
    var i := 0;
    assert NameEntries(buf, 0) == [];
    while i < n
      invariant 0 <= i <= n && names == NameEntries(buf, i)
    {
      NameEntryAppend(buf, i);
      names := names + seq(32, k requires 0 <= k < 32 => NameByte(buf, i, k));
      i := i + 1;
    }
  }

  /** Computes the checksum of a set and stores it. */
  method Seal(raw: seq<byte>) returns (bytes: seq<byte>)
    requires |raw| >= 32 && |raw| % 32 == 0
    ensures bytes == WithSum(raw)
  {
    hide Digest, Concat;
    var es := Entries(raw);
    var n := |raw| / 32;
    EntriesJoin(raw, n);
    assert es[..n] == es && raw[..32 * n] == raw;
    var sum := CalcChecksum(es);
    bytes := raw[2 := sum % 0x100][3 := sum / 0x100];
  }

  lemma NameEntryAppend(buf: seq<u16>, i: nat)
    requires |buf| == 256 && i < 17
    ensures NameEntries(buf, i) + seq(32, k requires 0 <= k < 32 => NameByte(buf, i, k)) == NameEntries(buf, i + 1)
  {
    hide NameByte;
    var (a, b) := (NameEntries(buf, i) + seq(32, k requires 0 <= k < 32 => NameByte(buf, i, k)), NameEntries(buf, i + 1));
    forall p | 0 <= p < 32 * (i + 1) ensures a[p] == b[p] {
      if p >= 32 * i { assert p / 32 == i && p % 32 == p - 32 * i; }
    }
  }

  // ---- exfat_flush_node ----

  /** The flags flushed for a node: an empty one is never contiguous. */
  function Flags(i: Info): byte { if i.size != 0 && i.isContiguous then ALWAYS1 + CONTIGUOUS else ALWAYS1 }

  predicate Fits64(i: Info) { i.validSize < 0x1_0000_0000_0000_0000 && i.size < 0x1_0000_0000_0000_0000 }

  /** The fields exfat_flush_node writes over those it read. */
  function Refreshed(bytes: seq<byte>, i: Info, tz: int): (r: seq<byte>)
    requires |bytes| >= 64 && Fits64(i)
    ensures |r| == |bytes|
  {
    var (m, a) := (Encoded(i.mtime, tz), Encoded(i.atime, tz));
    var b := Splice(bytes, 4, Le16(i.attrib));
    var b := Splice(b, 12, Le16(m.time) + Le16(m.date) + Le16(a.time) + Le16(a.date));
    var b := b[21 := m.centisec][23 := m.tzoffset][24 := a.tzoffset][33 := Flags(i)];
    var b := Splice(b, 40, Le64(i.validSize));
    Splice(b, 52, ToLe32(i.start) + Le64(i.size))
  }

  lemma RefreshedFields(bytes: seq<byte>, i: Info, tz: int)
    requires |bytes| >= 64 && Fits64(i)
    ensures var r := Refreshed(bytes, i, tz);
            && HalfAt(r, 4) == i.attrib && MStamp(r) == Encoded(i.mtime, tz) && AStamp(r) == Encoded(i.atime, tz).(centisec := 0)
            && r[33] == Flags(i) && LongAt(r, 40) == i.validSize && WordAt(r, 52) == i.start && LongAt(r, 56) == i.size
            && r[0] == bytes[0] && r[1] == bytes[1] && r[32] == bytes[32] && r[35] == bytes[35]
            && r[64..] == bytes[64..]
  {
    hide ToLe32, FromLe32, Encoded, Le64;
    var r := Refreshed(bytes, i, tz);
    assert r[40..48] == Le64(i.validSize) && r[52..56] == ToLe32(i.start) && r[56..64] == Le64(i.size);
    LongStored(r, 40, i.validSize);
    LongStored(r, 56, i.size);
  }

  /** What a flushed node parses to: the same, but the access time has lost its
    * odd second and an empty node is not contiguous. */
  function FlushedInfo(bytes: seq<byte>, i: Info, tz: int): Info
    requires |bytes| >= 64 && 64 + 32 * NameEntryCount(bytes) <= |bytes|
  {
    Info(i.attrib, bytes[1], Decoded(Encoded(i.mtime, tz), tz), Decoded(Encoded(i.atime, tz).(centisec := 0), tz),
         i.validSize, i.size, i.start, i.size != 0 && i.isContiguous, NameBuffer(bytes, NameEntryCount(bytes)))
  }

  /** A well-formed set of entries, whatever its fields and checksum say. */
  ghost predicate WellFormed(bytes: seq<byte>) {
    IsSet(bytes) && Grammar(bytes, 1 + bytes[1] as int) && bytes[1] as int >= 1 + NameEntryCount(bytes)
  }

  lemma SameGrammar(a: seq<byte>, b: seq<byte>, n: nat)
    requires |a| == |b| && 32 * n <= |a| && Grammar(a, n)
    requires forall i: nat :: i < n ==> TypeAt(a, i) == TypeAt(b, i)
    ensures Grammar(b, n)
  {
    var k: nat :| 3 <= k <= n && NamesUpTo(a, n, k);
    assert NamesUpTo(b, n, k);
  }

  lemma SameName(a: seq<byte>, b: seq<byte>, n: nat)
    requires |a| == |b| && 64 + 32 * n <= |a| && a[64..] == b[64..]
    ensures NameBuffer(a, n) == NameBuffer(b, n)
  {
    assert forall i :: 64 <= i < |a| ==> a[i] == a[64..][i - 64] && b[i] == b[64..][i - 64];
  }

  /** After exfat_flush_node, a node that meets check_node's conditions parses
    * back to the same sizes, start cluster, name and (unless empty) form. */
  lemma FlushParses(g: Geometry, tz: int, bytes: seq<byte>, i: Info)
    requires WellFormed(bytes) && Fits64(i) && Sane(g, i.(isContiguous := i.size != 0 && i.isContiguous))
    ensures var b := WithSum(Refreshed(bytes, i, tz));
            IsSet(b) && Parse(g, tz, b) == Some(FlushedInfo(bytes, i, tz))
  {
    hide Grammar, NameBuffer, UnitAt, Refreshed, Encoded, Decoded, WordAt, LongAt, SetAccepted, Digest, Sane, NameEntryCount;
    var (r, n) := (Refreshed(bytes, i, tz), 1 + bytes[1] as int);
    var b := WithSum(r);
    RefreshedFields(bytes, i, tz);
    SumStored(r);
    hide WithSum;
    SameWords(r, b);
    assert b[64..] == r[64..];
    SameTypes(bytes, b, n);
    SameGrammar(bytes, b, n);
    SameName(bytes, b, NameEntryCount(bytes));
    assert b[1] == bytes[1] && b[33] == Flags(i) && b[35] == bytes[35] && HalfAt(b, 4) == i.attrib;
    assert MStamp(b) == MStamp(r) && AStamp(b) == AStamp(r);
    GrammarSize(bytes, n);
    SameCount(bytes, b);
    var info := FlushedInfo(bytes, i, tz);
    SameSane(g, i.(isContiguous := i.size != 0 && i.isContiguous), info);
    assert InfoOf(b, tz) == info;
  }

  lemma SameSane(g: Geometry, a: Info, b: Info)
    requires Sane(g, a) && a.attrib == b.attrib && a.validSize == b.validSize && a.size == b.size && a.start == b.start
    requires a.isContiguous == b.isContiguous
    ensures Sane(g, b)
  {
  }

  lemma SameCount(a: seq<byte>, b: seq<byte>)
    requires |a| == |b| >= 64 && a[35] == b[35]
    ensures NameEntryCount(a) == NameEntryCount(b)
  {
  }

  lemma SameTypes(a: seq<byte>, b: seq<byte>, n: nat)
    requires |a| == |b| == 32 * n && n >= 2 && a[64..] == b[64..] && a[0] == b[0] && a[32] == b[32]
    ensures forall i: nat :: i < n ==> TypeAt(a, i) == TypeAt(b, i)
  {
    forall i: nat | i < n ensures TypeAt(a, i) == TypeAt(b, i) {
      if i >= 2 { assert a[32 * i] == a[64..][32 * i - 64] && b[32 * i] == b[64..][32 * i - 64]; }
    }
  }

  /** The times come back too: the modification time exactly, the access time
    * without its odd second. */
  lemma FlushTimes(t: int, tz: int)
    requires InRange(t, tz) && Storable(tz)
    ensures Decoded(Encoded(t, tz), tz) == t
    ensures Decoded(Encoded(t, tz).(centisec := 0), tz) == t - Local(t, tz) % 2
  {
    hide Storable, Zone, DayNumber, Calendar;
    RoundTrip(t, tz);
    var s := Encoded(t, tz);
    var z := s.(centisec := 0);
    ClockFacts(Local(t, tz));
    EncodedGood(t, tz);
    assert DateOf(s) == DateOf(z) && TimeOf(z) == TimeOf(s).(odd := 0);
  }

  lemma EncodedGood(t: int, tz: int)
    ensures !BadStamp(Encoded(t, tz)) && TimeOf(Encoded(t, tz)).odd == Local(t, tz) % 2
  {
    hide Calendar, DateCode, TimeCode, ZoneByte, Local;
    var n := Local(t, tz);
    ClockFacts(n);
    TimeCodeFields(ClockOf(n));
    DateCodeFields(Calendar(DayOf(n)));
  }

  /** exfat_flush_node, on the entries it has read. */
  method Refresh(bytes: seq<byte>, i: Info, tz: int) returns (b: seq<byte>)
    requires |bytes| >= 64 && |bytes| % 32 == 0 && Fits64(i)
    requires DayOf(Local(i.mtime, tz)) < 23937024 && DayOf(Local(i.atime, tz)) < 23937024
    ensures b == WithSum(Refreshed(bytes, i, tz))
  {
    hide Encoded, DayOf, Local, Le64, ToLe32, Digest, Le16, WithSum;
    b := Splice(bytes, 4, Le16(i.attrib));
    var m := UnixToExfat(i.mtime, tz);
    var a := UnixToExfat(i.atime, tz);
    b := Splice(b, 12, Le16(m.time) + Le16(m.date) + Le16(a.time) + Le16(a.date));
    b := b[21 := m.centisec][23 := m.tzoffset][24 := a.tzoffset];
    var flags := ALWAYS1;
    if i.size != 0 && i.isContiguous { flags := flags + CONTIGUOUS; }
    b := b[33 := flags];
    b := Splice(b, 40, Le64(i.validSize));
    b := Splice(b, 52, ToLe32(i.start) + Le64(i.size));
    assert b == Refreshed(bytes, i, tz);
    b := Seal(b);
  }

  // ---- rename_entry ----

  /** The first two entries of a set with the fields of a new name. */
  function Reheaded(head: seq<byte>, name: seq<u16>, hash: u16): (r: seq<byte>)
    requires |head| == 64 && IsName(name)
    ensures |r| == 64
  {
    Splice(head[1 := 1 + EntriesFor(name)][35 := |name|], 36, Le16(hash))
  }

  /** A set under a new name, before the checksum. */
  function RenamedSet(head: seq<byte>, name: seq<u16>, hash: u16): (b: seq<byte>)
    requires |head| == 64 && IsName(name)
    ensures |b| == 64 + 32 * EntriesFor(name)
  {
    Reheaded(head, name, hash) + NameEntries(Padded(name), EntriesFor(name))
  }

  /** The same node under another name. */
  function Retitled(info: Info, name: seq<u16>): Info
    requires IsName(name)
  {
    info.(continuations := 1 + EntriesFor(name), name := Padded(name))
  }

  lemma RenamedFields(head: seq<byte>, name: seq<u16>, hash: u16)
    requires |head| == 64 && IsName(name)
    ensures var b := RenamedSet(head, name, hash);
            && b[0] == head[0] && b[1] == 1 + EntriesFor(name) && b[32] == head[32] && b[33] == head[33] && b[35] == |name|
            && (forall i :: 4 <= i < 32 ==> b[i] == head[i]) && (forall i :: 40 <= i < 64 ==> b[i] == head[i])
            && b[64..] == NameEntries(Padded(name), EntriesFor(name))
  {
    hide NameEntries, Padded, EntriesFor;
  }

  /** The node a set parses to, read from its first two entries. */
  lemma SameNode(a: seq<byte>, b: seq<byte>, tz: int)
    requires |a| >= 64 && |b| >= 64 && a[33] == b[33]
    requires (forall i :: 4 <= i < 32 ==> a[i] == b[i]) && (forall i :: 40 <= i < 64 ==> a[i] == b[i])
    requires 64 + 32 * NameEntryCount(a) <= |a| && 64 + 32 * NameEntryCount(b) <= |b|
    ensures InfoOf(b, tz) == InfoOf(a, tz).(continuations := b[1], name := NameBuffer(b, NameEntryCount(b)))
  {
    hide NameBuffer, Decoded, FromLe32, NameEntryCount;
    assert MStamp(a) == MStamp(b) && AStamp(a) == AStamp(b);
    assert a[40..44] == b[40..44] && a[44..48] == b[44..48] && a[52..56] == b[52..56];
    assert a[56..60] == b[56..60] && a[60..64] == b[60..64];
  }

  /** A set that parses still parses under any new name, to the same node. */
  lemma RenameParses(g: Geometry, tz: int, bytes: seq<byte>, info: Info, name: seq<u16>, hash: u16)
    requires IsSet(bytes) && |bytes| >= 64 && Parse(g, tz, bytes) == Some(info) && IsName(name)
    ensures var b := WithSum(RenamedSet(bytes[..64], name, hash));
            IsSet(b) && Parse(g, tz, b) == Some(Retitled(info, name))
  {
    hide RenamedSet, EntriesFor, Padded, NameBuffer, UnitAt, NameEntries, SetAccepted, InfoOf, Sane, Grammar, NameEntryCount, DivRoundUp;
    var (r, n) := (RenamedSet(bytes[..64], name, hash), EntriesFor(name));
    var b := WithSum(r);
    RenamedFields(bytes[..64], name, hash);
    SumStored(r);
    hide WithSum;
    GrammarHead(bytes, 1 + bytes[1] as int);
    assert b[64..] == r[64..];
    NewSetName(name, b);
    Counted(name, b);
    NewGrammar(b, n);
    SameNode(bytes, b, tz);
    SameSane(g, info, InfoOf(b, tz));
  }

  lemma GrammarHead(bytes: seq<byte>, n: nat)
    requires 32 * n <= |bytes| && Grammar(bytes, n)
    ensures n >= 3 && bytes[0] == FILE && bytes[32] == INFO
  {
    assert TypeAt(bytes, 0) == bytes[0] && TypeAt(bytes, 1) == bytes[32];
  }

  /** The entries rename_entry builds from the first two of the old set. */
  method Retitle(head: seq<byte>, upcase: Upcase, name: seq<u16>) returns (bytes: seq<byte>)
    requires |head| == 64 && IsName(name)
    ensures bytes == WithSum(RenamedSet(head, name, NameHash(upcase, name)))
  {
    hide NameHash, EntriesFor, NameEntries, Padded, WithSum;
    var n := EntriesFor(name);
    var hash := CalcNameHash(upcase, name);
    var two := Splice(head[1 := 1 + n][35 := |name|], 36, Le16(hash));
    var names := BuildNames(Padded(name), n);
    bytes := Seal(two + names);
  }
}
