/** The bytes of an exFAT entry set, field by field, as struct exfat_entry_meta1,
  * exfat_entry_meta2 and exfat_entry_name of fs/exfat/exfatfs.h lay them out. */
module EntryLayouts {
  import opened Bytes
  import opened Checksums
  import opened Timestamps
  import opened EntrySets

  // ---- what is written ----

  lemma Meta1Layout(continuations: byte, attrib: u16, st: Stamp)
    ensures var m := Meta1(continuations, attrib, st);
            && m[0] == 0x85 && m[1] == continuations && HalfAt(m, 4) == attrib && HalfAt(m, 6) == 0
            && HalfAt(m, 8) == HalfAt(m, 12) == HalfAt(m, 16) == st.time
            && HalfAt(m, 10) == HalfAt(m, 14) == HalfAt(m, 18) == st.date
            && m[20] == m[21] == st.centisec && m[22] == m[23] == m[24] == st.tzoffset
            && forall i | 25 <= i < 32 :: m[i] == 0
  {
  }

  lemma Meta2Layout(nameLength: byte, hash: u16)
    ensures var m := Meta2(nameLength, hash);
            && m[0] == 0xc0 && m[1] == 1 && m[2] == 0 && m[3] == nameLength && HalfAt(m, 4) == hash
            && forall i | 6 <= i < 32 :: m[i] == 0
  {
    assert ToLe32(0) == [0, 0, 0, 0];
    assert Le64(0) == [0, 0, 0, 0, 0, 0, 0, 0];
  }

  /** A new file's set: the same time three times, a single flag, the name's length
    * and hash, an empty extent, and the name in entries of fifteen units. */
  lemma NewLayout(name: seq<u16>, attrib: u16, hash: u16, st: Stamp)
    requires IsName(name)
    ensures var b := WithSum(NewSet(name, attrib, hash, st));
            && |b| == 64 + 32 * DivRoundUp(|name|, 15)
            && b[0] == 0x85 && b[1] == 1 + DivRoundUp(|name|, 15) && HalfAt(b, 2) == Digest(WORD16, {2, 3}, b)
            && HalfAt(b, 4) == attrib
            && HalfAt(b, 8) == HalfAt(b, 12) == HalfAt(b, 16) == st.time
            && HalfAt(b, 10) == HalfAt(b, 14) == HalfAt(b, 18) == st.date
            && b[20] == b[21] == st.centisec && b[22] == b[23] == b[24] == st.tzoffset
            && b[32] == 0xc0 && b[33] == 1 && b[35] == |name| && HalfAt(b, 36) == hash
            && (forall i | 38 <= i < 64 :: b[i] == 0)
  {
    hide NameEntries, Padded, Digest;
    var r := NewSet(name, attrib, hash, st);
    var (m, i, n) := (Meta1(1 + EntriesFor(name), attrib, st), Meta2(|name|, hash), EntriesFor(name));
    Meta1Layout(1 + n, attrib, st);
    Meta2Layout(|name|, hash);
    SumStored(r);
    hide Meta1, Meta2;
    var b := WithSum(r);
    assert forall k | 4 <= k < 32 :: b[k] == r[k] == m[k];
    assert forall k | 32 <= k < 64 :: b[k] == r[k] == i[k - 32];
    assert b[0] == r[0] == m[0] && b[1] == r[1] == m[1];
  }

  /** Unit `j` of the name stands in name entry `j / 15`, behind its two header
    * bytes, low byte first; what the name does not fill is zero. */
  lemma NewNameLayout(name: seq<u16>, attrib: u16, hash: u16, st: Stamp, j: nat)
    requires IsName(name) && j < 15 * DivRoundUp(|name|, 15)
    ensures var (b, p) := (WithSum(NewSet(name, attrib, hash, st)), 64 + 32 * (j / 15));
            && p + 32 <= |b| && b[p] == 0xc1 && b[p + 1] == 0
            && HalfAt(b, p + 2 + 2 * (j % 15)) == if j < |name| then name[j] else 0
  {
    hide NameEntries, Meta1, Meta2, WithSum;
    var (n, r) := (EntriesFor(name), NewSet(name, attrib, hash, st));
    var b := WithSum(r);
    NewSetTail(name, attrib, hash, st);
    assert b[64..] == r[64..] == NameEntries(Padded(name), n);
    hide NewSet;
    NameUnits(Padded(name), n, b, j);
    NameType(Padded(name), n, b, 2 + j / 15);
    NameHeader(Padded(name), n, b, j / 15);
  }

  lemma NameHeader(buf: seq<u16>, n: nat, bytes: seq<byte>, i: nat)
    requires |buf| == 256 && n <= 17 && |bytes| == 64 + 32 * n && bytes[64..] == NameEntries(buf, n) && i < n
    ensures bytes[64 + 32 * i + 1] == 0
  {
    assert bytes[64 + 32 * i + 1] == bytes[64..][32 * i + 1];
    assert (32 * i + 1) / 32 == i && (32 * i + 1) % 32 == 1;
  }

  // ---- what is read ----

  /** The fields a parsed node was read from. */
  lemma ParsedLayout(g: Geometry, tz: int, bytes: seq<byte>, info: Info)
    requires IsSet(bytes) && Parse(g, tz, bytes) == Some(info)
    ensures |bytes| >= 96 && bytes[0] == 0x85 && bytes[32] == 0xc0 && bytes[64] == 0xc1
    ensures HalfAt(bytes, 2) == Digest(WORD16, {2, 3}, bytes)
    ensures info.attrib == HalfAt(bytes, 4) && info.continuations == bytes[1]
    ensures info.mtime == Decoded(Stamp(HalfAt(bytes, 14), HalfAt(bytes, 12), bytes[21], bytes[23]), tz)
    ensures info.atime == Decoded(Stamp(HalfAt(bytes, 18), HalfAt(bytes, 16), 0, bytes[24]), tz)
    ensures bytes[33] < 4 && info.isContiguous == (bytes[33] >= 2)
    ensures info.validSize == WordAt(bytes, 40) as int + 0x1_0000_0000 * WordAt(bytes, 44) as int
    ensures info.start == WordAt(bytes, 52)
    ensures info.size == WordAt(bytes, 56) as int + 0x1_0000_0000 * WordAt(bytes, 60) as int
    ensures forall i: nat | 2 <= i < |bytes| / 32 :: TypeAt(bytes, i) == 0xc1 || TypeAt(bytes, i) >= 0xe0
    ensures info.validSize <= info.size && (info.size == 0 ==> info.start == 0) && (info.size > 0 ==> 2 <= info.start < g.clusterCount + 2)
    ensures info.attrib / 16 % 2 == 1 ==> g.clusterSize > 0 && info.size % g.clusterSize == 0
  {
    hide Decoded, WordAt, Digest, NameBuffer, UnitAt;
    var n := 1 + bytes[1] as int;
    var k: nat :| 3 <= k <= n && NamesUpTo(bytes, n, k);
    assert TypeAt(bytes, 2) == NAME;
  }

  /** What lies behind an entry of a set may follow it. */
  predicate InOrder(bytes: seq<byte>, i: nat)
    requires 32 * i + 32 < |bytes|
  {
    bytes[32 * i + 32] >= 0xe0 || (bytes[32 * i] == 0xc1 && bytes[32 * i + 32] == 0xc1)
  }

  /** The sets that parse, by their bytes. */
  lemma ParseExact(g: Geometry, tz: int, bytes: seq<byte>)
    requires IsSet(bytes)
    ensures Parse(g, tz, bytes).Some? <==>
              && |bytes| >= 96 && bytes[0] == 0x85 && bytes[32] == 0xc0 && bytes[64] == 0xc1
              && (forall i: nat | 2 <= i < |bytes| / 32 - 1 :: InOrder(bytes, i))
              && bytes[33] < 4 && 32 * (2 + DivRoundUp(bytes[35], 15)) <= |bytes|
              && HalfAt(bytes, 2) == Digest(WORD16, {2, 3}, bytes)
              && var (valid, start, size) := (LongAt(bytes, 40), WordAt(bytes, 52), LongAt(bytes, 56));
                 && valid <= size <= g.clusterCount * g.clusterSize
                 && (if size == 0 then start == 0 && bytes[33] < 2 else 2 <= start < g.clusterCount + 2)
                 && (HalfAt(bytes, 4) / 16 % 2 == 1 ==> g.clusterSize > 0 && size % g.clusterSize == 0)
  {
    hide Decoded, WordAt, LongAt, Digest, NameBuffer;
    GrammarOrder(bytes, 1 + bytes[1] as int);
  }

  lemma GrammarOrder(bytes: seq<byte>, n: nat)
    requires |bytes| == 32 * n
    ensures Grammar(bytes, n) <==>
              && n >= 3 && bytes[0] == 0x85 && bytes[32] == 0xc0 && bytes[64] == 0xc1
              && forall i: nat | 2 <= i < n - 1 :: InOrder(bytes, i)
  {
    if Grammar(bytes, n) {
      var k: nat :| 3 <= k <= n && NamesUpTo(bytes, n, k);
      assert TypeAt(bytes, 2) == NAME;
      forall i: nat | 2 <= i < n - 1
        ensures InOrder(bytes, i)
      {
        assert TypeAt(bytes, i) == bytes[32 * i] && TypeAt(bytes, i + 1) == bytes[32 * i + 32];
      }
    }
    if n >= 3 && bytes[64] == 0xc1 && forall i: nat | 2 <= i < n - 1 :: InOrder(bytes, i) {
      var k := NamesEnd(bytes, n, n);
      assert bytes[..32 * n] == bytes;
    }
  }

  /** Where the name entries among the first `m` end. */
  lemma {:induction false} NamesEnd(bytes: seq<byte>, n: nat, m: nat) returns (k: nat)
    requires |bytes| == 32 * n && 3 <= m <= n && bytes[64] == 0xc1
    requires forall i: nat | 2 <= i < n - 1 :: InOrder(bytes, i)
    ensures 3 <= k <= m && NamesUpTo(bytes[..32 * m], m, k)
  {
    if m == 3 {
      return 3;
    }
    k := NamesEnd(bytes, n, m - 1);
    assert InOrder(bytes, m - 2);
    var (a, b) := (bytes[..32 * (m - 1)], bytes[..32 * m]);
    assert forall i: nat | i < m - 1 :: TypeAt(a, i) == TypeAt(b, i);
    assert TypeAt(b, m - 1) == bytes[32 * (m - 2) + 32] && TypeAt(b, m - 2) == bytes[32 * (m - 2)];
    if k == m - 1 && bytes[32 * (m - 1)] == 0xc1 { k := m; }
  }

  /** Unit `j` of a parsed name. */
  lemma ParsedName(g: Geometry, tz: int, bytes: seq<byte>, info: Info, j: nat)
    requires IsSet(bytes) && Parse(g, tz, bytes) == Some(info) && j < 256
    ensures |bytes| >= 64 && |info.name| == 256
    ensures if j / 15 < DivRoundUp(bytes[35], 15)
            then 96 + 32 * (j / 15) <= |bytes| && info.name[j] == HalfAt(bytes, 66 + 32 * (j / 15) + 2 * (j % 15))
            else info.name[j] == 0
  {
    hide Decoded, WordAt, LongAt, Digest, Sane, Grammar;
  }

  // ---- what a flush and a rename leave alone ----

  predicate Flushes(i: nat) { 4 <= i < 6 || 12 <= i < 20 || i in {21, 23, 24, 33} || 40 <= i < 48 || 52 <= i < 64 }

  /** Outside those fields a flush changes the checksum only: the creation time,
    * the name and its hash stay. */
  lemma FlushSpares(bytes: seq<byte>, i: Info, tz: int, k: nat)
    requires |bytes| >= 64 && Fits64(i) && k < |bytes| && !Flushes(k) && k != 2 && k != 3
    ensures WithSum(Refreshed(bytes, i, tz))[k] == bytes[k]
  {
    hide Encoded, Le64, ToLe32, Digest;
  }

  /** A rename writes the number of entries, the name's length and hash, and the
    * checksum; the rest of the first two entries stays. */
  lemma RenameSpares(head: seq<byte>, name: seq<u16>, hash: u16, k: nat)
    requires |head| == 64 && IsName(name)
    ensures var b := WithSum(RenamedSet(head, name, hash));
            && |b| == 64 + 32 * DivRoundUp(|name|, 15)
            && b[1] == 1 + DivRoundUp(|name|, 15) && b[35] == |name| && HalfAt(b, 36) == hash
            && (k < 64 && k !in {1, 2, 3, 35, 36, 37} ==> b[k] == head[k])
  {
    hide NameEntries, Padded, Digest;
  }

  // ---- the hash of a name ----

  /** One more unit adds its upper-case form, low byte first. */
  lemma HashStep(upcase: Upcase, name: seq<u16>, c: u16)
    ensures NameHash(upcase, []) == 0
    ensures NameHash(upcase, name + [c]) == AddByte(WORD16, AddByte(WORD16, NameHash(upcase, name), upcase[c] % 0x100), upcase[c] / 0x100)
  {
    assert (name + [c])[..|name|] == name;
    var (before, u) := (UpperBytes(upcase, name), upcase[c]);
    DigestStep(WORD16, {}, before, u % 0x100);
    DigestStep(WORD16, {}, before + [u % 0x100], u / 0x100);
    assert UpperBytes(upcase, name + [c]) == before + [u % 0x100] + [u / 0x100];
  }

  /** Names that differ in case only have the same hash. */
  lemma {:induction false} SameHash(upcase: Upcase, a: seq<u16>, b: seq<u16>)
    requires |a| == |b| && forall i | 0 <= i < |a| :: upcase[a[i]] == upcase[b[i]]
    ensures NameHash(upcase, a) == NameHash(upcase, b)
  {
    hide NameHash;
    if a == [] {
      assert a == b;
    } else {
      var n := |a| - 1;
      SameHash(upcase, a[..n], b[..n]);
      HashStep(upcase, a[..n], a[n]);
      HashStep(upcase, b[..n], b[n]);
      assert a[..n] + [a[n]] == a && b[..n] + [b[n]] == b;
    }
  }
}
