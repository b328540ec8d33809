/** The rotating checksums of fs/exfat/utils.c: 16 bits over an entry set,
  * 32 bits over the boot region. Both skip the bytes that may change. */
module Checksums {
  import opened Bytes

  const WORD16: nat := 0x1_0000
  const WORD32: nat := 0x1_0000_0000

  /** One bit right, the low bit to the top of a word of `m` values. */
  function Rotated(m: nat, sum: nat): (r: nat)
    requires m % 2 == 0 && sum < m
    ensures r < m
  {
    sum % 2 * (m / 2) + sum / 2
  }

  /** add_checksum_byte, for either width. */
  function AddByte(m: nat, sum: nat, b: byte): (r: nat)
    requires m % 2 == 0 && sum < m
    ensures r < m
  {
    (Rotated(m, sum) + b) % m
  }

  /** The checksum of `bytes`, leaving out the positions in `skip`. */
  function Digest(m: nat, skip: set<nat>, bytes: seq<byte>): (r: nat)
    requires m % 2 == 0 && m > 0
    ensures r < m
  {
    if bytes == [] then 0
    else
      var n := |bytes| - 1;
      var before := Digest(m, skip, bytes[..n]);
      if n in skip then before else AddByte(m, before, bytes[n])
  }

  lemma RotatedInjective(m: nat, a: nat, b: nat)
    requires m % 2 == 0 && a < m && b < m && Rotated(m, a) == Rotated(m, b)
    ensures a == b
  {
    var h := m / 2;
    assert a / 2 < h && b / 2 < h;
    assert a % 2 == 0 || a % 2 == 1;
    assert b % 2 == 0 || b % 2 == 1;
  }

  lemma AddByteInjective(m: nat, a: nat, x: byte, b: nat, y: byte)
    requires m % 2 == 0 && m >= 0x100 && a < m && b < m
    requires (a == b) != (x == y)
    ensures AddByte(m, a, x) != AddByte(m, b, y)
  {
    var (r, s) := (Rotated(m, a), Rotated(m, b));
    if x == y { if r == s { RotatedInjective(m, a, b); } }
    Wrapped(m, r + x);
    Wrapped(m, s + y);
  }

  lemma Wrapped(m: nat, v: nat)
    requires 0 < m && v < 2 * m
    ensures v % m == if v < m then v else v - m
  {
    if v >= m { DivModUnique(1, v - m, m); }
  }

  predicate DifferAt(a: seq<byte>, b: seq<byte>, i: nat) {
    |a| == |b| && i < |a| && a[i] != b[i] && forall j :: 0 <= j < |a| && j != i ==> a[j] == b[j]
  }

  /** Changing a single byte changes the checksum exactly when the byte is not
    * one of the skipped ones. */
  lemma {:induction false} SingleByte(m: nat, skip: set<nat>, a: seq<byte>, b: seq<byte>, i: nat)
    requires m % 2 == 0 && m >= 0x100 && DifferAt(a, b, i)
    ensures Digest(m, skip, a) == Digest(m, skip, b) <==> i in skip
  {
    var n := |a| - 1;
    if i == n {
      assert a[..n] == b[..n];
      AddByteInjectiveSame(m, Digest(m, skip, a[..n]), a[n], b[n]);
    } else {
      SingleByte(m, skip, a[..n], b[..n], i);
      var (d, e) := (Digest(m, skip, a[..n]), Digest(m, skip, b[..n]));
      if d != e { AddByteInjective(m, d, a[n], e, b[n]); }
    }
  }

  lemma AddByteInjectiveSame(m: nat, d: nat, x: byte, y: byte)
    requires m % 2 == 0 && m >= 0x100 && d < m && x != y
    ensures AddByte(m, d, x) != AddByte(m, d, y)
  {
    AddByteInjective(m, d, x, d, y);
  }

  /** Only the bytes outside `skip` matter. */
  lemma {:induction false} DigestAgrees(m: nat, skip: set<nat>, a: seq<byte>, b: seq<byte>)
    requires m % 2 == 0 && m > 0 && |a| == |b|
    requires forall i :: 0 <= i < |a| && i !in skip ==> a[i] == b[i]
    ensures Digest(m, skip, a) == Digest(m, skip, b)
  {
    if a != [] {
      var n := |a| - 1;
      DigestAgrees(m, skip, a[..n], b[..n]);
    }
  }

  // ---- the source's loops ----

  const SetSkip: set<nat> := {2, 3}
  const BootSkip: set<nat> := {0x6a, 0x6b, 0x70}
  const ENTRY: nat := 32

  /** exfat_calc_checksum over the bytes of an entry set: the first entry
    * without its checksum field, then the others whole. */
  method CalcChecksum(entries: seq<seq<byte>>) returns (sum: u16)
    requires |entries| > 0 && forall k :: 0 <= k < |entries| ==> |entries[k]| == ENTRY
    ensures sum == Digest(WORD16, SetSkip, Concat(entries))
  {
    ghost var whole: seq<byte> := [];
    sum := 0;
    var k := 0;
    while k < |entries|
      invariant 0 <= k <= |entries| && whole == Concat(entries[..k]) && |whole| == ENTRY * k
      invariant sum == Digest(WORD16, SetSkip, whole)
    {
      sum := AddEntry(whole, k == 0, entries[k], sum);
      assert entries[..k + 1][..k] == entries[..k];
      whole := whole + entries[k];
      k := k + 1;
    }
    assert entries[..k] == entries;
  }

  function Concat(parts: seq<seq<byte>>): seq<byte> {
    if parts == [] then [] else Concat(parts[..|parts| - 1]) + parts[|parts| - 1]
  }

  lemma DigestStep(m: nat, skip: set<nat>, bytes: seq<byte>, b: byte)
    requires m % 2 == 0 && m > 0
    ensures Digest(m, skip, bytes + [b])
         == if |bytes| in skip then Digest(m, skip, bytes) else AddByte(m, Digest(m, skip, bytes), b)
  {
    assert (bytes + [b])[..|bytes|] == bytes;
  }

  /** exfat_start_checksum when nothing came before, exfat_add_checksum after. */
  method AddEntry(ghost before: seq<byte>, first: bool, entry: seq<byte>, start: u16) returns (sum: u16)
    requires if first then before == [] else |before| >= ENTRY
    requires start == Digest(WORD16, SetSkip, before)
    ensures sum == Digest(WORD16, SetSkip, before + entry)
  {
    sum := start;
    var i := 0;
    assert before + entry[..0] == before;
    while i < |entry|
      invariant 0 <= i <= |entry|
      invariant sum == Digest(WORD16, SetSkip, before + entry[..i])
    {
      DigestStep(WORD16, SetSkip, before + entry[..i], entry[i]);
      assert before + entry[..i + 1] == before + entry[..i] + [entry[i]];
      if !first || (i != 2 && i != 3) {
        sum := AddByte(WORD16, sum, entry[i]);
      }
      i := i + 1;
    }
    assert entry[..i] == entry;
  }

  /** exfat_vbr_start_checksum for the first sector, exfat_vbr_add_checksum for
    * the later ones. */
  method AddSector(ghost before: seq<byte>, first: bool, sector: seq<byte>, start: u32) returns (sum: u32)
    requires if first then before == [] else |before| > 0x70
    requires start == Digest(WORD32, BootSkip, before)
    ensures sum == Digest(WORD32, BootSkip, before + sector)
  {
    sum := start;
    var i := 0;
    assert before + sector[..0] == before;
    while i < |sector|
      invariant 0 <= i <= |sector|
      invariant sum == Digest(WORD32, BootSkip, before + sector[..i])
    {
      DigestStep(WORD32, BootSkip, before + sector[..i], sector[i]);
      assert before + sector[..i + 1] == before + sector[..i] + [sector[i]];
      if !first || (i != 0x6a && i != 0x6b && i != 0x70) {
        sum := AddByte(WORD32, sum, sector[i]);
      }
      i := i + 1;
    }
    assert sector[..i] == sector;
  }

  // ---- what a sum is ----

  /** One step with a zero byte halves the sum, an odd one plus all the bits; and
    * a byte is added on top. */
  lemma AddByteHalves(m: nat, sum: nat, b: byte)
    requires m % 2 == 0 && sum < m
    ensures 2 * AddByte(m, sum, 0) == if sum % 2 == 0 then sum else sum + m - 1
    ensures AddByte(m, sum, b) == (AddByte(m, sum, 0) + b) % m
  {
    Wrapped(m, Rotated(m, sum));
  }

  function TwoTo(k: nat): nat { if k == 0 then 1 else 2 * TwoTo(k - 1) }

  /** What came before counts for less the further it lies from the end: behind
    * `k` zero bytes a sum stands for 2^k times itself, up to multiples of the
    * word with all bits set. */
  lemma {:induction false} TrailingZeros(m: nat, bytes: seq<byte>, k: nat) returns (q: nat)
    requires m % 2 == 0 && m > 0
    ensures TwoTo(k) * Digest(m, {}, bytes + Zeros(k)) == Digest(m, {}, bytes) + q * (m - 1)
  {
    if k == 0 {
      assert bytes + Zeros(0) == bytes;
      return 0;
    }
    var p := TrailingZeros(m, bytes, k - 1);
    var d := Digest(m, {}, bytes + Zeros(k - 1));
    assert bytes + Zeros(k) == bytes + Zeros(k - 1) + [0];
    DigestStep(m, {}, bytes + Zeros(k - 1), 0);
    AddByteHalves(m, d, 0);
    q := if d % 2 == 0 then p else p + TwoTo(k - 1);
    Doubled(TwoTo(k - 1), AddByte(m, d, 0), d, m - 1, p, Digest(m, {}, bytes));
  }

  lemma Doubled(t: nat, r: nat, d: nat, w: nat, p: nat, sum: nat)
    requires t * d == sum + p * w && 2 * r == if d % 2 == 0 then d else d + w
    ensures 2 * t * r == sum + (if d % 2 == 0 then p else p + t) * w
  {
    assert 2 * t * r == t * (2 * r);
    if d % 2 == 1 {
      assert t * (d + w) == t * d + t * w;
      assert (p + t) * w == p * w + t * w;
    }
  }

  lemma DigestNothing(m: nat, skip: set<nat>)
    requires m % 2 == 0 && m > 0
    ensures Digest(m, skip, []) == 0
  {
  }

  /** One step, without its division: halve, add, and wrap round. */
  predicate StepsTo(m: nat, sum: nat, b: byte, r: nat) {
    var twice := (if sum % 2 == 0 then sum else sum + m - 1) + 2 * b;
    sum < m && r < m && (2 * r == twice || 2 * r == twice - 2 * m)
  }

  lemma StepsToExact(m: nat, sum: nat, b: byte, r: nat)
    requires m % 2 == 0 && m >= 0x100 && sum < m
    ensures AddByte(m, sum, b) == r <==> StepsTo(m, sum, b, r)
  {
    AddByteHalves(m, sum, b);
    Wrapped(m, AddByte(m, sum, 0) + b);
  }

  /** Four more bytes of a known sum. */
  lemma FourMore(m: nat, skip: set<nat>, bytes: seq<byte>, four: seq<byte>, sum: nat, sums: seq<nat>)
    requires m % 2 == 0 && m >= 0x100 && Digest(m, skip, bytes) == sum && |four| == |sums| == 4
    requires forall i | |bytes| <= i < |bytes| + 4 :: i !in skip
    requires StepsTo(m, sum, four[0], sums[0]) && StepsTo(m, sums[0], four[1], sums[1])
    requires StepsTo(m, sums[1], four[2], sums[2]) && StepsTo(m, sums[2], four[3], sums[3])
    ensures Digest(m, skip, bytes + four) == sums[3]
  {
    hide AddByte, Digest, StepsTo;
    var (a, b, c) := (bytes + [four[0]], bytes + four[..2], bytes + four[..3]);
    DigestStep(m, skip, bytes, four[0]);
    StepsToExact(m, sum, four[0], sums[0]);
    DigestStep(m, skip, a, four[1]);
    StepsToExact(m, sums[0], four[1], sums[1]);
    assert a + [four[1]] == b && b + [four[2]] == c && c + [four[3]] == bytes + four;
    DigestStep(m, skip, b, four[2]);
    StepsToExact(m, sums[1], four[2], sums[2]);
    DigestStep(m, skip, c, four[3]);
    StepsToExact(m, sums[2], four[3], sums[3]);
  }

  /** The file entry of an archive made on 29 February 2024 at 13:45:57 in a zone
    * one hour east, and its sum. */
  lemma KnownEntry(x: byte, y: byte)
    ensures Digest(WORD16, SetSkip, [0x85, 0x02]) == 0x8044
    ensures Digest(WORD16, SetSkip, [0x85, 0x02, x, y] + [0x20, 0x00, 0x00, 0x00] + [0xbc, 0x6d, 0x5d, 0x58] + [0xbc, 0x6d, 0x5d, 0x58] +
                                    [0xbc, 0x6d, 0x5d, 0x58] + [0x64, 0x64, 0x84, 0x84] + [0x84, 0x00, 0x00, 0x00] + [0x00, 0x00, 0x00, 0x00]) == 0xdc22
  {
    hide Digest, AddByte;
    FirstTwo(x, y);
    var e: seq<byte> := [0x85, 0x02, x, y];
    FourMore(WORD16, SetSkip, e, [0x20, 0x00, 0x00, 0x00], 0x8044, [0x4042, 0x2021, 0x9010, 0x4808]);
    e := e + [0x20, 0x00, 0x00, 0x00];
    FourMore(WORD16, SetSkip, e, [0xbc, 0x6d, 0x5d, 0x58], 0x4808, [0x24c0, 0x12cd, 0x89c3, 0xc539]);
    e := e + [0xbc, 0x6d, 0x5d, 0x58];
    FourMore(WORD16, SetSkip, e, [0xbc, 0x6d, 0x5d, 0x58], 0xc539, [0xe358, 0x7219, 0xb969, 0xdd0c]);
    e := e + [0xbc, 0x6d, 0x5d, 0x58];
    FourMore(WORD16, SetSkip, e, [0xbc, 0x6d, 0x5d, 0x58], 0xdd0c, [0x6f42, 0x380e, 0x1c64, 0xe8a]);
    e := e + [0xbc, 0x6d, 0x5d, 0x58];
    FourMore(WORD16, SetSkip, e, [0x64, 0x64, 0x84, 0x84], 0xe8a, [0x7a9, 0x8438, 0x42a0, 0x21d4]);
    e := e + [0x64, 0x64, 0x84, 0x84];
    FourMore(WORD16, SetSkip, e, [0x84, 0x00, 0x00, 0x00], 0x21d4, [0x116e, 0x8b7, 0x845b, 0xc22d]);
    e := e + [0x84, 0x00, 0x00, 0x00];
    FourMore(WORD16, SetSkip, e, [0x00, 0x00, 0x00, 0x00], 0xc22d, [0xe116, 0x708b, 0xb845, 0xdc22]);
    e := e + [0x00, 0x00, 0x00, 0x00];
  }

  /** The stream entry behind it: the name A.TXT, a run of 1000 bytes from cluster 9. */
  lemma KnownStream(before: seq<byte>)
    requires |before| >= ENTRY && Digest(WORD16, SetSkip, before) == 0xdc22
    ensures Digest(WORD16, SetSkip, before + [0xc0, 0x03, 0x00, 0x05] + [0xb8, 0x1c, 0x00, 0x00] + [0xe8, 0x03, 0x00, 0x00] + [0x00, 0x00, 0x00, 0x00] +
        [0x00, 0x00, 0x00, 0x00] + [0x09, 0x00, 0x00, 0x00] + [0xe8, 0x03, 0x00, 0x00] + [0x00, 0x00, 0x00, 0x00]) == 0xb322
  {
    hide Digest, AddByte;
    var e := before;
    FourMore(WORD16, SetSkip, e, [0xc0, 0x03, 0x00, 0x05], 0xdc22, [0x6ed1, 0xb76b, 0xdbb5, 0xeddf]);
    e := e + [0xc0, 0x03, 0x00, 0x05];
    FourMore(WORD16, SetSkip, e, [0xb8, 0x1c, 0x00, 0x00], 0xeddf, [0xf7a7, 0xfbef, 0xfdf7, 0xfefb]);
    e := e + [0xb8, 0x1c, 0x00, 0x00];
    FourMore(WORD16, SetSkip, e, [0xe8, 0x03, 0x00, 0x00], 0xfefb, [0x65, 0x8035, 0xc01a, 0x600d]);
    e := e + [0xe8, 0x03, 0x00, 0x00];
    FourMore(WORD16, SetSkip, e, [0x00, 0x00, 0x00, 0x00], 0x600d, [0xb006, 0x5803, 0xac01, 0xd600]);
    e := e + [0x00, 0x00, 0x00, 0x00];
    FourMore(WORD16, SetSkip, e, [0x00, 0x00, 0x00, 0x00], 0xd600, [0x6b00, 0x3580, 0x1ac0, 0xd60]);
    e := e + [0x00, 0x00, 0x00, 0x00];
    FourMore(WORD16, SetSkip, e, [0x09, 0x00, 0x00, 0x00], 0xd60, [0x6b9, 0x835c, 0x41ae, 0x20d7]);
    e := e + [0x09, 0x00, 0x00, 0x00];
    FourMore(WORD16, SetSkip, e, [0xe8, 0x03, 0x00, 0x00], 0x20d7, [0x9153, 0xc8ac, 0x6456, 0x322b]);
    e := e + [0xe8, 0x03, 0x00, 0x00];
    FourMore(WORD16, SetSkip, e, [0x00, 0x00, 0x00, 0x00], 0x322b, [0x9915, 0xcc8a, 0x6645, 0xb322]);
    e := e + [0x00, 0x00, 0x00, 0x00];
  }

  /** The name entry behind both. */
  lemma KnownName(before: seq<byte>)
    requires |before| >= ENTRY && Digest(WORD16, SetSkip, before) == 0xb322
    ensures Digest(WORD16, SetSkip, before + [0xc1, 0x00, 0x41, 0x00] + [0x2e, 0x00, 0x54, 0x00] + [0x58, 0x00, 0x54, 0x00] + [0x00, 0x00, 0x00, 0x00] +
        [0x00, 0x00, 0x00, 0x00] + [0x00, 0x00, 0x00, 0x00] + [0x00, 0x00, 0x00, 0x00] + [0x00, 0x00, 0x00, 0x00]) == 0x3670
  {
    hide Digest, AddByte;
    var e := before;
    FourMore(WORD16, SetSkip, e, [0xc1, 0x00, 0x41, 0x00], 0xb322, [0x5a52, 0x2d29, 0x96d5, 0xcb6a]);
    e := e + [0xc1, 0x00, 0x41, 0x00];
    FourMore(WORD16, SetSkip, e, [0x2e, 0x00, 0x54, 0x00], 0xcb6a, [0x65e3, 0xb2f1, 0xd9cc, 0x6ce6]);
    e := e + [0x2e, 0x00, 0x54, 0x00];
    FourMore(WORD16, SetSkip, e, [0x58, 0x00, 0x54, 0x00], 0x6ce6, [0x36cb, 0x9b65, 0xce06, 0x6703]);
    e := e + [0x58, 0x00, 0x54, 0x00];
    FourMore(WORD16, SetSkip, e, [0x00, 0x00, 0x00, 0x00], 0x6703, [0xb381, 0xd9c0, 0x6ce0, 0x3670]);
    e := e + [0x00, 0x00, 0x00, 0x00];
    FourMore(WORD16, SetSkip, e, [0x00, 0x00, 0x00, 0x00], 0x3670, [0x1b38, 0xd9c, 0x6ce, 0x367]);
    e := e + [0x00, 0x00, 0x00, 0x00];
    FourMore(WORD16, SetSkip, e, [0x00, 0x00, 0x00, 0x00], 0x367, [0x81b3, 0xc0d9, 0xe06c, 0x7036]);
    e := e + [0x00, 0x00, 0x00, 0x00];
    FourMore(WORD16, SetSkip, e, [0x00, 0x00, 0x00, 0x00], 0x7036, [0x381b, 0x9c0d, 0xce06, 0x6703]);
    e := e + [0x00, 0x00, 0x00, 0x00];
    FourMore(WORD16, SetSkip, e, [0x00, 0x00, 0x00, 0x00], 0x6703, [0xb381, 0xd9c0, 0x6ce0, 0x3670]);
    e := e + [0x00, 0x00, 0x00, 0x00];
  }

  lemma FirstTwo(x: byte, y: byte)
    ensures Digest(WORD16, SetSkip, [0x85, 0x02]) == 0x8044 && Digest(WORD16, SetSkip, [0x85, 0x02, x, y]) == 0x8044
  {
    hide Digest, AddByte;
    var a: seq<byte> := [];
    DigestNothing(WORD16, SetSkip);
    DigestStep(WORD16, SetSkip, a, 0x85);
    StepsToExact(WORD16, 0, 0x85, 0x85);
    DigestStep(WORD16, SetSkip, [0x85], 0x02);
    StepsToExact(WORD16, 0x85, 0x02, 0x8044);
    DigestStep(WORD16, SetSkip, [0x85, 0x02], x);
    DigestStep(WORD16, SetSkip, [0x85, 0x02, x], y);
    assert a + [0x85] == [0x85] && [0x85] + [0x02] == [0x85, 0x02] && [0x85, 0x02] + [x] == [0x85, 0x02, x];
    assert [0x85, 0x02, x] + [y] == [0x85, 0x02, x, y];
  }

  /** The first twelve bytes of every boot sector, and their sum. */
  lemma KnownBoot()
    ensures Digest(WORD32, BootSkip, [0xeb, 0x76, 0x90, 0x45] + [0x58, 0x46, 0x41, 0x54] + [0x20, 0x20, 0x20, 0x00]) == 0xd7e00025
  {
    hide Digest, AddByte;
    DigestNothing(WORD32, BootSkip);
    var b: seq<byte> := [];
    FourMore(WORD32, BootSkip, b, [0xeb, 0x76, 0x90, 0x45], 0x0, [0xeb, 0x800000eb, 0xc0000105, 0xe00000c7]);
    assert b + [0xeb, 0x76, 0x90, 0x45] == [0xeb, 0x76, 0x90, 0x45];
    b := [0xeb, 0x76, 0x90, 0x45];
    FourMore(WORD32, BootSkip, b, [0x58, 0x46, 0x41, 0x54], 0xe00000c7, [0xf00000bb, 0xf80000a3, 0xfc000092, 0x7e00009d]);
    b := b + [0x58, 0x46, 0x41, 0x54];
    FourMore(WORD32, BootSkip, b, [0x20, 0x20, 0x20, 0x00], 0x7e00009d, [0xbf00006e, 0x5f800057, 0xafc0004b, 0xd7e00025]);
    b := b + [0x20, 0x20, 0x20, 0x00];
  }

  // ---- stored checksums ----

  /** The checksum test of check_node on the bytes of an entry set. */
  predicate SetAccepted(bytes: seq<byte>)
    requires |bytes| >= 4
  {
    HalfAt(bytes, 2) == Digest(WORD16, SetSkip, bytes)
  }

  /** The whole set, accepted with its sum in bytes 2 and 3. */
  lemma KnownSet(bytes: seq<byte>)
    requires bytes == [0x85, 0x02, 0x70, 0x36] + [0x20, 0x00, 0x00, 0x00] + [0xbc, 0x6d, 0x5d, 0x58] + [0xbc, 0x6d, 0x5d, 0x58] +
      [0xbc, 0x6d, 0x5d, 0x58] + [0x64, 0x64, 0x84, 0x84] + [0x84, 0x00, 0x00, 0x00] + [0x00, 0x00, 0x00, 0x00] +
      [0xc0, 0x03, 0x00, 0x05] + [0xb8, 0x1c, 0x00, 0x00] + [0xe8, 0x03, 0x00, 0x00] + [0x00, 0x00, 0x00, 0x00] +
      [0x00, 0x00, 0x00, 0x00] + [0x09, 0x00, 0x00, 0x00] + [0xe8, 0x03, 0x00, 0x00] + [0x00, 0x00, 0x00, 0x00] +
      [0xc1, 0x00, 0x41, 0x00] + [0x2e, 0x00, 0x54, 0x00] + [0x58, 0x00, 0x54, 0x00] + [0x00, 0x00, 0x00, 0x00] +
      [0x00, 0x00, 0x00, 0x00] + [0x00, 0x00, 0x00, 0x00] + [0x00, 0x00, 0x00, 0x00] + [0x00, 0x00, 0x00, 0x00]
    ensures Digest(WORD16, SetSkip, bytes) == 0x3670 && SetAccepted(bytes)
  {
    hide Digest, AddByte;
    KnownEntry(0x70, 0x36);
    var file := [0x85, 0x02, 0x70, 0x36] + [0x20, 0x00, 0x00, 0x00] + [0xbc, 0x6d, 0x5d, 0x58] + [0xbc, 0x6d, 0x5d, 0x58] +
      [0xbc, 0x6d, 0x5d, 0x58] + [0x64, 0x64, 0x84, 0x84] + [0x84, 0x00, 0x00, 0x00] + [0x00, 0x00, 0x00, 0x00];
    KnownStream(file);
    var both := file + [0xc0, 0x03, 0x00, 0x05] + [0xb8, 0x1c, 0x00, 0x00] + [0xe8, 0x03, 0x00, 0x00] + [0x00, 0x00, 0x00, 0x00] +
      [0x00, 0x00, 0x00, 0x00] + [0x09, 0x00, 0x00, 0x00] + [0xe8, 0x03, 0x00, 0x00] + [0x00, 0x00, 0x00, 0x00];
    KnownName(both);
  }

  /** No single damaged byte gets past the test, not even in the checksum field. */
  lemma DamagedSetRejected(a: seq<byte>, b: seq<byte>, i: nat)
    requires |a| >= 4 && DifferAt(a, b, i) && SetAccepted(a)
    ensures !SetAccepted(b)
  {
    SingleByte(WORD16, SetSkip, a, b, i);
  }
}
