/** Bytes, machine words and the splicing of byte sequences shared by every model. */
module Bytes {

  type byte = b: nat | b < 0x100
  type u16 = w: nat | w < 0x1_0000
  type u32 = w: nat | w < 0x1_0000_0000

  function Min(a: nat, b: nat): nat { if a < b then a else b }

  function Max(a: nat, b: nat): nat { if a > b then a else b }

  /** DIV_ROUND_UP for a positive divisor. */
  function DivRoundUp(x: nat, d: nat): nat
    requires d > 0
  {
    (x + d - 1) / d
  }

  /** C division, which rounds toward zero. */
  function Quot(a: int, b: int): int
    requires b > 0
  {
    if a >= 0 then a / b else -(-a / b)
  }

  function Zeros(n: nat): (z: seq<byte>) { seq(n, _ => 0) }

  /** `s` with the bytes from `at` on replaced by `d`. */
  function Splice<T>(s: seq<T>, at: nat, d: seq<T>): (r: seq<T>)
    requires at + |d| <= |s|
    ensures |r| == |s|
    ensures forall i | 0 <= i < |s| :: r[i] == if at <= i < at + |d| then d[i - at] else s[i]
  {
    s[..at] + d + s[at + |d|..]
  }

  /** Two adjacent splices are one. */
  lemma SpliceAppend<T>(s: seq<T>, at: nat, a: seq<T>, b: seq<T>)
    requires at + |a| + |b| <= |s|
    ensures Splice(Splice(s, at, a), at + |a|, b) == Splice(s, at, a + b)
  {
  }

  lemma SpliceLeft<T>(s: seq<T>, t: seq<T>, at: nat, d: seq<T>)
    requires at + |d| <= |s|
    ensures Splice(s + t, at, d) == Splice(s, at, d) + t
  {
  }

  lemma SpliceRight<T>(s: seq<T>, t: seq<T>, at: nat, d: seq<T>)
    requires at + |d| <= |t|
    ensures Splice(s + t, |s| + at, d) == s + Splice(t, at, d)
  {
  }

  lemma SliceJoin<T>(s: seq<T>, a: nat, b: nat, c: nat)
    requires a <= b <= c <= |s|
    ensures s[a..b] + s[b..c] == s[a..c]
  {
  }

  /** A slice of a slice. */
  lemma SubSlice<T>(s: seq<T>, base: nat, size: nat, p: nat, n: nat)
    requires base + size <= |s| && p + n <= size
    ensures s[base..base + size][p..p + n] == s[base + p..base + p + n]
  {
    var (whole, x, y) := (s[base..base + size], s[base..base + size][p..p + n], s[base + p..base + p + n]);
    forall i | 0 <= i < n ensures x[i] == y[i] { assert whole[p + i] == s[base + (p + i)]; }
  }

  /** Two changes to one entry of a map are one. */
  lemma ChangedTwice<K, V>(a: map<K, V>, b: map<K, V>, c: map<K, V>, k: K)
    requires k in b && k in c && b == a[k := b[k]] && c == b[k := c[k]]
    ensures c == a[k := c[k]]
  {
  }

  lemma Overwritten<K, V>(m: map<K, V>, k: K, v: V, w: V)
    ensures m[k := v][k := w] == m[k := w]
  {
  }

  /** `s` cut to `n` bytes, or padded with zeros up to `n` bytes. */
  function Resize(s: seq<byte>, n: nat): (r: seq<byte>)
    ensures |r| == n
  {
    if n <= |s| then s[..n] else s + Zeros(n - |s|)
  }

  /** Little-endian storage of a 32-bit word (cpu_to_le32, le32_to_cpu). */
  function ToLe32(v: u32): (b: seq<byte>)
    ensures |b| == 4 && FromLe32(b) == v
  {
    var (v1, v2, v3) := (v / 0x100, v / 0x1_0000, v / 0x100_0000);
    assert v1 / 0x100 == v2 && v2 / 0x100 == v3;
    [v % 0x100, v1 % 0x100, v2 % 0x100, v3]
  }

  function FromLe32(b: seq<byte>): u32
    requires |b| == 4
  {
    b[0] as int + 0x100 * (b[1] as int + 0x100 * (b[2] as int + 0x100 * (b[3] as int)))
  }

  /** The 32-bit word stored at `pos`. */
  function WordAt(img: seq<byte>, pos: nat): u32
    requires pos + 4 <= |img|
  {
    FromLe32(img[pos..pos + 4])
  }

  /** Little-endian storage of a 64-bit word. */
  function Le64(v: nat): (b: seq<byte>)
    requires v < 0x1_0000_0000_0000_0000
    ensures |b| == 8
  {
    ToLe32(v % 0x1_0000_0000) + ToLe32(v / 0x1_0000_0000)
  }

  function LongAt(img: seq<byte>, pos: nat): nat
    requires pos + 8 <= |img|
  {
    WordAt(img, pos) + WordAt(img, pos + 4) * 0x1_0000_0000
  }

  lemma LongStored(b: seq<byte>, p: nat, v: nat)
    requires v < 0x1_0000_0000_0000_0000 && p + 8 <= |b| && b[p..p + 8] == Le64(v)
    ensures LongAt(b, p) == v
  {
    hide ToLe32, FromLe32;
    assert b[p..p + 4] == Le64(v)[..4] == ToLe32(v % 0x1_0000_0000);
    assert b[p + 4..p + 8] == Le64(v)[4..] == ToLe32(v / 0x1_0000_0000);
  }

  /** Little-endian storage of a 16-bit word. */
  function Le16(v: u16): (b: seq<byte>)
    ensures |b| == 2
  {
    [v % 0x100, v / 0x100]
  }

  function HalfAt(img: seq<byte>, pos: nat): u16
    requires pos + 2 <= |img|
  {
    img[pos] as int + img[pos + 1] as int * 0x100
  }

  /** The low byte comes first. */
  lemma LowByteFirst(h: u16, w: u32)
    ensures Le16(h)[0] as int + 0x100 * Le16(h)[1] as int == h
    ensures ToLe32(w)[0] as int + 0x100 * ToLe32(w)[1] as int + 0x1_0000 * ToLe32(w)[2] as int + 0x100_0000 * ToLe32(w)[3] as int == w
    ensures Le16(0x1234) == [0x34, 0x12] && ToLe32(0x12345678) == [0x78, 0x56, 0x34, 0x12]
    ensures HalfAt([0x34, 0x12], 0) == 0x1234 && FromLe32([0x78, 0x56, 0x34, 0x12]) == 0x12345678
  {
    assert FromLe32(ToLe32(w)) == w;
  }

  /** Quotient and remainder are determined by any decomposition. */
  lemma DivModUnique(q: nat, r: nat, d: nat)
    requires r < d
    ensures (q * d + r) / d == q && (q * d + r) % d == r
  {
    var x := q * d + r;
    QuotientUnique(q, r, x / d, x % d, d);
  }

  lemma QuotientUnique(q: nat, r: nat, q': nat, r': nat, d: nat)
    requires r < d && r' < d
    requires q * d + r == q' * d + r'
    ensures q == q' && r == r'
  {
    if q < q' { MulMonotone(q + 1, q', d); }
    if q > q' { MulMonotone(q' + 1, q, d); }
  }

  lemma DivRoundUpBounds(x: nat, d: nat)
    requires d > 0
    ensures x <= DivRoundUp(x, d) * d
    ensures x > 0 ==> (DivRoundUp(x, d) - 1) * d < x
    ensures (DivRoundUp(x, d) == 0) == (x == 0)
  {
    var q, r := (x + d - 1) / d, (x + d - 1) % d;
    assert x + d - 1 == q * d + r;
    if x == 0 { DivModUnique(0, d - 1, d); }
    if q == 0 { assert x + d - 1 == r; }
    assert (q - 1) * d == q * d - d;
  }

  lemma MulMonotone(a: nat, b: nat, d: nat)
    requires a <= b
    ensures a * d <= b * d
  {
  }
}
