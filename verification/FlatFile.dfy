/** What files mean to their users: flat byte sequences drawn from one pool of clusters. */
module FlatFile {
  import opened Bytes

  const ENOSPC: int := 28
  const EINVAL: int := 22

  /** The bytes a reader sees, and how many of them are initialised; the rest read as zeros. */
  datatype File = File(bytes: seq<byte>, valid: nat)

  /** The outcome of one operation: the file after it, the free clusters left, and the result. */
  datatype Outcome = Outcome(file: File, free: nat, rc: int)

  ghost predicate Ok(f: File)
  {
    f.valid <= |f.bytes| && forall i | f.valid <= i < |f.bytes| :: f.bytes[i] == 0
  }

  /** The bytes a reader sees of the stored bytes `raw`. */
  ghost function View(raw: seq<byte>, valid: nat, size: nat): (v: seq<byte>)
  {
    if valid <= size && valid <= |raw| then raw[..valid] + Zeros(size - valid) else []
  }

  /** exfat_truncate on a flat file. */
  ghost function Truncated(cs: nat, f: File, free: nat, size: nat, erase: bool): (o: Outcome)
    requires cs > 0
  {
    var c1, c2 := DivRoundUp(|f.bytes|, cs), DivRoundUp(size, cs);
    if size == |f.bytes| then Outcome(f, free, 0)
    else if c2 > c1 + free then Outcome(f, free, -ENOSPC)
    else Outcome(File(Resize(f.bytes, size), if erase then size else Min(f.valid, size)), free + c1 - c2, 0)
  }

  /** A truncation succeeds exactly when the clusters of the new size are free or
    * the file's own; every byte is then the old one or zero, and what was not
    * initialised still reads as zeros. Without room nothing changes. */
  lemma TruncatedBytes(cs: nat, f: File, free: nat, size: nat, erase: bool)
    requires cs > 0 && Ok(f)
    ensures var o := Truncated(cs, f, free, size, erase);
            && o.rc == (if DivRoundUp(size, cs) <= DivRoundUp(|f.bytes|, cs) + free then 0 else -ENOSPC)
            && (o.rc != 0 ==> o.file == f && o.free == free)
            && (o.rc == 0 ==>
                  && |o.file.bytes| == size && Ok(o.file)
                  && (forall i | 0 <= i < size :: o.file.bytes[i] == if i < |f.bytes| then f.bytes[i] else 0)
                  && o.free + DivRoundUp(size, cs) == free + DivRoundUp(|f.bytes|, cs)
                  && o.file.valid == if size == |f.bytes| then f.valid else if erase then size else Min(f.valid, size))
  {
    hide DivRoundUp;
  }

  /** exfat_generic_pread of a flat file: the part of [off, off + n) that the file has. */
  ghost function ReadOf(bytes: seq<byte>, off: nat, n: nat): (data: seq<byte>)
  {
    bytes[Min(off, |bytes|)..Min(off + n, |bytes|)]
  }

  /** How exfat_generic_pwrite makes room: zeros up to `off`, then uninitialised bytes up to `end`. */
  ghost function Extended(cs: nat, f: File, free: nat, off: nat, end: nat): (o: Outcome)
    requires cs > 0
  {
    var o1 := if off > |f.bytes| then Truncated(cs, f, free, off, true) else Outcome(f, free, 0);
    if o1.rc == 0 && end > |o1.file.bytes| then Truncated(cs, o1.file, o1.free, end, false) else o1
  }

  /** Room made is room for everything, and initialises what lies before `off` unless there is a gap. */
  lemma ExtendedShape(cs: nat, f: File, free: nat, off: nat, end: nat)
    requires cs > 0 && f.valid <= |f.bytes| && off <= end
    ensures var o := Extended(cs, f, free, off, end);
            && (o.rc == 0 || o.rc == -ENOSPC)
            && (o.rc == 0 ==>
                  && |o.file.bytes| == Max(|f.bytes|, end)
                  && o.file.valid == (if off > |f.bytes| then off else f.valid))
  {
    hide DivRoundUp;
  }

  /** exfat_generic_pwrite to a flat file whose bytes before `off` are initialised. */
  ghost function Wrote(cs: nat, f: File, free: nat, data: seq<byte>, off: nat): (o: Outcome)
    requires cs > 0
  {
    var o := Extended(cs, f, free, off, off + |data|);
    if o.rc != 0 || data == [] then o
    else Outcome(File(Splice(o.file.bytes, off, data), Max(o.file.valid, off + |data|)), o.free, |data|)
  }

  /** The write starts inside the file but past its initialised bytes. */
  predicate Gap(f: File, off: nat) { f.valid < off <= |f.bytes| }

  /** What a write across a gap leaves: the stale stored bytes of the gap come to light. */
  ghost function Exposed(f: File, raw: seq<byte>, valid: nat, off: nat): (g: File)
    requires valid <= off <= |f.bytes| && off <= |raw|
  {
    f.(bytes := Splice(f.bytes, valid, raw[valid..off]))
  }

  lemma DivRoundUpMonotone(x: nat, y: nat, d: nat)
    requires d > 0 && x <= y
    ensures DivRoundUp(x, d) <= DivRoundUp(y, d)
  {
    DivRoundUpBounds(x, d);
    DivRoundUpBounds(y, d);
    hide DivRoundUp;
    var p, q := DivRoundUp(x, d), DivRoundUp(y, d);
    if p > q { MulMonotone(q, p - 1, d); }
  }

  /** A write succeeds exactly when the clusters of the resulting size are free or the file's own. */
  lemma WroteSucceeds(cs: nat, f: File, free: nat, data: seq<byte>, off: nat)
    requires cs > 0 && f.valid <= |f.bytes|
    ensures var size := if off > |f.bytes| || data != [] then Max(|f.bytes|, off + |data|) else |f.bytes|;
            Wrote(cs, f, free, data, off).rc ==
            if DivRoundUp(size, cs) <= DivRoundUp(|f.bytes|, cs) + free then |data| else -ENOSPC
  {
    DivRoundUpMonotone(|f.bytes|, Max(|f.bytes|, off), cs);
    DivRoundUpMonotone(Max(|f.bytes|, off), Max(|f.bytes|, off + |data|), cs);
    hide DivRoundUp;
  }

  /** What a successful write leaves: the old bytes, padded with zeros as needed, with `data` spliced in. */
  lemma WroteBytes(cs: nat, f: File, free: nat, data: seq<byte>, off: nat)
    requires cs > 0 && Ok(f) && data != [] && Wrote(cs, f, free, data, off).rc >= 0
    ensures var o := Wrote(cs, f, free, data, off);
            && o.file.bytes == Splice(Resize(f.bytes, Max(|f.bytes|, off + |data|)), off, data)
            && ReadOf(o.file.bytes, off, |data|) == data
            && (!Gap(f, off) ==> Ok(o.file))
            && o.file.valid == Max(f.valid, off + |data|)
            && o.free + DivRoundUp(Max(|f.bytes|, off + |data|), cs) == free + DivRoundUp(|f.bytes|, cs)
  {
    ExtendedFree(cs, f, free, off, off + |data|);
    hide DivRoundUp, Extended;
    var o := Wrote(cs, f, free, data, off);
    var end := off + |data|;
    ExtendedShape(cs, f, free, off, end);
    ExtendedBytes(cs, f, free, off, end);
    assert ReadOf(o.file.bytes, off, |data|) == data;
  }

  lemma ExtendedFree(cs: nat, f: File, free: nat, off: nat, end: nat)
    requires cs > 0 && off <= end && Extended(cs, f, free, off, end).rc == 0
    ensures Extended(cs, f, free, off, end).free + DivRoundUp(Max(|f.bytes|, end), cs) == free + DivRoundUp(|f.bytes|, cs)
  {
    hide DivRoundUp;
  }

  /** A write of nothing, or one without room: what lies before `off` is padded
    * with zeros if there is room for that much, and nothing else changes. */
  lemma WroteNothing(cs: nat, f: File, free: nat, data: seq<byte>, off: nat)
    requires cs > 0 && Ok(f) && (data == [] || Wrote(cs, f, free, data, off).rc < 0)
    ensures var o := Wrote(cs, f, free, data, off);
            if off > |f.bytes| && DivRoundUp(off, cs) <= DivRoundUp(|f.bytes|, cs) + free then
              && o.file == File(f.bytes + Zeros(off - |f.bytes|), off)
              && o.free + DivRoundUp(off, cs) == free + DivRoundUp(|f.bytes|, cs)
            else o.file == f && o.free == free
  {
    hide DivRoundUp;
  }

  lemma ExtendedBytes(cs: nat, f: File, free: nat, off: nat, end: nat)
    requires cs > 0 && f.valid <= |f.bytes| && off < end && Extended(cs, f, free, off, end).rc == 0
    ensures Extended(cs, f, free, off, end).file.bytes == Resize(f.bytes, Max(|f.bytes|, end))
  {
    hide DivRoundUp;
    var grown := Extended(cs, f, free, off, end).file;
    if off > |f.bytes| {
      assert grown.bytes == f.bytes + Zeros(off - |f.bytes|) + Zeros(end - off);
      assert Zeros(off - |f.bytes|) + Zeros(end - off) == Zeros(end - |f.bytes|);
    }
  }

  /** A write across a gap reads as it should exactly when the stale bytes of the gap happen to be zeros. */
  lemma GapExact(cs: nat, f: File, free: nat, data: seq<byte>, off: nat, raw: seq<byte>)
    requires cs > 0 && Ok(f) && data != [] && Gap(f, off) && off <= |raw|
    requires Wrote(cs, f, free, data, off).rc >= 0
    ensures off <= |Wrote(cs, f, free, data, off).file.bytes|
    ensures var o := Wrote(cs, f, free, data, off);
            Exposed(o.file, raw, f.valid, off) == o.file <==> raw[f.valid..off] == Zeros(off - f.valid)
  {
    hide DivRoundUp;
    ExtendedShape(cs, f, free, off, off + |data|);
    WroteBytes(cs, f, free, data, off);
    var o := Wrote(cs, f, free, data, off);
    var g := Exposed(o.file, raw, f.valid, off);
    assert o.file.bytes[f.valid..off] == Zeros(off - f.valid);
    assert g.bytes[f.valid..off] == raw[f.valid..off];
    if raw[f.valid..off] == Zeros(off - f.valid) {
      assert g.bytes == o.file.bytes;
    }
  }

  /** What a write leaves of a file that stores `raw`. */
  ghost function Result(cs: nat, f: File, free: nat, data: seq<byte>, off: nat, raw: seq<byte>): (g: File)
    requires cs > 0
  {
    var o := Wrote(cs, f, free, data, off);
    if Gap(f, off) && off <= |raw| && off <= |o.file.bytes| then Exposed(o.file, raw, f.valid, off) else o.file
  }

  /** A write reads as it should whatever the file stores past its initialised
    * bytes, if and only if it does not start in the gap. */
  lemma GapGuard(cs: nat, f: File, free: nat, data: seq<byte>, off: nat)
    requires cs > 0 && Ok(f) && data != [] && Wrote(cs, f, free, data, off).rc >= 0
    ensures (forall raw: seq<byte> | off <= |raw| :: Result(cs, f, free, data, off, raw) == Wrote(cs, f, free, data, off).file)
       <==> !Gap(f, off)
  {
    hide DivRoundUp, Wrote, Exposed;
    if Gap(f, off) {
      var raw := seq(off, _ => 9);
      GapExact(cs, f, free, data, off, raw);
      assert raw[f.valid..off][0] == 9 && Zeros(off - f.valid)[0] == 0;
      assert Result(cs, f, free, data, off, raw) != Wrote(cs, f, free, data, off).file;
    }
  }

  /** Such a write: the file has three bytes, one of them initialised; a stale 9 behind it comes to light. */
  lemma GapExample(raw: seq<byte>)
    requires |raw| == 4096 && raw[0] == 7 && raw[1] == 9
    ensures var f := File([7, 0, 0], 1);
            var o := Wrote(4096, f, 0, [5], 2);
            && Ok(f) && Gap(f, 2) && o.rc == 1
            && Exposed(o.file, raw, 1, 2).bytes == [7, 9, 5] != o.file.bytes
  {
    var f := File([7, 0, 0], 1);
    var o := Wrote(4096, f, 0, [5], 2);
    assert o.file.bytes == [7, 0, 5];
    assert Exposed(o.file, raw, 1, 2).bytes == [7, 9, 5];
  }
}
