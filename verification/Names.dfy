/** Comparison of names under the upper-case table (fs/exfat/lookup.c). */
module Names {
  import opened Bytes
  import E = EntrySets

  function Upper(upcase: E.Upcase, name: seq<u16>): seq<u16> {
    seq(|name|, i requires 0 <= i < |name| => upcase[name[i]])
  }

  /** A unit of a name, or the zero that ends it. */
  function UnitOf(name: seq<u16>, i: nat): u16 { if i < |name| then name[i] else 0 }

  /** The table maps no character to what it maps the end of a name to. */
  predicate EndsApart(upcase: E.Upcase) { forall c: nat :: 0 < c < 0x1_0000 ==> upcase[c] != upcase[0] }

  /** The names agree up to the end of the shorter one, and there too. */
  predicate Alike(upcase: E.Upcase, a: seq<u16>, b: seq<u16>) {
    var n := Min(|a|, |b|);
    (forall i :: 0 <= i < n ==> upcase[a[i]] == upcase[b[i]]) && upcase[UnitOf(a, n)] == upcase[UnitOf(b, n)]
  }

  /** compare_name */
  method CompareName(upcase: E.Upcase, a: seq<u16>, b: seq<u16>) returns (rc: int)
    requires 0 !in a && 0 !in b
    ensures rc == 0 <==> Alike(upcase, a, b)
  {
    var i := 0;
    while UnitOf(a, i) != 0 && UnitOf(b, i) != 0
      invariant 0 <= i <= Min(|a|, |b|)
      invariant forall j :: 0 <= j < i ==> upcase[a[j]] == upcase[b[j]]
      decreases |a| - i
    {
      rc := upcase[a[i]] as int - upcase[b[i]] as int;
      if rc != 0 { return; }
      i := i + 1;
    }
    assert i < |a| ==> a[i] in a;
    assert i < |b| ==> b[i] in b;
    rc := upcase[UnitOf(a, i)] as int - upcase[UnitOf(b, i)] as int;
  }

  lemma AlikeUpper(upcase: E.Upcase, a: seq<u16>, b: seq<u16>)
    requires EndsApart(upcase) && 0 !in a && 0 !in b
    ensures Alike(upcase, a, b) <==> Upper(upcase, a) == Upper(upcase, b)
  {
    var n := Min(|a|, |b|);
    if |a| < |b| { assert b[n] in b; }
    if |b| < |a| { assert a[n] in a; }
    if Upper(upcase, a) == Upper(upcase, b) {
      assert |a| == |Upper(upcase, a)| == |b|;
      forall i | 0 <= i < n ensures upcase[a[i]] == upcase[b[i]] {
        assert Upper(upcase, a)[i] == Upper(upcase, b)[i];
      }
    }
  }

  /** Comparison is equality of the upper-case names for all names if and only if
    * the table keeps the end of a name apart. */
  lemma CompareExact(upcase: E.Upcase)
    ensures (forall a: seq<u16>, b: seq<u16> :: 0 !in a && 0 !in b ==> (Alike(upcase, a, b) <==> Upper(upcase, a) == Upper(upcase, b)))
       <==> EndsApart(upcase)
  {
    if EndsApart(upcase) {
      forall a: seq<u16>, b: seq<u16> | 0 !in a && 0 !in b
        ensures Alike(upcase, a, b) <==> Upper(upcase, a) == Upper(upcase, b)
      {
        AlikeUpper(upcase, a, b);
      }
    } else {
      var c: nat :| 0 < c < 0x1_0000 && upcase[c] == upcase[0];
      var a: seq<u16>, b: seq<u16> := [], [c];
      assert Alike(upcase, a, b) && |Upper(upcase, a)| != |Upper(upcase, b)|;
    }
  }
}
