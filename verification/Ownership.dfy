/** Who uses which cluster: chains that share none, and the bytes they hold. */
module Ownership {
  import opened Bytes
  import opened Chains

  /** What a used cluster is used for: place `index` of a file, or nothing any file shows. */
  datatype Use<+K> = Reserved | Fixed | At(file: K, index: nat)

  /** The system's clusters stay the system's. */
  ghost predicate Spares<K>(owner: map<nat, Use<K>>, system: set<nat>) { forall c | c in system :: c in owner && owner[c] == Fixed }

  lemma SparesTaken<K>(owner: map<nat, Use<K>>, system: set<nat>, c: nat)
    requires Spares(owner, system) && c !in owner
    ensures Spares(owner[c := Reserved], system)
  {
  }

  /** Each place of each file uses the cluster that names it back. */
  ghost predicate OwnedBy<K>(chains: map<K, seq<nat>>, owner: map<nat, Use<K>>, limit: nat)
  {
    && (forall n, i | n in chains && 0 <= i < |chains[n]| ::
          chains[n][i] in owner && owner[chains[n][i]] == At(n, i))
    && (forall c | c in owner :: 2 <= c < limit && (owner[c].At? ==> UsedAt(chains, owner[c], c)))
  }

  ghost predicate UsedAt<K>(chains: map<K, seq<nat>>, use: Use<K>, c: nat)
    requires use.At?
  {
    use.file in chains && use.index < |chains[use.file]| && chains[use.file][use.index] == c
  }

  /** The bit of a cluster is set exactly when the cluster is in use. */
  ghost predicate Marks<K>(bits: seq<bool>, owner: map<nat, Use<K>>)
  {
    forall k | 0 <= k < |bits| :: bits[k] <==> k + 2 in owner
  }

  lemma MarksUnique<K>(bits: seq<bool>, bits': seq<bool>, owner: map<nat, Use<K>>)
    requires |bits| == |bits'| && Marks(bits, owner) && Marks(bits', owner)
    ensures bits == bits'
  {
  }

  lemma OwnedAppend<K>(chains: map<K, seq<nat>>, owner: map<nat, Use<K>>, limit: nat, node: K, c: nat)
    requires OwnedBy(chains, owner, limit) && node in chains && c in owner && owner[c] == Reserved
    ensures OwnedBy(chains[node := chains[node] + [c]], owner[c := At(node, |chains[node]|)], limit)
  {
  }

  /** Handing a used cluster over keeps the marks, and it lies in the heap. */
  lemma MarksKept<K>(chains: map<K, seq<nat>>, owner: map<nat, Use<K>>, limit: nat, bits: seq<bool>, c: nat, use: Use<K>)
    requires OwnedBy(chains, owner, limit) && Marks(bits, owner) && c in owner
    ensures 2 <= c < limit && Marks(bits, owner[c := use])
  {
  }

  lemma LastOwned<K>(chains: map<K, seq<nat>>, owner: map<nat, Use<K>>, limit: nat, node: K)
    requires OwnedBy(chains, owner, limit) && node in chains && chains[node] != []
    ensures var c := chains[node][|chains[node]| - 1];
            2 <= c < limit && c in owner && owner[c] == At(node, |chains[node]| - 1)
  {
  }

  lemma Unused<K>(chains: map<K, seq<nat>>, owner: map<nat, Use<K>>, limit: nat, node: K, c: nat)
    requires OwnedBy(chains, owner, limit) && node in chains && (c !in owner || owner[c] == Reserved)
    ensures c !in chains[node]
  {
    assert forall i | 0 <= i < |chains[node]| :: owner[chains[node][i]] == At(node, i);
  }

  lemma OwnedReserve<K>(chains: map<K, seq<nat>>, owner: map<nat, Use<K>>, limit: nat, bits: seq<bool>, k: nat)
    requires OwnedBy(chains, owner, limit) && Marks(bits, owner) && k < |bits| && !bits[k] && k + 2 < limit
    ensures k + 2 !in owner
    ensures OwnedBy(chains, owner[k + 2 := Reserved], limit) && Marks(bits[k := true], owner[k + 2 := Reserved])
  {
  }

  lemma OwnedFree<K>(chains: map<K, seq<nat>>, owner: map<nat, Use<K>>, limit: nat, bits: seq<bool>, k: nat)
    requires OwnedBy(chains, owner, limit) && Marks(bits, owner) && k < |bits|
    requires k + 2 in owner && owner[k + 2] == Reserved
    ensures bits[k]
    ensures OwnedBy(chains, owner - {k + 2}, limit) && Marks(bits[k := false], owner - {k + 2})
  {
  }

  /** The uses once a file keeps only its first `k` places. */
  ghost function Released<K>(owner: map<nat, Use<K>>, node: K, k: nat): map<nat, Use<K>>
  {
    map c | c in owner :: if owner[c].At? && owner[c].file == node && owner[c].index >= k then Reserved else owner[c]
  }

  lemma ReleasedKeys<K>(owner: map<nat, Use<K>>, node: K, k: nat)
    ensures Released(owner, node, k).Keys == owner.Keys
  {
  }

  lemma OwnedCut<K>(chains: map<K, seq<nat>>, owner: map<nat, Use<K>>, limit: nat, node: K, k: nat)
    requires OwnedBy(chains, owner, limit) && node in chains && k <= |chains[node]|
    ensures OwnedBy(chains[node := chains[node][..k]], Released(owner, node, k), limit)
  {
  }

  lemma Uncovered<K>(owner: map<nat, Use<K>>, tail: seq<nat>)
    requires tail != []
    ensures (owner - {tail[0]}) - Elements(tail[1..]) == owner - Elements(tail)
  {
    assert tail == [tail[0]] + tail[1..];
  }

  /** The clusters a cut releases are distinct, reserved, and all that changes. */
  lemma CutReserved<K>(chains: map<K, seq<nat>>, owner: map<nat, Use<K>>, limit: nat, node: K, k: nat)
    requires OwnedBy(chains, owner, limit) && node in chains && k <= |chains[node]|
    ensures InRange(chains[node][k..], limit) && Distinct(chains[node][k..])
    ensures forall i | 0 <= i < |chains[node][k..]| ::
              && chains[node][k..][i] in Released(owner, node, k)
              && Released(owner, node, k)[chains[node][k..][i]] == Reserved
    ensures Released(owner, node, k) - Elements(chains[node][k..]) == owner - Elements(chains[node][k..])
  {
    var rest := chains[node][k..];
    OwnedChain(chains, owner, limit, node);
    assert forall i | 0 <= i < |rest| :: rest[i] == chains[node][k + i] && owner[chains[node][k + i]] == At(node, k + i);
    forall c | c in owner && owner[c].At? && owner[c].file == node && owner[c].index >= k
      ensures c in rest
    {
      assert c == rest[owner[c].index - k];
    }
  }

  /** What grow_file has done so far: `gained` clusters added behind those `node` had. */
  ghost predicate Grown<K>(chains0: map<K, seq<nat>>, owner0: map<nat, Use<K>>, node: K, gained: nat,
                        chains: map<K, seq<nat>>, owner: map<nat, Use<K>>)
  {
    && node in chains0 && node in chains && chains == chains0[node := chains[node]]
    && |chains[node]| == |chains0[node]| + gained
    && chains[node][..|chains0[node]|] == chains0[node]
    && owner - Elements(chains[node][|chains0[node]|..]) == owner0
  }

  lemma GrownPrefix<K>(chains0: map<K, seq<nat>>, owner0: map<nat, Use<K>>, node: K, gained: nat,
                       chains: map<K, seq<nat>>, owner: map<nat, Use<K>>)
    requires Grown(chains0, owner0, node, gained, chains, owner)
    ensures node in chains0 && node in chains && |chains[node]| == |chains0[node]| + gained && chains[node][..|chains0[node]|] == chains0[node]
  {
  }

  lemma Gathered<K>(owner: map<nat, Use<K>>, owner0: map<nat, Use<K>>, chain: seq<nat>, next: nat, use: Use<K>)
    requires owner - Elements(chain) == owner0 && next !in owner
    ensures owner[next := use] - Elements(chain + [next]) == owner0
  {
    assert Elements(chain + [next]) == Elements(chain) + {next};
  }

  lemma GrownStep<K>(chains0: map<K, seq<nat>>, owner0: map<nat, Use<K>>, node: K, gained: nat,
                  chains: map<K, seq<nat>>, owner: map<nat, Use<K>>, next: nat, use: Use<K>)
    requires Grown(chains0, owner0, node, gained, chains, owner) && next !in owner
    ensures Grown(chains0, owner0, node, gained + 1, chains[node := chains[node] + [next]], owner[next := use])
  {
    var chain, k := chains[node], |chains0[node]|;
    assert (chain + [next])[..k] == chain[..k];
    assert (chain + [next])[k..] == chain[k..] + [next];
    assert Elements(chain[k..] + [next]) == Elements(chain[k..]) + {next};
  }

  lemma GrownNothing<K>(chains0: map<K, seq<nat>>, owner0: map<nat, Use<K>>, node: K,
                     chains: map<K, seq<nat>>, owner: map<nat, Use<K>>)
    requires node in chains0
    ensures Grown(chains0, owner0, node, 0, chains, owner) <==> chains == chains0 && owner == owner0
  {
    if Grown(chains0, owner0, node, 0, chains, owner) {
      assert chains[node] == chains[node][..|chains0[node]|] == chains0[node];
      assert Elements(chains[node][|chains0[node]|..]) == {};
    }
    if chains == chains0 && owner == owner0 {
      assert chains == chains0[node := chains[node]];
      assert Elements(chains[node][|chains0[node]|..]) == {};
    }
  }

  ghost function Elements(s: seq<nat>): set<nat> { set c | c in s }

  /** A cluster of one file is no cluster of another. */
  lemma Foreign<K>(chains: map<K, seq<nat>>, owner: map<nat, Use<K>>, limit: nat, node: K, k: nat, n: K)
    requires OwnedBy(chains, owner, limit) && node in chains && n in chains && n != node && k < |chains[node]|
    ensures chains[node][k] !in chains[n]
  {
    assert owner[chains[node][k]] == At(node, k);
    assert forall i | 0 <= i < |chains[n]| :: owner[chains[n][i]] == At(n, i);
  }

  /** The uses once a file begins only at its place `j`: the clusters before are used by nobody. */
  ghost function Shifted<K>(owner: map<nat, Use<K>>, node: K, j: nat): map<nat, Use<K>>
  {
    map c | c in owner ::
      if owner[c].At? && owner[c].file == node
      then if owner[c].index < j then Reserved else At(node, owner[c].index - j)
      else owner[c]
  }

  lemma OwnedSuffix<K>(chains: map<K, seq<nat>>, owner: map<nat, Use<K>>, limit: nat, bits: seq<bool>, node: K, j: nat)
    requires OwnedBy(chains, owner, limit) && Marks(bits, owner) && node in chains && j <= |chains[node]|
    ensures OwnedBy(chains[node := chains[node][j..]], Shifted(owner, node, j), limit)
    ensures Marks(bits, Shifted(owner, node, j))
  {
    SuffixBack(chains, owner, limit, node, j);
    hide UsedAt;
    var chains', owner' := chains[node := chains[node][j..]], Shifted(owner, node, j);
    forall n, i | n in chains' && 0 <= i < |chains'[n]|
      ensures chains'[n][i] in owner' && owner'[chains'[n][i]] == At(n, i)
    {
      var k := if n == node then i + j else i;
      assert chains'[n][i] == chains[n][k] && owner[chains[n][k]] == At(n, k);
    }
  }

  /** The uses that are left name back the places they have moved to. */
  lemma SuffixBack<K>(chains: map<K, seq<nat>>, owner: map<nat, Use<K>>, limit: nat, node: K, j: nat)
    requires OwnedBy(chains, owner, limit) && node in chains && j <= |chains[node]|
    ensures var chains', owner' := chains[node := chains[node][j..]], Shifted(owner, node, j);
            forall c | c in owner' :: 2 <= c < limit && (owner'[c].At? ==> UsedAt(chains', owner'[c], c))
  {
    var chains', owner' := chains[node := chains[node][j..]], Shifted(owner, node, j);
    forall c | c in owner'
      ensures 2 <= c < limit && (owner'[c].At? ==> UsedAt(chains', owner'[c], c))
    {
      assert c in owner && (owner[c].At? ==> UsedAt(chains, owner[c], c));
    }
  }

  /** The chains once the files of `gone` have none, and the uses once nobody shows their clusters. */
  ghost function Emptied<K, V>(m: map<K, seq<V>>, gone: set<K>): (r: map<K, seq<V>>)
    ensures r.Keys == m.Keys
  {
    map n | n in m :: if n in gone then [] else m[n]
  }

  ghost function Disowned<K>(owner: map<nat, Use<K>>, gone: set<K>): (r: map<nat, Use<K>>)
    ensures r.Keys == owner.Keys
  {
    map c | c in owner :: if owner[c].At? && owner[c].file in gone then Reserved else owner[c]
  }

  lemma OwnedWithout<K>(chains: map<K, seq<nat>>, owner: map<nat, Use<K>>, limit: nat, gone: set<K>)
    requires OwnedBy(chains, owner, limit)
    ensures OwnedBy(Emptied(chains, gone), Disowned(owner, gone), limit)
  {
    var chains', owner' := Emptied(chains, gone), Disowned(owner, gone);
    forall c | c in owner' && owner'[c].At? ensures UsedAt(chains', owner'[c], c) {
      assert UsedAt(chains, owner[c], c);
    }
  }

  lemma OwnedChain<K>(chains: map<K, seq<nat>>, owner: map<nat, Use<K>>, limit: nat, n: K)
    requires OwnedBy(chains, owner, limit) && n in chains
    ensures InRange(chains[n], limit) && Distinct(chains[n])
  {
    forall i, j | 0 <= i < j < |chains[n]|
      ensures chains[n][i] != chains[n][j]
    {
      assert owner[chains[n][i]] != owner[chains[n][j]];
    }
  }

  /** The FAT entries of every file but `node` are as they were. */
  ghost predicate FatKept<K>(fat: seq<u32>, fat': seq<u32>, owner: map<nat, Use<K>>, node: K)
  {
    && |fat'| == |fat|
    && forall c | c in owner && c < |fat| && owner[c].At? && owner[c].file != node :: fat'[c] == fat[c]
  }

  /** Writing out a file's run touches no entry of another file. */
  lemma RunKept<K>(fat: seq<u32>, fat': seq<u32>, chains: map<K, seq<nat>>, owner: map<nat, Use<K>>, node: K)
    requires OwnedBy(chains, owner, |fat|) && node in chains && chains[node] != []
    requires InRange(chains[node], |fat|) && Linked(fat, chains[node], true) && |fat'| == |fat|
    requires forall c | 0 <= c < |fat| ::
               fat'[c] == if chains[node][0] <= c < chains[node][|chains[node]| - 1] then c + 1 else fat[c]
    ensures FatKept(fat, fat', owner, node)
  {
    var chain := chains[node];
    RunNumbers(fat, chain, |chain| - 1);
    forall c | c in owner && c < |fat| && owner[c].At? && owner[c].file != node
      ensures fat'[c] == fat[c]
    {
      if chain[0] <= c < chain[|chain| - 1] {
        RunNumbers(fat, chain, c - chain[0]);
      }
    }
  }

  /** The stored bytes of every file. */
  ghost function Stored<K>(heap: seq<seq<byte>>, chains: map<K, seq<nat>>, size: nat): map<K, seq<byte>>
  {
    map n | n in chains ::
      if HeapOk(heap, size) && InRange(chains[n], |heap| + 2) then Raw(heap, chains[n], size) else []
  }

  /** Writing into a cluster of `node` splices its stored bytes and no other file's. */
  lemma StoredWrite<K>(heap: seq<seq<byte>>, chains: map<K, seq<nat>>, owner: map<nat, Use<K>>, size: nat,
                    node: K, k: nat, at: nat, data: seq<byte>, pos: nat)
    requires OwnedBy(chains, owner, |heap| + 2) && HeapOk(heap, size) && node in chains && k < |chains[node]|
    requires at + |data| <= size && Place(pos, k, at, size) && 2 <= chains[node][k] < |heap| + 2
    ensures pos + |data| <= |Stored(heap, chains, size)[node]|
    ensures Stored(Written(heap, chains[node][k], at, data), chains, size)
            == Stored(heap, chains, size)[node := Splice(Stored(heap, chains, size)[node], pos, data)]
  {
    hide OwnedBy, Raw;
    var limit := |heap| + 2;
    var heap' := Written(heap, chains[node][k], at, data);
    OwnedChain(chains, owner, limit, node);
    RawWriteAt(heap, chains[node], size, k, at, data, pos);
    hide Place, Written, Splice;
    assert HeapOk(heap', size);
    forall n | n in chains && n != node
      ensures Stored(heap', chains, size)[n] == Stored(heap, chains, size)[n]
    {
      OwnedChain(chains, owner, limit, n);
      Foreign(chains, owner, limit, node, k, n);
      RawFrame(heap, heap', chains[n], size);
    }
  }

  lemma StoredRead<K>(heap: seq<seq<byte>>, chains: map<K, seq<nat>>, owner: map<nat, Use<K>>, size: nat,
                   node: K, k: nat, at: nat, n: nat, pos: nat)
    requires OwnedBy(chains, owner, |heap| + 2) && HeapOk(heap, size) && node in chains && k < |chains[node]|
    requires at + n <= size && Place(pos, k, at, size) && 2 <= chains[node][k] < |heap| + 2
    ensures pos + n <= |Stored(heap, chains, size)[node]|
    ensures heap[chains[node][k] - 2][at..at + n] == Stored(heap, chains, size)[node][pos..pos + n]
  {
    hide OwnedBy, Raw, Place;
    OwnedChain(chains, owner, |heap| + 2, node);
    RawReadAt(heap, chains[node], size, k, at, n, pos);
  }

  ghost predicate Agree(a: seq<byte>, b: seq<byte>)
  {
    forall i | 0 <= i < |a| && i < |b| :: a[i] == b[i]
  }

  /** A file that only gained or lost clusters at its end keeps the bytes of those it had and has. */
  lemma StoredResized<K>(heap: seq<seq<byte>>, chains: map<K, seq<nat>>, chains': map<K, seq<nat>>, size: nat, node: K)
    requires HeapOk(heap, size) && node in chains && node in chains' && chains' == chains[node := chains'[node]]
    requires InRange(chains[node], |heap| + 2) && InRange(chains'[node], |heap| + 2)
    requires chains[node] <= chains'[node] || chains'[node] <= chains[node]
    ensures |Stored(heap, chains', size)[node]| == |chains'[node]| * size
    ensures Stored(heap, chains', size) == Stored(heap, chains, size)[node := Stored(heap, chains', size)[node]]
    ensures Agree(Stored(heap, chains, size)[node], Stored(heap, chains', size)[node])
  {
    hide Raw;
    if chains[node] <= chains'[node] {
      RawPrefix(heap, chains'[node], size, |chains[node]|);
      assert chains'[node][..|chains[node]|] == chains[node];
    } else {
      RawPrefix(heap, chains[node], size, |chains'[node]|);
      assert chains[node][..|chains'[node]|] == chains'[node];
    }
  }

  /** Filling a cluster no file uses and appending it to one adds its bytes there, and nowhere else. */
  lemma StoredAppend<K>(heap: seq<seq<byte>>, chains: map<K, seq<nat>>, owner: map<nat, Use<K>>, size: nat,
                        node: K, c: nat, buffer: seq<byte>)
    requires OwnedBy(chains, owner, |heap| + 2) && HeapOk(heap, size) && node in chains
    requires c in owner && owner[c] == Reserved && |buffer| == size && 2 <= c < |heap| + 2
    ensures Stored(heap[c - 2 := buffer], chains[node := chains[node] + [c]], size)
            == Stored(heap, chains, size)[node := Stored(heap, chains, size)[node] + buffer]
  {
    hide Raw;
    var heap' := heap[c - 2 := buffer];
    var chains' := chains[node := chains[node] + [c]];
    forall n | n in chains
      ensures InRange(chains[n], |heap| + 2) && Raw(heap', chains[n], size) == Raw(heap, chains[n], size)
    {
      OwnedChain(chains, owner, |heap| + 2, n);
      assert forall i | 0 <= i < |chains[n]| :: owner[chains[n][i]] == At(n, i);
      RawFrame(heap, heap', chains[n], size);
    }
    RawLast(heap', chains[node], c, size);
    hide OwnedBy;
    assert InRange(chains'[node], |heap| + 2);
  }
}
