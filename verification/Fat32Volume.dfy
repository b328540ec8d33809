/** The FAT32 cluster allocator and its cached free count (fs/fat32/fat32.c). */
module Fat32Volume {
  import opened Bytes
  import opened Chains
  import opened ClusterBitmap
  import opened Ownership

  const MASK: nat := 0x1000_0000
  const EOC: u32 := 0x0fff_fff8
  const BAD: u32 := 0x0fff_fff7
  const FREE: u32 := 0
  const UNKNOWN: u32 := 0xffff_ffff
  const CLUSTER: nat := 4096          // eight sectors of 512 bytes, as fat32_format lays out

  /** What a chain belongs to: the root directory, or an entry of a directory. */
  datatype Key = Root | Slot(parent: Key, n: nat)

  /** The FAT entry that set_next_cluster writes: the upper four bits stay. */
  function WithNext(entry: u32, next: u32): u32
  {
    entry - entry % MASK + next % MASK
  }

  /** Which clusters are in use. */
  ghost function InUse(links: seq<u32>, total: nat): (bits: seq<bool>)
    requires |links| == total + 2
    ensures |bits| == total
  {
    seq(total, k requires 0 <= k < total => links[k + 2] != FREE)
  }

  /** The last cluster of a chain carries an end mark. */
  ghost predicate Ended(links: seq<u32>, chain: seq<nat>)
  {
    chain != [] ==> chain[|chain| - 1] < |links| && links[chain[|chain| - 1]] >= EOC
  }

  ghost predicate ChainOk(links: seq<u32>, chain: seq<nat>)
  {
    InRange(chain, |links|) && Linked(links, chain, false) && Ended(links, chain)
  }

  /** A change at clusters outside the chain leaves it as it was. */
  lemma ChainKept(links: seq<u32>, links': seq<u32>, chain: seq<nat>)
    requires |links'| == |links| && ChainOk(links, chain)
    requires forall i | 0 <= i < |chain| :: links'[chain[i]] == links[chain[i]]
    ensures ChainOk(links', chain)
  {
    LinkedFrame(links, links', chain, false);
  }

  lemma InUseSet(links: seq<u32>, total: nat, c: nat, v: u32)
    requires |links| == total + 2 && 2 <= c < total + 2
    ensures InUse(links[c := v], total) == InUse(links, total)[c - 2 := v != FREE]
  {
  }

  /** Every chain but that of `but` is well-formed. */
  ghost predicate OthersOk(links: seq<u32>, chains: map<Key, seq<nat>>, but: Key)
  {
    forall k | k in chains && k != but :: ChainOk(links, chains[k])
  }

  /** A change of the entry of `c`, used by `but` or by nobody, leaves the other chains as they were. */
  lemma OthersKept(links: seq<u32>, chains: map<Key, seq<nat>>, owner: map<nat, Use<Key>>, but: Key, c: nat, v: u32)
    requires OwnedBy(chains, owner, |links|) && OthersOk(links, chains, but)
    requires c < |links| && (c in owner && owner[c].At? ==> owner[c].file == but)
    ensures OthersOk(links[c := v], chains, but)
  {
    forall k | k in chains && k != but
      ensures ChainOk(links[c := v], chains[k])
    {
      assert forall i | 0 <= i < |chains[k]| :: owner[chains[k][i]] == At(k, i);
      ChainKept(links, links[c := v], chains[k]);
    }
  }

  lemma OthersMoved(links: seq<u32>, chains: map<Key, seq<nat>>, but: Key, chain: seq<nat>)
    requires OthersOk(links, chains, but)
    ensures OthersOk(links, chains[but := chain], but)
  {
  }

  /** Appending an ended cluster to a chain, by overwriting the end mark. */
  lemma AppendOk(links: seq<u32>, chain: seq<nat>, c: u32)
    requires ChainOk(links, chain) && chain != [] && Distinct(chain) && c !in chain
    requires 2 <= c < |links| && links[c] >= EOC
    ensures ChainOk(links[chain[|chain| - 1] := c], chain + [c])
  {
    var links' := links[chain[|chain| - 1] := c];
    LinkedFrame(links, links', chain, false);
    LinkedAppend(links', chain, false, c);
  }

  lemma EmptyChain(links: seq<u32>)
    ensures ChainOk(links, [])
  {
  }

  lemma EmptyStored(heap: seq<seq<byte>>, chains: map<Key, seq<nat>>, key: Key)
    requires key in chains && chains[key] == []
    ensures Stored(heap, chains, CLUSTER)[key] == []
  {
  }

  /** The bytes followed by the zeros that fill their last cluster. */
  ghost function Padded(data: seq<byte>): seq<byte>
  {
    data + Zeros(DivRoundUp(|data|, CLUSTER) * CLUSTER - |data|)
  }

  class Fat32 {
    const total: nat
    const counting: bool
    var fat: seq<u32>
    var heap: seq<seq<byte>>
    var freeClusters: u32
    ghost var links: seq<u32>                // the FAT entries without their upper four bits
    ghost var chains: map<Key, seq<nat>>
    ghost var owner: map<nat, Use<Key>>
    ghost var dirs: set<Key>                 // the directories
    ghost var damaged: set<Key>              // directory entries left pointing into the data of a file

    ghost predicate Table()
      reads this`fat, this`links, this`heap, this`freeClusters, this`chains, this`owner
    {
      && total + 2 <= BAD && |fat| == |links| == total + 2 && |heap| == total
      && (forall c | 0 <= c < |fat| :: links[c] == fat[c] % MASK)
      && HeapOk(heap, CLUSTER)
    }

    /** The cached count is the number of free FAT entries, unless it has been unknown from the start. */
    ghost predicate Counted()
      requires |links| == total + 2
      reads this`fat, this`links, this`heap, this`freeClusters, this`chains, this`owner
    {
      if counting then freeClusters == CountFree(InUse(links, total)) else freeClusters == UNKNOWN
    }

    ghost predicate Base()
      reads this`fat, this`links, this`heap, this`freeClusters, this`chains, this`owner
    {
      && Table() && Counted()
      && OwnedBy(chains, owner, total + 2) && Marks(InUse(links, total), owner)
    }

    constructor (total: nat, fat: seq<u32>, heap: seq<seq<byte>>, freeClusters: u32,
                 ghost chains: map<Key, seq<nat>>, ghost owner: map<nat, Use<Key>>)
      ensures this.total == total && this.fat == fat && this.heap == heap && this.freeClusters == freeClusters
      ensures this.chains == chains && this.owner == owner && counting == (freeClusters != UNKNOWN)
      ensures dirs == {Root} && damaged == {}
      ensures |links| == |fat| && forall c | 0 <= c < |fat| :: links[c] == fat[c] % MASK
    {
      this.total, this.fat, this.heap, this.freeClusters := total, fat, heap, freeClusters;
      this.chains, this.owner, counting := chains, owner, freeClusters != UNKNOWN;
      dirs, damaged := {Root}, {};
      links := seq(|fat|, c requires 0 <= c < |fat| => fat[c] % MASK);
    }

    /** fat32_get_next_cluster */
    method GetNext(c: nat) returns (next: u32)
      requires Table() && c < total + 2
      ensures next == links[c] == fat[c] % 0x1000_0000
    {
      next := fat[c] % MASK;
    }

    /** fat32_set_next_cluster on the first FAT */
    method SetNext(c: nat, next: u32)
      requires Table() && c < total + 2
      modifies this`fat, this`links
      ensures Table() && links == old(links)[c := next % MASK]
      ensures fat == old(fat)[c := fat[c]]
      ensures fat[c] / 0x1000_0000 == old(fat)[c] / 0x1000_0000 && fat[c] % 0x1000_0000 == next % 0x1000_0000
    {
      fat := fat[c := WithNext(fat[c], next)];
      links := links[c := next % MASK];
    }

    /** The search of fat32_allocate_cluster; 0 when no cluster is free. */
    method FirstFree() returns (cluster: nat)
      requires Table()
      ensures cluster == 0 <==> CountFree(InUse(links, total)) == 0
      ensures cluster != 0 ==> 2 <= cluster < total + 2 && links[cluster] == FREE
      ensures forall c | 2 <= c < cluster :: links[c] != FREE
    {
      ghost var bits := InUse(links, total);
      cluster := 2;
      while cluster < total + 2
        invariant 2 <= cluster <= total + 2
        invariant forall c | 2 <= c < cluster :: links[c] != FREE && bits[c - 2]
      {
        var next := GetNext(cluster);
        if next == FREE {
          CountFreeSet(bits, cluster - 2);
          return;
        }
        cluster := cluster + 1;
      }
      assert forall k | 0 <= k < |bits| :: bits[k] == (links[k + 2] != FREE);
      CountFreeZero(bits);
      return 0;
    }

    /** fat32_allocate_cluster: the first free cluster, marked as the end of a chain; 0 when there is none. */
    method AllocateCluster() returns (cluster: nat)
      requires Base()
      modifies this`fat, this`links, this`freeClusters, this`owner
      ensures Base()
      ensures cluster == 0 <==> CountFree(InUse(old(links), total)) == 0
      ensures cluster == 0 ==> links == old(links) && owner == old(owner)
      ensures cluster != 0 ==>
                && 2 <= cluster < total + 2 && cluster !in old(owner)
                && links == old(links)[cluster := EOC] && owner == old(owner)[cluster := Reserved]
                && CountFree(InUse(links, total)) == CountFree(InUse(old(links), total)) - 1
                && 0x0fff_fff8 <= links[cluster] < 0x1000_0000
                && forall c | 2 <= c < cluster :: old(links)[c] != FREE
    {
      cluster := FirstFree();
      if cluster != 0 {
        ghost var bits := InUse(links, total);
        InUseSet(links, total, cluster, EOC);
        CountFreeSet(bits, cluster - 2);
        CountFreeBound(bits);
        OwnedReserve(chains, owner, total + 2, bits, cluster - 2);
        SetNext(cluster, EOC);
        if freeClusters != UNKNOWN && freeClusters > 0 {
          freeClusters := freeClusters - 1;
        }
        owner := owner[cluster := Reserved];
      }
    }

    /** fat32_free_cluster */
    method FreeCluster(c: nat)
      requires Base() && c in owner && owner[c] == Reserved
      modifies this`fat, this`links, this`freeClusters, this`owner
      ensures Base() && links == old(links)[c := FREE] && owner == old(owner) - {c}
      ensures CountFree(InUse(links, total)) == CountFree(InUse(old(links), total)) + 1
    {
      ghost var bits := InUse(links, total);
      OwnedFree(chains, owner, total + 2, bits, c - 2);
      InUseSet(links, total, c, FREE);
      SetNext(c, FREE);
      owner := owner - {c};
      assert InUse(links, total)[c - 2 := true] == bits;
      CountFreeSet(InUse(links, total), c - 2);
      CountFreeBound(InUse(links, total));
      CountFreeBound(bits);
      if freeClusters != UNKNOWN {
        freeClusters := freeClusters + 1;
      }
    }

    /** Clusters cut loose from an entry and not freed yet. */
    ghost predicate Loose(tail: seq<nat>)
      reads this`links, this`owner
    {
      && ChainOk(links, tail) && Distinct(tail)
      && forall i | 0 <= i < |tail| :: tail[i] in owner && owner[tail[i]] == Reserved
    }

    /** One round of the freeing loop. */
    method FreeHead(cluster: nat, ghost tail: seq<nat>, ghost but: Key) returns (next: u32)
      requires Base() && OthersOk(links, chains, but) && tail != [] && cluster == tail[0] && Loose(tail)
      modifies this`fat, this`links, this`freeClusters, this`owner
      ensures Base() && OthersOk(links, chains, but) && Loose(tail[1..])
      ensures if |tail| > 1 then next == tail[1] else next >= EOC
      ensures owner - Elements(tail[1..]) == old(owner) - Elements(tail)
      ensures CountFree(InUse(links, total)) == CountFree(InUse(old(links), total)) + 1
      ensures links == old(links)[cluster := FREE]
    {
      hide OwnedBy, Marks, CountFree;
      next := GetNext(cluster);
      CutHead(links, tail, false, FREE);
      Uncovered(owner, tail);
      OthersKept(links, chains, owner, but, cluster, FREE);
      FreeCluster(cluster);
    }

    /** The loop that frees the clusters of an entry (fat32_write_file_in, fat32_delete_file). */
    method FreeLoop(first: u32, ghost rest: seq<nat>, ghost but: Key)
      requires Base() && OthersOk(links, chains, but) && Loose(rest)
      requires if rest == [] then first < 2 || first >= EOC else first == rest[0]
      modifies this`fat, this`links, this`freeClusters, this`owner
      ensures Base() && OthersOk(links, chains, but)
      ensures owner == old(owner) - Elements(rest)
      ensures CountFree(InUse(links, total)) == CountFree(InUse(old(links), total)) + |rest|
    {
      hide OwnedBy, Marks, CountFree, Linked, Ended;
      var cluster := first;
      ghost var tail := rest;
      while cluster >= 2 && cluster < EOC
        invariant Base() && OthersOk(links, chains, but) && Loose(tail)
        invariant if tail == [] then cluster < 2 || cluster >= EOC else cluster == tail[0]
        invariant owner - Elements(tail) == old(owner) - Elements(rest)
        invariant CountFree(InUse(links, total)) == CountFree(InUse(old(links), total)) + |rest| - |tail|
        decreases |tail|
      {
        cluster := FreeHead(cluster, tail, but);
        tail := tail[1..];
      }
      assert tail == [];
      assert owner == owner - Elements(tail);
    }

    /** Frees the whole chain of an entry. */
    method FreeChain(first: u32, ghost key: Key)
      requires Base() && OthersOk(links, chains, key) && key in chains && ChainOk(links, chains[key])
      requires if chains[key] == [] then first < 2 || first >= EOC else first == chains[key][0]
      modifies this`fat, this`links, this`freeClusters, this`owner, this`chains
      ensures Base() && OthersOk(links, chains, key)
      ensures chains == old(chains)[key := []] && owner == old(owner) - Elements(old(chains)[key])
      ensures CountFree(InUse(links, total)) == CountFree(InUse(old(links), total)) + |old(chains)[key]|
    {
      hide OwnedBy, CountFree;
      ghost var chain := chains[key];
      assert chain[0..] == chain && chain[..0] == [];
      CutReserved(chains, owner, total + 2, key, 0);
      OwnedCut(chains, owner, total + 2, key, 0);
      ReleasedKeys(owner, key, 0);
      owner := Released(owner, key, 0);
      chains := chains[key := []];
      FreeLoop(first, chain, key);
    }

    ghost function Contents(): (m: map<Key, seq<byte>>)
      reads this`heap, this`chains
      ensures m.Keys == chains.Keys
    {
      Stored(heap, chains, CLUSTER)
    }

    /** Links a cluster just allocated behind `prev`, the last cluster of `key` (0 when there is none yet). */
    method Link(prev: nat, cluster: u32, ghost key: Key)
      requires Base() && OthersOk(links, chains, key) && key in chains && ChainOk(links, chains[key])
      requires cluster in owner && owner[cluster] == Reserved && links[cluster] == EOC
      requires if chains[key] == [] then prev == 0 else prev == chains[key][|chains[key]| - 1]
      modifies this`fat, this`links, this`owner, this`chains
      ensures chains == old(chains)[key := old(chains)[key] + [cluster]]
      ensures Base() && OthersOk(links, chains, key) && ChainOk(links, chains[key])
      ensures owner == old(owner)[cluster := At(key, |old(chains)[key]|)]
      ensures InUse(links, total) == InUse(old(links), total)
    {
      hide OwnedBy, Marks, CountFree;
      ghost var chain := chains[key];
      MarksKept(chains, owner, total + 2, InUse(links, total), cluster, At(key, |chain|));
      OwnedAppend(chains, owner, total + 2, key, cluster);
      if prev != 0 {
        LastOwned(chains, owner, total + 2, key);
        OthersKept(links, chains, owner, key, prev, cluster);
        InUseSet(links, total, prev, cluster);
        OwnedChain(chains, owner, total + 2, key);
        Unused(chains, owner, total + 2, key, cluster);
        AppendOk(links, chain, cluster);
        SetNext(prev, cluster);
        assert InUse(links, total) == InUse(old(links), total);
      } else {
        LinkedSingle(links, cluster, false);
        assert chain + [cluster] == [cluster];
      }
      OthersMoved(links, chains, key, chain + [cluster]);
      owner := owner[cluster := At(key, |chain|)];
      chains := chains[key := chain + [cluster]];
    }

    /** fat32_allocate_cluster while the chain of `key` is being built */
    method AllocateFor(ghost key: Key) returns (cluster: u32)
      requires Base() && OthersOk(links, chains, key) && key in chains && ChainOk(links, chains[key])
      modifies this`fat, this`links, this`freeClusters, this`owner
      ensures Base() && OthersOk(links, chains, key) && ChainOk(links, chains[key])
      ensures cluster == 0 <==> CountFree(InUse(old(links), total)) == 0
      ensures cluster == 0 ==> links == old(links) && owner == old(owner)
      ensures cluster != 0 ==>
                && cluster !in old(owner) && owner == old(owner)[cluster := Reserved]
                && 2 <= cluster < total + 2 && links[cluster] == EOC
                && CountFree(InUse(links, total)) == CountFree(InUse(old(links), total)) - 1
    {
      hide Marks, CountFree;
      cluster := AllocateCluster();
      if cluster != 0 {
        Unused(chains, old(owner), total + 2, key, cluster);
        OthersKept(old(links), chains, old(owner), key, cluster, EOC);
        ChainKept(old(links), links, chains[key]);
      }
    }

    /** One round of the data loop of fat32_write_file_in: a cluster, linked and filled; 0 when the disk is full. */
    method AppendCluster(prev: nat, buffer: seq<byte>, ghost key: Key) returns (cluster: u32)
      requires Base() && OthersOk(links, chains, key) && key in chains && ChainOk(links, chains[key])
      requires if chains[key] == [] then prev == 0 else prev == chains[key][|chains[key]| - 1]
      requires |buffer| == CLUSTER
      modifies this`fat, this`links, this`freeClusters, this`owner, this`chains, this`heap
      ensures cluster == 0 <==> CountFree(InUse(old(links), total)) == 0
      ensures chains == if cluster == 0 then old(chains) else old(chains)[key := old(chains)[key] + [cluster]]
      ensures Base() && OthersOk(links, chains, key) && ChainOk(links, chains[key])
      ensures CountFree(InUse(links, total)) == CountFree(InUse(old(links), total)) - if cluster == 0 then 0 else 1
      ensures Contents() ==
              if cluster == 0 then old(Contents()) else old(Contents())[key := old(Contents())[key] + buffer]
      ensures if cluster == 0 then owner == old(owner)
              else cluster !in old(owner) && owner == old(owner)[cluster := At(key, |old(chains)[key]|)]
    {
      hide OwnedBy, Marks, CountFree, ChainOk, Stored;
      cluster := AllocateFor(key);
      if cluster == 0 {
        return;
      }
      StoredAppend(heap, chains, owner, CLUSTER, key, cluster, buffer);
      Link(prev, cluster, key);
      heap := heap[cluster - 2 := buffer];
    }

    /** The data loop of fat32_write_file_in, for an entry whose clusters are free. */
    method WriteClusters(data: seq<byte>, ghost key: Key) returns (ok: bool, first: u32)
      requires Base() && OthersOk(links, chains, key) && key in chains && chains[key] == []
      modifies this`fat, this`links, this`freeClusters, this`owner, this`chains, this`heap
      ensures key in chains && chains == old(chains)[key := chains[key]]
      ensures Base() && OthersOk(links, chains, key) && ChainOk(links, chains[key])
      ensures ok <==> DivRoundUp(|data|, CLUSTER) <= CountFree(InUse(old(links), total))
      ensures first == if chains[key] == [] then 0 else chains[key][0]
      ensures CountFree(InUse(links, total)) == CountFree(InUse(old(links), total)) - |chains[key]|
      ensures Contents() == old(Contents())[key := Contents()[key]]
      ensures owner - Elements(chains[key]) == old(owner)
      ensures !ok ==> CountFree(InUse(links, total)) == 0 && Contents()[key] <= data
      ensures ok ==> |chains[key]| == DivRoundUp(|data|, CLUSTER) && Contents()[key] == Padded(data)
    {
      hide OwnedBy, Marks, CountFree, ChainOk, Stored, Progress, Padded, DivRoundUp;
      ProgressStart(data);
      var done, prev := 0, 0;
      first := 0;
      EmptyChain(links);
      EmptyStored(heap, chains, key);
      assert owner - Elements([]) == owner;
      while done < |data|
        invariant key in chains && chains == old(chains)[key := chains[key]]
        invariant Progress(data, done, |chains[key]|, Contents()[key])
        invariant Base() && OthersOk(links, chains, key) && ChainOk(links, chains[key])
        invariant if chains[key] == [] then first == 0 else 0 < first == chains[key][0]
        invariant if chains[key] == [] then prev == 0 else prev == chains[key][|chains[key]| - 1]
        invariant CountFree(InUse(links, total)) == CountFree(InUse(old(links), total)) - |chains[key]|
        invariant Contents() == old(Contents())[key := Contents()[key]]
        invariant owner - Elements(chains[key]) == old(owner)
        decreases |data| - done
      {
        ProgressShort(data, done, |chains[key]|, Contents()[key]);
        var chunk := Min(|data| - done, CLUSTER);
        var buffer := data[done..done + chunk] + Zeros(CLUSTER - chunk);
        ghost var chain, uses := chains[key], owner;
        ProgressStep(data, done, |chain|, Contents()[key], buffer);
        ghost var chains1, contents1 := chains, Contents();
        var cluster := AppendCluster(prev, buffer, key);
        if cluster == 0 {
          return false, first;
        }
        Gathered(uses, old(owner), chain, cluster, At(key, |chain|));
        ChangedTwice(old(chains), chains1, chains, key);
        ChangedTwice(old(Contents()), contents1, Contents(), key);
        if first == 0 {
          first := cluster;
        }
        done := done + chunk;
        prev := cluster;
      }
      ProgressEnd(data, done, |chains[key]|, Contents()[key]);
      return true, first;
    }
  }

  /** `n` clusters hold the first `done` bytes of the data, all of it padded. */
  ghost predicate Progress(data: seq<byte>, done: nat, n: nat, bytes: seq<byte>) {
    && done <= |data| && (if done < |data| then done == CLUSTER * n else n == DivRoundUp(|data|, CLUSTER))
    && bytes == if done < |data| then data[..done] else Padded(data)
  }

  lemma ProgressStart(data: seq<byte>)
    ensures Progress(data, 0, 0, [])
  {
  }

  lemma ProgressShort(data: seq<byte>, done: nat, n: nat, bytes: seq<byte>)
    requires Progress(data, done, n, bytes) && done < |data|
    ensures n < DivRoundUp(|data|, CLUSTER) && bytes <= data
  {
    DivRoundUpBounds(|data|, CLUSTER);
    hide DivRoundUp, Padded;
  }

  lemma ProgressEnd(data: seq<byte>, done: nat, n: nat, bytes: seq<byte>)
    requires Progress(data, done, n, bytes) && done >= |data|
    ensures n == DivRoundUp(|data|, CLUSTER) && bytes == Padded(data)
  {
  }

  lemma ProgressStep(data: seq<byte>, done: nat, n: nat, bytes: seq<byte>, buffer: seq<byte>)
    requires Progress(data, done, n, bytes) && done < |data|
    requires var chunk := Min(|data| - done, CLUSTER); buffer == data[done..done + chunk] + Zeros(CLUSTER - chunk)
    ensures Progress(data, done + Min(|data| - done, CLUSTER), n + 1, bytes + buffer)
  {
    if |data| - done <= CLUSTER {
      DivRoundUpBounds(|data|, CLUSTER);
      hide DivRoundUp;
      assert DivRoundUp(|data|, CLUSTER) == n + 1;
      assert bytes + buffer == Padded(data);
    }
  }
}
