/** Runs of truncations, writes and reads over any set of files of one volume. */
module VolumeRuns {
  import opened Bytes
  import opened ClusterBitmap
  import opened ClusterStore
  import opened ExfatVolume
  import opened FileIo
  import opened FlatFile

  /** One call, on the file with the given number. */
  datatype Call =
    | Trunc(file: nat, size: nat, erase: bool)
    | Write(file: nat, data: seq<byte>, offset: int)
    | Read(file: nat, count: nat, offset: int)

  /** The flat files and the number of free clusters. */
  datatype State = State(files: seq<File>, free: nat)

  /** The call names a file and asks for no more than a 32-bit cluster count can tell. */
  predicate Allowed(call: Call, n: nat, cs: nat)
  {
    call.file < n &&
    match call
    case Trunc(_, size, _) => size <= MaxSize(cs)
    case Write(_, data, offset) => offset + |data| <= MaxSize(cs)
    case Read(_, _, _) => true
  }

  /** What a call returns: its result, and the bytes a read gives. */
  datatype Reply = Reply(rc: int, data: seq<byte>)

  /** What a call may do to the flat files; only a write across a gap leaves a choice, in the gap. */
  ghost predicate Step(cs: nat, s: State, call: Call, r: Reply, s': State)
  {
    cs > 0 && call.file < |s.files| == |s'.files| &&
    (forall i | 0 <= i < |s.files| && i != call.file :: s'.files[i] == s.files[i]) &&
    var f, f' := s.files[call.file], s'.files[call.file];
    match call
    case Trunc(_, size, erase) => r.data == [] && Outcome(f', s'.free, r.rc) == Truncated(cs, f, s.free, size, erase)
    case Read(_, count, offset) =>
      s' == s && if offset < 0 then r == Reply(-EINVAL, [])
                 else
                   && r.rc == |r.data| == (if offset >= |f.bytes| then 0 else Min(count, |f.bytes| - offset))
                   && forall i | 0 <= i < |r.data| :: r.data[i] == f.bytes[offset + i]
    case Write(_, data, offset) =>
      r.data == [] &&
      if offset < 0 then s' == s && r.rc == -EINVAL
      else
        var o := Wrote(cs, f, s.free, data, offset);
        && r.rc == o.rc && s'.free == o.free && f'.valid == o.file.valid && |f'.bytes| == |o.file.bytes|
        && forall i | 0 <= i < |f'.bytes| ::
             f'.bytes[i] != o.file.bytes[i] ==> r.rc > 0 && Gap(f, offset) && f.valid <= i < offset
  }

  ghost function StateOf(vol: Volume, nodes: seq<Node>): (s: State)
    requires forall n | n in nodes :: n in vol.chains
    reads vol, vol.store, vol.cmap, nodes
    ensures |s.files| == |nodes|
  {
    State(seq(|nodes|, i requires 0 <= i < |nodes| && nodes[i] in vol.chains reads vol, vol.store, nodes =>
            vol.Flat(nodes[i])), CountFree(vol.cmap.bits))
  }

  ghost predicate Files(vol: Volume, nodes: seq<Node>)
    reads vol
  {
    && (forall n | n in nodes :: n in vol.chains)
    && forall i, j | 0 <= i < j < |nodes| :: nodes[i] != nodes[j]
  }

  /** Every call is a step of the flat files, whatever came before it. */
  method Apply(vol: Volume, nodes: seq<Node>, call: Call) returns (r: Reply)
    requires vol.Valid() && Files(vol, nodes)
    requires vol.store.ClusterSize() > 0 && Allowed(call, |nodes|, vol.store.ClusterSize())
    modifies vol`owner, vol`chains, vol.store`fat, vol.store`heap, vol.store.dev, vol.cmap`bits, vol.cmap.words, nodes
    ensures vol.Valid() && Files(vol, nodes)
    ensures Step(vol.store.ClusterSize(), old(StateOf(vol, nodes)), call, r, StateOf(vol, nodes))
  {
    hide Volume.Valid, Volume.Contents, Store.ClusterSize, CountFree, View, MaxSize, Truncated, Wrote, ReadOf;
    match call {
      case Trunc(_, _, _) => r := ApplyTrunc(vol, nodes, call);
      case Read(_, count, offset) =>
        var rc, data := Pread(vol, nodes[call.file], count, offset);
        r := Reply(rc, data);
      case Write(_, _, _) => r := ApplyWrite(vol, nodes, call);
    }
  }

  method ApplyTrunc(vol: Volume, nodes: seq<Node>, call: Call) returns (r: Reply)
    requires vol.Valid() && Files(vol, nodes) && call.Trunc?
    requires vol.store.ClusterSize() > 0 && Allowed(call, |nodes|, vol.store.ClusterSize())
    modifies vol`owner, vol`chains, vol.store`fat, vol.store`heap, vol.store.dev, vol.cmap`bits, vol.cmap.words, nodes
    ensures vol.Valid() && Files(vol, nodes)
    ensures Step(vol.store.ClusterSize(), old(StateOf(vol, nodes)), call, r, StateOf(vol, nodes))
  {
    hide Volume.Valid, Volume.Contents, Store.ClusterSize, CountFree, View, MaxSize, Truncated, Wrote, ReadOf;
    var rc := Truncate(vol, nodes[call.file], call.size, call.erase);
    r := Reply(rc, []);
    assert vol.chains.Keys == vol.Contents().Keys == old(vol.chains.Keys);
  }

  method ApplyWrite(vol: Volume, nodes: seq<Node>, call: Call) returns (r: Reply)
    requires vol.Valid() && Files(vol, nodes) && call.Write?
    requires vol.store.ClusterSize() > 0 && Allowed(call, |nodes|, vol.store.ClusterSize())
    modifies vol`owner, vol`chains, vol.store`fat, vol.store`heap, vol.store.dev, vol.cmap`bits, vol.cmap.words, nodes
    ensures vol.Valid() && Files(vol, nodes)
    ensures Step(vol.store.ClusterSize(), old(StateOf(vol, nodes)), call, r, StateOf(vol, nodes))
  {
    hide Volume.Valid, Volume.Contents, Store.ClusterSize, CountFree, View, MaxSize, Truncated, Wrote, ReadOf;
    var rc := Pwrite(vol, nodes[call.file], call.data, call.offset);
    r := Reply(rc, []);
    assert vol.chains.Keys == vol.Contents().Keys == old(vol.chains.Keys);
  }

  ghost predicate StepAt(cs: nat, calls: seq<Call>, replies: seq<Reply>, trace: seq<State>, i: nat)
    requires i < |calls| == |replies| && |trace| == |calls| + 1
  {
    Step(cs, trace[i], calls[i], replies[i], trace[i + 1])
  }

  /** A sequence of states, one call apart. */
  ghost predicate IsRun(cs: nat, calls: seq<Call>, replies: seq<Reply>, trace: seq<State>)
  {
    && |replies| == |calls| && |trace| == |calls| + 1
    && forall i | 0 <= i < |calls| :: StepAt(cs, calls, replies, trace, i)
  }

  lemma RunExtend(cs: nat, calls: seq<Call>, k: nat, replies: seq<Reply>, trace: seq<State>)
    requires k < |calls| && |replies| == k + 1 && |trace| == k + 2
    requires IsRun(cs, calls[..k], replies[..k], trace[..k + 1]) && Step(cs, trace[k], calls[k], replies[k], trace[k + 1])
    ensures IsRun(cs, calls[..k + 1], replies, trace)
  {
    hide Step;
    var prefix := calls[..k + 1];
    forall i: nat | i < |prefix|
      ensures StepAt(cs, prefix, replies, trace, i)
    {
      if i < k { assert StepAt(cs, calls[..k], replies[..k], trace[..k + 1], i); }
    }
  }

  /** Any sequence of calls keeps the volume valid and is a run of the flat files. */
  method Run(vol: Volume, nodes: seq<Node>, calls: seq<Call>) returns (replies: seq<Reply>, ghost trace: seq<State>)
    requires vol.Valid() && Files(vol, nodes) && vol.store.ClusterSize() > 0
    requires forall i | 0 <= i < |calls| :: Allowed(calls[i], |nodes|, vol.store.ClusterSize())
    modifies vol`owner, vol`chains, vol.store`fat, vol.store`heap, vol.store.dev, vol.cmap`bits, vol.cmap.words, nodes
    ensures vol.Valid() && Files(vol, nodes)
    ensures IsRun(vol.store.ClusterSize(), calls, replies, trace)
    ensures trace[0] == old(StateOf(vol, nodes)) && trace[|calls|] == StateOf(vol, nodes)
  {
    hide Volume.Valid, Store.ClusterSize, Step, StateOf, Allowed;
    replies, trace := [], [StateOf(vol, nodes)];
    for k := 0 to |calls|
      invariant vol.Valid() && Files(vol, nodes)
      invariant IsRun(vol.store.ClusterSize(), calls[..k], replies, trace)
      invariant trace[0] == old(StateOf(vol, nodes)) && trace[k] == StateOf(vol, nodes)
    {
      var r := Apply(vol, nodes, calls[k]);
      replies := replies + [r];
      trace := trace + [StateOf(vol, nodes)];
      RunExtend(vol.store.ClusterSize(), calls, k, replies, trace);
    }
    assert calls[..|calls|] == calls;
  }

  /** The clusters all files together hold. */
  ghost function Used(cs: nat, files: seq<File>): nat
    requires cs > 0
  {
    if files == [] then 0
    else Used(cs, files[..|files| - 1]) + DivRoundUp(|files[|files| - 1].bytes|, cs)
  }

  lemma {:induction false} UsedChange(cs: nat, files: seq<File>, files': seq<File>, k: nat)
    requires cs > 0 && k < |files| == |files'|
    requires forall i | 0 <= i < |files| && i != k :: files'[i] == files[i]
    ensures Used(cs, files') - Used(cs, files) ==
            DivRoundUp(|files'[k].bytes|, cs) - DivRoundUp(|files[k].bytes|, cs)
  {
    hide DivRoundUp;
    var n := |files| - 1;
    if k == n {
      assert files'[..n] == files[..n];
    } else {
      UsedChange(cs, files[..n], files'[..n], k);
    }
  }

  /** Free and used clusters together never change, whether calls succeed or fail. */
  lemma StepConserves(cs: nat, s: State, call: Call, r: Reply, s': State)
    requires cs > 0 && Step(cs, s, call, r, s')
    ensures s'.free + Used(cs, s'.files) == s.free + Used(cs, s.files)
  {
    hide DivRoundUp, Truncated, Wrote, ReadOf, Used;
    UsedChange(cs, s.files, s'.files, call.file);
    var f := s.files[call.file];
    match call {
      case Trunc(_, size, erase) => TruncatedConserves(cs, f, s.free, size, erase);
      case Write(_, data, offset) => if offset >= 0 { WroteConserves(cs, f, s.free, data, offset); }
      case Read(_, _, _) =>
    }
  }

  lemma TruncatedConserves(cs: nat, f: File, free: nat, size: nat, erase: bool)
    requires cs > 0
    ensures var o := Truncated(cs, f, free, size, erase);
            o.free + DivRoundUp(|o.file.bytes|, cs) == free + DivRoundUp(|f.bytes|, cs)
  {
    hide DivRoundUp;
  }

  lemma WroteConserves(cs: nat, f: File, free: nat, data: seq<byte>, off: nat)
    requires cs > 0
    ensures var o := Wrote(cs, f, free, data, off);
            o.free + DivRoundUp(|o.file.bytes|, cs) == free + DivRoundUp(|f.bytes|, cs)
  {
    hide DivRoundUp;
    TruncatedConserves(cs, f, free, off, true);
    var o1 := if off > |f.bytes| then Truncated(cs, f, free, off, true) else Outcome(f, free, 0);
    TruncatedConserves(cs, o1.file, o1.free, off + |data|, false);
    hide Truncated;
  }

  lemma {:induction false} RunConserves(cs: nat, calls: seq<Call>, replies: seq<Reply>, trace: seq<State>, k: nat)
    requires cs > 0 && IsRun(cs, calls, replies, trace) && k <= |calls|
    ensures trace[k].free + Used(cs, trace[k].files) == trace[0].free + Used(cs, trace[0].files)
  {
    hide Step;
    if k > 0 {
      RunConserves(cs, calls, replies, trace, k - 1);
      assert StepAt(cs, calls, replies, trace, k - 1);
      StepConserves(cs, trace[k - 1], calls[k - 1], replies[k - 1], trace[k]);
    }
  }
}
