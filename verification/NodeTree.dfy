/** The in-memory tree of directory nodes (fs/exfat/node.c): doubly linked
  * child lists, and the rename that moves a node from one to another. */
module NodeTree {

  class TreeNode {
    var parent: TreeNode?
    var child: TreeNode?
    var next: TreeNode?
    var prev: TreeNode?
    const isDir: bool
    var key: seq<nat>          // the name, in upper case

    constructor (isDir: bool, key: seq<nat>)
      ensures parent == null && child == null && next == null && prev == null
      ensures this.isDir == isDir && this.key == key
    {
      this.isDir, this.key := isDir, key;
      parent, child, next, prev := null, null, null, null;
    }
  }

  // ---- parents, as a map ----

  /** Every step up is a step down in rank. */
  ghost predicate Ranked(up: map<TreeNode, TreeNode>, rank: map<TreeNode, nat>) {
    forall n :: n in up ==> n in rank && up[n] in rank && rank[up[n]] < rank[n]
  }

  /** `n` is `m` or lies beneath it. */
  ghost predicate Under(up: map<TreeNode, TreeNode>, rank: map<TreeNode, nat>, n: TreeNode, m: TreeNode)
    requires Ranked(up, rank) && n in rank
    decreases rank[n]
  {
    n == m || (n in up && Under(up, rank, up[n], m))
  }

  /** The ancestor `k` steps up. */
  ghost function Climb(up: map<TreeNode, TreeNode>, n: TreeNode, k: nat): TreeNode {
    if k == 0 then n
    else
      var p := Climb(up, n, k - 1);
      if p in up then up[p] else p
  }

  /** A ranked map with one root is a tree: every node climbs to the root. */
  lemma {:induction false} ClimbsToRoot(up: map<TreeNode, TreeNode>, rank: map<TreeNode, nat>, root: TreeNode, n: TreeNode)
    requires Ranked(up, rank) && n in rank && forall m :: m in rank && m !in up ==> m == root
    ensures exists k: nat :: Climb(up, n, k) == root
    decreases rank[n]
  {
    if n in up {
      ClimbsToRoot(up, rank, root, up[n]);
      var k: nat :| Climb(up, up[n], k) == root;
      ClimbFirst(up, n, k);
      assert Climb(up, n, k + 1) == root;
    } else {
      assert Climb(up, n, 0) == root;
    }
  }

  lemma {:induction false} ClimbFirst(up: map<TreeNode, TreeNode>, n: TreeNode, k: nat)
    requires n in up
    ensures Climb(up, n, k + 1) == Climb(up, up[n], k)
  {
    if k > 0 { ClimbFirst(up, n, k - 1); } else { assert Climb(up, n, 0) == n; }
  }

  /** The ranks once `m` hangs under `d`: everything beneath `m` is lifted. */
  ghost function Lifted(up: map<TreeNode, TreeNode>, rank: map<TreeNode, nat>, m: TreeNode, d: TreeNode): map<TreeNode, nat>
    requires Ranked(up, rank) && d in rank
  {
    map n | n in rank :: if Under(up, rank, n, m) then rank[n] + rank[d] + 1 else rank[n]
  }

  /** Hanging a parentless node under a node outside it makes no cycle. */
  lemma AttachRanked(up: map<TreeNode, TreeNode>, rank: map<TreeNode, nat>, m: TreeNode, d: TreeNode)
    requires Ranked(up, rank) && m in rank && m !in up && d in rank && !Under(up, rank, d, m)
    ensures Ranked(up[m := d], Lifted(up, rank, m, d))
  {
  }

  lemma DetachRanked(up: map<TreeNode, TreeNode>, rank: map<TreeNode, nat>, m: TreeNode)
    requires Ranked(up, rank)
    ensures Ranked(up - {m}, rank)
  {
  }

  /** Cutting `m` off does not put anything beneath it that was not. */
  lemma {:induction false} DetachUnder(up: map<TreeNode, TreeNode>, rank: map<TreeNode, nat>, m: TreeNode, n: TreeNode)
    requires Ranked(up, rank) && Ranked(up - {m}, rank) && n in rank
    ensures Under(up - {m}, rank, n, m) == Under(up, rank, n, m)
    decreases rank[n]
  {
    if n != m && n in up { DetachUnder(up, rank, m, up[n]); }
  }

  lemma {:induction false} RemoveUnder(up: map<TreeNode, TreeNode>, rank: map<TreeNode, nat>, x: TreeNode, m: TreeNode, n: TreeNode)
    requires Ranked(up, rank) && n in rank && n != x && forall c :: c in up ==> up[c] != x
    requires Ranked(up - {x}, rank - {x})
    ensures Under(up - {x}, rank - {x}, n, m) == Under(up, rank, n, m)
    decreases rank[n]
  {
    if n != m && n in up { RemoveUnder(up, rank, x, m, up[n]); }
  }

  /** Nothing lies beneath a node that is no node's parent. */
  lemma {:induction false} LeafUnder(up: map<TreeNode, TreeNode>, rank: map<TreeNode, nat>, m: TreeNode, n: TreeNode)
    requires Ranked(up, rank) && n in rank && n != m && forall c :: c in up ==> up[c] != m
    ensures !Under(up, rank, n, m)
    decreases rank[n]
  {
    if n in up { LeafUnder(up, rank, m, up[n]); }
  }

  /** Everything lies beneath the root. */
  lemma {:induction false} RootUnder(up: map<TreeNode, TreeNode>, rank: map<TreeNode, nat>, root: TreeNode, n: TreeNode)
    requires Ranked(up, rank) && n in rank && forall c :: c in rank && c !in up ==> c == root
    ensures Under(up, rank, n, root)
    decreases rank[n]
  {
    if n in up { RootUnder(up, rank, root, up[n]); }
  }

  // ---- child lists ----

  function At(s: seq<TreeNode>, i: int): TreeNode? { if 0 <= i < |s| then s[i] else null }

  ghost predicate Distinct(s: seq<TreeNode>) { forall i, j :: 0 <= i < j < |s| ==> s[i] != s[j] }

  /** `s` is the child list of `d`. */
  ghost predicate Hangs(d: TreeNode, s: seq<TreeNode>)
    reads d`child, s`parent, s`prev, s`next
  {
    d.child == At(s, 0) && forall i: nat :: i < |s| ==> Between(d, s[i], At(s, i - 1), At(s, i + 1))
  }

  /** `n` is a child of `d` between `p` and `q`. */
  predicate Between(d: TreeNode, n: TreeNode, p: TreeNode?, q: TreeNode?)
    reads n`parent, n`prev, n`next
  {
    n.parent == d && n.prev == p && n.next == q
  }

  lemma Apart(s: seq<TreeNode>, i: int, j: int)
    requires Distinct(s) && 0 <= i < |s|
    ensures i != j ==> At(s, j) != s[i]
  {
  }

  /** In no list. */
  predicate Alone(n: TreeNode)
    reads n
  {
    n.parent == null && n.prev == null && n.next == null
  }

  /** The list without `x`. */
  ghost function Without(s: seq<TreeNode>, x: TreeNode): seq<TreeNode> {
    if s == [] then [] else if s[0] == x then s[1..] else [s[0]] + Without(s[1..], x)
  }

  lemma {:induction false} WithoutAt(s: seq<TreeNode>, i: nat)
    requires Distinct(s) && i < |s|
    ensures Without(s, s[i]) == s[..i] + s[i + 1..]
  {
    if i > 0 {
      assert s[0] != s[i];
      WithoutAt(s[1..], i - 1);
      assert s[1..][..i - 1] == s[1..i] && s[1..][i..] == s[i + 1..];
    }
  }

  /** A tree with some of its branches cut off: the nodes, the child list and
    * the parent of each, and a rank for each. */
  ghost predicate ShapeOf(root: TreeNode, loose: set<TreeNode>, nodes: set<TreeNode>, kids: map<TreeNode, seq<TreeNode>>,
                          up: map<TreeNode, TreeNode>, rank: map<TreeNode, nat>)
  {
    && root in nodes && root !in loose && loose <= nodes && root.isDir
    && kids.Keys == nodes && rank.Keys == nodes && up.Keys == nodes - {root} - loose
    && Ranked(up, rank)
    && (forall d, i :: d in nodes && 0 <= i < |kids[d]| ==> kids[d][i] in up && up[kids[d][i]] == d)
    && (forall n :: n in up ==> up[n] in nodes && n in kids[up[n]])
    && (forall d :: d in nodes ==> Distinct(kids[d]) && (!d.isDir ==> kids[d] == []))
  }

  /** Two directories share no child, and none is its own child. */
  lemma ListsApart(root: TreeNode, loose: set<TreeNode>, nodes: set<TreeNode>, kids: map<TreeNode, seq<TreeNode>>,
                   up: map<TreeNode, TreeNode>, rank: map<TreeNode, nat>, d: TreeNode)
    requires ShapeOf(root, loose, nodes, kids, up, rank) && d in nodes
    ensures d !in kids[d] && root !in kids[d] && forall n :: n in loose ==> n !in kids[d]
    ensures forall n :: n in kids[d] ==> n in nodes
  {
  }

  lemma DetachShape(root: TreeNode, nodes: set<TreeNode>, kids: map<TreeNode, seq<TreeNode>>,
                    up: map<TreeNode, TreeNode>, rank: map<TreeNode, nat>, node: TreeNode, i: nat)
    requires ShapeOf(root, {}, nodes, kids, up, rank) && node in up
    requires i < |kids[up[node]]| && kids[up[node]][i] == node
    ensures ShapeOf(root, {node}, nodes, kids[up[node] := kids[up[node]][..i] + kids[up[node]][i + 1..]], up - {node}, rank)
  {
    hide Ranked, Distinct;
    var d := up[node];
    var s := kids[d];
    var t := s[..i] + s[i + 1..];
    DistinctCut(s, i);
    DetachRanked(up, rank, node);
  }

  lemma DistinctCut(s: seq<TreeNode>, i: nat)
    requires Distinct(s) && i < |s|
    ensures Distinct(s[..i] + s[i + 1..]) && s[i] !in s[..i] + s[i + 1..]
    ensures forall n :: n in s && n != s[i] ==> n in s[..i] + s[i + 1..]
    ensures forall n :: n in s[..i] + s[i + 1..] ==> n in s
  {
    var t := s[..i] + s[i + 1..];
    forall n | n in s && n != s[i] ensures n in t {
      var j :| 0 <= j < |s| && s[j] == n;
      assert if j < i then t[j] == n else t[j - 1] == n;
    }
  }

  lemma AttachShape(root: TreeNode, nodes: set<TreeNode>, kids: map<TreeNode, seq<TreeNode>>,
                    up: map<TreeNode, TreeNode>, rank: map<TreeNode, nat>, node: TreeNode, d: TreeNode)
    requires ShapeOf(root, {node}, nodes, kids, up, rank) && d in nodes && d.isDir && !Under(up, rank, d, node)
    ensures ShapeOf(root, {}, nodes, kids[d := [node] + kids[d]], up[node := d], Lifted(up, rank, node, d))
  {
    hide Ranked, Under, Distinct;
    AttachRanked(up, rank, node, d);
    ListsApart(root, {node}, nodes, kids, up, rank, d);
    DistinctCons(node, kids[d]);
    var s := [node] + kids[d];
    assert s[0] == node && forall i | 1 <= i < |s| :: s[i] == kids[d][i - 1];
    assert forall n :: n in s <==> n == node || n in kids[d];
  }

  lemma DistinctCons(n: TreeNode, s: seq<TreeNode>)
    requires Distinct(s) && n !in s
    ensures Distinct([n] + s)
  {
  }

  /** A childless loose node can be let go of. */
  lemma RemoveShape(root: TreeNode, nodes: set<TreeNode>, kids: map<TreeNode, seq<TreeNode>>,
                    up: map<TreeNode, TreeNode>, rank: map<TreeNode, nat>, node: TreeNode)
    requires ShapeOf(root, {node}, nodes, kids, up, rank) && kids[node] == []
    ensures ShapeOf(root, {}, nodes - {node}, kids - {node}, up, rank - {node})
  {
  }

  /** The neighbours in a list once the element at `i` is out. */
  lemma CutAt(s: seq<TreeNode>, i: nat, t: seq<TreeNode>, k: nat, j: nat)
    requires i < |s| && t == s[..i] + s[i + 1..] && k < |t| && j == if k < i then k else k + 1
    requires Distinct(s)
    ensures t[k] == s[j] && s[j] != s[i] && At(t, 0) == if i == 0 then At(s, 1) else At(s, 0)
    ensures if j == i + 1 then s[j] == At(s, i + 1) && At(t, k - 1) == At(s, i - 1)
            else s[j] != At(s, i + 1) && At(t, k - 1) == At(s, j - 1)
    ensures if j == i - 1 then s[j] == At(s, i - 1) && At(t, k + 1) == At(s, i + 1)
            else s[j] != At(s, i - 1) && At(t, k + 1) == At(s, j + 1)
  {
    Apart(s, j, i);
    Apart(s, j, i - 1);
    Apart(s, j, i + 1);
  }

  lemma Place(d: TreeNode, s: seq<TreeNode>, i: nat)
    requires Hangs(d, s) && i < |s|
    ensures Between(d, s[i], At(s, i - 1), At(s, i + 1)) && d.child == At(s, 0)
  {
  }

  lemma HangsIf(d: TreeNode, s: seq<TreeNode>)
    requires d.child == At(s, 0) && forall k: nat :: k < |s| ==> Between(d, s[k], At(s, k - 1), At(s, k + 1))
    ensures Hangs(d, s)
  {
  }

  lemma AddShape(root: TreeNode, nodes: set<TreeNode>, kids: map<TreeNode, seq<TreeNode>>,
                 up: map<TreeNode, TreeNode>, rank: map<TreeNode, nat>, n: TreeNode)
    requires ShapeOf(root, {}, nodes, kids, up, rank) && n !in nodes
    ensures ShapeOf(root, {n}, nodes + {n}, kids[n := []], up, rank[n := 0])
    ensures forall c :: c in up ==> up[c] != n
  {
  }

  lemma AddLists(nodes: set<TreeNode>, kids: map<TreeNode, seq<TreeNode>>, n: TreeNode)
    requires Pointers(nodes, kids) && Named(nodes, kids, null) && n !in nodes && n.child == null
    ensures Pointers(nodes + {n}, kids[n := []]) && Named(nodes + {n}, kids[n := []], n)
  {
    NamedBut(nodes, kids, n);
  }

  /** tree_detach, on one list. */
  method Unlink(node: TreeNode, ghost d: TreeNode, ghost s: seq<TreeNode>, ghost i: nat)
    requires Hangs(d, s) && Distinct(s) && i < |s| && s[i] == node && d !in s
    modifies d`child, node`parent, s`prev, s`next
    ensures Hangs(d, s[..i] + s[i + 1..]) && Alone(node)
  {
    hide Hangs, Distinct, At;
    ghost var t := s[..i] + s[i + 1..];
    ghost var (p, q) := (At(s, i - 1), At(s, i + 1));
    forall j: nat | j < |s| ensures Between(d, s[j], At(s, j - 1), At(s, j + 1)) { Place(d, s, j); }
    Place(d, s, i);
    Ends(s, i);
    if node.prev != null {
      node.prev.next := node.next;
    } else {
      node.parent.child := node.next;
    }
    if node.next != null {
      node.next.prev := node.prev;
    }
    node.parent, node.prev, node.next := null, null, null;
    forall k: nat | k < |t| ensures Between(d, t[k], At(t, k - 1), At(t, k + 1)) {
      ghost var j := if k < i then k else k + 1;
      CutAt(s, i, t, k, j);
      assert old(Between(d, s[j], At(s, j - 1), At(s, j + 1)));
    }
    HangsIf(d, t);
  }

  lemma Ends(s: seq<TreeNode>, i: nat)
    requires i < |s| && Distinct(s)
    ensures (At(s, i - 1) == null <==> i == 0) && (i > 0 ==> At(s, i - 1) in s)
    ensures At(s, i + 1) != null ==> At(s, i + 1) in s
    ensures At(s, i - 1) != null ==> At(s, i - 1) != At(s, i + 1)
    ensures var t := s[..i] + s[i + 1..]; At(t, 0) == if i == 0 then At(s, 1) else At(s, 0)
  {
  }

  lemma ConsAt(n: TreeNode, s: seq<TreeNode>, t: seq<TreeNode>, k: nat)
    requires t == [n] + s && k < |t| && n !in s && Distinct(s)
    ensures At(t, 0) == n && (s == [] <==> At(s, 0) == null) && (s != [] ==> At(s, 0) in s)
    ensures if k == 0 then t[k] == n && At(t, -1) == null && At(t, 1) == At(s, 0)
            else t[k] == s[k - 1] != n && At(t, k + 1) == At(s, k) && At(t, k - 1) == (if k == 1 then n else At(s, k - 2))
    ensures if k == 1 then t[k] == At(s, 0) && At(s, k - 2) == null else t[k] != At(s, 0)
  {
    if k > 1 { Apart(s, k - 1, 0); }
  }

  /** tree_attach, on one list. */
  method Link(d: TreeNode, node: TreeNode, ghost s: seq<TreeNode>)
    requires Hangs(d, s) && Alone(node) && node !in s && d !in s && d != node && Distinct(s)
    modifies d`child, node`parent, node`next, s`prev
    ensures Hangs(d, [node] + s)
  {
    hide Hangs, Distinct, At;
    ghost var t := [node] + s;
    forall j: nat | j < |s| ensures Between(d, s[j], At(s, j - 1), At(s, j + 1)) { Place(d, s, j); }
    Child(d, s);
    ConsAt(node, s, t, 0);
    node.parent := d;
    if d.child != null {
      d.child.prev := node;
      node.next := d.child;
    }
    d.child := node;
    forall k: nat | k < |t| ensures Between(d, t[k], At(t, k - 1), At(t, k + 1)) {
      ConsAt(node, s, t, k);
      if k > 0 { assert old(Between(d, s[k - 1], At(s, k - 2), At(s, k))); }
    }
    HangsIf(d, t);
  }

  lemma Child(d: TreeNode, s: seq<TreeNode>)
    requires Hangs(d, s)
    ensures d.child == At(s, 0)
  {
  }

  /** The names in a list differ, leaving `x` aside. */
  ghost predicate KeysDiffer(s: seq<TreeNode>, x: TreeNode?)
    reads s`key
  {
    forall i, j :: 0 <= i < j < |s| && s[i] != x && s[j] != x ==> s[i].key != s[j].key
  }

  lemma KeysCut(s: seq<TreeNode>, i: nat, x: TreeNode?)
    requires i < |s| && KeysDiffer(s, x)
    ensures KeysDiffer(s[..i] + s[i + 1..], x)
  {
  }

  lemma KeysCons(n: TreeNode, s: seq<TreeNode>)
    requires n !in s && KeysDiffer(s, n) && forall m :: m in s ==> m.key != n.key
    ensures KeysDiffer([n] + s, null)
  {
  }

  lemma KeysAll(s: seq<TreeNode>, x: TreeNode)
    requires KeysDiffer(s, x) && x !in s
    ensures KeysDiffer(s, null)
  {
  }

  /** Child lists of nodes among `nodes`. */
  ghost predicate Lists(nodes: set<TreeNode>, kids: map<TreeNode, seq<TreeNode>>) {
    forall d :: d in kids ==> d in nodes && forall n :: n in kids[d] ==> n in nodes
  }

  /** The links of the nodes say the same as the shape. */
  ghost predicate Pointers(nodes: set<TreeNode>, kids: map<TreeNode, seq<TreeNode>>)
    reads nodes`parent, nodes`child, nodes`prev, nodes`next
  {
    Lists(nodes, kids) && forall d :: d in kids ==> Hangs(d, kids[d])
  }

  /** No two children of a directory have the same name, leaving `x` aside. */
  ghost predicate Named(nodes: set<TreeNode>, kids: map<TreeNode, seq<TreeNode>>, x: TreeNode?)
    reads nodes`key
  {
    Lists(nodes, kids) && forall d :: d in kids ==> KeysDiffer(kids[d], x)
  }

  /** Unlink leaves the other lists as they are. */
  method UnlinkOne(node: TreeNode, ghost nodes: set<TreeNode>, ghost kids: map<TreeNode, seq<TreeNode>>,
                   ghost d: TreeNode, ghost i: nat)
    requires Pointers(nodes, kids) && d in kids && d !in kids[d] && Distinct(kids[d]) && i < |kids[d]| && kids[d][i] == node
    requires forall e, k :: e in kids && e != d && 0 <= k < |kids[e]| ==> kids[e][k] !in kids[d]
    modifies nodes`parent, nodes`child, nodes`prev, nodes`next
    ensures Pointers(nodes, kids[d := kids[d][..i] + kids[d][i + 1..]]) && Alone(node)
    ensures forall n :: n in nodes && n !in kids[d] && old(Alone(n)) ==> Alone(n)
  {
    hide Distinct, At;
    ghost var s := kids[d];
    Unlink(node, d, s, i);
    forall e | e in kids && e != d ensures Hangs(e, kids[e]) {
      ghost var list := kids[e];
      assert old(Hangs(e, list));
      forall k: nat | k < |list| ensures Between(e, list[k], At(list, k - 1), At(list, k + 1)) {
        assert list[k] !in s && old(Between(e, list[k], At(list, k - 1), At(list, k + 1)));
      }
    }
    assert forall n :: n in s[..i] + s[i + 1..] ==> n in s;
  }

  /** Link leaves the other lists as they are. */
  method LinkOne(d: TreeNode, node: TreeNode, ghost nodes: set<TreeNode>, ghost kids: map<TreeNode, seq<TreeNode>>)
    requires Pointers(nodes, kids) && Alone(node) && d in kids && d !in kids[d] && d != node && Distinct(kids[d]) && node in nodes
    requires forall e, k :: e in kids && 0 <= k < |kids[e]| ==> kids[e][k] != node && (e != d ==> kids[e][k] !in kids[d])
    modifies nodes`parent, nodes`child, nodes`prev, nodes`next
    ensures Pointers(nodes, kids[d := [node] + kids[d]])
    ensures forall n :: n in nodes && n !in kids[d] && n != node && old(Alone(n)) ==> Alone(n)
  {
    hide Distinct, At;
    ghost var s := kids[d];
    Link(d, node, s);
    forall e | e in kids && e != d ensures Hangs(e, kids[e]) {
      ghost var list := kids[e];
      assert old(Hangs(e, list));
      forall k: nat | k < |list| ensures Between(e, list[k], At(list, k - 1), At(list, k + 1)) {
        assert list[k] !in s && old(Between(e, list[k], At(list, k - 1), At(list, k + 1)));
      }
    }
  }

  lemma {:induction false} WithoutSubset(s: seq<TreeNode>, x: TreeNode)
    ensures forall n :: n in Without(s, x) ==> n in s
  {
    if s != [] && s[0] != x { WithoutSubset(s[1..], x); }
  }

  method SetKey(node: TreeNode, ghost nodes: set<TreeNode>, ghost kids: map<TreeNode, seq<TreeNode>>, key: seq<nat>)
    requires Named(nodes, kids, null)
    modifies node`key
    ensures Named(nodes, kids, node) && node.key == key
  {
    node.key := key;
    forall e | e in kids ensures KeysDiffer(kids[e], node) { assert old(KeysDiffer(kids[e], null)); }
  }

  const EINVAL: int := 22
  const ENOSPC: int := 28
  const ENOTDIR: int := 20
  const EISDIR: int := 21
  const ENOTEMPTY: int := 39

  class Tree {
    const root: TreeNode
    ghost var nodes: set<TreeNode>
    ghost var kids: map<TreeNode, seq<TreeNode>>
    ghost var up: map<TreeNode, TreeNode>
    ghost var rank: map<TreeNode, nat>

    ghost predicate Shape(loose: set<TreeNode>)
      reads this
    {
      ShapeOf(root, loose, nodes, kids, up, rank)
    }

    /** The tree with `node` cut off. */
    ghost predicate Cut(node: TreeNode)
      reads this, nodes
    {
      Shape({node}) && Pointers(nodes, kids) && Named(nodes, kids, node) && Alone(root) && Alone(node)
    }

    ghost predicate Valid()
      reads this, nodes
    {
      Shape({}) && Pointers(nodes, kids) && Named(nodes, kids, null) && Alone(root)
    }

    /** The tree of a root directory without children. */
    constructor ()
      ensures Valid() && fresh(root) && nodes == {root}
    {
      root := new TreeNode(true, []);
      new;
      nodes, kids, up, rank := {root}, map[root := []], map[], map[root := 0];
    }

    /** tree_detach */
    method Detach(node: TreeNode)
      requires Shape({}) && Pointers(nodes, kids) && Named(nodes, kids, node) && Alone(root) && node in up
      modifies this`kids, this`up, nodes`parent, nodes`child, nodes`prev, nodes`next
      ensures Cut(node)
      ensures var d := old(up)[node]; kids == old(kids)[d := Without(old(kids)[d], node)]
      ensures up == old(up) - {node}
    {
      hide ShapeOf, Distinct, Pointers, Named;
      ghost var d, s, i := Member(root, nodes, kids, up, rank, node);
      ListsApart(root, {}, nodes, kids, up, rank, d);
      NoneShared(root, {}, nodes, kids, up, rank, d);
      UnlinkOne(node, nodes, kids, d, i);
      DetachShape(root, nodes, kids, up, rank, node, i);
      WithoutAt(s, i);
      NamedCut(nodes, kids, node, d, i);
      kids, up := kids[d := s[..i] + s[i + 1..]], up - {node};
    }

    /** tree_attach of a node that hangs nowhere, under a directory outside it. */
    method Attach(d: TreeNode, node: TreeNode)
      requires Cut(node) && d in nodes && d.isDir && !Under(up, rank, d, node)
      requires forall n :: n in kids[d] ==> n.key != node.key
      modifies this`kids, this`up, this`rank, nodes`parent, nodes`child, nodes`prev, nodes`next
      ensures Valid()
      ensures kids == old(kids)[d := [node] + old(kids)[d]] && up == old(up)[node := d]
    {
      hide ShapeOf, Distinct, Under, Pointers, Named;
      Loose(root, nodes, kids, up, rank, d, node);
      NoneShared(root, {node}, nodes, kids, up, rank, d);
      LinkOne(d, node, nodes, kids);
      AttachShape(root, nodes, kids, up, rank, node, d);
      NamedCons(nodes, kids, node, d);
      kids, up, rank := kids[d := [node] + kids[d]], up[node := d], Lifted(up, rank, node, d);
    }

    /** lookup_name, on a cached directory. */
    method LookupName(d: TreeNode, key: seq<nat>) returns (n: TreeNode?)
      requires Valid() && d in nodes
      ensures if n == null then forall m :: m in kids[d] ==> m.key != key
              else n in kids[d] && n in up && up[n] == d && n.key == key
    {
      hide Distinct, Ranked, Named;
      assert Hangs(d, kids[d]);
      n := FindKey(d, kids[d], d.child, key);
    }

    /** The loop of exfat_rename over the parents of `d`. */
    method IsBeneath(d: TreeNode, node: TreeNode) returns (b: bool)
      requires Valid() && d in nodes
      ensures b == Under(up, rank, d, node)
    {
      hide Distinct, Named;
      var p: TreeNode? := d;
      while p != null
        invariant p != null ==> p in nodes && Under(up, rank, d, node) == Under(up, rank, p, node)
        invariant p == null ==> !Under(up, rank, d, node)
        decreases if p == null || p !in rank then 0 else rank[p] + 1
      {
        if p == node { return true; }
        ParentIs(p);
        p := p.parent;
      }
      return false;
    }

    lemma ParentIs(p: TreeNode)
      requires Valid() && p in nodes
      ensures if p in up then p.parent == up[p] && up[p] in nodes else p == root && p.parent == null
    {
      if p in up {
        var d := up[p];
        var i :| 0 <= i < |kids[d]| && kids[d][i] == p;
        assert Hangs(d, kids[d]);
        Place(d, kids[d], i);
      }
    }

    lemma Childless(n: TreeNode)
      requires Valid() && n in nodes
      ensures (n.child == null <==> kids[n] == []) && (!n.isDir ==> kids[n] == [])
    {
      assert Hangs(n, kids[n]);
    }

    lemma Listed(d: TreeNode)
      requires Valid() && d in nodes
      ensures forall n :: n in kids[d] ==> n in nodes
    {
    }

    lemma KeyUnique(d: TreeNode, x: TreeNode)
      requires Valid() && d in nodes && x in kids[d]
      ensures forall n :: n in kids[d] && n != x ==> n.key != x.key
    {
      var s := kids[d];
      assert KeysDiffer(s, null);
      var i :| 0 <= i < |s| && s[i] == x;
      forall n | n in s && n != x ensures n.key != x.key {
        var j :| 0 <= j < |s| && s[j] == n;
      }
    }

    /** The tree part of rename_entry: the node gets its new name and moves. */
    method Move(node: TreeNode, d: TreeNode, key: seq<nat>)
      requires Valid() && node in up && d in nodes && d.isDir && !Under(up, rank, d, node)
      requires forall n :: n in kids[d] && n != node ==> n.key != key
      modifies this`kids, this`up, this`rank, nodes`parent, nodes`child, nodes`prev, nodes`next, node`key
      ensures Valid() && node.key == key && up == old(up)[node := d]
      ensures var p := old(up)[node]; var rest := old(kids)[p := Without(old(kids)[p], node)]; kids == rest[d := [node] + rest[d]]
    {
      hide ShapeOf, Distinct, Pointers, Under, Hangs, Named, Ranked;
      ghost var was := kids;
      ShapeFacts(root, {}, nodes, kids, up, rank);
      SetKey(node, nodes, kids, key);
      Detach(node);
      ShapeFacts(root, {node}, nodes, kids, up, rank);
      DetachUnder(old(up), rank, node, d);
      NoneShared(root, {node}, nodes, kids, up, rank, d);
      WithoutSubset(was[old(up)[node]], node);
      Attach(d, node);
    }

    /** exfat_rename once the paths are resolved: `node` is to become the child
      * `key` of `d`; `space` is whether find_slot finds room there. `existing`
      * is the child of that name, which is replaced when it is another node of
      * the same kind (and, for a directory, empty). */
    method Rename(node: TreeNode, d: TreeNode, key: seq<nat>, space: bool) returns (rc: int, existing: TreeNode?)
      requires Valid() && node in nodes && d in nodes && d.isDir
      modifies this`nodes, this`kids, this`up, this`rank, nodes`parent, nodes`child, nodes`prev, nodes`next, node`key
      ensures Valid()
      ensures if existing == null then forall m :: m in old(kids)[d] ==> old(m.key) != key
              else existing in old(kids)[d] && old(existing.key) == key
      ensures rc == -EINVAL <==> node.isDir && old(Under(up, rank, d, node))
      ensures var gone := if existing == null || existing == node then {} else {existing};
              && (gone != {} && (rc == 0 || rc == -ENOSPC) ==> existing.isDir == node.isDir && old(kids)[existing] == [])
              && (if rc == 0 then space && nodes == old(nodes) - gone && up == (old(up) - gone)[node := d] && node.key == key
                  else if rc == -ENOSPC then !space && nodes == old(nodes) - gone && up == old(up) - gone && node.key == old(node.key)
                  else nodes == old(nodes) && up == old(up) && kids == old(kids) && node.key == old(node.key))
      ensures !(node.isDir && old(Under(up, rank, d, node))) ==>
                var other := existing != null && existing != node;
                rc == if other && existing.isDir && !node.isDir then -ENOTDIR
                      else if other && !existing.isDir && node.isDir then -EISDIR
                      else if other && existing.isDir && old(kids)[existing] != [] then -ENOTEMPTY
                      else if !space then -ENOSPC else 0
      ensures rc == 0 ==> d in kids && kids[d] != [] && kids[d][0] == node
    {
      hide ShapeOf, Distinct, Pointers, Under, Hangs, Named, Ranked;
      existing := LookupName(d, key);
      ShapeFacts(root, {}, nodes, kids, up, rank);
      if node.isDir {
        var beneath := IsBeneath(d, node);
        if beneath { return -EINVAL, existing; }
      }
      Outside(root, nodes, kids, up, rank, node, d);
      if existing != null { KeyUnique(d, existing); }
      if existing != null && existing != node {
        if existing.isDir != node.isDir { return if existing.isDir then -ENOTDIR else -EISDIR, existing; }
        Childless(existing);
        if existing.isDir && existing.child != null { return -ENOTEMPTY, existing; }
        ghost var oldUp, oldRank := up, rank;
        NotParent(root, nodes, kids, up, rank, existing);
        ghost var was := kids[d];
        Remove(existing);
        Listed(d);
        WithoutSubset(was, existing);
        ShapeFacts(root, {}, nodes, kids, up, rank);
        RemoveUnder(oldUp, oldRank, existing, node, d);
      }
      if !space { return -ENOSPC, existing; }
      Move(node, d, key);
      rc := 0;
    }

    /** The tree part of create: refused if the name is taken. */
    method Create(d: TreeNode, key: seq<nat>, isDir: bool) returns (n: TreeNode?)
      requires Valid() && d in nodes && d.isDir
      modifies this`nodes, this`kids, this`up, this`rank, nodes`parent, nodes`child, nodes`prev, nodes`next
      ensures Valid()
      ensures if exists m :: m in old(kids)[d] && old(m.key) == key then n == null && nodes == old(nodes) && kids == old(kids)
              else n != null && fresh(n) && n.key == key && n.isDir == isDir && nodes == old(nodes) + {n}
                   && up == old(up)[n := d] && kids == old(kids)[n := []][d := [n] + old(kids)[d]]
    {
      hide ShapeOf, Distinct, Pointers, Under, Named, Ranked;
      n := LookupName(d, key);
      if n != null { return null; }
      ShapeFacts(root, {}, nodes, kids, up, rank);
      Listed(d);
      n := new TreeNode(isDir, key);
      AddShape(root, nodes, kids, up, rank, n);
      AddLists(nodes, kids, n);
      nodes, kids, rank := nodes + {n}, kids[n := []], rank[n := 0];
      ShapeFacts(root, {n}, nodes, kids, up, rank);
      LeafUnder(up, rank, n, d);
      Attach(d, n);
    }

    /** Every node reaches the root by its parents: there is no cycle. */
    lemma ReachesRoot(n: TreeNode)
      requires Valid() && n in nodes
      ensures exists k: nat :: Climb(up, n, k) == root
      ensures n in up ==> n.parent == up[n]
    {
      hide Pointers, Named, ShapeOf, Ranked;
      ParentIs(n);
      ShapeFacts(root, {}, nodes, kids, up, rank);
      ClimbsToRoot(up, rank, root, n);
    }

    /** The tree part of unlinking: a childless node leaves the tree. */
    method Remove(node: TreeNode)
      requires Valid() && node in up && kids[node] == []
      modifies this`nodes, this`kids, this`up, this`rank, nodes`parent, nodes`child, nodes`prev, nodes`next
      ensures Valid() && nodes == old(nodes) - {node}
      ensures var d := old(up)[node]; kids == old(kids)[d := Without(old(kids)[d], node)] - {node}
      ensures up == old(up) - {node} && rank == old(rank) - {node}
    {
      hide ShapeOf, Distinct, Pointers, Named;
      NamedBut(nodes, kids, node);
      Member1(root, nodes, kids, up, rank, node);
      Detach(node);
      RemoveShape(root, nodes, kids, up, rank, node);
      RemoveLists(nodes, kids, node, root, up, rank);
      nodes, kids, rank := nodes - {node}, kids - {node}, rank - {node};
    }
  }

  /** The child of `s` named `key`, by the links. */
  method FindKey(ghost d: TreeNode, ghost s: seq<TreeNode>, first: TreeNode?, key: seq<nat>) returns (n: TreeNode?)
    requires Hangs(d, s) && first == At(s, 0)
    ensures if n == null then forall m :: m in s ==> m.key != key else n in s && n.key == key
  {
    n := first;
    ghost var i := 0;
    while n != null
      invariant 0 <= i <= |s| && n == At(s, i)
      invariant forall j :: 0 <= j < i ==> s[j].key != key
      decreases |s| - i
    {
      assert Between(d, s[i], At(s, i - 1), At(s, i + 1));
      if n.key == key { return; }
      n := n.next;
      i := i + 1;
    }
    assert i == |s|;
  }

  lemma NamedCut(nodes: set<TreeNode>, kids: map<TreeNode, seq<TreeNode>>, x: TreeNode?, d: TreeNode, i: nat)
    requires Named(nodes, kids, x) && d in kids && i < |kids[d]|
    ensures Named(nodes, kids[d := kids[d][..i] + kids[d][i + 1..]], x)
  {
    KeysCut(kids[d], i, x);
  }

  lemma NamedCons(nodes: set<TreeNode>, kids: map<TreeNode, seq<TreeNode>>, node: TreeNode, d: TreeNode)
    requires Named(nodes, kids, node) && d in kids && node in nodes && forall n :: n in kids[d] ==> n.key != node.key
    requires forall e :: e in kids ==> node !in kids[e]
    ensures Named(nodes, kids[d := [node] + kids[d]], null)
  {
    KeysCons(node, kids[d]);
    forall e | e in kids ensures KeysDiffer(kids[e], null) { KeysAll(kids[e], node); }
  }

  /** The node to be moved is not the root, and the target is outside it. */
  lemma Outside(root: TreeNode, nodes: set<TreeNode>, kids: map<TreeNode, seq<TreeNode>>,
                up: map<TreeNode, TreeNode>, rank: map<TreeNode, nat>, node: TreeNode, d: TreeNode)
    requires ShapeOf(root, {}, nodes, kids, up, rank) && node in nodes && d in nodes && d.isDir
    requires node.isDir ==> !Under(up, rank, d, node)
    ensures node in up && !Under(up, rank, d, node)
  {
    RootUnder(up, rank, root, d);
    if !node.isDir { LeafUnder(up, rank, node, d); }
  }

  lemma NotParent(root: TreeNode, nodes: set<TreeNode>, kids: map<TreeNode, seq<TreeNode>>,
                  up: map<TreeNode, TreeNode>, rank: map<TreeNode, nat>, x: TreeNode)
    requires ShapeOf(root, {}, nodes, kids, up, rank) && x in nodes && kids[x] == []
    ensures forall c :: c in up ==> up[c] != x
  {
  }

  lemma ShapeFacts(root: TreeNode, loose: set<TreeNode>, nodes: set<TreeNode>, kids: map<TreeNode, seq<TreeNode>>,
                   up: map<TreeNode, TreeNode>, rank: map<TreeNode, nat>)
    requires ShapeOf(root, loose, nodes, kids, up, rank)
    ensures Ranked(up, rank) && kids.Keys == nodes == rank.Keys && up.Keys == nodes - {root} - loose
    ensures forall n :: n in up ==> up[n] in nodes
  {
  }

  lemma NamedBut(nodes: set<TreeNode>, kids: map<TreeNode, seq<TreeNode>>, x: TreeNode?)
    requires Named(nodes, kids, null)
    ensures Named(nodes, kids, x)
  {
    assert forall d :: d in kids ==> KeysDiffer(kids[d], null);
  }

  lemma Member1(root: TreeNode, nodes: set<TreeNode>, kids: map<TreeNode, seq<TreeNode>>,
                up: map<TreeNode, TreeNode>, rank: map<TreeNode, nat>, node: TreeNode)
    requires ShapeOf(root, {}, nodes, kids, up, rank) && node in up
    ensures up[node] in nodes && up[node] != node && node in nodes && kids.Keys == nodes && node != root
  {
  }

  lemma RemoveLists(nodes: set<TreeNode>, kids: map<TreeNode, seq<TreeNode>>, node: TreeNode,
                    root: TreeNode, up: map<TreeNode, TreeNode>, rank: map<TreeNode, nat>)
    requires Pointers(nodes, kids) && Named(nodes, kids, node) && ShapeOf(root, {node}, nodes, kids, up, rank)
    ensures Pointers(nodes - {node}, kids - {node}) && Named(nodes - {node}, kids - {node}, null)
  {
    hide Ranked, Distinct;
    NoneShared(root, {node}, nodes, kids, up, rank, node);
    forall e | e in kids ensures KeysDiffer(kids[e], null) { KeysAll(kids[e], node); }
  }

  lemma NoneShared(root: TreeNode, loose: set<TreeNode>, nodes: set<TreeNode>, kids: map<TreeNode, seq<TreeNode>>,
                   up: map<TreeNode, TreeNode>, rank: map<TreeNode, nat>, d: TreeNode)
    requires ShapeOf(root, loose, nodes, kids, up, rank) && d in nodes
    ensures forall e, k :: e in kids && e != d && 0 <= k < |kids[e]| ==> kids[e][k] !in kids[d]
    ensures forall e, k :: e in kids && 0 <= k < |kids[e]| ==> kids[e][k] !in loose
    ensures forall e, n :: e in kids && n in loose ==> n !in kids[e]
  {
    forall e, k | e in kids && e != d && 0 <= k < |kids[e]| ensures kids[e][k] !in kids[d] {
      assert up[kids[e][k]] == e;
    }
  }

  lemma Loose(root: TreeNode, nodes: set<TreeNode>, kids: map<TreeNode, seq<TreeNode>>,
              up: map<TreeNode, TreeNode>, rank: map<TreeNode, nat>, d: TreeNode, node: TreeNode)
    requires ShapeOf(root, {node}, nodes, kids, up, rank) && d in nodes && !Under(up, rank, d, node)
    ensures Ranked(up, rank) && d in rank && node in nodes
    ensures kids.Keys == nodes && node !in kids[d] && d !in kids[d] && d != node && Distinct(kids[d]) && root !in kids[d]
    ensures node != root && forall n :: n in kids[d] ==> n in nodes
  {
    ListsApart(root, {node}, nodes, kids, up, rank, d);
  }

  lemma Member(root: TreeNode, nodes: set<TreeNode>, kids: map<TreeNode, seq<TreeNode>>,
               up: map<TreeNode, TreeNode>, rank: map<TreeNode, nat>, node: TreeNode)
    returns (d: TreeNode, s: seq<TreeNode>, i: nat)
    requires ShapeOf(root, {}, nodes, kids, up, rank) && node in up
    ensures d == up[node] && d in nodes && node in nodes && node != root
    ensures kids.Keys == nodes && s == kids[d] && Distinct(s) && i < |s| && s[i] == node
  {
    d := up[node];
    s := kids[d];
    i :| 0 <= i < |s| && s[i] == node;
  }
}
