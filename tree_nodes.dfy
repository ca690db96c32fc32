/**
 * Block-tree nodes and the shape of the tree they form.
 *
 * The tree is an arena: a map from block hash to node, each node naming
 * its parent by hash and its children by an ordered sequence of hashes
 * (child positions matter to the fork walk). Shared digests are plain
 * values here.
 */
module TreeNodes {
  import opened Wrappers
  import opened Buffer

  type Hash = Bytes
  type EpochDigest = Bytes
  type Justification = Bytes

  datatype TreeNode = TreeNode(
    hash: Hash,
    depth: nat,
    parent: Option<Hash>,
    children: seq<Hash>,
    epochNumber: nat,
    epochDigest: EpochDigest,
    nextEpochDigest: EpochDigest,
    finalized: bool)

  type Arena = map<Hash, TreeNode>

  // ---------------------------------------------------------------------
  // The two TreeNode constructors
  // ---------------------------------------------------------------------

  /** The constructor taking both digests: a parentless node holding them as given. */
  function NewNode(hash: Hash, depth: nat, currDigest: EpochDigest, epochNumber: nat,
                   nextDigest: EpochDigest, finalized: bool): (n: TreeNode)
    ensures n.hash == hash && n.depth == depth && n.parent == None && n.children == []
    ensures n.epochNumber == epochNumber && n.finalized == finalized
    ensures n.epochDigest == currDigest && n.nextEpochDigest == nextDigest
  {
    TreeNode(hash, depth, None, [], epochNumber, currDigest, nextDigest, finalized)
  }

  /**
   * The constructor from a parent: the epoch digest is inherited from the
   * parent (its current one within the same epoch, its next one across an
   * epoch change); the next digest is the supplied one if any, else the
   * parent's. A parentless node must be given a digest and uses it for both.
   */
  function NewChildNode(hash: Hash, depth: nat, parent: Option<TreeNode>, epochNumber: nat,
                        nextDigest: Option<EpochDigest>, finalized: bool): (n: TreeNode)
    requires parent.Some? || nextDigest.Some?
    ensures n.hash == hash && n.depth == depth && n.children == []
    ensures n.epochNumber == epochNumber && n.finalized == finalized
    ensures parent.Some? ==> n.parent == Some(parent.value.hash)
    ensures parent.None? ==> n.parent == None
    ensures parent.Some? && epochNumber == parent.value.epochNumber ==> n.epochDigest == parent.value.epochDigest
    ensures parent.Some? && epochNumber != parent.value.epochNumber ==> n.epochDigest == parent.value.nextEpochDigest
    ensures parent.None? ==> n.epochDigest == nextDigest.value
    ensures nextDigest.Some? ==> n.nextEpochDigest == nextDigest.value
    ensures nextDigest.None? ==> n.nextEpochDigest == parent.value.nextEpochDigest
  {
    var (epoch, next, parentHash) :=
      if parent.Some? then
        var p := parent.value;
        (if epochNumber != p.epochNumber then p.nextEpochDigest else p.epochDigest, p.nextEpochDigest, Some(p.hash))
      else
        (nextDigest.value, nextDigest.value, None);
    // a supplied digest that differs from the inherited one replaces it,
    // sharing the current digest when equal to it; either way its value wins
    var next' := if nextDigest.Some? && nextDigest.value != next then
                   (if nextDigest.value == epoch then epoch else nextDigest.value)
                 else next;
    TreeNode(hash, depth, parentHash, [], epochNumber, epoch, next', finalized)
  }

  /**
   * Along a chain of children created without announced digests, every
   * block of one epoch carries the digests of the first block of the chain.
   */
  lemma SameEpochChildInheritsDigests(hash: Hash, parent: TreeNode, finalized: bool)
    ensures var n := NewChildNode(hash, parent.depth + 1, Some(parent), parent.epochNumber, None, finalized);
      n.epochDigest == parent.epochDigest && n.nextEpochDigest == parent.nextEpochDigest
      && n.depth == parent.depth + 1 && n.parent == Some(parent.hash)
  {
  }

  /** Across an epoch boundary the announced next digest becomes the current one. */
  lemma EpochChangePromotesNextDigest(hash: Hash, parent: TreeNode, supplied: Option<EpochDigest>, finalized: bool)
    ensures var n := NewChildNode(hash, parent.depth + 1, Some(parent), parent.epochNumber + 1, supplied, finalized);
      n.epochDigest == parent.nextEpochDigest
  {
  }

  /** The first position of `x` in `s` (`std::find`). */
  function IndexOf(s: seq<Hash>, x: Hash): (i: nat)
    requires x in s
    ensures i < |s| && s[i] == x
    ensures forall j :: 0 <= j < i ==> s[j] != x
  {
    if s[0] == x then 0 else 1 + IndexOf(s[1..], x)
  }

  /** `operator==`: same parent (both absent or the same node), same hash, same depth. */
  predicate SameNode(a: TreeNode, b: TreeNode): (r: bool)
    ensures a == b ==> r
    ensures r ==> a.hash == b.hash && a.depth == b.depth
  {
    a.parent == b.parent && a.hash == b.hash && a.depth == b.depth
  }

  // ---------------------------------------------------------------------
  // Ancestry
  // ---------------------------------------------------------------------

  /** `x`'s parent is in the arena and lies above it. */
  predicate ParentBelow(ns: Arena, x: Hash)
  {
    x in ns && ns[x].parent.Some? && ns[x].parent.value in ns
    && ns[ns[x].parent.value].depth < ns[x].depth
  }

  /** Following parents up from `x` reaches `a` (or `x` is `a`). */
  predicate IsAncestorOrSelf(ns: Arena, a: Hash, x: Hash)
    decreases if x in ns then ns[x].depth else 0
  {
    x in ns && (x == a || (ParentBelow(ns, x) && IsAncestorOrSelf(ns, a, ns[x].parent.value)))
  }

  /** The nodes of the subtree rooted at `n`. */
  ghost function Desc(ns: Arena, n: Hash): set<Hash>
  {
    set x | x in ns && IsAncestorOrSelf(ns, n, x)
  }

  /** Parent and child links agree, depths grow by one, child lists hold no duplicates. */
  ghost predicate Linked(ns: Arena)
  {
    && (forall h :: h in ns ==> ns[h].hash == h)
    && (forall h :: h in ns && ns[h].parent.Some? ==>
          ns[h].parent.value in ns && ns[ns[h].parent.value].depth + 1 == ns[h].depth
          && h in ns[ns[h].parent.value].children)
    && (forall h, i :: h in ns && 0 <= i < |ns[h].children| ==>
          ns[h].children[i] in ns && ns[ns[h].children[i]].parent == Some(h))
    && (forall h, i, j :: h in ns && 0 <= i < j < |ns[h].children| ==> ns[h].children[i] != ns[h].children[j])
  }

  /** A linked arena in which every node descends from the parentless root. */
  ghost predicate TreeValid(ns: Arena, root: Hash)
  {
    Linked(ns) && root in ns && ns[root].parent.None?
    && forall h :: h in ns ==> IsAncestorOrSelf(ns, root, h)
  }

  lemma {:induction false} AncestorDepth(ns: Arena, a: Hash, x: Hash)
    requires IsAncestorOrSelf(ns, a, x)
    ensures a in ns && ns[a].depth <= ns[x].depth
    ensures ns[a].depth == ns[x].depth ==> a == x
    decreases ns[x].depth
  {
    if x != a {
      AncestorDepth(ns, a, ns[x].parent.value);
    }
  }

  lemma {:induction false} AncestorTransitive(ns: Arena, a: Hash, b: Hash, x: Hash)
    requires IsAncestorOrSelf(ns, a, b) && IsAncestorOrSelf(ns, b, x)
    ensures IsAncestorOrSelf(ns, a, x)
    decreases ns[x].depth
  {
    if x != b {
      AncestorTransitive(ns, a, b, ns[x].parent.value);
    }
  }

  /** A child is a descendant of its parent, and its subtree is strictly smaller. */
  lemma ChildSubtree(ns: Arena, n: Hash, c: Hash)
    requires Linked(ns) && n in ns && c in ns[n].children
    ensures IsAncestorOrSelf(ns, n, c)
    ensures Desc(ns, c) < Desc(ns, n)
  {
    var i :| 0 <= i < |ns[n].children| && ns[n].children[i] == c;
    assert ns[c].parent == Some(n);
    assert IsAncestorOrSelf(ns, n, n);
    forall x | x in Desc(ns, c)
      ensures x in Desc(ns, n)
    {
      AncestorTransitive(ns, n, c, x);
    }
    assert n in Desc(ns, n);
    if n in Desc(ns, c) {
      AncestorDepth(ns, c, n);
    }
  }

  /** A proper descendant of `n` lies in the subtree of one of `n`'s children. */
  lemma {:induction false} ThroughChild(ns: Arena, n: Hash, x: Hash) returns (i: nat)
    requires Linked(ns) && IsAncestorOrSelf(ns, n, x) && x != n
    ensures n in ns && i < |ns[n].children| && IsAncestorOrSelf(ns, ns[n].children[i], x)
    decreases ns[x].depth
  {
    var p := ns[x].parent.value;
    AncestorDepth(ns, n, x);
    if p == n {
      var k :| 0 <= k < |ns[n].children| && ns[n].children[k] == x;
      i := k;
    } else {
      i := ThroughChild(ns, n, p);
    }
  }

  /** The blocks from `a` down to `x`, inclusive. */
  function Path(ns: Arena, a: Hash, x: Hash): (r: seq<Hash>)
    requires IsAncestorOrSelf(ns, a, x)
    ensures |r| >= 1 && r[0] == a && r[|r| - 1] == x
    ensures forall i :: 0 <= i < |r| ==> r[i] in ns && IsAncestorOrSelf(ns, a, r[i])
    ensures forall i :: 0 <= i < |r| - 1 ==> ns[r[i + 1]].parent == Some(r[i])
    decreases ns[x].depth
  {
    if x == a then [a] else Path(ns, a, ns[x].parent.value) + [x]
  }

  /** In a linked arena the path descends one level per step. */
  lemma {:induction false} PathDepths(ns: Arena, a: Hash, x: Hash)
    requires Linked(ns) && IsAncestorOrSelf(ns, a, x)
    ensures var r := Path(ns, a, x);
      |r| == ns[x].depth - ns[a].depth + 1
      && forall i :: 0 <= i < |r| ==> ns[r[i]].depth == ns[a].depth + i
    decreases ns[x].depth
  {
    if x != a {
      AncestorDepth(ns, a, x);
      PathDepths(ns, a, ns[x].parent.value);
    }
  }

  // ---------------------------------------------------------------------
  // Leaves in depth-first order, and the deepest of them
  // ---------------------------------------------------------------------

  /** The childless nodes of `n`'s subtree, in the order a depth-first walk meets them. */
  ghost function LeafOrder(ns: Arena, n: Hash): (r: seq<Hash>)
    requires Linked(ns) && n in ns
    ensures forall k :: 0 <= k < |r| ==> r[k] in ns
    decreases Desc(ns, n), 1
  {
    if ns[n].children == [] then [n] else LeafOrderFrom(ns, n, 0)
  }

  /** The leaves under children `i..` of `n`, in order. */
  ghost function LeafOrderFrom(ns: Arena, n: Hash, i: nat): (r: seq<Hash>)
    requires Linked(ns) && n in ns && i <= |ns[n].children|
    ensures forall k :: 0 <= k < |r| ==> r[k] in ns
    decreases Desc(ns, n), 0, |ns[n].children| - i
  {
    if i == |ns[n].children| then []
    else
      ChildSubtree(ns, n, ns[n].children[i]);
      LeafOrder(ns, ns[n].children[i]) + LeafOrderFrom(ns, n, i + 1)
  }

  /** A node with a single child has the leaves of that child. */
  lemma LeafOrderSingleChild(ns: Arena, n: Hash)
    requires Linked(ns) && n in ns && |ns[n].children| == 1
    ensures LeafOrder(ns, n) == LeafOrder(ns, ns[n].children[0])
  {
    assert LeafOrderFrom(ns, n, 1) == [];
  }

  /** Every subtree has at least one leaf. */
  lemma {:induction false} LeafOrderNonEmpty(ns: Arena, n: Hash)
    requires Linked(ns) && n in ns
    ensures |LeafOrder(ns, n)| > 0
    decreases Desc(ns, n)
  {
    if ns[n].children != [] {
      var c := ns[n].children[0];
      ChildSubtree(ns, n, c);
      LeafOrderNonEmpty(ns, c);
    }
  }

  /** A block with children has a childless descendant strictly deeper than itself. */
  lemma DeeperLeaf(ns: Arena, n: Hash) returns (x: Hash)
    requires Linked(ns) && n in ns && ns[n].children != []
    ensures x in ns && ns[x].children == [] && IsAncestorOrSelf(ns, n, x) && ns[x].depth > ns[n].depth
  {
    LeafOrderNonEmpty(ns, n);
    x := LeafOrder(ns, n)[0];
    LeafOrderIsLeaves(ns, n, x);
    AncestorDepth(ns, n, x);
  }

  /** The leaves listed under `n` are exactly the childless nodes of its subtree. */
  lemma {:induction false} LeafOrderIsLeaves(ns: Arena, n: Hash, x: Hash)
    requires Linked(ns) && n in ns
    ensures x in LeafOrder(ns, n) <==> IsAncestorOrSelf(ns, n, x) && ns[x].children == []
    decreases Desc(ns, n), 1
  {
    if ns[n].children == [] {
      if IsAncestorOrSelf(ns, n, x) && x != n {
        var i := ThroughChild(ns, n, x);
      }
    } else {
      LeafOrderFromIsLeaves(ns, n, 0, x);
      if IsAncestorOrSelf(ns, n, x) && ns[x].children == [] {
        var i := ThroughChild(ns, n, x);
      }
      if x in LeafOrder(ns, n) {
        var j :| 0 <= j < |ns[n].children| && IsAncestorOrSelf(ns, ns[n].children[j], x);
        ChildSubtree(ns, n, ns[n].children[j]);
        AncestorTransitive(ns, n, ns[n].children[j], x);
      }
    }
  }

  lemma {:induction false} LeafOrderFromIsLeaves(ns: Arena, n: Hash, i: nat, x: Hash)
    requires Linked(ns) && n in ns && i <= |ns[n].children|
    ensures x in LeafOrderFrom(ns, n, i) <==>
      x in ns && ns[x].children == [] &&
      exists j :: i <= j < |ns[n].children| && IsAncestorOrSelf(ns, ns[n].children[j], x)
    decreases Desc(ns, n), 0, |ns[n].children| - i
  {
    if i < |ns[n].children| {
      ChildSubtree(ns, n, ns[n].children[i]);
      LeafOrderIsLeaves(ns, ns[n].children[i], x);
      LeafOrderFromIsLeaves(ns, n, i + 1, x);
    }
  }

  /**
   * The deepest-leaf choice of the metadata walk: starting from `d`, a
   * leaf replaces the current choice only when it is strictly deeper.
   */
  function PickDeepest(ns: Arena, d: Hash, leaves: seq<Hash>): (r: Hash)
    requires d in ns && forall i :: 0 <= i < |leaves| ==> leaves[i] in ns
    ensures r in ns && (r == d || r in leaves)
    ensures ns[r].depth >= ns[d].depth
    ensures forall i :: 0 <= i < |leaves| ==> ns[leaves[i]].depth <= ns[r].depth
    ensures r != d ==> ns[r].depth > ns[d].depth
    ensures r != d ==> exists k :: (0 <= k < |leaves| && leaves[k] == r &&
              forall j :: 0 <= j < k ==> ns[leaves[j]].depth < ns[r].depth)
    decreases |leaves|
  {
    if leaves == [] then d
    else
      var r := PickDeepest(ns, if ns[leaves[0]].depth > ns[d].depth then leaves[0] else d, leaves[1..]);
      assert r != d && r != leaves[0] ==> exists k :: (1 <= k < |leaves| && leaves[k] == r &&
        forall j :: 0 <= j < k ==> ns[leaves[j]].depth < ns[r].depth) by {
        if r != d && r != leaves[0] {
          var k :| 0 <= k < |leaves[1..]| && leaves[1..][k] == r &&
            forall j :: 0 <= j < k ==> ns[leaves[1..][j]].depth < ns[r].depth;
          assert leaves[k + 1] == r;
          forall j | 0 <= j < k + 1 ensures ns[leaves[j]].depth < ns[r].depth {
            if j > 0 { assert leaves[j] == leaves[1..][j - 1]; }
          }
        }
      }
      r
  }

  lemma {:induction false} PickDeepestAppend(ns: Arena, d: Hash, a: seq<Hash>, b: seq<Hash>)
    requires d in ns && (forall i :: 0 <= i < |a| ==> a[i] in ns) && (forall i :: 0 <= i < |b| ==> b[i] in ns)
    ensures forall i :: 0 <= i < |a + b| ==> (a + b)[i] in ns
    ensures PickDeepest(ns, d, a + b) == PickDeepest(ns, PickDeepest(ns, d, a), b)
    decreases |a|
  {
    if a != [] {
      assert (a + b)[1..] == a[1..] + b;
      PickDeepestAppend(ns, if ns[a[0]].depth > ns[d].depth then a[0] else d, a[1..], b);
    } else {
      assert a + b == b;
    }
  }
}
