/**
 * The tree's bookkeeping: the leaf set, the deepest leaf and the last
 * finalized block, and the three ways the arena changes shape (a node is
 * attached under its parent, a subtree is cut off, the root advances).
 */
module TreeMeta {
  import opened Wrappers
  import opened TreeNodes

  datatype TreeMeta = TreeMeta(
    leaves: set<Hash>,
    deepestLeaf: Hash,
    lastFinalized: Hash,
    lastFinalizedJustification: Option<Justification>)

  /**
   * What the metadata promises about the tree: every childless block is
   * in `leaves`; a listed hash that is still in the tree is childless
   * (hashes of blocks cut off with a subtree may linger); the deepest leaf
   * is a childless block of the tree; the last finalized block is the root.
   */
  ghost predicate MetaValid(ns: Arena, root: Hash, m: TreeMeta)
  {
    && (forall h :: h in ns && ns[h].children == [] ==> h in m.leaves)
    && (forall h :: h in m.leaves && h in ns ==> ns[h].children == [])
    && m.deepestLeaf in ns && ns[m.deepestLeaf].children == []
    && m.lastFinalized == root
  }

  // ---------------------------------------------------------------------
  // The metadata walk of the TreeMeta constructor
  // ---------------------------------------------------------------------

  /**
   * The walk `handle` of the TreeMeta constructor over the subtree of
   * `node`: single-child chains are followed in a loop, a leaf is added
   * and may become the deepest one, the children of a fork are walked in
   * order.
   */
  method CollectLeaves(ns: Arena, node: Hash, leaves: set<Hash>, deepest: Hash)
    returns (leaves': set<Hash>, deepest': Hash)
    requires Linked(ns) && node in ns && deepest in ns
    ensures forall x :: x in leaves' <==> x in leaves || x in LeafOrder(ns, node)
    ensures deepest' == PickDeepest(ns, deepest, LeafOrder(ns, node))
    decreases Desc(ns, node), 1
  {
    var n := node;
    while |ns[n].children| == 1
      invariant n in ns && Desc(ns, n) <= Desc(ns, node)
      invariant LeafOrder(ns, n) == LeafOrder(ns, node)
      decreases Desc(ns, n)
    {
      LeafOrderSingleChild(ns, n);
      ChildSubtree(ns, n, ns[n].children[0]);
      n := ns[n].children[0];
    }
    if ns[n].children == [] {
      leaves' := leaves + {n};
      deepest' := deepest;
      if ns[n].depth > ns[deepest].depth {
        deepest' := n;
      }
      assert LeafOrder(ns, n) == [n];
      assert PickDeepest(ns, deepest, [n]) == PickDeepest(ns, if ns[n].depth > ns[deepest].depth then n else deepest, []);
    } else {
      leaves', deepest' := CollectChildren(ns, n, leaves, deepest);
    }
  }

  /** The fork case of the walk: each child of `n` in order. */
  method CollectChildren(ns: Arena, n: Hash, leaves: set<Hash>, deepest: Hash)
    returns (leaves': set<Hash>, deepest': Hash)
    requires Linked(ns) && n in ns && deepest in ns
    ensures forall x :: x in leaves' <==> x in leaves || x in LeafOrderFrom(ns, n, 0)
    ensures deepest' == PickDeepest(ns, deepest, LeafOrderFrom(ns, n, 0))
    decreases Desc(ns, n), 0
  {
    var children := ns[n].children;
    leaves', deepest' := leaves, deepest;
    ghost var seen: seq<Hash> := [];
    var i := 0;
    while i < |children|
      invariant 0 <= i <= |children|
      invariant LeafOrderFrom(ns, n, 0) == seen + LeafOrderFrom(ns, n, i)
      invariant forall k :: 0 <= k < |seen| ==> seen[k] in ns
      invariant deepest' in ns
      invariant forall x :: x in leaves' <==> x in leaves || x in seen
      invariant deepest' == PickDeepest(ns, deepest, seen)
    {
      ChildSubtree(ns, n, children[i]);
      leaves', deepest' := CollectLeaves(ns, children[i], leaves', deepest');
      PickDeepestAppend(ns, deepest, seen, LeafOrder(ns, children[i]));
      CollectStep(ns, n, i, seen);
      seen := seen + LeafOrder(ns, children[i]);
      i := i + 1;
    }
    assert LeafOrderFrom(ns, n, i) == [];
    assert seen + [] == seen;
  }

  /** Walking child `i` of `n` moves its leaves from the rest of the walk to what has been seen. */
  lemma CollectStep(ns: Arena, n: Hash, i: nat, seen: seq<Hash>)
    requires Linked(ns) && n in ns && i < |ns[n].children|
    requires LeafOrderFrom(ns, n, 0) == seen + LeafOrderFrom(ns, n, i)
    ensures LeafOrderFrom(ns, n, 0) == (seen + LeafOrder(ns, ns[n].children[i])) + LeafOrderFrom(ns, n, i + 1)
  {
    var c := ns[n].children[i];
    LeafOrderFromStep(ns, n, i);
    assert seen + (LeafOrder(ns, c) + LeafOrderFrom(ns, n, i + 1))
        == (seen + LeafOrder(ns, c)) + LeafOrderFrom(ns, n, i + 1);
  }

  lemma LeafOrderFromStep(ns: Arena, n: Hash, i: nat)
    requires Linked(ns) && n in ns && i < |ns[n].children|
    ensures LeafOrderFrom(ns, n, i) == LeafOrder(ns, ns[n].children[i]) + LeafOrderFrom(ns, n, i + 1)
  {
  }

  /**
   * The TreeMeta constructor from a subtree root: the leaves are exactly
   * the childless blocks of the subtree; the deepest leaf is the first
   * leaf of maximal depth in walk order (the root itself when no leaf is
   * deeper); the last finalized block is the subtree root.
   */
  method BuildMeta(ns: Arena, root: Hash, justification: Option<Justification>) returns (m: TreeMeta)
    requires Linked(ns) && root in ns
    ensures forall x :: x in m.leaves <==> IsAncestorOrSelf(ns, root, x) && ns[x].children == []
    ensures m.deepestLeaf == PickDeepest(ns, root, LeafOrder(ns, root))
    ensures m.deepestLeaf in ns && IsAncestorOrSelf(ns, root, m.deepestLeaf) && ns[m.deepestLeaf].children == []
    ensures forall x :: IsAncestorOrSelf(ns, root, x) && ns[x].children == [] ==>
      ns[x].depth <= ns[m.deepestLeaf].depth
    ensures m.lastFinalized == root && m.lastFinalizedJustification == justification
  {
    var leaves, deepest := CollectLeaves(ns, root, {}, root);
    m := TreeMeta(leaves, deepest, root, justification);
    forall x
      ensures x in m.leaves <==> IsAncestorOrSelf(ns, root, x) && ns[x].children == []
    {
      LeafOrderIsLeaves(ns, root, x);
    }
    if deepest != root {
      LeafOrderIsLeaves(ns, root, deepest);
    } else {
      assert IsAncestorOrSelf(ns, root, root);
      if ns[root].children != [] {
        var x := DeeperLeaf(ns, root);
        LeafOrderIsLeaves(ns, root, x);
      }
    }
    forall x | IsAncestorOrSelf(ns, root, x) && ns[x].children == []
      ensures ns[x].depth <= ns[m.deepestLeaf].depth
    {
      LeafOrderIsLeaves(ns, root, x);
      var k :| 0 <= k < |LeafOrder(ns, root)| && LeafOrder(ns, root)[k] == x;
    }
  }

  // ---------------------------------------------------------------------
  // updateMeta: a new block attached under its parent
  // ---------------------------------------------------------------------

  /** The arena once `n` is appended to its parent's children. */
  function Attach(ns: Arena, n: TreeNode): (r: Arena)
    requires n.parent.Some? && n.parent.value in ns
    ensures r.Keys == ns.Keys + {n.hash} && r[n.hash] == n
  {
    var p := n.parent.value;
    ns[p := ns[p].(children := ns[p].children + [n.hash])][n.hash := n]
  }

  /** The preconditions of `updateMeta`: a fresh childless block one level below a block of the tree. */
  ghost predicate Attachable(ns: Arena, n: TreeNode)
  {
    n.parent.Some? && n.parent.value in ns && n.hash !in ns
    && n.children == [] && n.depth == ns[n.parent.value].depth + 1
  }

  lemma {:induction false} AttachKeepsAncestry(ns: Arena, n: TreeNode, a: Hash, x: Hash)
    requires Attachable(ns, n) && IsAncestorOrSelf(ns, a, x)
    ensures IsAncestorOrSelf(Attach(ns, n), a, x)
    decreases ns[x].depth
  {
    if x != a {
      AttachKeepsAncestry(ns, n, a, ns[x].parent.value);
    }
  }

  /** Attaching a block keeps the arena a tree under the same root. */
  lemma AttachValid(ns: Arena, root: Hash, n: TreeNode)
    requires TreeValid(ns, root) && Attachable(ns, n)
    ensures TreeValid(Attach(ns, n), root)
  {
    var r := Attach(ns, n);
    AttachAncestry(ns, root, n);
    AttachChildren(ns, n);
    AttachDistinct(ns, n);
    AttachParents(ns, n);
  }

  lemma AttachParents(ns: Arena, n: TreeNode)
    requires Linked(ns) && Attachable(ns, n)
    ensures var r := Attach(ns, n);
      && (forall h :: h in r ==> r[h].hash == h)
      && forall h :: h in r && r[h].parent.Some? ==>
        r[h].parent.value in r && r[r[h].parent.value].depth + 1 == r[h].depth
        && h in r[r[h].parent.value].children
  {
    var r := Attach(ns, n);
    var p := n.parent.value;
    forall h | h in r && r[h].parent.Some?
      ensures r[h].parent.value in r && r[r[h].parent.value].depth + 1 == r[h].depth
        && h in r[r[h].parent.value].children
    {
      if h == n.hash {
        assert r[p].children[|ns[p].children|] == h;
      } else {
        var q := ns[h].parent.value;
        if q == p {
          var k :| 0 <= k < |ns[p].children| && ns[p].children[k] == h;
          assert r[p].children[k] == h;
        }
      }
    }
  }

  lemma AttachAncestry(ns: Arena, root: Hash, n: TreeNode)
    requires TreeValid(ns, root) && Attachable(ns, n)
    ensures forall x :: x in Attach(ns, n) ==> IsAncestorOrSelf(Attach(ns, n), root, x)
  {
    var r := Attach(ns, n);
    forall x | x in r
      ensures IsAncestorOrSelf(r, root, x)
    {
      if x == n.hash {
        AttachKeepsAncestry(ns, n, root, n.parent.value);
      } else {
        AttachKeepsAncestry(ns, n, root, x);
      }
    }
  }

  lemma AttachChildren(ns: Arena, n: TreeNode)
    requires Linked(ns) && Attachable(ns, n)
    ensures var r := Attach(ns, n);
      forall h, i :: h in r && 0 <= i < |r[h].children| ==>
        r[h].children[i] in r && r[r[h].children[i]].parent == Some(h)
  {
    var r := Attach(ns, n);
    var p := n.parent.value;
    forall h, i | h in r && 0 <= i < |r[h].children|
      ensures r[h].children[i] in r && r[r[h].children[i]].parent == Some(h)
    {
      if h == p && i == |ns[p].children| {
        assert r[h].children[i] == n.hash;
      } else if h == p {
        assert r[h].children[i] == ns[p].children[i];
      }
    }
  }

  lemma AttachDistinct(ns: Arena, n: TreeNode)
    requires Linked(ns) && Attachable(ns, n)
    ensures var r := Attach(ns, n);
      forall h, i, j :: h in r && 0 <= i < j < |r[h].children| ==> r[h].children[i] != r[h].children[j]
  {
    var r := Attach(ns, n);
    var p := n.parent.value;
    forall h, i, j | h in r && 0 <= i < j < |r[h].children|
      ensures r[h].children[i] != r[h].children[j]
    {
      if h == p && j == |ns[p].children| {
        assert r[h].children[i] == ns[p].children[i];
      } else if h == p {
        assert r[h].children[i] == ns[p].children[i] && r[h].children[j] == ns[p].children[j];
      }
    }
  }

  /**
   * The metadata after `updateMeta`: the new block becomes a leaf, its
   * parent stops being one, and the new block becomes the deepest leaf
   * only when strictly deeper than the current one.
   */
  function AttachMeta(ns: Arena, m: TreeMeta, n: TreeNode): (r: TreeMeta)
    requires m.deepestLeaf in ns && n.parent.Some?
    ensures r.leaves == (m.leaves + {n.hash}) - {n.parent.value}
    ensures n.depth > ns[m.deepestLeaf].depth ==> r.deepestLeaf == n.hash
    ensures n.depth <= ns[m.deepestLeaf].depth ==> r.deepestLeaf == m.deepestLeaf
    ensures r.lastFinalized == m.lastFinalized && r.lastFinalizedJustification == m.lastFinalizedJustification
  {
    var leaves := (m.leaves + {n.hash}) - {n.parent.value};
    m.(leaves := leaves, deepestLeaf := if n.depth > ns[m.deepestLeaf].depth then n.hash else m.deepestLeaf)
  }

  /** `updateMeta` keeps the metadata faithful to the tree. */
  lemma AttachMetaValid(ns: Arena, root: Hash, m: TreeMeta, n: TreeNode)
    requires TreeValid(ns, root) && MetaValid(ns, root, m) && Attachable(ns, n)
    ensures MetaValid(Attach(ns, n), root, AttachMeta(ns, m, n))
  {
    var r := Attach(ns, n);
    var p := n.parent.value;
    var m' := AttachMeta(ns, m, n);
    assert r[p].children != [];
    forall h | h in r && r[h].children == []
      ensures h in m'.leaves
    {
      assert h != p;
      if h != n.hash {
        assert r[h] == ns[h];
      }
    }
    forall h | h in m'.leaves && h in r
      ensures r[h].children == []
    {
      if h != n.hash {
        assert r[h] == ns[h];
      }
    }
  }

  // ---------------------------------------------------------------------
  // removeFromMeta: a block and its subtree cut off
  // ---------------------------------------------------------------------

  /** The parent's children without `h` (`std::find` and `erase`). */
  function Unlinked(children: seq<Hash>, h: Hash): (r: seq<Hash>)
    ensures h !in children ==> r == children
    ensures h in children ==> r == children[..IndexOf(children, h)] + children[IndexOf(children, h) + 1..]
  {
    if h in children then
      var i := IndexOf(children, h);
      children[..i] + children[i + 1..]
    else children
  }

  /**
   * The arena once block `h` is unlinked from its parent: the blocks of
   * `h`'s subtree are no longer reachable and are gone.
   */
  function Prune(ns: Arena, h: Hash): (r: Arena)
    requires h in ns && ns[h].parent.Some? && ns[h].parent.value in ns
    ensures forall x :: x in r <==> x in ns && !IsAncestorOrSelf(ns, h, x)
    ensures h !in r
    ensures forall x :: x in r && x != ns[h].parent.value ==> r[x] == ns[x]
    ensures ns[h].parent.value in r ==>
      r[ns[h].parent.value] == ns[ns[h].parent.value].(children := Unlinked(ns[ns[h].parent.value].children, h))
  {
    var p := ns[h].parent.value;
    map x | x in ns && !IsAncestorOrSelf(ns, h, x) ::
      if x == p then ns[p].(children := Unlinked(ns[p].children, h)) else ns[x]
  }

  /** A block outside `h`'s subtree has its parent outside it too. */
  lemma ParentOutside(ns: Arena, h: Hash, x: Hash)
    requires Linked(ns) && x in ns && !IsAncestorOrSelf(ns, h, x) && ns[x].parent.Some?
    ensures !IsAncestorOrSelf(ns, h, ns[x].parent.value)
  {
  }

  lemma {:induction false} PruneKeepsAncestry(ns: Arena, root: Hash, h: Hash, x: Hash)
    requires TreeValid(ns, root) && h in ns && ns[h].parent.Some?
    requires x in ns && !IsAncestorOrSelf(ns, h, x)
    ensures IsAncestorOrSelf(Prune(ns, h), root, x)
    decreases ns[x].depth
  {
    if x != root {
      var q := ns[x].parent.value;
      ParentOutside(ns, h, x);
      PruneKeepsAncestry(ns, root, h, q);
    }
  }

  /**
   * Cutting off a non-root block keeps the arena a tree under the same
   * root; exactly the blocks of the cut subtree go; the only other change
   * is the parent losing `h` from its children.
   */
  lemma PruneValid(ns: Arena, root: Hash, h: Hash)
    requires TreeValid(ns, root) && h in ns && ns[h].parent.Some?
    ensures var r := Prune(ns, h);
      && TreeValid(r, root)
      && r.Keys == ns.Keys - Desc(ns, h)
      && ns[h].parent.value in r
      && r[ns[h].parent.value].children == Unlinked(ns[ns[h].parent.value].children, h)
      && forall x :: x in r && x != ns[h].parent.value ==> r[x] == ns[x]
  {
    var r := Prune(ns, h);
    var p := ns[h].parent.value;
    if IsAncestorOrSelf(ns, h, p) {
      AncestorDepth(ns, h, p);
    }
    assert p in r;
    if IsAncestorOrSelf(ns, h, root) {
      AncestorDepth(ns, root, h);
      AncestorDepth(ns, h, root);
    }
    forall x | x in r
      ensures IsAncestorOrSelf(r, root, x)
    {
      PruneKeepsAncestry(ns, root, h, x);
    }
    PruneParents(ns, h);
    PruneChildren(ns, h);
    PruneDistinct(ns, h);
  }

  lemma PruneParents(ns: Arena, h: Hash)
    requires Linked(ns) && h in ns && ns[h].parent.Some?
    ensures var r := Prune(ns, h);
      && (forall x :: x in r ==> r[x].hash == x)
      && forall x :: x in r && r[x].parent.Some? ==>
        r[x].parent.value in r && r[r[x].parent.value].depth + 1 == r[x].depth
        && x in r[r[x].parent.value].children
  {
    var r := Prune(ns, h);
    var p := ns[h].parent.value;
    forall x | x in r && r[x].parent.Some?
      ensures r[x].parent.value in r && r[r[x].parent.value].depth + 1 == r[x].depth
        && x in r[r[x].parent.value].children
    {
      ParentOutside(ns, h, x);
      if r[x].parent.value == p {
        UnlinkedKeeps(ns[p].children, h, x);
      }
    }
  }

  lemma PruneChildren(ns: Arena, h: Hash)
    requires Linked(ns) && h in ns && ns[h].parent.Some?
    ensures var r := Prune(ns, h);
      forall y, i :: y in r && 0 <= i < |r[y].children| ==>
        r[y].children[i] in r && r[r[y].children[i]].parent == Some(y)
  {
    var r := Prune(ns, h);
    var p := ns[h].parent.value;
    forall y, i | y in r && 0 <= i < |r[y].children|
      ensures r[y].children[i] in r && r[r[y].children[i]].parent == Some(y)
    {
      var c := r[y].children[i];
      if y == p {
        UnlinkedDrops(ns[p].children, h, i);
        UnlinkedKeeps(ns[p].children, h, c);
      }
      assert c in ns[y].children && c != h;
      ChildOutside(ns, h, y, c);
    }
  }

  lemma PruneDistinct(ns: Arena, h: Hash)
    requires Linked(ns) && h in ns && ns[h].parent.Some?
    ensures var r := Prune(ns, h);
      forall y, i, j :: y in r && 0 <= i < j < |r[y].children| ==> r[y].children[i] != r[y].children[j]
  {
    var r := Prune(ns, h);
    var p := ns[h].parent.value;
    forall y, i, j | y in r && 0 <= i < j < |r[y].children|
      ensures r[y].children[i] != r[y].children[j]
    {
      if y == p {
        UnlinkedDistinct(ns[p].children, h, i, j);
      }
    }
  }

  /** A child other than `h` of a block outside `h`'s subtree is outside it too. */
  lemma ChildOutside(ns: Arena, h: Hash, y: Hash, c: Hash)
    requires Linked(ns) && y in ns && !IsAncestorOrSelf(ns, h, y)
    requires c in ns && ns[c].parent == Some(y) && c != h
    ensures !IsAncestorOrSelf(ns, h, c)
  {
  }

  lemma UnlinkedDrops(children: seq<Hash>, h: Hash, i: nat)
    requires forall a, b :: 0 <= a < b < |children| ==> children[a] != children[b]
    requires i < |Unlinked(children, h)|
    ensures Unlinked(children, h)[i] != h
  {
    if h in children {
      var k := IndexOf(children, h);
      var i' := if i < k then i else i + 1;
      assert Unlinked(children, h)[i] == children[i'];
    }
  }

  lemma UnlinkedKeeps(children: seq<Hash>, h: Hash, x: Hash)
    requires x != h
    ensures x in Unlinked(children, h) <==> x in children
  {
    if h in children {
      var i := IndexOf(children, h);
      assert children == children[..i] + [h] + children[i + 1..];
    }
  }

  lemma UnlinkedDistinct(children: seq<Hash>, h: Hash, i: nat, j: nat)
    requires forall a, b :: 0 <= a < b < |children| ==> children[a] != children[b]
    requires i < j < |Unlinked(children, h)|
    ensures Unlinked(children, h)[i] != Unlinked(children, h)[j]
  {
    if h in children {
      var k := IndexOf(children, h);
      var r := Unlinked(children, h);
      var i' := if i < k then i else i + 1;
      var j' := if j < k then j else j + 1;
      assert r[i] == children[i'] && r[j] == children[j'];
    }
  }

  /**
   * What `removeFromMeta` leaves in the metadata when it cuts off `h`:
   * `h` leaves the leaf set and the parent joins it if now childless. If
   * `h` was not the deepest leaf, that is all (hashes of `h`'s cut-off
   * descendants stay listed) and the deepest leaf is kept. If it was, the
   * rescan may also drop hashes no longer in the tree; a remaining leaf
   * deeper than the parent becomes the deepest leaf, and the parent does
   * only when the scan ran to the end: every stale hash was erased and no
   * remaining leaf is deeper than the parent.
   */
  ghost predicate RemovedMeta(ns0: Arena, m0: TreeMeta, h: Hash, m1: TreeMeta)
    requires h in ns0 && ns0[h].parent.Some? && ns0[h].parent.value in ns0
  {
    var p := ns0[h].parent.value;
    var ns1 := Prune(ns0, h);
    var parentIsLeaf := p in ns1 && ns1[p].children == [];
    var expected := (m0.leaves - {h}) + (if parentIsLeaf then {p} else {});
    && m1.leaves <= expected
    && (forall l :: l in expected && l !in m1.leaves ==> l !in ns1)
    && (m0.deepestLeaf != h ==> m1.leaves == expected && m1.deepestLeaf == m0.deepestLeaf)
    && (m0.deepestLeaf == h ==>
          (m1.deepestLeaf == p && p in ns1
           && forall l :: l in m1.leaves ==> l in ns1 && ns1[l].depth <= ns1[p].depth)
          || (m1.deepestLeaf in m1.leaves && m1.deepestLeaf in ns1 && p in ns1
              && ns1[m1.deepestLeaf].depth > ns1[p].depth))
    && m1.lastFinalized == m0.lastFinalized
    && m1.lastFinalizedJustification == m0.lastFinalizedJustification
  }

  /**
   * `removeFromMeta` keeps the metadata faithful to the tree, provided the
   * deepest leaf is the removed block itself or lies outside its subtree
   * (otherwise the deepest leaf is cut off with the subtree).
   */
  lemma RemovedMetaValid(ns0: Arena, root: Hash, m0: TreeMeta, h: Hash, m1: TreeMeta)
    requires TreeValid(ns0, root) && MetaValid(ns0, root, m0)
    requires h in ns0 && ns0[h].parent.Some?
    requires RemovedMeta(ns0, m0, h, m1)
    requires m0.deepestLeaf == h || m0.deepestLeaf !in Desc(ns0, h)
    ensures MetaValid(Prune(ns0, h), root, m1)
  {
    var p := ns0[h].parent.value;
    var ns1 := Prune(ns0, h);
    PruneValid(ns0, root, h);
    assert IsAncestorOrSelf(ns0, h, h);
    forall x | x in ns1 && ns1[x].children == []
      ensures x in m1.leaves
    {
      if x != p {
        assert ns1[x] == ns0[x];
      }
    }
    forall l | l in m1.leaves && l in ns1
      ensures ns1[l].children == []
    {
      if l != p {
        assert ns1[l] == ns0[l];
      }
    }
    if m1.deepestLeaf == p && ns1[p].children != [] {
      // a childless block below p is listed and deeper than p, so the rescan would have taken it
      var x := DeeperLeaf(ns1, p);
    }
  }

  // ---------------------------------------------------------------------
  // updateTreeRoot: the root advances
  // ---------------------------------------------------------------------

  /** The arena once `nr` becomes the parentless root: exactly its subtree remains. */
  function Reroot(ns: Arena, nr: Hash): (r: Arena)
    requires nr in ns
    ensures r.Keys == Desc(ns, nr)
  {
    map x | x in ns && IsAncestorOrSelf(ns, nr, x) :: if x == nr then ns[x].(parent := None) else ns[x]
  }

  lemma {:induction false} RerootKeepsAncestry(ns: Arena, nr: Hash, x: Hash)
    requires Linked(ns) && nr in ns && IsAncestorOrSelf(ns, nr, x)
    ensures IsAncestorOrSelf(Reroot(ns, nr), nr, x)
    decreases ns[x].depth
  {
    if x != nr {
      RerootKeepsAncestry(ns, nr, ns[x].parent.value);
    }
  }

  /** Advancing the root to any block of a linked arena leaves a tree rooted there. */
  lemma RerootValid(ns: Arena, nr: Hash)
    requires Linked(ns) && nr in ns
    ensures TreeValid(Reroot(ns, nr), nr)
    ensures forall x :: x in Reroot(ns, nr) ==> Reroot(ns, nr)[x].children == ns[x].children
  {
    var r := Reroot(ns, nr);
    forall x | x in r
      ensures IsAncestorOrSelf(r, nr, x)
    {
      RerootKeepsAncestry(ns, nr, x);
    }
    forall y, i | y in r && 0 <= i < |r[y].children|
      ensures r[y].children[i] in r && r[r[y].children[i]].parent == Some(y)
    {
      var c := r[y].children[i];
      assert ns[c].parent == Some(y);
      assert IsAncestorOrSelf(ns, nr, c);
      if c == nr {
        AncestorDepth(ns, nr, y);
      }
    }
  }
}
