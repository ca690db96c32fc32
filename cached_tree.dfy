/**
 * The cached block tree: an arena of nodes below a root, with its
 * metadata, and the node operations that walk it (`findByHash`,
 * `applyToChain`). A node operation receives the receiving node's hash.
 */
module CachedTree {
  import opened Wrappers
  import opened TreeNodes
  import opened TreeMeta

  datatype BlockInfo = BlockInfo(number: nat, hash: Hash)

  datatype ExitToken = Continue | Exit

  datatype TreeError = NoChainBetweenBlocks | OpFailure(code: nat)

  /**
   * `op` applied to the blocks of `path` in order, stopping after the
   * first `EXIT` (success) or the first error (returned): the result and
   * the blocks `op` was called on.
   */
  function Walk(ns: Arena, path: seq<Hash>, op: TreeNode -> Result<ExitToken, TreeError>): (w: (Result<(), TreeError>, seq<Hash>))
    requires forall i :: 0 <= i < |path| ==> path[i] in ns
    decreases |path|
  {
    if path == [] then (Ok(()), [])
    else match op(ns[path[0]])
      case Err(e) => (Err(e), [path[0]])
      case Ok(Exit) => (Ok(()), [path[0]])
      case Ok(Continue) =>
        var w := Walk(ns, path[1..], op);
        (w.0, [path[0]] + w.1)
  }

  /**
   * The walk calls `op` on a prefix of the path, never on an empty one;
   * every call but the last lets it continue; it ends early only on an
   * exit or an error, and an error is the walk's result.
   */
  lemma {:induction false} WalkShape(ns: Arena, path: seq<Hash>, op: TreeNode -> Result<ExitToken, TreeError>)
    requires forall i :: 0 <= i < |path| ==> path[i] in ns
    ensures var w := Walk(ns, path, op);
      && |w.1| <= |path| && w.1 == path[..|w.1|]
      && (path != [] ==> |w.1| >= 1)
      && (forall j :: 0 <= j < |w.1| - 1 ==> op(ns[path[j]]) == Ok(Continue))
      && (w.0.Err? ==> |w.1| >= 1 && op(ns[path[|w.1| - 1]]) == Err(w.0.error))
      && (w.0.Ok? && |w.1| < |path| ==> |w.1| >= 1 && op(ns[path[|w.1| - 1]]) == Ok(Exit))
      && (|w.1| == |path| && path != [] ==>
            w.0 == (match op(ns[path[|path| - 1]]) case Err(e) => Err(e) case Ok(_) => Ok(())))
    decreases |path|
  {
    if path != [] && op(ns[path[0]]) == Ok(Continue) {
      WalkShape(ns, path[1..], op);
      var v := Walk(ns, path[1..], op).1;
      assert forall j :: 0 <= j < |v| ==> v[j] == path[j + 1];
    }
  }

  lemma WalkContinue(ns: Arena, path: seq<Hash>, op: TreeNode -> Result<ExitToken, TreeError>)
    requires forall k :: 0 <= k < |path| ==> path[k] in ns
    requires path != [] && op(ns[path[0]]) == Ok(Continue)
    ensures Walk(ns, path, op) == (Walk(ns, path[1..], op).0, [path[0]] + Walk(ns, path[1..], op).1)
  {
  }

  lemma {:induction false} WalkSuffix(ns: Arena, path: seq<Hash>, op: TreeNode -> Result<ExitToken, TreeError>, i: nat)
    requires forall k :: 0 <= k < |path| ==> path[k] in ns
    requires i <= |path| && forall j :: 0 <= j < i ==> op(ns[path[j]]) == Ok(Continue)
    ensures Walk(ns, path, op) == (Walk(ns, path[i..], op).0, path[..i] + Walk(ns, path[i..], op).1)
    decreases i
  {
    if i > 0 {
      WalkContinue(ns, path, op);
      assert path[1..][i - 1..] == path[i..];
      WalkSuffix(ns, path[1..], op, i - 1);
      var tail := Walk(ns, path[i..], op).1;
      calc {
        [path[0]] + (path[1..][..i - 1] + tail);
        ([path[0]] + path[1..][..i - 1]) + tail;
        { assert [path[0]] + path[1..][..i - 1] == path[..i]; }
        path[..i] + tail;
      }
    } else {
      assert path[i..] == path && path[..i] == [];
      var w := Walk(ns, path, op);
      var e: seq<Hash> := [];
      assert e + w.1 == w.1;
      assert w == (w.0, w.1);
    }
  }

  /** The walk stops at the first block where `op` exits or fails. */
  lemma WalkStopsAt(ns: Arena, path: seq<Hash>, op: TreeNode -> Result<ExitToken, TreeError>, i: nat)
    requires forall k :: 0 <= k < |path| ==> path[k] in ns
    requires i < |path| && forall j :: 0 <= j < i ==> op(ns[path[j]]) == Ok(Continue)
    requires op(ns[path[i]]) != Ok(Continue)
    ensures Walk(ns, path, op) ==
      ((if op(ns[path[i]]).Err? then Err(op(ns[path[i]]).error) else Ok(())), path[..i + 1])
  {
    WalkSuffix(ns, path, op, i);
    var tail := path[i..];
    assert tail[0] == path[i];
    assert path[..i] + [path[i]] == path[..i + 1];
  }

  /** The walk covers the whole path when `op` lets it continue everywhere. */
  lemma WalkEnd(ns: Arena, path: seq<Hash>, op: TreeNode -> Result<ExitToken, TreeError>)
    requires forall k :: 0 <= k < |path| ==> path[k] in ns
    requires path != [] && forall j :: 0 <= j < |path| ==> op(ns[path[j]]) == Ok(Continue)
    ensures Walk(ns, path, op) == (Ok(()), path)
  {
    var i := |path| - 1;
    WalkSuffix(ns, path, op, i);
    var tail := path[i..];
    assert tail[0] == path[i] && tail[1..] == [];
    WalkContinue(ns, tail, op);
    var rest := Walk(ns, tail[1..], op);
    assert rest.0 == Ok(()) && rest.1 == [];
    assert [tail[0]] + rest.1 == [path[i]];
    assert path[..i] + [path[i]] == path;
    assert Walk(ns, path, op) == (Ok(()), path[..i] + [path[i]]);
  }

  /** Every recorded branch is a child index of its block. */
  ghost predicate ChoicesValid(ns: Arena, forkChoice: map<Hash, nat>)
  {
    forall q :: q in forkChoice ==> q in ns && forkChoice[q] < |ns[q].children|
  }

  /** At the fork `path[j]`, the recorded branch is the path's next block. */
  ghost predicate ForkRecorded(ns: Arena, path: seq<Hash>, forkChoice: map<Hash, nat>, j: int)
    requires 0 <= j < |path| - 1 && path[j] in ns
  {
    |ns[path[j]].children| > 1 ==>
      path[j] in forkChoice && forkChoice[path[j]] < |ns[path[j]].children|
      && ns[path[j]].children[forkChoice[path[j]]] == path[j + 1]
  }

  ghost predicate ForksRecorded(ns: Arena, path: seq<Hash>, forkChoice: map<Hash, nat>)
  {
    (forall j :: 0 <= j < |path| ==> path[j] in ns)
    && forall j :: 0 <= j < |path| - 1 ==> ForkRecorded(ns, path, forkChoice, j)
  }

  /** The child the downward walk takes below `cur`: the only one, or at a fork the recorded branch (the first when none is). */
  function ChildTaken(ns: Arena, cur: Hash, forkChoice: map<Hash, nat>): (c: Hash)
    requires cur in ns && ns[cur].children != [] && ChoicesValid(ns, forkChoice)
    ensures c in ns[cur].children
  {
    var ch := ns[cur].children;
    if |ch| == 1 then ch[0]
    else if cur in forkChoice then ch[forkChoice[cur]]
    else ch[0]
  }

  /**
   * One step of the downward walk along the path from `from` to `end`:
   * at a leaf, or when the child taken lies below `end`, the walk is at
   * the path's end; otherwise the child taken is the path's next block.
   */
  lemma DownStep(ns: Arena, from: Hash, end: Hash, forkChoice: map<Hash, nat>, i: nat)
    requires Linked(ns) && IsAncestorOrSelf(ns, from, end)
    requires ChoicesValid(ns, forkChoice) && ForksRecorded(ns, Path(ns, from, end), forkChoice)
    requires i < |Path(ns, from, end)|
    ensures var path := Path(ns, from, end); var cur := path[i];
      && (ns[cur].children == [] ==> i == |path| - 1)
      && (ns[cur].children != [] ==>
            var next := ChildTaken(ns, cur, forkChoice);
            && next in ns
            && (ns[next].depth > ns[end].depth ==> i == |path| - 1)
            && (ns[next].depth <= ns[end].depth ==> i + 1 < |path| && next == path[i + 1]))
  {
    var path := Path(ns, from, end);
    if i < |path| - 1 {
      PathInner(ns, from, end, i);
    }
    if ns[path[i]].children != [] {
      var next := ChildTaken(ns, path[i], forkChoice);
      if ns[next].depth > ns[end].depth {
        BelowEnd(ns, from, end, i, next);
      } else {
        NextOnPath(ns, from, end, forkChoice, i);
      }
    }
  }

  /** A block of the path other than its end has the next block as a child. */
  lemma PathInner(ns: Arena, from: Hash, end: Hash, i: nat)
    requires Linked(ns) && IsAncestorOrSelf(ns, from, end) && i < |Path(ns, from, end)| - 1
    ensures Path(ns, from, end)[i + 1] in ns[Path(ns, from, end)[i]].children
  {
    var path := Path(ns, from, end);
    assert ns[path[i + 1]].parent == Some(path[i]);
  }

  /** A block whose child lies deeper than the path's end is that end. */
  lemma BelowEnd(ns: Arena, from: Hash, end: Hash, i: nat, next: Hash)
    requires Linked(ns) && IsAncestorOrSelf(ns, from, end)
    requires i < |Path(ns, from, end)| && next in ns[Path(ns, from, end)[i]].children
    requires ns[next].depth > ns[end].depth
    ensures i == |Path(ns, from, end)| - 1
  {
    PathDepths(ns, from, end);
  }

  /** Above the path's end, the child taken is the path's next block. */
  lemma NextOnPath(ns: Arena, from: Hash, end: Hash, forkChoice: map<Hash, nat>, i: nat)
    requires Linked(ns) && IsAncestorOrSelf(ns, from, end)
    requires ChoicesValid(ns, forkChoice) && ForksRecorded(ns, Path(ns, from, end), forkChoice)
    requires i < |Path(ns, from, end)| && ns[Path(ns, from, end)[i]].children != []
    requires ns[ChildTaken(ns, Path(ns, from, end)[i], forkChoice)].depth <= ns[end].depth
    ensures i + 1 < |Path(ns, from, end)|
    ensures ChildTaken(ns, Path(ns, from, end)[i], forkChoice) == Path(ns, from, end)[i + 1]
  {
    var path := Path(ns, from, end);
    var next := ChildTaken(ns, path[i], forkChoice);
    PathDepths(ns, from, end);
    var ch := ns[path[i]].children;
    assert ns[next].parent == Some(path[i]);
    assert i + 1 < |path|;
    assert ForkRecorded(ns, path, forkChoice, i);
    if |ch| == 1 {
      assert path[i + 1] in ch;
    }
  }

  /** Closure of the scanned set under children reaches the whole subtree. */
  lemma {:induction false} ScannedCoversSubtree(ns: Arena, from: Hash, scanned: set<Hash>, x: Hash)
    requires Linked(ns) && from in scanned && scanned <= ns.Keys
    requires forall y, i :: y in scanned && 0 <= i < |ns[y].children| ==> ns[y].children[i] in scanned
    requires IsAncestorOrSelf(ns, from, x)
    ensures x in scanned
    decreases ns[x].depth
  {
    if x != from {
      var q := ns[x].parent.value;
      ScannedCoversSubtree(ns, from, scanned, q);
      var i :| 0 <= i < |ns[q].children| && ns[q].children[i] == x;
    }
  }

  /**
   * The state of the breadth-first scan from `from`: the queue holds
   * distinct unscanned blocks of the subtree; every block met so far is
   * `from` or a child of a scanned block; the children of scanned blocks
   * have all been met; the hash sought has not been scanned.
   */
  ghost predicate BfsInv(ns: Arena, from: Hash, hash: Hash, queue: seq<Hash>, scanned: set<Hash>)
  {
    && (forall i :: 0 <= i < |queue| ==>
          queue[i] in ns && IsAncestorOrSelf(ns, from, queue[i]) && queue[i] !in scanned)
    && (forall i, j :: 0 <= i < j < |queue| ==> queue[i] != queue[j])
    && scanned <= ns.Keys && hash !in scanned
    && (forall x :: x in scanned ==> IsAncestorOrSelf(ns, from, x))
    && (from in scanned || from in queue)
    && (forall x :: x in scanned || x in queue ==>
          x == from || (ns[x].parent.Some? && ns[x].parent.value in scanned))
    && (forall y, i :: y in scanned && 0 <= i < |ns[y].children| ==>
          ns[y].children[i] in scanned || ns[y].children[i] in queue)
  }

  /** The children of the head of the queue are blocks of the subtree the scan has not met. */
  ghost predicate ChildrenNew(ns: Arena, from: Hash, queue: seq<Hash>, scanned: set<Hash>)
    requires queue != [] && queue[0] in ns
  {
    forall i :: 0 <= i < |ns[queue[0]].children| ==>
      var c := ns[queue[0]].children[i];
      c in ns && c !in scanned && c !in queue && IsAncestorOrSelf(ns, from, c)
  }

  lemma BfsChildrenNew(ns: Arena, from: Hash, hash: Hash, queue: seq<Hash>, scanned: set<Hash>)
    requires Linked(ns) && from in ns && queue != []
    requires BfsInv(ns, from, hash, queue, scanned)
    ensures ChildrenNew(ns, from, queue, scanned)
  {
    var n := queue[0];
    var ch := ns[n].children;
    forall i | 0 <= i < |ch|
      ensures ch[i] !in scanned && ch[i] !in queue && IsAncestorOrSelf(ns, from, ch[i])
    {
      ChildSubtree(ns, n, ch[i]);
      AncestorTransitive(ns, from, n, ch[i]);
      AncestorDepth(ns, from, n);
    }
  }

  lemma BfsQueueStep(ns: Arena, from: Hash, hash: Hash, queue: seq<Hash>, scanned: set<Hash>)
    requires Linked(ns) && from in ns && queue != []
    requires BfsInv(ns, from, hash, queue, scanned) && ChildrenNew(ns, from, queue, scanned)
    ensures var q' := queue[1..] + ns[queue[0]].children;
      forall i :: 0 <= i < |q'| ==>
        q'[i] in ns && IsAncestorOrSelf(ns, from, q'[i]) && q'[i] !in scanned + {queue[0]}
  {
    var ch := ns[queue[0]].children;
    var q' := queue[1..] + ch;
    forall i | 0 <= i < |q'|
      ensures q'[i] in ns && IsAncestorOrSelf(ns, from, q'[i]) && q'[i] !in scanned + {queue[0]}
    {
      if i < |queue| - 1 {
        assert q'[i] == queue[i + 1];
      } else {
        assert q'[i] == ch[i - (|queue| - 1)];
      }
    }
  }

  lemma BfsDistinctStep(ns: Arena, from: Hash, hash: Hash, queue: seq<Hash>, scanned: set<Hash>)
    requires Linked(ns) && from in ns && queue != []
    requires BfsInv(ns, from, hash, queue, scanned) && ChildrenNew(ns, from, queue, scanned)
    ensures var q' := queue[1..] + ns[queue[0]].children;
      forall i, j :: 0 <= i < j < |q'| ==> q'[i] != q'[j]
  {
    var ch := ns[queue[0]].children;
    var q' := queue[1..] + ch;
    forall i, j | 0 <= i < j < |q'|
      ensures q'[i] != q'[j]
    {
      if j < |queue| - 1 {
        assert q'[i] == queue[i + 1] && q'[j] == queue[j + 1];
      } else if i < |queue| - 1 {
        assert q'[i] == queue[i + 1] && q'[j] == ch[j - (|queue| - 1)];
      } else {
        assert q'[i] == ch[i - (|queue| - 1)] && q'[j] == ch[j - (|queue| - 1)];
      }
    }
  }

  lemma BfsParentStep(ns: Arena, from: Hash, hash: Hash, queue: seq<Hash>, scanned: set<Hash>)
    requires Linked(ns) && from in ns && queue != []
    requires BfsInv(ns, from, hash, queue, scanned)
    ensures var q', s' := queue[1..] + ns[queue[0]].children, scanned + {queue[0]};
      forall x :: x in s' || x in q' ==> x == from || (ns[x].parent.Some? && ns[x].parent.value in s')
  {
    var ch := ns[queue[0]].children;
    var q', s' := queue[1..] + ch, scanned + {queue[0]};
    forall x | x in s' || x in q'
      ensures x == from || (ns[x].parent.Some? && ns[x].parent.value in s')
    {
      if x in ch {
        var k :| 0 <= k < |ch| && ch[k] == x;
      } else if x in queue[1..] {
        var k :| 0 <= k < |queue[1..]| && queue[1..][k] == x;
        assert x in queue;
      }
    }
  }

  lemma BfsClosedStep(ns: Arena, from: Hash, hash: Hash, queue: seq<Hash>, scanned: set<Hash>)
    requires Linked(ns) && from in ns && queue != []
    requires BfsInv(ns, from, hash, queue, scanned)
    ensures var q', s' := queue[1..] + ns[queue[0]].children, scanned + {queue[0]};
      forall y, i :: y in s' && 0 <= i < |ns[y].children| ==>
        ns[y].children[i] in s' || ns[y].children[i] in q'
  {
    var n := queue[0];
    var q', s' := queue[1..] + ns[n].children, scanned + {n};
    forall y, i | y in s' && 0 <= i < |ns[y].children|
      ensures ns[y].children[i] in s' || ns[y].children[i] in q'
    {
      var c := ns[y].children[i];
      if y != n && c in queue && c != n {
        var k :| 0 <= k < |queue| && queue[k] == c;
        assert q'[k - 1] == c;
      }
      if y == n {
        assert q'[|queue| - 1 + i] == c;
      }
    }
  }

  /** Scanning the head of the queue (not the block sought) keeps the scan's invariant. */
  lemma BfsStep(ns: Arena, from: Hash, hash: Hash, queue: seq<Hash>, scanned: set<Hash>)
    requires Linked(ns) && from in ns && queue != [] && queue[0] != hash
    requires BfsInv(ns, from, hash, queue, scanned)
    ensures BfsInv(ns, from, hash, queue[1..] + ns[queue[0]].children, scanned + {queue[0]})
  {
    BfsChildrenNew(ns, from, hash, queue, scanned);
    BfsQueueStep(ns, from, hash, queue, scanned);
    BfsDistinctStep(ns, from, hash, queue, scanned);
    BfsParentStep(ns, from, hash, queue, scanned);
    BfsClosedStep(ns, from, hash, queue, scanned);
  }

  /**
   * `findByHash` on the node `from`: a breadth-first scan of its
   * subtree. The answer is the block with that hash when it lies in the
   * subtree, and nothing otherwise.
   */
  method FindByHash(ns: Arena, from: Hash, hash: Hash) returns (r: Option<TreeNode>)
    requires Linked(ns) && from in ns
    ensures r.Some? <==> IsAncestorOrSelf(ns, from, hash)
    ensures r.Some? ==> r.value == ns[hash]
  {
    var queue := [from];
    ghost var scanned: set<Hash> := {};
    while queue != []
      invariant BfsInv(ns, from, hash, queue, scanned)
      decreases |ns.Keys - scanned|
    {
      var node := queue[0];
      if ns[node].hash == hash {
        return Some(ns[node]);
      }
      BfsStep(ns, from, hash, queue, scanned);
      queue := queue[1..] + ns[node].children;
      scanned := scanned + {node};
      assert ns.Keys - scanned < ns.Keys - (scanned - {node});
    }
    if IsAncestorOrSelf(ns, from, hash) {
      ScannedCoversSubtree(ns, from, scanned, hash);
    }
    return None;
  }

  /**
   * The upward half of `applyToChain`: walking from `chainEnd` up to
   * `from`, the branch the path takes at each fork on it.
   */
  method ForkChoices(ns: Arena, from: Hash, end: Hash, ghost path: seq<Hash>) returns (forkChoice: map<Hash, nat>)
    requires Linked(ns) && IsAncestorOrSelf(ns, from, end) && path == Path(ns, from, end)
    ensures ChoicesValid(ns, forkChoice) && ForksRecorded(ns, path, forkChoice)
  {
    PathDepths(ns, from, end);
    forkChoice := map[];
    var cur := end;
    ghost var k := |path| - 1;
    while ns[cur].depth > ns[from].depth
      invariant 0 <= k < |path| && cur == path[k]
      invariant forall j :: k <= j < |path| - 1 ==> ForkRecorded(ns, path, forkChoice, j)
      invariant ChoicesValid(ns, forkChoice)
      decreases k
    {
      assert k > 0 && ns[path[k]].parent == Some(path[k - 1]);
      var parent := ns[cur].parent.value;
      ghost var before := forkChoice;
      if |ns[parent].children| > 1 {
        forkChoice := forkChoice[parent := IndexOf(ns[parent].children, cur)];
      }
      forall j | k <= j < |path| - 1
        ensures ForkRecorded(ns, path, forkChoice, j)
      {
        assert ForkRecorded(ns, path, before, j);
        assert path[j] != parent;
      }
      cur := parent;
      k := k - 1;
    }
  }

  /**
   * `applyToChain` on the node `from`: `op` is applied to the blocks
   * from `from` down to `chainEnd`, in order, until it asks to exit or
   * fails. `visited` lists the blocks `op` was called on. A `chainEnd`
   * outside `from`'s subtree is `NO_CHAIN_BETWEEN_BLOCKS`, before `op`
   * runs at all.
   */
  method ApplyToChain(ns: Arena, from: Hash, chainEnd: BlockInfo, op: TreeNode -> Result<ExitToken, TreeError>)
    returns (r: Result<(), TreeError>, visited: seq<Hash>)
    requires Linked(ns) && from in ns
    requires IsAncestorOrSelf(ns, from, chainEnd.hash) ==> ns[chainEnd.hash].depth == chainEnd.number
    ensures !IsAncestorOrSelf(ns, from, chainEnd.hash) ==> r == Err(NoChainBetweenBlocks) && visited == []
    ensures IsAncestorOrSelf(ns, from, chainEnd.hash) ==>
      (r, visited) == Walk(ns, Path(ns, from, chainEnd.hash), op)
  {
    var found := FindByHash(ns, from, chainEnd.hash);
    if found.None? {
      return Err(NoChainBetweenBlocks), [];
    }
    ghost var path := Path(ns, from, chainEnd.hash);
    var forkChoice := ForkChoices(ns, from, found.value.hash, path);
    r, visited := WalkDown(ns, from, chainEnd, forkChoice, op, path);
  }

  /**
   * The downward half of `applyToChain`: from `from`, `op` is applied to
   * each block, the walk taking the only child or, at a fork, the
   * recorded branch, until `op` exits or fails, a leaf is reached or the
   * next block lies below `chainEnd`.
   */
  method WalkDown(ns: Arena, from: Hash, chainEnd: BlockInfo, forkChoice: map<Hash, nat>,
                  op: TreeNode -> Result<ExitToken, TreeError>, ghost path: seq<Hash>)
    returns (r: Result<(), TreeError>, visited: seq<Hash>)
    requires Linked(ns) && IsAncestorOrSelf(ns, from, chainEnd.hash)
    requires ns[chainEnd.hash].depth == chainEnd.number && path == Path(ns, from, chainEnd.hash)
    requires ChoicesValid(ns, forkChoice) && ForksRecorded(ns, path, forkChoice)
    ensures (r, visited) == Walk(ns, path, op)
  {
    var cur := from;
    ghost var i := 0;
    visited := [];
    while true
      invariant 0 <= i < |path| && cur == path[i]
      invariant visited == path[..i]
      invariant forall j :: 0 <= j < i ==> op(ns[path[j]]) == Ok(Continue)
      decreases |path| - i
    {
      var token := op(ns[cur]);
      visited := visited + [cur];
      assert visited == path[..i + 1];
      if token.Err? {
        WalkStopsAt(ns, path, op, i);
        return Err(token.error), visited;
      }
      if token.value == Exit {
        WalkStopsAt(ns, path, op, i);
        return Ok(()), visited;
      }
      DownStep(ns, from, chainEnd.hash, forkChoice, i);
      if ns[cur].children == [] {
        WalkEnd(ns, path, op);
        return Ok(()), visited;
      }
      var next := ChildTaken(ns, cur, forkChoice);
      if ns[next].depth > chainEnd.number {
        WalkEnd(ns, path, op);
        return Ok(()), visited;
      }
      cur := next;
      i := i + 1;
    }
  }

  /**
   * The repair of the deepest leaf in `removeFromMeta`: the leaves are
   * scanned in no particular order; a hash no longer in the tree is
   * dropped; the first leaf deeper than `p` becomes the deepest leaf and
   * ends the scan; failing that, `p` is the deepest leaf.
   */
  method RescanLeaves(ns: Arena, root: Hash, p: Hash, leaves: set<Hash>) returns (kept: set<Hash>, deepest: Hash)
    requires TreeValid(ns, root) && p in ns
    ensures kept <= leaves
    ensures forall l :: l in leaves && l !in kept ==> l !in ns
    ensures deepest == p || (deepest in kept && deepest in ns && ns[deepest].depth > ns[p].depth)
    ensures deepest == p ==> forall l :: l in kept ==> l in ns && ns[l].depth <= ns[p].depth
  {
    kept, deepest := leaves, p;
    var todo := leaves;
    while todo != {}
      invariant todo <= kept <= leaves
      invariant forall l :: l in leaves && l !in kept ==> l !in ns
      invariant forall l :: l in kept - todo ==> l in ns && ns[l].depth <= ns[p].depth
      invariant deepest == p
      decreases |todo|
    {
      var l :| l in todo;
      todo := todo - {l};
      var leaf := FindByHash(ns, root, l);
      if leaf.None? {
        kept := kept - {l};
      } else if leaf.value.depth > ns[p].depth {
        deepest := l;
        return;
      }
    }
  }

  class CachedTree {
    var nodes: Arena
    var root: Hash
    var meta: TreeMeta

    ghost predicate Valid()
      reads this
    {
      TreeValid(nodes, root) && MetaValid(nodes, root, meta)
    }

    /** A tree of a single parentless block, its metadata built from it. */
    constructor (rootNode: TreeNode)
      requires rootNode.parent.None? && rootNode.children == []
      ensures root == rootNode.hash && nodes == map[rootNode.hash := rootNode]
      ensures meta == TreeMeta({rootNode.hash}, rootNode.hash, rootNode.hash, None)
      ensures Valid()
    {
      var ns := map[rootNode.hash := rootNode];
      assert IsAncestorOrSelf(ns, rootNode.hash, rootNode.hash);
      var m := BuildMeta(ns, rootNode.hash, None);
      assert m.leaves == {rootNode.hash};
      nodes := ns;
      root := rootNode.hash;
      meta := m;
    }

    /**
     * `updateMeta`: a new childless block is linked under its parent; it
     * replaces the parent among the leaves, and becomes the deepest leaf
     * when it is deeper than the current one.
     */
    method UpdateMeta(n: TreeNode)
      requires Valid() && Attachable(nodes, n)
      modifies this
      ensures nodes == Attach(old(nodes), n) && root == old(root)
      ensures meta == AttachMeta(old(nodes), old(meta), n)
      ensures Valid()
    {
      AttachValid(nodes, root, n);
      AttachMetaValid(nodes, root, meta, n);
      meta := AttachMeta(nodes, meta, n);
      nodes := Attach(nodes, n);
    }

    /**
     * `removeFromMeta`: block `h` is unlinked from its parent (its subtree
     * goes with it); the leaves and the deepest leaf are repaired. A block
     * without a parent is left alone.
     */
    method RemoveFromMeta(h: Hash)
      requires Valid()
      modifies this
      ensures !(old(h in nodes) && old(nodes)[h].parent.Some?) ==>
        nodes == old(nodes) && meta == old(meta) && root == old(root)
      ensures old(h in nodes) && old(nodes)[h].parent.Some? ==>
        && nodes == Prune(old(nodes), h) && root == old(root)
        && RemovedMeta(old(nodes), old(meta), h, meta)
      ensures old(meta.deepestLeaf) == h || !IsAncestorOrSelf(old(nodes), h, old(meta.deepestLeaf)) ==> Valid()
    {
      if h !in nodes || nodes[h].parent.None? {
        return;
      }
      nodes, meta := Removal(nodes, root, meta, h);
    }

    /**
     * `updateTreeRoot`: block `newRoot` becomes the parentless root; only
     * its subtree remains, and the metadata is rebuilt from it with the
     * justification of its finalization.
     */
    method UpdateTreeRoot(newRoot: Hash, justification: Justification)
      requires Valid() && newRoot in nodes
      modifies this
      ensures nodes == Reroot(old(nodes), newRoot) && root == newRoot
      ensures Valid()
      ensures forall x :: x in meta.leaves <==> x in nodes && nodes[x].children == []
      ensures meta.deepestLeaf == PickDeepest(nodes, newRoot, LeafOrder(nodes, newRoot))
      ensures meta.lastFinalized == newRoot && meta.lastFinalizedJustification == Some(justification)
    {
      var ns, m := Rerooted(nodes, newRoot, Some(justification));
      nodes, root, meta := ns, newRoot, m;
    }
  }

  /** The tree once `nr` becomes its root, and the metadata the TreeMeta constructor builds for it. */
  method Rerooted(ns: Arena, nr: Hash, justification: Option<Justification>) returns (ns': Arena, m: TreeMeta)
    requires Linked(ns) && nr in ns
    ensures ns' == Reroot(ns, nr) && TreeValid(ns', nr) && MetaValid(ns', nr, m)
    ensures forall x :: x in m.leaves <==> x in ns' && ns'[x].children == []
    ensures m.deepestLeaf == PickDeepest(ns', nr, LeafOrder(ns', nr))
    ensures m.lastFinalized == nr && m.lastFinalizedJustification == justification
  {
    RerootValid(ns, nr);
    ns' := Reroot(ns, nr);
    m := BuildMeta(ns', nr, justification);
    BuiltMetaValid(ns', nr, m);
  }

  /**
   * The body of `removeFromMeta` for a block `h` with a parent `p`: `h`
   * is erased from `p`'s children (its subtree goes with it) and from the
   * leaves, `p` joins the leaves once childless, and if `h` was the
   * deepest leaf the leaves are rescanned.
   */
  method Removal(ns0: Arena, root: Hash, m0: TreeMeta, h: Hash) returns (ns1: Arena, m1: TreeMeta)
    requires TreeValid(ns0, root) && MetaValid(ns0, root, m0) && h in ns0 && ns0[h].parent.Some?
    ensures ns1 == Prune(ns0, h) && TreeValid(ns1, root)
    ensures RemovedMeta(ns0, m0, h, m1)
    ensures m0.deepestLeaf == h || !IsAncestorOrSelf(ns0, h, m0.deepestLeaf) ==> MetaValid(ns1, root, m1)
  {
    var p := ns0[h].parent.value;
    PrunedTree(ns0, root, h);
    ns1 := Prune(ns0, h);
    var leaves := m0.leaves - {h};
    if ns1[p].children == [] {
      leaves := leaves + {p};
    }
    ghost var expected := leaves;
    var deepest := m0.deepestLeaf;
    if h == m0.deepestLeaf {
      leaves, deepest := RescanLeaves(ns1, root, p, leaves);
    }
    RepairedMeta(ns0, root, m0, h, ns1, expected, leaves, deepest);
    m1 := m0.(leaves := leaves, deepestLeaf := deepest);
  }

  /** Pruning a block with a parent leaves a tree that still holds the parent. */
  lemma PrunedTree(ns: Arena, root: Hash, h: Hash)
    requires TreeValid(ns, root) && h in ns && ns[h].parent.Some?
    ensures ns[h].parent.value in ns && TreeValid(Prune(ns, h), root) && ns[h].parent.value in Prune(ns, h)
  {
    PruneValid(ns, root, h);
  }

  /**
   * The leaves and deepest leaf `removeFromMeta` computes make up the
   * metadata `RemovedMeta` allows, faithful to the pruned tree under the
   * condition on the deepest leaf.
   */
  lemma RepairedMeta(ns0: Arena, root: Hash, m0: TreeMeta, h: Hash, ns1: Arena, expected: set<Hash>,
                     leaves: set<Hash>, deepest: Hash)
    requires TreeValid(ns0, root) && MetaValid(ns0, root, m0) && h in ns0 && ns0[h].parent.Some?
    requires ns1 == Prune(ns0, h)
    requires var p := ns0[h].parent.value;
      && expected == (m0.leaves - {h}) + (if p in ns1 && ns1[p].children == [] then {p} else {})
      && (m0.deepestLeaf != h ==> leaves == expected && deepest == m0.deepestLeaf)
      && (m0.deepestLeaf == h ==>
            && leaves <= expected
            && (forall l :: l in expected && l !in leaves ==> l !in ns1)
            && (deepest == p ==> p in ns1 && forall l :: l in leaves ==> l in ns1 && ns1[l].depth <= ns1[p].depth)
            && (deepest == p || (deepest in leaves && deepest in ns1 && p in ns1 && ns1[deepest].depth > ns1[p].depth)))
    ensures RemovedMeta(ns0, m0, h, m0.(leaves := leaves, deepestLeaf := deepest))
    ensures m0.deepestLeaf == h || !IsAncestorOrSelf(ns0, h, m0.deepestLeaf) ==>
      MetaValid(Prune(ns0, h), root, m0.(leaves := leaves, deepestLeaf := deepest))
  {
    var m1 := m0.(leaves := leaves, deepestLeaf := deepest);
    PrunedTree(ns0, root, h);
    if m0.deepestLeaf == h || !IsAncestorOrSelf(ns0, h, m0.deepestLeaf) {
      RemovedMetaValid(ns0, root, m0, h, m1);
    }
  }

  /** Metadata built over a whole tree lists exactly its leaves and is faithful to it. */
  lemma BuiltMetaValid(ns: Arena, root: Hash, m: TreeMeta)
    requires TreeValid(ns, root)
    requires forall x :: x in m.leaves <==> IsAncestorOrSelf(ns, root, x) && ns[x].children == []
    requires m.deepestLeaf in ns && ns[m.deepestLeaf].children == [] && m.lastFinalized == root
    ensures MetaValid(ns, root, m)
    ensures forall x :: x in m.leaves <==> x in ns && ns[x].children == []
  {
  }

  /** In a linked arena, `operator==` holds between two blocks exactly when they are the same block. */
  lemma SameNodeIffSameBlock(ns: Arena, a: Hash, b: Hash)
    requires Linked(ns) && a in ns && b in ns
    ensures SameNode(ns[a], ns[b]) <==> a == b
  {
  }
}
