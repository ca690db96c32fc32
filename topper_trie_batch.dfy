/**
 * A write-back overlay over a parent trie batch. Writes are kept in an
 * ordered cache from key to optional value (no value = removed); cleared
 * prefixes are recorded in order; the parent is held weakly and may have
 * expired. Reads look in the cache first, then at the cleared prefixes,
 * then at the parent; `writeBack` replays everything onto the parent.
 *
 * The parent is modelled by its entries and an `alive` flag; the parent's
 * own `put`/`remove`/`clearPrefix`, which may fail, are the function
 * `apply` given to `WriteBack`.
 */
module TopperTrieBatch {
  import opened Wrappers
  import opened Buffer

  type Key = Bytes
  type Value = Bytes
  type Entries = map<Key, Value>

  datatype Error = ParentExpired | NoValue | ParentFailure(code: nat)

  /** An operation replayed onto the parent by `writeBack`. */
  datatype Op = ClearPrefixOp(prefix: Key) | PutOp(key: Key, value: Value) | RemoveOp(key: Key)

  /** `key` begins with `prefix`. */
  predicate HasPrefix(key: Key, prefix: Key)
  {
    |prefix| <= |key| && key[..|prefix|] == prefix
  }

  // ---------------------------------------------------------------------
  // wasClearedByPrefix, as written and as intended
  // ---------------------------------------------------------------------

  /**
   * The test of one recorded prefix as the source writes it: the first
   * `min(|key|, |prefix|) - 1` bytes of key and prefix agree. With an
   * empty key or prefix the iterator would be moved before the start.
   */
  predicate MatchesAsWritten(key: Key, prefix: Key)
    requires key != [] && prefix != []
  {
    var n := (if |key| < |prefix| then |key| else |prefix|) - 1;
    key[..n] == prefix[..n]
  }

  predicate NonEmptyKeys(prefixes: seq<Key>)
  {
    forall i :: 0 <= i < |prefixes| ==> prefixes[i] != []
  }

  /** `wasClearedByPrefix` as written: some recorded prefix passes the shortened test. */
  function ClearedByPrefixAsWritten(prefixes: seq<Key>, key: Key): (r: bool)
    requires key != [] && NonEmptyKeys(prefixes)
    ensures r <==> exists i :: 0 <= i < |prefixes| && MatchesAsWritten(key, prefixes[i])
  {
    if prefixes == [] then false
    else MatchesAsWritten(key, prefixes[0]) || ClearedByPrefixAsWritten(prefixes[1..], key)
  }

  /**
   * `wasClearedByPrefix` as intended: the prefixes are scanned in recording
   * order, and the key counts as cleared when it lies under one of them.
   */
  predicate ClearedByPrefix(prefixes: seq<Key>, key: Key): (r: bool)
    ensures r <==> exists i :: 0 <= i < |prefixes| && HasPrefix(key, prefixes[i])
  {
    prefixes != [] && (HasPrefix(key, prefixes[0]) || ClearedByPrefix(prefixes[1..], key))
  }

  /**
   * The shortened test reports a key as cleared although no recorded
   * prefix is a prefix of it: prefix [1, 2] "clears" key [1, 3]. Such a key
   * then reads as absent, yet `writeBack` leaves it in the parent.
   */
  lemma ClearedByPrefixAsWrittenOverreports()
    ensures ClearedByPrefixAsWritten([[1, 2]], [1, 3])
    ensures !ClearedByPrefix([[1, 2]], [1, 3])
    ensures Lookup(map[], [[1, 2]], map[[1, 3] := [7]], true, [1, 3]) == Ok(Some([7]))
    ensures Replay(map[[1, 3] := [7]], WriteBackOps(map[], [[1, 2]]), StdApply).0 == map[[1, 3] := [7]]
  {
    var k: Key := [1, 3];
    var p: Key := [1, 2];
    assert MatchesAsWritten(k, p) by { assert k[..1] == [1] == p[..1]; }
    assert !HasPrefix(k, p) by { assert k[..2][1] == 3 != p[1]; }
    assert !ClearedByPrefix([p], k);
    SortedKeysEmpty();
    var ops := WriteBackOps(map[], [p]);
    assert ops == [ClearPrefixOp(p)];
    var e: Entries := map[k := [7]];
    assert ClearedEntries(e, p) == e;
    var r1 := Replay(e, ops, StdApply);
    assert ops[1..] == [];
  }

  /** The intended test agrees with the shortened one whenever it reports a clear. */
  lemma ClearedByPrefixImpliesAsWritten(prefixes: seq<Key>, key: Key)
    requires key != [] && NonEmptyKeys(prefixes)
    ensures ClearedByPrefix(prefixes, key) ==> ClearedByPrefixAsWritten(prefixes, key)
  {
    if ClearedByPrefix(prefixes, key) {
      var i :| 0 <= i < |prefixes| && HasPrefix(key, prefixes[i]);
      var p := prefixes[i];
      var n := (if |key| < |p| then |key| else |p|) - 1;
      assert key[..n] == key[..|p|][..n];
      assert MatchesAsWritten(key, p);
    }
  }

  // ---------------------------------------------------------------------
  // The reading semantics
  // ---------------------------------------------------------------------

  /** The parent's answer for a key. */
  function ParentLookup(parent: Entries, key: Key): Option<Value>
  {
    if key in parent then Some(parent[key]) else None
  }

  /**
   * What `tryGet` answers: a cached entry first, then a cleared prefix
   * (absent), then the parent, which fails when it has expired.
   */
  function Lookup(cache: map<Key, Option<Value>>, prefixes: seq<Key>, parent: Entries, alive: bool, key: Key): (r: Result<Option<Value>, Error>)
    ensures key in cache ==> r == Ok(cache[key])
    ensures key !in cache && ClearedByPrefix(prefixes, key) ==> r == Ok(None)
    ensures key !in cache && !ClearedByPrefix(prefixes, key) ==>
      r == (if alive then Ok(ParentLookup(parent, key)) else Err(ParentExpired))
  {
    if key in cache then Ok(cache[key])
    else if ClearedByPrefix(prefixes, key) then Ok(None)
    else if alive then Ok(ParentLookup(parent, key))
    else Err(ParentExpired)
  }

  /** What `contains` answers: like `tryGet`, but an expired parent reads as absent. */
  function Holds(cache: map<Key, Option<Value>>, prefixes: seq<Key>, parent: Entries, alive: bool, key: Key): (r: bool)
    ensures r <==> (Lookup(cache, prefixes, parent, alive, key).Ok? && Lookup(cache, prefixes, parent, alive, key).value.Some?)
  {
    if key in cache then cache[key].Some?
    else if ClearedByPrefix(prefixes, key) then false
    else alive && key in parent
  }

  // ---------------------------------------------------------------------
  // The write-back semantics
  // ---------------------------------------------------------------------

  /** The cache key that precedes all others in the map's byte order. */
  predicate IsLeast(k: Key, s: set<Key>)
  {
    k in s && forall x :: x in s ==> x == k || LexLess(k, x)
  }

  lemma LeastExists(s: set<Key>)
    requires s != {}
    ensures exists m :: IsLeast(m, s)
  {
    var m := LeastWitness(s);
  }

  lemma {:induction false} LeastWitness(s: set<Key>) returns (m: Key)
    requires s != {}
    ensures IsLeast(m, s)
  {
    var y :| y in s;
    if s == {y} {
      m := y;
    } else {
      var m' := LeastWitness(s - {y});
      if LexLess(y, m') {
        m := y;
        forall x | x in s && x != y ensures LexLess(y, x) {
          if x != m' {
            LexLessTransitive(y, m', x);
          }
        }
      } else {
        m := m';
        LexLessTotal(y, m');
      }
    }
  }

  lemma LeastUnique(a: Key, b: Key, s: set<Key>)
    requires IsLeast(a, s) && IsLeast(b, s)
    ensures a == b
  {
    if a != b {
      LexLessAsymmetric(a, b);
    }
  }

  ghost function Least(s: set<Key>): (m: Key)
    requires s != {}
    ensures IsLeast(m, s)
  {
    LeastExists(s);
    var m :| IsLeast(m, s);
    m
  }

  /** The keys of a set in ascending byte order, the iteration order of an ordered map. */
  ghost function SortedKeys(s: set<Key>): (r: seq<Key>)
    ensures |r| == |s|
    ensures forall i :: 0 <= i < |r| ==> r[i] in s
    ensures forall i, j :: 0 <= i < j < |r| ==> LexLess(r[i], r[j])
    decreases |s|
  {
    if s == {} then [] else
      var m := Least(s);
      var rest := SortedKeys(s - {m});
      assert forall j :: 0 <= j < |rest| ==> LexLess(m, rest[j]);
      [m] + rest
  }

  lemma SortedKeysEmpty()
    ensures SortedKeys({}) == []
  {
  }

  /** The operations that replay the cache, in key order. */
  ghost function CacheOps(cache: map<Key, Option<Value>>, keys: seq<Key>): seq<Op>
    requires forall i :: 0 <= i < |keys| ==> keys[i] in cache
  {
    if keys == [] then []
    else
      var k := keys[0];
      [if cache[k].Some? then PutOp(k, cache[k].value) else RemoveOp(k)] + CacheOps(cache, keys[1..])
  }

  function PrefixOps(prefixes: seq<Key>): (ops: seq<Op>)
    ensures |ops| == |prefixes|
    ensures forall i :: 0 <= i < |prefixes| ==> ops[i] == ClearPrefixOp(prefixes[i])
  {
    if prefixes == [] then [] else [ClearPrefixOp(prefixes[0])] + PrefixOps(prefixes[1..])
  }

  /** Everything `writeBack` sends to a live parent, in order. */
  ghost function WriteBackOps(cache: map<Key, Option<Value>>, prefixes: seq<Key>): seq<Op>
  {
    PrefixOps(prefixes) + CacheOps(cache, SortedKeys(cache.Keys))
  }

  /** Applies operations in order, stopping at the first failure. */
  function Replay(parent: Entries, ops: seq<Op>, apply: (Entries, Op) -> Result<Entries, Error>): (Entries, Result<(), Error>)
    decreases |ops|
  {
    if ops == [] then (parent, Ok(()))
    else match apply(parent, ops[0])
      case Err(e) => (parent, Err(e))
      case Ok(next) => Replay(next, ops[1..], apply)
  }

  lemma {:induction false} ReplayAppend(parent: Entries, ops1: seq<Op>, ops2: seq<Op>, apply: (Entries, Op) -> Result<Entries, Error>)
    ensures Replay(parent, ops1 + ops2, apply) ==
      (var (p1, r1) := Replay(parent, ops1, apply); if r1.Err? then (p1, r1) else Replay(p1, ops2, apply))
    decreases |ops1|
  {
    if ops1 != [] {
      assert (ops1 + ops2)[1..] == ops1[1..] + ops2;
      match apply(parent, ops1[0])
      case Err(e) =>
      case Ok(next) => ReplayAppend(next, ops1[1..], ops2, apply);
    } else {
      assert ops1 + ops2 == ops2;
    }
  }

  lemma ReplayStep(parent: Entries, op: Op, rest: seq<Op>, apply: (Entries, Op) -> Result<Entries, Error>)
    ensures apply(parent, op).Err? ==> Replay(parent, [op] + rest, apply) == (parent, Err(apply(parent, op).error))
    ensures apply(parent, op).Ok? ==> Replay(parent, [op] + rest, apply) == Replay(apply(parent, op).value, rest, apply)
  {
    assert ([op] + rest)[1..] == rest;
  }

  lemma PrefixOpsStep(prefixes: seq<Key>, i: nat, tail: seq<Op>)
    requires i <= |prefixes|
    ensures i < |prefixes| ==>
      PrefixOps(prefixes[i..]) + tail == [ClearPrefixOp(prefixes[i])] + (PrefixOps(prefixes[i + 1..]) + tail)
    ensures i == |prefixes| ==> PrefixOps(prefixes[i..]) + tail == tail
  {
    if i < |prefixes| {
      assert prefixes[i..][1..] == prefixes[i + 1..];
    } else {
      assert prefixes[i..] == [];
    }
  }

  lemma CacheOpsStep(cache: map<Key, Option<Value>>, todo: set<Key>, k: Key)
    requires todo <= cache.Keys && IsLeast(k, todo)
    ensures CacheOps(cache, SortedKeys(todo)) ==
      [if cache[k].Some? then PutOp(k, cache[k].value) else RemoveOp(k)] + CacheOps(cache, SortedKeys(todo - {k}))
  {
    LeastUnique(k, Least(todo), todo);
    assert SortedKeys(todo)[1..] == SortedKeys(todo - {k});
  }

  /** The parent entries without the keys under `prefix`. */
  function ClearedEntries(parent: Entries, prefix: Key): (r: Entries)
    ensures forall k :: k in r <==> k in parent && !HasPrefix(k, prefix)
    ensures forall k :: k in r ==> r[k] == parent[k]
  {
    map k | k in parent && !HasPrefix(k, prefix) :: parent[k]
  }

  /** A parent batch whose operations always succeed with their usual meaning. */
  function StdApply(parent: Entries, op: Op): Result<Entries, Error>
  {
    match op
    case ClearPrefixOp(p) => Ok(ClearedEntries(parent, p))
    case PutOp(k, v) => Ok(parent[k := v])
    case RemoveOp(k) => Ok(parent - {k})
  }

  lemma {:induction false} ReplayPrefixes(parent: Entries, prefixes: seq<Key>)
    ensures var (p1, r1) := Replay(parent, PrefixOps(prefixes), StdApply);
      && r1 == Ok(())
      && (forall k :: k in p1 <==> k in parent && !ClearedByPrefix(prefixes, k))
      && (forall k :: k in p1 ==> p1[k] == parent[k])
  {
    if prefixes != [] {
      var next := ClearedEntries(parent, prefixes[0]);
      assert PrefixOps(prefixes)[1..] == PrefixOps(prefixes[1..]);
      ReplayPrefixes(next, prefixes[1..]);
      var (p1, r1) := Replay(next, PrefixOps(prefixes[1..]), StdApply);
      forall k ensures k in p1 <==> k in parent && !ClearedByPrefix(prefixes, k) {
        if ClearedByPrefix(prefixes, k) && !HasPrefix(k, prefixes[0]) {
          var i :| 0 <= i < |prefixes| && HasPrefix(k, prefixes[i]);
          assert prefixes[1..][i - 1] == prefixes[i];
        }
        if ClearedByPrefix(prefixes[1..], k) {
          var i :| 0 <= i < |prefixes[1..]| && HasPrefix(k, prefixes[1..][i]);
          assert prefixes[i + 1] == prefixes[1..][i];
        }
      }
    }
  }

  lemma {:induction false} ReplayCache(parent: Entries, cache: map<Key, Option<Value>>, keys: seq<Key>)
    requires forall i :: 0 <= i < |keys| ==> keys[i] in cache
    ensures var (p1, r1) := Replay(parent, CacheOps(cache, keys), StdApply);
      && r1 == Ok(())
      && forall k :: ParentLookup(p1, k) ==
           if k in keys then cache[k] else ParentLookup(parent, k)
    decreases |keys|
  {
    if keys != [] {
      var k0 := keys[0];
      var next := if cache[k0].Some? then parent[k0 := cache[k0].value] else parent - {k0};
      assert CacheOps(cache, keys)[1..] == CacheOps(cache, keys[1..]);
      ReplayCache(next, cache, keys[1..]);
    }
  }

  /**
   * With a parent whose operations succeed, `writeBack` leaves in the parent
   * exactly what the overlay showed: every key reads the same afterwards
   * from the parent as it read before from the overlay.
   */
  lemma WriteBackPreservesView(cache: map<Key, Option<Value>>, prefixes: seq<Key>, parent: Entries, key: Key)
    ensures var (p1, r1) := Replay(parent, WriteBackOps(cache, prefixes), StdApply);
      r1 == Ok(()) && Ok(ParentLookup(p1, key)) == Lookup(cache, prefixes, parent, true, key)
  {
    var keys := SortedKeys(cache.Keys);
    ReplayAppend(parent, PrefixOps(prefixes), CacheOps(cache, keys), StdApply);
    ReplayPrefixes(parent, prefixes);
    var (p0, _) := Replay(parent, PrefixOps(prefixes), StdApply);
    ReplayCache(p0, cache, keys);
    SortedKeysComplete(cache.Keys, key);
  }

  lemma {:induction false} SortedKeysComplete(s: set<Key>, k: Key)
    ensures k in SortedKeys(s) <==> k in s
    decreases |s|
  {
    if s != {} {
      var m := Least(s);
      SortedKeysComplete(s - {m}, k);
    }
  }

  /** The cache after clearing a prefix: the keys under it read as removed, the rest unchanged. */
  function ClearedCache(cache: map<Key, Option<Value>>, prefix: Key): (r: map<Key, Option<Value>>)
    ensures r.Keys == cache.Keys
    ensures forall k :: k in r ==> r[k] == if HasPrefix(k, prefix) then None else cache[k]
  {
    map k | k in cache :: if HasPrefix(k, prefix) then None else cache[k]
  }

  // ---------------------------------------------------------------------
  // The batch object
  // ---------------------------------------------------------------------

  class TopperTrieBatch {
    var cache: map<Key, Option<Value>>
    var clearedPrefixes: seq<Key>
    var parentEntries: Entries
    var parentAlive: bool

    constructor (parent: Entries)
      ensures cache == map[] && clearedPrefixes == []
      ensures parentEntries == parent && parentAlive
    {
      cache := map[];
      clearedPrefixes := [];
      parentEntries := parent;
      parentAlive := true;
    }

    /** The parent batch is destroyed elsewhere: the weak reference expires. */
    method ExpireParent()
      modifies this
      ensures !parentAlive
      ensures cache == old(cache) && clearedPrefixes == old(clearedPrefixes) && parentEntries == old(parentEntries)
    {
      parentAlive := false;
    }

    /** `wasClearedByPrefix`: scans the recorded prefixes in order. */
    method WasClearedByPrefix(key: Key) returns (cleared: bool)
      ensures cleared <==> ClearedByPrefix(clearedPrefixes, key)
    {
      var i := 0;
      while i < |clearedPrefixes|
        invariant 0 <= i <= |clearedPrefixes|
        invariant forall j :: 0 <= j < i ==> !HasPrefix(key, clearedPrefixes[j])
      {
        var prefix := clearedPrefixes[i];
        if |prefix| <= |key| && key[..|prefix|] == prefix {
          return true;
        }
        i := i + 1;
      }
      return false;
    }

    /** `tryGet`. */
    method TryGet(key: Key) returns (r: Result<Option<Value>, Error>)
      ensures r == Lookup(cache, clearedPrefixes, parentEntries, parentAlive, key)
    {
      if key in cache {
        return Ok(cache[key]);
      }
      var cleared := WasClearedByPrefix(key);
      if cleared {
        return Ok(None);
      }
      if parentAlive {
        return Ok(ParentLookup(parentEntries, key));
      }
      return Err(ParentExpired);
    }

    /** `get`: like `tryGet`, with absence reported as `NO_VALUE`. */
    method Get(key: Key) returns (r: Result<Value, Error>)
      ensures Lookup(cache, clearedPrefixes, parentEntries, parentAlive, key) == Ok(None) ==> r == Err(NoValue)
      ensures Lookup(cache, clearedPrefixes, parentEntries, parentAlive, key) == Err(ParentExpired) ==> r == Err(ParentExpired)
      ensures forall v :: Lookup(cache, clearedPrefixes, parentEntries, parentAlive, key) == Ok(Some(v)) ==> r == Ok(v)
    {
      var opt :- TryGet(key);
      if opt.Some? {
        return Ok(opt.value);
      }
      return Err(NoValue);
    }

    /** `contains`. */
    method Contains(key: Key) returns (r: bool)
      ensures r == Holds(cache, clearedPrefixes, parentEntries, parentAlive, key)
    {
      if key in cache {
        return cache[key].Some?;
      }
      var cleared := WasClearedByPrefix(key);
      if cleared {
        return false;
      }
      if parentAlive {
        return key in parentEntries;
      }
      return false;
    }

    /**
     * `empty`: false when some cached entry holds a value, otherwise the
     * parent's answer, or true once the parent has expired. Cleared
     * prefixes are not considered.
     */
    function Empty(): (r: bool)
      reads this
      ensures (exists k :: k in cache && cache[k].Some?) ==> !r
      ensures (forall k :: k in cache ==> cache[k].None?) ==> (r <==> !parentAlive || parentEntries == map[])
    {
      if exists k :: k in cache && cache[k].Some? then false
      else if parentAlive then |parentEntries| == 0
      else true
    }

    /** `put`: records the value in the cache; the parent is not touched. */
    method Put(key: Key, value: Value) returns (r: Result<(), Error>)
      modifies this
      ensures r == Ok(())
      ensures cache == old(cache)[key := Some(value)]
      ensures clearedPrefixes == old(clearedPrefixes)
      ensures parentEntries == old(parentEntries) && parentAlive == old(parentAlive)
      ensures Lookup(cache, clearedPrefixes, parentEntries, parentAlive, key) == Ok(Some(value))
      ensures Holds(cache, clearedPrefixes, parentEntries, parentAlive, key)
    {
      cache := cache[key := Some(value)];
      return Ok(());
    }

    /** `remove`: records the removal in the cache; the parent is not touched. */
    method Remove(key: Key) returns (r: Result<(), Error>)
      modifies this
      ensures r == Ok(())
      ensures cache == old(cache)[key := None]
      ensures clearedPrefixes == old(clearedPrefixes)
      ensures parentEntries == old(parentEntries) && parentAlive == old(parentAlive)
      ensures Lookup(cache, clearedPrefixes, parentEntries, parentAlive, key) == Ok(None)
      ensures !Holds(cache, clearedPrefixes, parentEntries, parentAlive, key)
    {
      cache := cache[key := None];
      return Ok(());
    }

    /**
     * `clearPrefix`: every cached key under the prefix reads as removed and
     * the prefix is recorded; the parent is not touched. The local change is
     * kept even when the parent has expired.
     */
    method ClearPrefix(prefix: Key) returns (r: Result<(bool, nat), Error>)
      modifies this
      ensures cache == ClearedCache(old(cache), prefix)
      ensures clearedPrefixes == old(clearedPrefixes) + [prefix]
      ensures parentEntries == old(parentEntries) && parentAlive == old(parentAlive)
      ensures r == if parentAlive then Ok((true, 0)) else Err(ParentExpired)
    {
      var todo := cache.Keys;
      ghost var before := cache;
      while todo != {}
        invariant todo <= cache.Keys && cache.Keys == before.Keys
        invariant clearedPrefixes == old(clearedPrefixes) && parentEntries == old(parentEntries) && parentAlive == old(parentAlive)
        invariant forall k :: k in cache ==> cache[k] == if k in todo then before[k] else ClearedCache(before, prefix)[k]
        decreases |todo|
      {
        var k :| k in todo;
        if HasPrefix(k, prefix) {
          cache := cache[k := None];
        }
        todo := todo - {k};
      }
      assert cache == ClearedCache(before, prefix);
      clearedPrefixes := clearedPrefixes + [prefix];
      if parentAlive {
        return Ok((true, 0));
      }
      return Err(ParentExpired);
    }

    /**
     * `writeBack`: with an expired parent, fails and changes nothing.
     * Otherwise applies the recorded prefixes in order, then the cache in
     * ascending key order (a value as put, none as remove), stopping at
     * the first error of the parent.
     */
    method WriteBack(apply: (Entries, Op) -> Result<Entries, Error>) returns (r: Result<(), Error>)
      modifies this
      ensures !old(parentAlive) ==> r == Err(ParentExpired) && parentEntries == old(parentEntries)
      ensures old(parentAlive) ==>
        (parentEntries, r) == Replay(old(parentEntries), WriteBackOps(old(cache), old(clearedPrefixes)), apply)
      ensures cache == old(cache) && clearedPrefixes == old(clearedPrefixes) && parentAlive == old(parentAlive)
    {
      if !parentAlive {
        return Err(ParentExpired);
      }
      ghost var target := Replay(parentEntries, WriteBackOps(cache, clearedPrefixes), apply);
      ghost var cacheOps := CacheOps(cache, SortedKeys(cache.Keys));
      var i := 0;
      while i < |clearedPrefixes|
        invariant 0 <= i <= |clearedPrefixes|
        invariant cache == old(cache) && clearedPrefixes == old(clearedPrefixes) && parentAlive
        invariant Replay(parentEntries, PrefixOps(clearedPrefixes[i..]) + cacheOps, apply) == target
      {
        var op := ClearPrefixOp(clearedPrefixes[i]);
        PrefixOpsStep(clearedPrefixes, i, cacheOps);
        var next := apply(parentEntries, op);
        if next.Err? {
          return Err(next.error);
        }
        ReplayStep(parentEntries, op, PrefixOps(clearedPrefixes[i + 1..]) + cacheOps, apply);
        parentEntries := next.value;
        i := i + 1;
      }
      PrefixOpsStep(clearedPrefixes, i, cacheOps);
      var todo := cache.Keys;
      while todo != {}
        invariant todo <= cache.Keys
        invariant cache == old(cache) && clearedPrefixes == old(clearedPrefixes) && parentAlive
        invariant Replay(parentEntries, CacheOps(cache, SortedKeys(todo)), apply) == target
        decreases |todo|
      {
        LeastExists(todo);
        var k :| k in todo && forall x :: x in todo ==> x == k || LexLess(k, x);
        var op := if cache[k].Some? then PutOp(k, cache[k].value) else RemoveOp(k);
        CacheOpsStep(cache, todo, k);
        var next := apply(parentEntries, op);
        if next.Err? {
          return Err(next.error);
        }
        ReplayStep(parentEntries, op, CacheOps(cache, SortedKeys(todo - {k})), apply);
        parentEntries := next.value;
        todo := todo - {k};
      }
      return Ok(());
    }
  }

  /**
   * The reading precedence that `tryGet` and `contains` share: with an
   * expired parent, a key that falls through to the parent fails to read,
   * while `contains` answers false.
   */
  lemma ExpiredParentFallThrough(cache: map<Key, Option<Value>>, prefixes: seq<Key>, parent: Entries, key: Key)
    requires key !in cache && !ClearedByPrefix(prefixes, key)
    ensures Lookup(cache, prefixes, parent, false, key) == Err(ParentExpired)
    ensures !Holds(cache, prefixes, parent, false, key)
  {
  }

  /**
   * Clearing a prefix makes every key under it read as absent, whatever
   * the cache and the parent held, and leaves other keys reading as before.
   */
  lemma ClearPrefixView(cache: map<Key, Option<Value>>, prefixes: seq<Key>, parent: Entries, alive: bool, prefix: Key, key: Key)
    ensures HasPrefix(key, prefix) ==>
      Lookup(ClearedCache(cache, prefix), prefixes + [prefix], parent, alive, key) == Ok(None)
    ensures !HasPrefix(key, prefix) ==>
      Lookup(ClearedCache(cache, prefix), prefixes + [prefix], parent, alive, key) == Lookup(cache, prefixes, parent, alive, key)
  {
    var ps := prefixes + [prefix];
    if HasPrefix(key, prefix) {
      assert ps[|prefixes|] == prefix;
    } else {
      if ClearedByPrefix(ps, key) {
        var i :| 0 <= i < |ps| && HasPrefix(key, ps[i]);
        assert i < |prefixes| && prefixes[i] == ps[i];
      }
      if ClearedByPrefix(prefixes, key) {
        var i :| 0 <= i < |prefixes| && HasPrefix(key, prefixes[i]);
        assert ps[i] == prefixes[i];
      }
    }
  }

  /**
   * `empty` ignores cleared prefixes: once a prefix covering every key of
   * a non-empty parent is cleared, every key reads as absent, yet `empty`
   * is false.
   */
  lemma EmptyIgnoresClearedPrefixes(b: TopperTrieBatch, p: Key, key: Key)
    requires b.cache == map[] && p != [] && b.clearedPrefixes == [p]
    requires b.parentAlive && b.parentEntries != map[]
    requires forall k :: k in b.parentEntries ==> HasPrefix(k, p)
    ensures Lookup(b.cache, b.clearedPrefixes, b.parentEntries, b.parentAlive, key) == Ok(None)
    ensures !b.Empty()
  {
    if !HasPrefix(key, p) {
      assert key !in b.parentEntries;
    } else {
      assert b.clearedPrefixes[0] == p;
    }
  }
}
