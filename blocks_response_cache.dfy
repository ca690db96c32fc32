/**
 * The per-peer cache of recent block requests used by the sync protocol
 * to spot duplicate requests. A fixed array of slots holds records; a
 * lookup table maps each cached peer to its slot; the slots no peer owns
 * are free. A record keeps the peer, an expiry time and the most recent
 * request fingerprints in a bounded circular buffer.
 *
 * The wall clock becomes the `now` argument of every operation that reads it.
 */
module BlocksResponseCache {
  import opened Wrappers
  import opened Buffer

  type PeerId = Bytes
  type Fingerprint = nat

  datatype CacheRecord = CacheRecord(peer: PeerId, validTill: int, fingerprints: seq<Fingerprint>)

  /** The cache's constants: number of slots, record lifetime, fingerprints kept per peer. */
  datatype Config = Config(capacity: nat, expiration: nat, maxEntriesPerPeer: nat)

  /** The three containers of the cache, as values. */
  datatype Table = Table(storage: seq<Option<CacheRecord>>, lookup: map<PeerId, nat>, free: set<nat>)

  /**
   * `push_back` on a circular buffer of capacity `cap`: the new element
   * goes last and, at capacity, the oldest one is dropped.
   */
  function BoundedPush(fps: seq<Fingerprint>, fp: Fingerprint, cap: nat): (r: seq<Fingerprint>)
    requires 0 < cap && |fps| <= cap
    ensures |r| == if |fps| < cap then |fps| + 1 else cap
    ensures r[|r| - 1] == fp && fp in r
  {
    if |fps| < cap then fps + [fp] else fps[1..] + [fp]
  }

  /** The buffer keeps the newest fingerprints: the result is a suffix of `fps + [fp]`. */
  lemma BoundedPushKeepsNewest(fps: seq<Fingerprint>, fp: Fingerprint, cap: nat)
    requires 0 < cap && |fps| <= cap
    ensures var r := BoundedPush(fps, fp, cap);
      r == (fps + [fp])[|fps| + 1 - |r|..]
  {
    var r := BoundedPush(fps, fp, cap);
    if |fps| == cap {
      assert (fps + [fp])[1..] == fps[1..] + [fp];
    }
  }

  /** A slot whose record is missing or past its expiry time. */
  predicate Stale(entry: Option<CacheRecord>, now: int)
  {
    entry.None? || now > entry.value.validTill
  }

  predicate SlotsBelow(t: Table)
  {
    forall p :: p in t.lookup ==> t.lookup[p] < |t.storage|
  }

  /**
   * The invariant the operations keep: every slot is below the capacity;
   * a slot is either free or owned by a peer, never both; no two peers
   * share a slot; free slots hold no record; records respect the bound
   * on fingerprints.
   */
  ghost predicate TableValid(t: Table, c: Config)
  {
    && |t.storage| == c.capacity && 0 < c.maxEntriesPerPeer
    && (forall p :: p in t.lookup ==> t.lookup[p] < c.capacity && t.lookup[p] !in t.free)
    && (forall s :: s in t.free ==> s < c.capacity && t.storage[s].None?)
    && (forall s :: 0 <= s < c.capacity ==> s in t.free || s in t.lookup.Values)
    && Injective(t.lookup)
    && (forall s :: 0 <= s < c.capacity && t.storage[s].Some? ==> |t.storage[s].value.fingerprints| <= c.maxEntriesPerPeer)
  }

  /** The slot indices below `n`. */
  function Slots(n: nat): (r: set<nat>)
    ensures forall s :: s in r <==> 0 <= s < n
  {
    if n == 0 then {} else Slots(n - 1) + {n - 1}
  }

  /** After construction: all slots empty and free, no peer cached. */
  function Initial(c: Config): (t: Table)
    ensures |t.storage| == c.capacity && t.lookup == map[]
    ensures forall s :: s in t.free <==> 0 <= s < c.capacity
    ensures forall s :: 0 <= s < c.capacity ==> t.storage[s].None?
  {
    Table(seq(c.capacity, _ => None), map[], Slots(c.capacity))
  }

  lemma InitialValid(c: Config)
    requires 0 < c.maxEntriesPerPeer
    ensures TableValid(Initial(c), c)
  {
  }

  // ---------------------------------------------------------------------
  // purge
  // ---------------------------------------------------------------------

  predicate StalePeer(t: Table, p: PeerId, now: int)
    requires SlotsBelow(t) && p in t.lookup
  {
    Stale(t.storage[t.lookup[p]], now)
  }

  /** The slots released once the peers in `done` have been examined. */
  function Released(t: Table, done: set<PeerId>, now: int): set<nat>
    requires SlotsBelow(t)
  {
    set p | p in t.lookup && p in done && StalePeer(t, p, now) :: t.lookup[p]
  }

  /** `purge` after it has examined the peers in `done`. */
  function PurgedFor(t: Table, done: set<PeerId>, now: int): (r: Table)
    requires SlotsBelow(t)
  {
    var released := Released(t, done, now);
    Table(seq(|t.storage|, s requires 0 <= s < |t.storage| => if s in released then None else t.storage[s]),
          map p | p in t.lookup && !(p in done && StalePeer(t, p, now)) :: t.lookup[p],
          t.free + released)
  }

  /** The table `purge` leaves: every stale peer dropped and its slot emptied and freed. */
  function Purged(t: Table, now: int): (r: Table)
    requires SlotsBelow(t)
    ensures |r.storage| == |t.storage|
    ensures forall p :: p in r.lookup <==> p in t.lookup && !StalePeer(t, p, now)
    ensures forall p :: p in r.lookup ==> r.lookup[p] == t.lookup[p]
  {
    PurgedFor(t, t.lookup.Keys, now)
  }

  predicate Injective(lookup: map<PeerId, nat>)
  {
    forall p, q :: p in lookup && q in lookup && p != q ==> lookup[p] != lookup[q]
  }

  lemma ReleasedStep(t: Table, done: set<PeerId>, p: PeerId, now: int)
    requires SlotsBelow(t) && Injective(t.lookup) && p in t.lookup && p !in done
    ensures t.lookup[p] !in Released(t, done, now)
    ensures Released(t, done + {p}, now) ==
      Released(t, done, now) + (if StalePeer(t, p, now) then {t.lookup[p]} else {})
  {
    forall q | q in t.lookup && q in done
      ensures t.lookup[q] != t.lookup[p]
    {
      assert q != p;
    }
  }

  /** One step of `purge`'s loop, examining peer `p`. */
  lemma PurgeStep(t: Table, done: set<PeerId>, p: PeerId, now: int)
    requires SlotsBelow(t) && Injective(t.lookup) && p in t.lookup && p !in done
    ensures var u := PurgedFor(t, done, now);
      && p in u.lookup && u.lookup[p] == t.lookup[p] && SlotsBelow(u)
      && u.storage[t.lookup[p]] == t.storage[t.lookup[p]]
      && PurgedFor(t, done + {p}, now) ==
         (if StalePeer(t, p, now)
          then Table(u.storage[t.lookup[p] := None], u.lookup - {p}, u.free + {t.lookup[p]})
          else u)
  {
    var u := PurgedFor(t, done, now);
    var slot := t.lookup[p];
    ReleasedStep(t, done, p, now);
    var v := PurgedFor(t, done + {p}, now);
    if StalePeer(t, p, now) {
      assert v.storage == u.storage[slot := None];
      assert v.lookup == u.lookup - {p};
    } else {
      assert v.storage == u.storage;
      assert v.lookup == u.lookup;
    }
  }

  /** `purge` keeps the invariant. */
  lemma PurgedValid(t: Table, c: Config, now: int)
    requires TableValid(t, c)
    ensures TableValid(Purged(t, now), c)
  {
    var r := Purged(t, now);
    var released := Released(t, t.lookup.Keys, now);
    forall s | 0 <= s < c.capacity
      ensures s in r.free || s in r.lookup.Values
    {
      if s !in t.free {
        var p :| p in t.lookup && t.lookup[p] == s;
        if StalePeer(t, p, now) {
          assert s in released;
        } else {
          assert p in r.lookup;
        }
      }
    }
    forall p, q | p in r.lookup && q in t.lookup && StalePeer(t, q, now)
      ensures t.lookup[q] != r.lookup[p]
    {
      assert q != p;
    }
  }

  /**
   * `purge` drops exactly the stale peers; a peer with a live record keeps
   * its slot and its record untouched, and a dropped peer's slot is empty
   * and free.
   */
  lemma PurgeSeparatesLiveFromStale(t: Table, c: Config, now: int, p: PeerId)
    requires TableValid(t, c) && p in t.lookup
    ensures var r := Purged(t, now);
      && (p in r.lookup <==> !Stale(t.storage[t.lookup[p]], now))
      && (p in r.lookup ==> r.lookup[p] == t.lookup[p] && r.storage[t.lookup[p]] == t.storage[t.lookup[p]])
      && (p !in r.lookup ==> t.lookup[p] in r.free && r.storage[t.lookup[p]].None?)
  {
    var released := Released(t, t.lookup.Keys, now);
    if !StalePeer(t, p, now) {
      assert t.lookup[p] !in released;
    }
  }

  // ---------------------------------------------------------------------
  // cache and isDuplicate
  // ---------------------------------------------------------------------

  /** The record `cache` writes: fresh expiry, the previous fingerprints (if any) plus the new one. */
  function NewRecord(prev: Option<CacheRecord>, peer: PeerId, fp: Fingerprint, now: int, c: Config): (r: CacheRecord)
    requires 0 < c.maxEntriesPerPeer
    requires prev.Some? ==> |prev.value.fingerprints| <= c.maxEntriesPerPeer
    ensures r.peer == peer && r.validTill == now + c.expiration
    ensures prev.None? ==> r.fingerprints == [fp]
    ensures prev.Some? ==> r.fingerprints == BoundedPush(prev.value.fingerprints, fp, c.maxEntriesPerPeer)
    ensures fp in r.fingerprints && |r.fingerprints| <= c.maxEntriesPerPeer
  {
    var fps := if prev.Some? then prev.value.fingerprints else [];
    CacheRecord(peer, now + c.expiration, BoundedPush(fps, fp, c.maxEntriesPerPeer))
  }

  /** A record stored in `slot`, owned by its peer, the slot leaving the free set. */
  function Placed(t: Table, slot: nat, rec: CacheRecord): (r: Table)
    requires slot < |t.storage|
    ensures |r.storage| == |t.storage| && r.storage[slot] == Some(rec)
    ensures rec.peer in r.lookup && r.lookup[rec.peer] == slot && slot !in r.free
  {
    Table(t.storage[slot := Some(rec)], t.lookup[rec.peer := slot], t.free - {slot})
  }

  /** Placing a record keeps the invariant, into a free slot for a new peer or into the peer's own slot. */
  lemma PlacedValid(t: Table, c: Config, slot: nat, rec: CacheRecord)
    requires TableValid(t, c) && slot < c.capacity
    requires (slot in t.free && rec.peer !in t.lookup) || (rec.peer in t.lookup && t.lookup[rec.peer] == slot)
    requires |rec.fingerprints| <= c.maxEntriesPerPeer
    ensures TableValid(Placed(t, slot, rec), c)
  {
    var r := Placed(t, slot, rec);
    forall s | 0 <= s < c.capacity
      ensures s in r.free || s in r.lookup.Values
    {
      if s != slot && s !in t.free {
        var p :| p in t.lookup && t.lookup[p] == s;
        assert p != rec.peer;
        assert r.lookup[p] == s;
      }
    }
  }

  /**
   * `isDuplicate` on a live record: the expiry is prolonged and the
   * fingerprint is recorded unless it is already there.
   */
  function Touched(t: Table, slot: nat, fp: Fingerprint, now: int, c: Config): (r: Table)
    requires slot < |t.storage| && t.storage[slot].Some? && 0 < c.maxEntriesPerPeer
    requires |t.storage[slot].value.fingerprints| <= c.maxEntriesPerPeer
    ensures |r.storage| == |t.storage| && r.lookup == t.lookup && r.free == t.free
    ensures r.storage[slot].Some? && r.storage[slot].value.validTill == now + c.expiration
    ensures r.storage[slot].value.peer == t.storage[slot].value.peer
    ensures fp in r.storage[slot].value.fingerprints
    ensures fp in t.storage[slot].value.fingerprints ==>
      r.storage[slot].value.fingerprints == t.storage[slot].value.fingerprints
    ensures forall s :: 0 <= s < |t.storage| && s != slot ==> r.storage[s] == t.storage[s]
  {
    var rec := t.storage[slot].value;
    var fps := if fp in rec.fingerprints then rec.fingerprints
               else BoundedPush(rec.fingerprints, fp, c.maxEntriesPerPeer);
    Table(t.storage[slot := Some(rec.(validTill := now + c.expiration, fingerprints := fps))], t.lookup, t.free)
  }

  lemma TouchedValid(t: Table, c: Config, slot: nat, fp: Fingerprint, now: int)
    requires TableValid(t, c) && slot < c.capacity && t.storage[slot].Some?
    ensures TableValid(Touched(t, slot, fp, now, c), c)
  {
  }

  /**
   * What `cache` without a target slot may leave: it first purges when no
   * slot is free; if still none is free nothing else happens, otherwise
   * some free slot now holds the peer's fresh record.
   */
  ghost predicate CachedNew(t0: Table, t: Table, peer: PeerId, fp: Fingerprint, now: int, c: Config)
    requires TableValid(t0, c)
  {
    var t1 := if t0.free == {} then Purged(t0, now) else t0;
    if t1.free == {} then t == t1
    else exists s :: s in t1.free && s < |t1.storage| && t == Placed(t1, s, NewRecord(None, peer, fp, now, c))
  }

  /**
   * Once `isDuplicate` has recorded a fingerprint for a peer, the next
   * request with that fingerprint before the record expires is a duplicate:
   * the fingerprint is in the record, the record is live until
   * `now + expiration`, and the peer owns the slot.
   */
  lemma RecordedFingerprintIsDuplicate(prev: Option<CacheRecord>, peer: PeerId, fp: Fingerprint, now: int, later: int, c: Config)
    requires 0 < c.maxEntriesPerPeer
    requires prev.Some? ==> |prev.value.fingerprints| <= c.maxEntriesPerPeer
    requires now <= later <= now + c.expiration
    ensures var rec := NewRecord(prev, peer, fp, now, c);
      !Stale(Some(rec), later) && fp in rec.fingerprints
  {
  }

  // ---------------------------------------------------------------------
  // The cache object
  // ---------------------------------------------------------------------

  class BlocksResponseCache {
    const config: Config
    var storage: array<Option<CacheRecord>>
    var lookup: map<PeerId, nat>
    var freeSlots: set<nat>

    function Model(): Table
      reads this, storage
    {
      Table(storage[..], lookup, freeSlots)
    }

    ghost predicate Valid()
      reads this, storage
    {
      storage.Length == config.capacity && TableValid(Model(), config)
    }

    /** Every slot empty and free, no peer cached. */
    constructor (capacity: nat, expiration: nat, maxEntriesPerPeer: nat)
      requires 0 < maxEntriesPerPeer
      ensures config == Config(capacity, expiration, maxEntriesPerPeer)
      ensures Model() == Initial(config) && Valid()
      ensures fresh(storage)
    {
      config := Config(capacity, expiration, maxEntriesPerPeer);
      storage := new Option<CacheRecord>[capacity](_ => None);
      lookup := map[];
      var free: set<nat> := {};
      var i := 0;
      while i < capacity
        invariant 0 <= i <= capacity
        invariant free == Slots(i)
      {
        free := free + {i};
        i := i + 1;
      }
      freeSlots := free;
      new;
      assert storage[..] == Initial(config).storage;
      InitialValid(config);
    }

    /** `purge`: examines every cached peer, dropping those whose record is missing or expired. */
    method Purge(now: int)
      requires Valid()
      modifies this, storage
      ensures Model() == Purged(old(Model()), now) && Valid()
      ensures storage == old(storage)
    {
      ghost var t0 := Model();
      var todo := lookup.Keys;
      while todo != {}
        invariant todo <= t0.lookup.Keys && storage == old(storage)
        invariant Model() == PurgedFor(t0, t0.lookup.Keys - todo, now)
        decreases |todo|
      {
        var p :| p in todo;
        assert t0.lookup.Keys - (todo - {p}) == (t0.lookup.Keys - todo) + {p};
        PurgeEntry(p, now, t0, t0.lookup.Keys - todo);
        todo := todo - {p};
      }
      assert t0.lookup.Keys - todo == t0.lookup.Keys;
      PurgedValid(t0, config, now);
    }

    /** The body of `purge`'s loop: drops peer `p` if its slot is empty or expired. */
    method PurgeEntry(p: PeerId, now: int, ghost t0: Table, ghost done: set<PeerId>)
      requires SlotsBelow(t0) && Injective(t0.lookup) && p in t0.lookup && p !in done
      requires Model() == PurgedFor(t0, done, now)
      modifies this, storage
      ensures storage == old(storage)
      ensures Model() == PurgedFor(t0, done + {p}, now)
    {
      ghost var u := Model();
      PurgeStep(t0, done, p, now);
      var slot := lookup[p];
      if storage[slot].None? || now > storage[slot].value.validTill {
        assert StalePeer(t0, p, now);
        storage[slot] := None;
        freeSlots := freeSlots + {slot};
        lookup := lookup - {p};
        assert storage[..] == u.storage[slot := None];
      } else {
        assert !StalePeer(t0, p, now);
      }
    }

    /** `cache` without a target slot, for a peer not yet cached. */
    method CacheNew(peer: PeerId, fp: Fingerprint, now: int)
      requires Valid() && peer !in lookup
      modifies this, storage
      ensures Valid()
      ensures CachedNew(old(Model()), Model(), peer, fp, now, config)
    {
      ghost var t0 := Model();
      if freeSlots == {} {
        Purge(now);
      }
      ghost var t1 := Model();
      if freeSlots == {} {
        return;
      }
      var slot :| slot in freeSlots;
      freeSlots := freeSlots - {slot};
      var rec := NewRecord(None, peer, fp, now, config);
      storage[slot] := Some(rec);
      lookup := lookup[peer := slot];
      assert Model() == Placed(t1, slot, rec);
      PlacedValid(t1, config, slot, rec);
    }

    /** `cache` with a target slot: the peer's record is rebuilt in its own slot. */
    method CacheAt(peer: PeerId, fp: Fingerprint, slot: nat, now: int)
      requires Valid() && peer in lookup && lookup[peer] == slot
      modifies storage
      ensures Valid()
      ensures Model() == Placed(old(Model()), slot, NewRecord(old(storage[slot]), peer, fp, now, config))
    {
      var rec := NewRecord(storage[slot], peer, fp, now, config);
      ghost var t0 := Model();
      storage[slot] := Some(rec);
      assert t0.lookup[peer := slot] == t0.lookup;
      assert Model() == Placed(t0, slot, rec);
      PlacedValid(t0, config, slot, rec);
    }

    /**
     * `isDuplicate`: true exactly when the peer has a live record that
     * already holds the fingerprint. A new peer is cached; a peer whose
     * record is missing or expired gets its record rebuilt in its slot; a
     * live record is prolonged and records the fingerprint.
     */
    method IsDuplicate(peer: PeerId, fp: Fingerprint, now: int) returns (dup: bool)
      requires Valid()
      modifies this, storage
      ensures Valid()
      ensures dup <==> peer in old(lookup) && !Stale(old(Model()).storage[old(lookup)[peer]], now)
                       && fp in old(Model()).storage[old(lookup)[peer]].value.fingerprints
      ensures peer !in old(lookup) ==> CachedNew(old(Model()), Model(), peer, fp, now, config)
      ensures peer in old(lookup) && Stale(old(Model()).storage[old(lookup)[peer]], now) ==>
        Model() == Placed(old(Model()), old(lookup)[peer],
                          NewRecord(old(Model()).storage[old(lookup)[peer]], peer, fp, now, config))
      ensures peer in old(lookup) && !Stale(old(Model()).storage[old(lookup)[peer]], now) ==>
        Model() == Touched(old(Model()), old(lookup)[peer], fp, now, config)
    {
      if peer !in lookup {
        CacheNew(peer, fp, now);
        return false;
      }
      var slot := lookup[peer];
      if storage[slot].None? || now > storage[slot].value.validTill {
        CacheAt(peer, fp, slot, now);
        return false;
      }
      ghost var t0 := Model();
      var rec := storage[slot].value;
      dup := fp in rec.fingerprints;
      var fps := if dup then rec.fingerprints else BoundedPush(rec.fingerprints, fp, config.maxEntriesPerPeer);
      storage[slot] := Some(rec.(validTill := now + config.expiration, fingerprints := fps));
      assert Model() == Touched(t0, slot, fp, now, config);
      TouchedValid(t0, config, slot, fp, now);
    }
  }
}
