/**
 * The precompute witness cache as an object updated in place: a recency list
 * of (key, witness) pairs, an index from each hot key to its position in that
 * list, and the dirty map of evicted entries awaiting a flush. Every method is
 * proved to move the cache's observable state exactly as the corresponding
 * function of CacheSpec does, so the lemmas proved there hold of the object.
 */
module LruCache {
  import opened CacheSpec

  /**
   * The database a flush writes to. Only the sequence of records written is
   * modelled; a write always succeeds.
   */
  class PrecomputeDB<K, V> {
    var writes: seq<(K, V)>

    constructor ()
      ensures writes == []
    {
      writes := [];
    }

    /** Persists one (key, witness) record. */
    method WritePrecompute(k: K, v: V)
      modifies this
      ensures writes == old(writes) + [(k, v)]
    {
      writes := writes + [(k, v)];
    }
  }

  /**
   * `loc` indexes exactly the keys of `list`, each at the position of its own
   * node: the relation between cache_list and mapCacheLocation.
   */
  ghost predicate IndexedBy<K, V>(list: seq<(K, V)>, loc: map<K, nat>)
  {
    && loc.Keys == Keys(list)
    && forall k | k in loc :: loc[k] < |list| && list[loc[k]].0 == k
  }

  /** The index after a node for `h` is pushed at the front. */
  function PushedIndex<K(==)>(loc: map<K, nat>, h: K): map<K, nat>
  {
    (map k | k in loc :: loc[k] + 1)[h := 0]
  }

  /** The list after its node at position `j` is relinked at the front. */
  function Spliced<T>(list: seq<T>, j: nat): seq<T>
    requires j < |list|
  {
    [list[j]] + list[..j] + list[j + 1..]
  }

  /** The list after its node at position `j` is erased. */
  function Unlinked<T>(list: seq<T>, j: nat): seq<T>
    requires j < |list|
  {
    list[..j] + list[j + 1..]
  }

  /** The index after the node at position `j`, keyed `h`, is relinked at the front. */
  function SplicedIndex<K(==)>(loc: map<K, nat>, h: K, j: nat): map<K, nat>
  {
    map k | k in loc :: if k == h then 0 else if loc[k] < j then loc[k] + 1 else loc[k]
  }

  /** The index after the node at position `j`, keyed `h`, is erased. */
  function UnlinkedIndex<K(==)>(loc: map<K, nat>, h: K, j: nat): map<K, nat>
  {
    map k | k in loc && k != h :: if loc[k] > j then loc[k] - 1 else loc[k]
  }

  /** The index has as many keys as the list has nodes. */
  lemma IndexedSize<K, V>(list: seq<(K, V)>, loc: map<K, nat>)
    requires IndexedBy(list, loc) && Distinct(list)
    ensures |loc| == |list|
  {
    DistinctKeysCount(list);
    assert |loc| == |loc.Keys|;
  }

  /** Pushing a node for a new key at the front shifts every other key's position by one. */
  lemma IndexAfterPush<K, V>(list: seq<(K, V)>, loc: map<K, nat>, h: K, d: V)
    requires IndexedBy(list, loc) && Distinct(list) && h !in loc
    ensures IndexedBy([(h, d)] + list, PushedIndex(loc, h)) && Distinct([(h, d)] + list)
  {
    var l := [(h, d)] + list;
    var m := PushedIndex(loc, h);
    assert Distinct(l) && Keys(l) == {h} + Keys(list) by {
      KeysCons(l);
      assert l[1..] == list;
    }
    forall k | k in m ensures m[k] < |l| && l[m[k]].0 == k {
      if k != h {
        assert l[loc[k] + 1] == list[loc[k]];
      }
    }
  }

  /**
   * Spilling the tail of an over-full list: the index has one key per node, so
   * comparing its size with the capacity is comparing the list's length; the
   * shortened list and the index without the tail's key still agree.
   */
  lemma IndexAfterEvict<K, V>(list: seq<(K, V)>, loc: map<K, nat>, dirty: map<K, V>, cap: nat)
    requires IndexedBy(list, loc) && Distinct(list)
    ensures |loc| == |list|
    ensures |list| <= cap ==> EvictIfFull(Tiers(list, dirty), cap) == Tiers(list, dirty)
    ensures |list| > cap ==>
      var n := |list|;
      var last := list[n - 1];
      && EvictIfFull(Tiers(list, dirty), cap) == Tiers(list[..n - 1], dirty[last.0 := last.1])
      && IndexedBy(list[..n - 1], loc - {last.0})
      && Distinct(list[..n - 1])
  {
    IndexedSize(list, loc);
    if |list| > cap {
      IndexAfterPop(list, loc);
    }
  }

  /** Popping the tail node drops its key from the index and moves no other node. */
  lemma IndexAfterPop<K, V>(list: seq<(K, V)>, loc: map<K, nat>)
    requires IndexedBy(list, loc) && Distinct(list) && list != []
    ensures var n := |list|;
      IndexedBy(list[..n - 1], loc - {list[n - 1].0}) && Distinct(list[..n - 1])
  {
    var n := |list|;
    var init := list[..n - 1];
    var m := loc - {list[n - 1].0};
    assert m.Keys == Keys(init) && Distinct(init) by {
      KeysSnoc(list);
    }
    forall k | k in m ensures m[k] < |init| && init[m[k]].0 == k {
      assert loc[k] != n - 1;
    }
  }

  /** Where each node of `list` sits after the node at `j` is relinked at the front. */
  lemma SplicedAt<K, V>(list: seq<(K, V)>, j: nat, i: nat)
    requires j < |list| && i < |list|
    ensures |Spliced(list, j)| == |list|
    ensures Spliced(list, j)[i] == if i == 0 then list[j] else if i <= j then list[i - 1] else list[i]
  {
  }

  /** In a list with distinct keys, relinking the node of `h` at the front is `ToFront` with its own witness. */
  lemma SplicedIsToFront<K, V>(list: seq<(K, V)>, h: K, j: nat)
    requires Distinct(list) && j < |list| && list[j].0 == h
    ensures Spliced(list, j) == ToFront(list, h, Value(list, h))
  {
    WithoutAt(list, h, j);
    ValueOfEntry(list, h, list[j].1);
    assert Spliced(list, j) == [list[j]] + (list[..j] + list[j + 1..]);
  }

  /** Relinking the node of `h` at the front shifts the nodes before it by one. */
  lemma IndexAfterSplice<K, V>(list: seq<(K, V)>, loc: map<K, nat>, h: K)
    requires IndexedBy(list, loc) && h in loc
    ensures IndexedBy(Spliced(list, loc[h]), SplicedIndex(loc, h, loc[h]))
  {
    var j := loc[h];
    var l := Spliced(list, j);
    var m := SplicedIndex(loc, h, j);
    forall p | p in list ensures p in l {
      var i :| 0 <= i < |list| && list[i] == p;
      var i' := if i == j then 0 else if i < j then i + 1 else i;
      SplicedAt(list, j, i');
    }
    forall p | p in l ensures p in list {
      var i :| 0 <= i < |l| && l[i] == p;
      SplicedAt(list, j, i);
    }
    forall k | k in m ensures m[k] < |l| && l[m[k]].0 == k {
      SplicedAt(list, j, m[k]);
    }
  }

  /** Relinking a hot key's node at the front keeps both tiers and the index valid. */
  lemma SpliceKeepsValid<K, V>(list: seq<(K, V)>, loc: map<K, nat>, dirty: map<K, V>, cap: nat, h: K)
    requires Valid(Tiers(list, dirty), cap) && IndexedBy(list, loc) && h in loc
    ensures var l := Spliced(list, loc[h]);
      && l == ToFront(list, h, Value(list, h))
      && Valid(Tiers(l, dirty), cap)
      && IndexedBy(l, SplicedIndex(loc, h, loc[h]))
  {
    IndexAfterSplice(list, loc, h);
    SplicedIsToFront(list, h, loc[h]);
    ToFrontEffect(Tiers(list, dirty), cap, h, Value(list, h));
  }

  /** Overwriting the witness of the front node leaves the keys, and so the index, as they were. */
  lemma OverwriteFront<K, V>(list: seq<(K, V)>, loc: map<K, nat>, h: K, d: V)
    requires IndexedBy(list, loc) && Distinct(list) && list != [] && list[0].0 == h
    ensures IndexedBy(list[0 := (h, d)], loc) && Distinct(list[0 := (h, d)])
  {
    var l := list[0 := (h, d)];
    KeysCons(list);
    KeysCons(l);
    assert l[1..] == list[1..];
  }

  /** Overwriting the witness of the entry just moved to the front is the same as moving the new witness there. */
  lemma RefreshFront<K, V>(list: seq<(K, V)>, h: K, v: V, d: V)
    ensures ToFront(list, h, v)[0 := (h, d)] == ToFront(list, h, d)
  {
    var w := Without(list, h);
    assert ([(h, v)] + w)[0 := (h, d)] == [(h, d)] + w;
  }

  /** Where each node of `list` sits after the node at `j` is erased. */
  lemma UnlinkedAt<K, V>(list: seq<(K, V)>, j: nat, i: nat)
    requires j < |list| && i < |list| - 1
    ensures |Unlinked(list, j)| == |list| - 1
    ensures Unlinked(list, j)[i] == if i < j then list[i] else list[i + 1]
  {
  }

  /** In a list with distinct keys, erasing the node of `h` is `Without` of `h`. */
  lemma UnlinkedIsWithout<K, V>(list: seq<(K, V)>, h: K, j: nat)
    requires Distinct(list) && j < |list| && list[j].0 == h
    ensures Unlinked(list, j) == Without(list, h)
  {
    WithoutAt(list, h, j);
  }

  /** Erasing the node of `h` shifts the nodes after it back by one. */
  lemma IndexAfterUnlink<K, V>(list: seq<(K, V)>, loc: map<K, nat>, h: K)
    requires IndexedBy(list, loc) && Distinct(list) && h in loc
    ensures IndexedBy(Unlinked(list, loc[h]), UnlinkedIndex(loc, h, loc[h]))
  {
    var j := loc[h];
    var l := Unlinked(list, j);
    var m := UnlinkedIndex(loc, h, j);
    assert Keys(l) == Keys(list) - {h} by {
      UnlinkedIsWithout(list, h, j);
    }
    forall k | k in m ensures m[k] < |l| && l[m[k]].0 == k {
      assert loc[k] != j;
      UnlinkedAt(list, j, m[k]);
    }
  }

  class PrecomputeLRUCache<K(==), V> {
    /** The bound on the hot tier. */
    const capacity: nat
    /** What a read returns on a miss: the default-constructed witness. */
    const missing: V

    /** The hot tier as a recency list, most recently used first. */
    var cacheList: seq<(K, V)>
    /** The position of each hot key's node in `cacheList`. */
    var location: map<K, nat>
    /** Evicted entries that have not been written to the database yet. */
    var dirty: map<K, V>

    /** The observable state: the recency list and the dirty tier. */
    function State(): Tiers<K, V>
      reads this
    {
      Tiers(cacheList, dirty)
    }

    /** The index holds exactly the keys of the recency list, each at its own node. */
    ghost predicate Indexed()
      reads this
    {
      IndexedBy(cacheList, location)
    }

    ghost predicate Valid()
      reads this
    {
      CacheSpec.Valid(State(), capacity) && Indexed()
    }

    constructor (capacity: nat, missing: V)
      requires 1 <= capacity
      ensures Valid() && State() == Reset()
      ensures this.capacity == capacity && this.missing == missing
    {
      this.capacity := capacity;
      this.missing := missing;
      cacheList := [];
      location := map[];
      dirty := map[];
    }

    /** Empties both tiers. */
    method Clear()
      requires Valid()
      modifies this
      ensures Valid() && State() == Reset()
    {
      cacheList := [];
      location := map[];
      dirty := map[];
    }

    /** The number of hot entries: the index has one key per node of the list. */
    function Size(): (n: nat)
      reads this
      requires Valid()
      ensures n == |cacheList| && n <= capacity
    {
      IndexedSize(cacheList, location);
      |location|
    }

    /** The number of dirty entries: every entry not in the hot tier. */
    function DirtyCacheSize(): (n: nat)
      reads this
      requires Valid()
      ensures n + |cacheList| == |Entries(State())|
    {
      DistinctKeysCount(cacheList);
      assert Entries(State()).Keys == Keys(cacheList) + dirty.Keys;
      |dirty|
    }

    /** Whether the cache holds an entry for `h` in either tier. */
    function Contains(h: K): (b: bool)
      reads this
      requires Valid()
      ensures b <==> h in Entries(State())
    {
      h in location || h in dirty
    }

    /**
     * Pushes a key the hot tier does not hold to the front, spills the tail if
     * the hot tier overflows, and erases any dirty copy of the key.
     */
    method AddNew(h: K, d: V)
      requires Valid() && h !in location
      modifies this
      ensures Valid() && State() == CacheSpec.AddNew(old(State()), capacity, h, d)
    {
      ghost var before := State();
      IndexAfterPush(cacheList, location, h, d);
      cacheList, location := [(h, d)] + cacheList, PushedIndex(location, h);
      MoveLastToDirtyIfFull();
      dirty := dirty - {h};
      AddNewEffect(before, capacity, h, d);
    }

    /** Moves the least recently used hot entry into the dirty tier when the hot tier is over capacity. */
    method MoveLastToDirtyIfFull()
      requires Indexed() && Distinct(cacheList)
      modifies this
      ensures Indexed() && Distinct(cacheList)
      ensures State() == EvictIfFull(old(State()), capacity)
    {
      IndexAfterEvict(cacheList, location, dirty, capacity);
      if |location| > capacity {
        var n := |cacheList|;
        var last := cacheList[n - 1];
        cacheList, location, dirty := cacheList[..n - 1], location - {last.0}, dirty[last.0 := last.1];
      }
    }

    /** Relinks the node of a hot key at the front of the recency list. */
    method MoveToFront(h: K)
      requires Valid() && h in location
      modifies this
      ensures Valid() && dirty == old(dirty)
      ensures cacheList == ToFront(old(cacheList), h, Value(old(cacheList), h))
    {
      var j := location[h];
      SpliceKeepsValid(cacheList, location, dirty, capacity, h);
      cacheList, location := Spliced(cacheList, j), SplicedIndex(location, h, j);
    }

    /** Promotes a dirty entry back into the hot tier. */
    method MoveDirtyToLRU(h: K)
      requires Valid() && h in dirty
      modifies this
      ensures Valid() && State() == CacheSpec.MoveDirtyToLRU(old(State()), capacity, h)
    {
      var d := dirty[h];
      AddNew(h, d);
    }

    /**
     * Returns the witness stored for `h`, promoting it from the dirty tier if
     * needed and making it the most recently used entry; a miss returns the
     * default witness.
     */
    method GetWitnessData(h: K) returns (r: V)
      requires Valid()
      modifies this
      ensures Valid() && (State(), r) == CacheSpec.GetWitnessData(old(State()), capacity, h, missing)
    {
      if h in dirty {
        MoveDirtyToLRU(h);
      }
      if h in location {
        MoveToFront(h);
        r := cacheList[0].1;
      } else {
        r := missing;
      }
    }

    /** Deletes `h` from both tiers. */
    method Remove(h: K)
      requires Valid()
      modifies this
      ensures Valid() && State() == CacheSpec.Remove(old(State()), h)
    {
      ghost var before := State();
      if h in location {
        var j := location[h];
        IndexAfterUnlink(cacheList, location, h);
        UnlinkedIsWithout(cacheList, h, j);
        cacheList, location := Unlinked(cacheList, j), UnlinkedIndex(location, h, j);
      } else {
        WithoutAbsent(cacheList, h);
      }
      dirty := dirty - {h};
      RemoveEffect(before, capacity, h);
    }

    /**
     * Makes `h` the most recently used hot entry with witness `d`: an existing
     * hot entry is moved to the front and overwritten, a new one is pushed.
     */
    method AddToCache(h: K, d: V)
      requires Valid()
      modifies this
      ensures Valid() && State() == CacheSpec.AddToCache(old(State()), capacity, h, d)
    {
      ghost var before := State();
      if h in location {
        MoveToFront(h);
        OverwriteFront(cacheList, location, h, d);
        RefreshFront(before.hot, h, Value(before.hot, h), d);
        cacheList := cacheList[0 := (h, d)];
      } else {
        AddNew(h, d);
      }
      ghost var placed := State();
      assert Indexed() && Distinct(cacheList);
      dirty := dirty - {h};
      MoveLastToDirtyIfFull();
      assert State() == EvictIfFull(Tiers(placed.hot, placed.dirty - {h}), capacity);
      assert CacheSpec.Valid(State(), capacity) by { AddToCacheEffect(before, capacity, h, d); }
    }

    /** Writes every dirty entry to the database, in the map's own order. */
    method WriteDirtyEntries(db: PrecomputeDB<K, V>)
      modifies db
      ensures exists w :: Enumerates(w, dirty) && db.writes == old(db.writes) + w
    {
      ghost var written: seq<(K, V)> := [];
      var pending := dirty.Keys;
      while pending != {}
        invariant pending <= dirty.Keys
        invariant db.writes == old(db.writes) + written
        invariant Enumerates(written, dirty - pending)
        decreases |pending|
      {
        var k :| k in pending;
        EnumeratesStep(written, dirty, pending, k);
        db.WritePrecompute(k, dirty[k]);
        written := written + [(k, dirty[k])];
        pending := pending - {k};
      }
      assert dirty - pending == dirty;
    }

    /** Writes every hot entry to the database, from most to least recently used. */
    method WriteHotEntries(db: PrecomputeDB<K, V>)
      modifies db
      ensures db.writes == old(db.writes) + cacheList
    {
      var i := 0;
      while i < |cacheList|
        invariant 0 <= i <= |cacheList|
        invariant db.writes == old(db.writes) + cacheList[..i]
      {
        db.WritePrecompute(cacheList[i].0, cacheList[i].1);
        i := i + 1;
      }
      assert cacheList[..i] == cacheList;
    }

    /**
     * Writes every dirty entry, then empties the dirty tier, then writes every
     * hot entry; the hot tier stays cached.
     */
    method FlushToDisk(db: PrecomputeDB<K, V>)
      requires Valid()
      modifies this`dirty, db
      ensures Valid() && State() == Flush(old(State())) && location == old(location)
      ensures exists w :: Enumerates(w, old(dirty)) && db.writes == old(db.writes) + w + cacheList
    {
      WriteDirtyEntries(db);
      ghost var w :| Enumerates(w, dirty) && db.writes == old(db.writes) + w;
      dirty := map[];
      WriteHotEntries(db);
    }
  }
}
