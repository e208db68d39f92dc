# Precompute witness LRU cache

A model of `PrecomputeLRUCache` from Veil's zerocoin code. The cache keeps
expensive witness data keyed by a coin hash in two tiers:

- the **hot tier**, a recency list (`cache_list`, most recently used first) of
  at most `PRECOMPUTE_LRU_CACHE_SIZE` entries, indexed by `mapCacheLocation`;
- the **dirty tier** (`mapDirtyWitnessData`), an unbounded map that receives
  the least recently used hot entry whenever the hot tier overflows, and that
  is written to the precompute database and emptied by `FlushToDisk`.

A read of a dirty key promotes it back into the hot tier. A read or write of a
hot key moves it to the front of the list.

The project has two modules.

- `CacheSpec` (`cache_spec.dfy`) describes the cache on values. `Tiers` is the
  observable state: the recency list and the dirty map. Each operation is one
  function from the old state to the new one. `Valid` is the invariant:
  - a positive capacity;
  - a hot tier within the capacity;
  - distinct hot keys;
  - no key in both tiers.

  `Entries` is everything the cache holds, across both tiers. The lemmas state
  what each operation promises in these terms.
- `LruCache` (`lrucache.dfy`) is the object updated in place. It holds:
  - `cacheList` for the list;
  - `location`, a map from each hot key to its node's position, standing for
    `mapCacheLocation`;
  - `dirty`;
  - `PrecomputeDB`, a database class that records the writes it receives.

  Every public mutator requires and ensures `Valid()`, which is the
  value-level invariant plus agreement between `location` and `cacheList`.
  The internal step `MoveLastToDirtyIfFull` runs while the hot tier may be
  one over capacity, so it requires and keeps only that agreement and
  distinct hot keys. Every mutator ensures that the new `State()` is the
  corresponding `CacheSpec` function of the old one. So the lemmas of
  `CacheSpec` hold of the object.

Generic `K` and `V` stand for `uint256` and the witness data types. The capacity
and the value a miss returns are constructor parameters.

A promotion round trip does not leave the dirty tier empty. After
`CAPACITY + 1` distinct insertions, reading the first key promotes it, and the
promotion spills the hot tier's tail into the dirty tier. So one dirty entry
remains. The code behaves this way (lines 47 and 23 of `lrucache.cpp`), and the
model follows the code: `SpillAndPromote` shows it with a capacity of two.

## Model

| member | source | states |
|---|---|---|
| CacheSpec.Reset | src/veil/zerocoin/lrucache.cpp:12-17 | The state after construction or `Clear`: an empty recency list and an empty dirty tier. |
| CacheSpec.AddNew | src/veil/zerocoin/lrucache.cpp:19-26 | Push the new entry at the front, evict if over capacity, then erase the key from the dirty tier. |
| CacheSpec.MoveDirtyToLRU | src/veil/zerocoin/lrucache.cpp:43-48 | Promotion of a dirty key is `AddNew` of its dirty value. |
| CacheSpec.EvictIfFull | src/veil/zerocoin/lrucache.cpp:50-59 | When the hot tier holds more than the capacity, its tail entry is popped and stored in the dirty tier under its key; otherwise nothing changes. |
| CacheSpec.GetWitnessData | src/veil/zerocoin/lrucache.cpp:61-75 | Promote a dirty key first; then a hot key is moved to the front and its value returned; otherwise the default value is returned and nothing changes. |
| CacheSpec.ToFront | src/veil/zerocoin/lrucache.cpp:92-93 | The list with the key's node moved to the front, holding the given value. |
| CacheSpec.Remove | src/veil/zerocoin/lrucache.cpp:77-85 | Unlink the key's node from the list and erase the key from the dirty tier. |
| CacheSpec.AddToCache | src/veil/zerocoin/lrucache.cpp:87-101 | A hot key is moved to the front with the new value, a new key goes through `AddNew`; then the key is erased from the dirty tier and the hot tier is evicted if over capacity. |
| CacheSpec.Flush | src/veil/zerocoin/lrucache.cpp:109 | The state after a flush: the dirty tier is empty and the hot tier is kept. |
| LruCache.PrecomputeLRUCache.constructor | src/veil/zerocoin/lrucache.cpp:7-10 | A new cache is valid and has both tiers empty. |
| LruCache.PrecomputeLRUCache.Clear | src/veil/zerocoin/lrucache.cpp:12-17 | Clearing empties the recency list, the index and the dirty tier, and keeps the invariant. |
| CacheSpec.ResetHoldsNothing | src/veil/zerocoin/lrucache.cpp:12-17 | A cleared cache has size 0 and dirty size 0, and it holds no key in either tier. |
| LruCache.PrecomputeLRUCache.AddNew | src/veil/zerocoin/lrucache.cpp:19-26 | Pushes a key the hot tier lacks to the front, spills the tail if over capacity, and erases the key's dirty copy. The new state is `CacheSpec.AddNew` of the old one, and the invariant holds. |
| CacheSpec.AddNewEffect | src/veil/zerocoin/lrucache.cpp:19-26 | After `AddNew` the key is at the head with its value and not dirty. The hot tier grows by one, or stays at the capacity when it was full, so at most the old tail spills. The rest of the list keeps its order. The cache's entries are the old ones with the key mapped to its value. The invariant is kept. |
| CacheSpec.AddNewHot | src/veil/zerocoin/lrucache.cpp:21-23 | The list after `AddNew` is the new entry followed by the old list; its length is the old length plus one, or the capacity when the old list was full, so only the tail is dropped. Its keys are distinct. |
| CacheSpec.AddNewKeys | src/veil/zerocoin/lrucache.cpp:21-25 | Keys that leave the hot tier during `AddNew` enter the dirty tier, and the added key is not dirty. |
| CacheSpec.AddNewEntries | src/veil/zerocoin/lrucache.cpp:19-26 | `AddNew` loses no entry and maps the key to its value. |
| LruCache.IndexAfterPush | src/veil/zerocoin/lrucache.cpp:21-22 | After a push to the front, the index with every position shifted by one, plus the new key at 0, agrees with the list, and the keys stay distinct. |
| LruCache.PrecomputeLRUCache.Size | src/veil/zerocoin/lrucache.cpp:28-31 | The size of the index is the length of the recency list, and it is at most the capacity. |
| LruCache.IndexedSize | src/veil/zerocoin/lrucache.cpp:28-31 | An index that agrees with a list of distinct keys has exactly one key per node. |
| LruCache.PrecomputeLRUCache.DirtyCacheSize | src/veil/zerocoin/lrucache.cpp:33-36 | The dirty count plus the hot count is the number of entries the cache holds. |
| LruCache.PrecomputeLRUCache.Contains | src/veil/zerocoin/lrucache.cpp:38-41 | True exactly when the cache holds an entry for the key in either tier. |
| LruCache.PrecomputeLRUCache.MoveDirtyToLRU | src/veil/zerocoin/lrucache.cpp:43-48 | Promoting a dirty key is `AddNew` of its dirty value, and the invariant holds. |
| LruCache.PrecomputeLRUCache.MoveLastToDirtyIfFull | src/veil/zerocoin/lrucache.cpp:50-59 | When the index holds more keys than the capacity, the tail entry moves into the dirty map; otherwise nothing changes. The index keeps agreeing with the list. |
| LruCache.IndexAfterEvict | src/veil/zerocoin/lrucache.cpp:52-57 | Comparing the index size with the capacity is comparing the list length. Popping the tail and erasing its key keep the index consistent. |
| LruCache.IndexAfterPop | src/veil/zerocoin/lrucache.cpp:53-57 | After the tail node is popped and its key erased from the index, the index agrees with the shorter list. |
| CacheSpec.EvictIfFullEffect | src/veil/zerocoin/lrucache.cpp:50-59 | Eviction loses nothing. The list keeps its order minus at most its tail. The keys that leave the hot tier enter the dirty tier. Every entry keeps its value. |
| CacheSpec.EvictIfFullHot | src/veil/zerocoin/lrucache.cpp:52-57 | Eviction leaves a prefix of the list, one shorter exactly when the list is over capacity, with distinct keys. |
| CacheSpec.EvictIfFullKeys | src/veil/zerocoin/lrucache.cpp:54-56 | The key that leaves the hot tier on eviction is added to the dirty tier. |
| CacheSpec.EvictIfFullEntries | src/veil/zerocoin/lrucache.cpp:55-57 | Eviction changes no entry of the cache. |
| LruCache.PrecomputeLRUCache.GetWitnessData | src/veil/zerocoin/lrucache.cpp:61-75 | Returns what `CacheSpec.GetWitnessData` returns and moves the state as it does. The invariant holds. |
| CacheSpec.GetWitnessDataEffect | src/veil/zerocoin/lrucache.cpp:61-75 | A hit returns the stored value, leaves the key at the head and not dirty, and changes no entry. The other hot entries follow in their old order, and the hot tier's length is one more than theirs or the capacity, so promotion spills at most the tail. A miss returns the default and changes nothing. A hot hit leaves the dirty tier unchanged. |
| CacheSpec.ReadOfDirtyKey | src/veil/zerocoin/lrucache.cpp:63-72 | Reading a dirty key is `AddNew` of its dirty value, after which the key is already at the front. |
| CacheSpec.ReadOfDirtyKeyEffect | src/veil/zerocoin/lrucache.cpp:43-72 | Reading a dirty key returns its value and leaves it at the head, not dirty. The old list follows it; the hot tier grows by one or stays at the capacity, so at most the old tail spills. No entry is lost. |
| CacheSpec.ReadOfHotKey | src/veil/zerocoin/lrucache.cpp:67-72 | Reading a hot key is an `AddToCache` of the value it already holds. |
| CacheSpec.ReadOfHotKeyEffect | src/veil/zerocoin/lrucache.cpp:67-72 | Reading a hot key returns its value, moves it to the front, keeps the dirty tier, and changes no entry. |
| LruCache.PrecomputeLRUCache.MoveToFront | src/veil/zerocoin/lrucache.cpp:70 | Relinking a hot key's node at the front gives `ToFront` of the list with the key's own value. The dirty tier and the invariant are kept. |
| LruCache.SplicedIsToFront | src/veil/zerocoin/lrucache.cpp:70 | With distinct keys, moving the node at position `j` to the front is the list without its key, headed by its entry. |
| LruCache.IndexAfterSplice | src/veil/zerocoin/lrucache.cpp:70 | After the splice, the nodes before the moved one shift by one, and the index agrees with the new list. |
| LruCache.SpliceKeepsValid | src/veil/zerocoin/lrucache.cpp:92 | A splice to the front keeps the cache invariant and the index. |
| CacheSpec.ToFrontEffect | src/veil/zerocoin/lrucache.cpp:92-93 | Moving a hot key to the front with a value keeps the length, the keys and the invariant, and maps the key to that value. |
| LruCache.PrecomputeLRUCache.Remove | src/veil/zerocoin/lrucache.cpp:77-85 | Deleting a key moves the state as `CacheSpec.Remove` does, and the invariant holds. |
| CacheSpec.RemoveEffect | src/veil/zerocoin/lrucache.cpp:77-85 | After `Remove(k)` the cache holds every old entry except `k`, unchanged. The hot list is the old one with `k`'s node cut out, or the old list untouched when `k` is not hot, so order is kept. Removing an absent key changes nothing. |
| CacheSpec.RemoveHot | src/veil/zerocoin/lrucache.cpp:79-83 | Cutting the key's node out of the list keeps the invariant. |
| CacheSpec.EntriesWithout | src/veil/zerocoin/lrucache.cpp:81-84 | Unlinking a key from the list and erasing it from the dirty map drops exactly that key's entry. |
| LruCache.UnlinkedIsWithout | src/veil/zerocoin/lrucache.cpp:81 | With distinct keys, erasing the node at position `j` is the list without that node's key. |
| LruCache.IndexAfterUnlink | src/veil/zerocoin/lrucache.cpp:81-82 | After the node is erased and its key dropped from the index, later nodes shift back by one, and the index agrees with the list. |
| LruCache.PrecomputeLRUCache.AddToCache | src/veil/zerocoin/lrucache.cpp:87-101 | Moves the state as `CacheSpec.AddToCache` does, and the invariant holds. |
| CacheSpec.AddToCacheEffect | src/veil/zerocoin/lrucache.cpp:87-101 | After `AddToCache(k, v)`, `k` is at the head with `v` and not dirty. The other hot entries follow in their old order; the hot tier's length is one more than theirs or the capacity, so at most the tail spills. The entries are the old ones with `k` mapped to `v`. The capacity bound and the invariant are kept. |
| CacheSpec.AddToCacheOfHotKey | src/veil/zerocoin/lrucache.cpp:91-93 | For a hot key, `AddToCache` only moves it to the front with its new value. The dirty erase and the eviction change nothing. |
| CacheSpec.AddToCacheOfNewKey | src/veil/zerocoin/lrucache.cpp:94-100 | For a key not in the hot tier, `AddToCache` is `AddNew`. The second dirty erase and eviction change nothing. |
| LruCache.OverwriteFront | src/veil/zerocoin/lrucache.cpp:93 | Overwriting the head's value keeps the keys distinct and the index in agreement. |
| LruCache.RefreshFront | src/veil/zerocoin/lrucache.cpp:92-93 | Moving a key to the front and then overwriting its value is moving it to the front with the new value. |
| LruCache.PrecomputeLRUCache.FlushToDisk | src/veil/zerocoin/lrucache.cpp:103-115 | Writes an enumeration of the old dirty tier, then the hot list from most to least recently used. Afterwards the dirty tier is empty, and the list and the index are unchanged. |
| LruCache.PrecomputeLRUCache.WriteDirtyEntries | src/veil/zerocoin/lrucache.cpp:105-108 | Writes each dirty entry exactly once, in some order. |
| LruCache.PrecomputeLRUCache.WriteHotEntries | src/veil/zerocoin/lrucache.cpp:111-114 | Writes the hot list in order. |
| LruCache.PrecomputeDB.WritePrecompute | src/veil/zerocoin/lrucache.cpp:107 | Appends one record to the database's write log. |
| CacheSpec.FlushWritesEveryEntry | src/veil/zerocoin/lrucache.cpp:103-115 | The flush writes one record per entry the cache holds. Every entry is written with its value. |
| CacheSpec.SecondFlushWritesOnlyHot | src/veil/zerocoin/lrucache.cpp:106-109 | After a flush the dirty pass writes nothing, so a second flush writes only the hot tier and changes nothing. |
| CacheSpec.EnumeratesStep | src/veil/zerocoin/lrucache.cpp:106-108 | Writing one more pending dirty entry extends the enumeration of the entries written so far. |
| CacheSpec.EnumeratesSize | src/veil/zerocoin/lrucache.cpp:106-108 | The dirty pass writes as many records as the dirty tier has entries. |
| CacheSpec.Without | src/veil/zerocoin/lrucache.cpp:81 | Erasing a key's node keeps every other key, and only entries of the old list, and keeps keys distinct. |
| CacheSpec.TwoInsertions | src/veil/zerocoin/lrucache.cpp:19-26 | Two new keys added to an empty cache of capacity two give the list with the newer key first, and no dirty entry. |
| CacheSpec.InsertionIntoFullPair | src/veil/zerocoin/lrucache.cpp:50-59 | A new key added to a full cache of capacity two spills the older hot entry into the dirty tier. |
| CacheSpec.ReadOfSpilledEntry | src/veil/zerocoin/lrucache.cpp:61-75 | Reading the dirty key of a full cache of capacity two returns its value, puts it first, and spills the older hot entry. |
| CacheSpec.ReadOfOlderHotEntry | src/veil/zerocoin/lrucache.cpp:67-72 | Reading the older of two hot entries makes it the more recent one. |
| CacheSpec.SpillAndPromote | src/veil/zerocoin/lrucache.cpp:87-101 | With capacity two, three insertions spill the first key. Reading it back returns its value, puts it first, and spills the second key. |
| CacheSpec.ReadRefreshesRecency | src/veil/zerocoin/lrucache.cpp:61-75 | With capacity two, after adding `a` and `b` and reading `a`, the next insertion spills `b`, not `a`. |

## Left out

- The database write `CPrecomputeDB::WritePrecompute` becomes `PrecomputeDB`, a log of the records written. A write never fails, and the database's storage is not part of this model.
- The conversions between `CoinWitnessData` and `CoinWitnessCacheData` (lines 45-46, 71, 74) are taken to be the identity. The witness types are the generic `V`, and a miss returns a fixed `missing` value standing for a default-constructed `CoinWitnessData`.
- The key type `uint256` is the generic `K`, compared only by equality.
- `PRECOMPUTE_LRU_CACHE_SIZE` is the constructor's `capacity`, required to be at least one, because `lrucache.h` is not part of this model. With a capacity of zero, `AddNew` would spill the entry it just pushed and then erase it from the dirty tier.
- `std::list` nodes and iterators are not modelled. The list is a sequence, and `mapCacheLocation` maps each key to its node's position. The constant-time cost of `splice`, `erase` and `pop_back` is not modelled.
- `WriteDirtyEntries`: the dirty map's iteration order is not modelled. The flush promises some enumeration of the dirty entries, each written once.
- `LruCache.PrecomputeLRUCache.AddNew` requires the key to be absent from the hot tier. `mapCacheLocation.insert` would not overwrite an existing key, and both callers guarantee the absence.
- `LruCache.PrecomputeLRUCache.MoveDirtyToLRU` requires the key to be dirty, because `at` would throw otherwise. Its one caller checks this first.
- `FlushToDisk`'s two loops are written as two helper methods, `WriteDirtyEntries` and `WriteHotEntries`.
- `LruCache.PrecomputeLRUCache.Size` and `LruCache.PrecomputeLRUCache.DirtyCacheSize` return an unbounded `nat`. The source narrows the container's size to `int` (lines 28 and 33), and the dirty tier has no bound, so that narrowing is not modelled.
- `LruCache.PrecomputeLRUCache.FlushToDisk` takes a non-null database reference. The source takes a raw `CPrecomputeDB*` (line 103), and a null pointer is not modelled.
- Concurrency is left out: the class has no locking, and callers serialise access.
