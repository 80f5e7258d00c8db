# LRU key/value cache — Dafny model

This project models the `LRUCache` of the key/value server in `app.py`. The cache is a bounded in-memory store. It holds a dictionary `cache` from key to value and a recency deque `queue` of keys: the head is the least recently used key and the tail the most recently used. It has three structural operations:

- `get(key)`: a lookup that moves a hit to the tail of the deque.
- `put(key, value)`: an insert or update. A new key that arrives when the cache is full first evicts the head of the deque.
- The batch eviction run by the memory monitor. When memory is over the limit it removes `max(1, size/10)` entries from the head, and stops early once the cache is empty.

The project has three files, one module each:

- `recency.dfy`, module `Recency`: the deque operations the cache relies on. `Remove` is `deque.remove` (it deletes the first occurrence). `Distinct` says the queue has no duplicates, and `Elements` gives the set of queued keys.
- `lru_model.dfy`, module `LruModel`: the cache as a value, `CacheState(cache, queue)`. The invariant is `Coherent`: the dictionary's keys are exactly the queued keys, and the queue has no duplicates. `Consistent` adds the capacity bound. There is one function per operation: `Lookup` (get), `Insert` (put), `DropOldest` (`popleft` plus `del`), `EvictIfAny` (one round of the eviction loop), `EvictRounds` (the loop), `EvictionCount` and `PressureEviction`. The lemmas state the LRU facts about these functions. `Run` replays a linearised history of gets, puts and pressure events.
- `lru_cache.dfy`, module `LruCache`: class `LRUCache`, with `cache: map<K, V>` and `queue: seq<K>` fields that its methods update in place. Each method requires and keeps `Valid()`. Its postcondition ties the new `Contents()` to the model function applied to the old one, so every lemma of `LruModel` holds of the object. `EvictBatch` is the eviction `for` loop, verified with loop invariants.

Modelling decisions:

- `int(len(self.cache) * 0.1)` is modelled as the integer `size / 10`, which agrees for every size below 10^15. Write `q` for `n / 10` rounded down. The double nearest 0.1 is slightly larger than 0.1, so the exact product of `n` and that double lies between `n/10` and `n/10 + 6e-18 * n`. Lower side: `q` is representable and at most the exact product, so rounding to the nearest double cannot fall below `q`. Upper side: `n/10` is at least 0.1 below `q + 1`. Below 10^15 the excess `6e-18 * n` is under 0.006, and the result is below 2^47, so rounding adds at most half a unit in the last place, 2^-7. Together that stays under 0.014, so the rounded product stays below `q + 1`. Well above 10^15 the floor can differ: near 2^53, sizes ending in 9 round up to `q + 1`.
- The constructor requires `capacity >= 1`. With capacity 0, the first `put` of a new key calls `popleft()` on an empty deque, which raises.
- `Recency.Remove` requires that the key is in the queue, because `deque.remove` raises `ValueError` otherwise. Under the invariant, `get` and `put` only call it on a queued key.
- The monitor's memory test `memory_percent > memory_limit_percent` is the boolean parameter `memoryOverLimit` of `MonitorStep`.
- The eviction block returns nothing, so `EvictBatch` has no out-parameter. A failure of `memory_percent()` is not caught, and it ends the monitor thread. The monitor loop has no exit.

## Model

| member | source | states |
|---|---|---|
| `Recency.Remove` | app.py:39 | `deque.remove(k)` removes the FIRST occurrence of `k`: the result is the queue without position `IndexOf(q, k)`, and every other key keeps its relative order. The result is one shorter. |
| `Recency.IndexOf` | app.py:39 | The position `deque.remove` deletes: it holds `k`, and `k` does not occur before it. |
| `Recency.RemoveDistinct` | app.py:39 | On a queue without duplicates, removing `k` leaves a queue without duplicates that holds exactly the other keys. |
| `Recency.AppendFresh` | app.py:57 | Appending a key that is not queued keeps the queue free of duplicates and adds exactly that key. |
| `Recency.DistinctSize` | app.py:22-23 | A queue without duplicates holds as many distinct keys as it is long. |
| `Recency.PrefixAfterPop` | app.py:75 | After `popleft`, the queue's prefixes and suffixes shift by one position. |
| `LruModel.CoherentSizes` | app.py:50-52 | When the dictionary's keys are exactly the queued keys and the queue has no duplicates, `len(cache) == len(queue)`. So `len(cache) >= capacity >= 1` guarantees that `popleft` has a head to pop. |
| `LruModel.DropOldest` | app.py:52-53 | `popleft()` followed by `del cache[oldest]`: the queue becomes its tail after the head, the map loses exactly the head key and keeps every other value, map and queue stay coherent, and the size shrinks by one. |
| `LruModel.Lookup` | app.py:33-43 | `get` keeps map and queue coherent. |
| `LruModel.Insert` | app.py:45-59 | `put` keeps map and queue coherent, in each of its three branches. |
| `LruModel.EvictIfAny` | app.py:74-76 | One guarded round of the eviction loop keeps map and queue coherent. |
| `LruModel.EvictRounds` | app.py:73-76 | `count` rounds of the eviction loop keep map and queue coherent. |
| `LruModel.EvictionCount` | app.py:71 | The number to evict is at least 1. It is exactly 1 below 20 entries. From 10 entries up it is the tenth of the size rounded down (`10*r <= size < 10*r + 10`). |
| `LruModel.PressureEviction` | app.py:68-76 | The eviction triggered by memory pressure keeps map and queue coherent. |
| `LruModel.LookupMiss` | app.py:36-37 | `get` of an absent key returns `None` and leaves both the map and the queue unchanged. |
| `LruModel.LookupHit` | app.py:38-41 | `get` of a present key returns `cache[key]` and leaves the map unchanged. The key becomes the last queue element, and the other keys keep their previous relative order (the queue minus the key's old position). |
| `LruModel.InsertKeepsConsistent` | app.py:45-57 | `put` preserves the whole invariant, including `len(cache) <= capacity`. |
| `LruModel.InsertExisting` | app.py:48-57 | `put` of a stored key keeps the key set and replaces that key's value, leaving the other values alone. It moves the key from its old position to the tail and leaves the size unchanged. |
| `LruModel.InsertFresh` | app.py:50-57 | `put` of a new key below capacity adds exactly that key with its value and appends it at the tail. It evicts nothing, and the size grows by exactly one. |
| `LruModel.InsertEvicting` | app.py:50-57 | `put` of a new key at capacity removes exactly the old head `queue[0]` from both structures and adds the new key at the tail. Every other entry stays, and the size is unchanged. |
| `LruModel.InsertThenLookup` | app.py:41-56 | Right after `put(k, v)`, `get(k)` returns `v`. |
| `LruModel.EvictIfAnyPops` | app.py:74-76 | On a non-empty cache, one round of the loop pops the head of the queue and deletes exactly that key from the map. |
| `LruModel.EvictRoundsQueue` | app.py:73-75 | After `count` rounds, the queue is the suffix that follows its first `min(count, size)` keys. |
| `LruModel.EvictRoundsCache` | app.py:73-76 | After `count` rounds, the map has lost exactly the first `min(count, size)` keys of the queue, and every other entry is unchanged. |
| `LruModel.EvictRoundsDropsOldest` | app.py:73-76 | Batch eviction removes exactly `min(count, size)` keys, namely the first ones in the queue, from both structures. It leaves the remaining queue as the matching suffix. |
| `LruModel.EvictRoundsKeepsConsistent` | app.py:73-76 | Batch eviction preserves the whole invariant. |
| `LruModel.EvictRoundsOnEmpty` | app.py:74 | Because of the `len(cache) > 0` guard, batch eviction on an empty cache changes nothing, whatever the count. |
| `LruModel.PressureEvictionDropsOldest` | app.py:71-76 | A pressure event on a non-empty cache removes exactly `max(1, size/10)` of the least recently used entries. That count never exceeds the size. |
| `LruModel.PressureEvictionDrainsSingleton` | app.py:71-76 | Because of the floor of one, a pressure event empties a cache holding a single entry. |
| `LruModel.Step` | app.py:33-76 | One operation of a linearised history (a `get`, a `put` or one pressure eviction) keeps map and queue coherent. |
| `LruModel.Run` | app.py:33-76 | Replaying any linearised history of gets, puts and pressure events, one after the other, keeps map and queue coherent. |
| `LruModel.RunKeepsConsistent` | app.py:33-76 | Over any linearised history of gets, puts and pressure events, map and queue stay coherent and `len(cache) <= capacity` holds throughout. |
| `LruModel.CapacityEvictsLeastRecent` | app.py:50-57 | With capacity 3 and keys a, b, c put in that order, putting d evicts a and keeps b, c, d in that order. |
| `LruModel.LookupRefreshesRecency` | app.py:38-57 | With capacity 3 and keys a, b, c put in that order, `get(a)` followed by putting d evicts b rather than a. The queue becomes c, a, d. |
| `LruCache.LRUCache.constructor` | app.py:21-24 | Starts with an empty dictionary and deque and the given capacity, which must be at least 1. The invariant holds. |
| `LruCache.LRUCache.Get` | app.py:33-43 | Keeps the invariant. It returns exactly what `Lookup` returns and updates the fields to exactly `Lookup`'s new state. |
| `LruCache.LRUCache.Put` | app.py:45-59 | Keeps the invariant, and the fields become exactly `Insert` of the old state. |
| `LruCache.LRUCache.EvictBatch` | app.py:73-76 | The `for` loop keeps the invariant, and the fields become exactly `EvictRounds(old state, count)`. |
| `LruCache.LRUCache.MonitorStep` | app.py:68-76 | Over the memory limit, the fields become the pressure eviction of the old state. Otherwise nothing changes. |
| `LruCache.PutThenGet` | app.py:33-59 | For a client of the object: `put(k, v)` followed by `get(k)` returns `v`, and the cache is still within its capacity. |

## Left out

- The lock (app.py:25, 35, 43, 47, 59, 69) is not modelled, because it is concurrency. Each method is one atomic step, and `Run` stands for any linearised order of them.
- The monitor thread, its `while True` loop and `time.sleep(1)` (app.py:29-31, 62-64) are not modelled, because they are scheduling.
- `psutil` memory sampling and the float comparison with the limit (app.py:27, 65, 68) are not modelled. They are OS input and floating point, and the boolean parameter of `MonitorStep` stands for them.
- `LruModel.EvictionCount` uses integer division for `int(len(cache) * 0.1)`. The floating-point product is not modelled (see the note above for why the two agree).
- The `print` in the monitor (app.py:72) is not modelled, because it is logging.
- The FastAPI application, the gzip middleware, the `/put`, `/get` and `/health` endpoints, the orjson responses and the pydantic length and ASCII validation (app.py:1-17, 80-132) are not modelled. They are HTTP plumbing and library-backed validation, and keys and values are generic in the model.
- locustfile.py is not part of this model. It is a load generator with no cache logic.
- The constructor's default arguments `capacity=100000` and `memory_limit_percent=70` (app.py:21) are not modelled as defaults. The model's constructor takes the capacity explicitly, and the memory limit is folded into the boolean parameter of `MonitorStep`.
- The model's states do not include a construction with capacity 0 or the exceptions it would raise. The constructor requires `capacity >= 1`.
