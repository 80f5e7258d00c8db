/** The LRU store as a value: the dictionary `cache` and the recency queue
    `queue` (head = least recently used, tail = most recently used), and
    one function per structural operation of `LRUCache`. The class in
    lru_cache.dfy is proved to move from state to state exactly as these
    functions say; the lemmas below state what the operations promise. */
module LruModel {
  import opened Recency

  datatype Option<T> = None | Some(value: T)

  datatype CacheState<K, V> = CacheState(cache: map<K, V>, queue: seq<K>)

  /** The central invariant, apart from the bound: the keys of the map are
      exactly the keys of the queue, and the queue has no duplicates. */
  predicate Coherent<K(==), V>(s: CacheState<K, V>)
  {
    s.cache.Keys == Elements(s.queue) && Distinct(s.queue)
  }

  /** The whole invariant: coherent and holding at most `capacity` entries. */
  predicate Consistent<K(==), V>(s: CacheState<K, V>, capacity: nat)
  {
    Coherent(s) && |s.cache| <= capacity
  }

  function Empty<K, V>(): CacheState<K, V>
  {
    CacheState(map[], [])
  }

  /** Map and queue of a coherent state have the same size. */
  lemma CoherentSizes<K, V>(s: CacheState<K, V>)
    requires Coherent(s)
    ensures |s.cache| == |s.queue|
  {
    DistinctSize(s.queue);
    assert s.cache.Keys == Elements(s.queue);
  }

  /** `oldest_key = queue.popleft(); del cache[oldest_key]`. */
  function DropOldest<K(==), V>(s: CacheState<K, V>): (r: CacheState<K, V>)
    requires Coherent(s) && s.queue != []
    ensures Coherent(r)
    ensures r.queue == s.queue[1..]
    ensures r.cache.Keys == s.cache.Keys - {s.queue[0]}
    ensures forall k :: k in r.cache ==> r.cache[k] == s.cache[k]
    ensures |r.cache| == |s.cache| - 1
  {
    CoherentSizes(s);
    assert s.queue[0] !in s.queue[1..];
    var r := CacheState(s.cache - {s.queue[0]}, s.queue[1..]);
    assert Distinct(r.queue);
    CoherentSizes(r);
    r
  }

  /** `get(key)`: a miss returns `None`; a hit returns the value and moves
      the key to the tail of the queue (`queue.remove(key)`,
      `queue.append(key)`). */
  function Lookup<K(==), V>(s: CacheState<K, V>, key: K): (r: (Option<V>, CacheState<K, V>))
    requires Coherent(s)
    ensures Coherent(r.1)
  {
    if key !in s.cache then (None, s)
    else
      RemoveDistinct(s.queue, key);
      AppendFresh(Remove(s.queue, key), key);
      (Some(s.cache[key]), CacheState(s.cache, Remove(s.queue, key) + [key]))
  }

  /** `put(key, value)`: an existing key is taken out of the queue; a new
      key arriving when `len(cache) >= capacity` first evicts the head of
      the queue; then the key is stored and appended at the tail. */
  function Insert<K(==), V>(s: CacheState<K, V>, capacity: nat, key: K, value: V): (r: CacheState<K, V>)
    requires Coherent(s) && capacity >= 1
    ensures Coherent(r)
  {
    if key in s.cache then
      RemoveDistinct(s.queue, key);
      AppendFresh(Remove(s.queue, key), key);
      CacheState(s.cache[key := value], Remove(s.queue, key) + [key])
    else if |s.cache| >= capacity then
      CoherentSizes(s);
      var room := DropOldest(s);
      AppendFresh(room.queue, key);
      CacheState(room.cache[key := value], room.queue + [key])
    else
      AppendFresh(s.queue, key);
      CacheState(s.cache[key := value], s.queue + [key])
  }

  /** One round of the eviction loop: `if len(cache) > 0:` pop the head of
      the queue and delete it from the map. */
  function EvictIfAny<K(==), V>(s: CacheState<K, V>): (r: CacheState<K, V>)
    requires Coherent(s)
    ensures Coherent(r)
  {
    if |s.cache| > 0 then
      CoherentSizes(s);
      DropOldest(s)
    else s
  }

  /** `for _ in range(n)` rounds of the eviction loop. */
  function EvictRounds<K(==), V>(s: CacheState<K, V>, n: nat): (r: CacheState<K, V>)
    requires Coherent(s)
    ensures Coherent(r)
    decreases n
  {
    if n == 0 then s else EvictRounds(EvictIfAny(s), n - 1)
  }

  function Min(a: int, b: int): int
  {
    if a <= b then a else b
  }

  /** `max(1, int(len(cache) * 0.1))`: a tenth of the size, rounded down,
      but never less than one. */
  function EvictionCount(size: nat): (r: nat)
    ensures r >= 1
    ensures size < 20 ==> r == 1
    ensures size >= 10 ==> 10 * r <= size < 10 * r + 10
  {
    if size / 10 > 1 then size / 10 else 1
  }

  /** The eviction performed when the monitor finds memory over the limit. */
  function PressureEviction<K(==), V>(s: CacheState<K, V>): (r: CacheState<K, V>)
    requires Coherent(s)
    ensures Coherent(r)
  {
    EvictRounds(s, EvictionCount(|s.cache|))
  }

  // ---------------------------------------------------------------------
  // get

  /** A miss returns `None` and changes nothing. */
  lemma LookupMiss<K, V>(s: CacheState<K, V>, key: K)
    requires Coherent(s) && key !in s.cache
    ensures Lookup(s, key) == (None, s)
  {
  }

  /** A hit returns the stored value, leaves the map alone, makes the key
      the last element of the queue and keeps every other key in its
      previous relative order. */
  lemma LookupHit<K, V>(s: CacheState<K, V>, key: K)
    requires Coherent(s) && key in s.cache
    ensures var (v, t) := Lookup(s, key);
      var i := IndexOf(s.queue, key);
      && v == Some(s.cache[key])
      && t.cache == s.cache
      && |t.queue| == |s.queue|
      && t.queue[|t.queue| - 1] == key
      && t.queue[..|t.queue| - 1] == s.queue[..i] + s.queue[i + 1..]
  {
  }

  // ---------------------------------------------------------------------
  // put

  /** `put` keeps the whole invariant, the capacity bound included. */
  lemma InsertKeepsConsistent<K, V>(s: CacheState<K, V>, capacity: nat, key: K, value: V)
    requires Consistent(s, capacity) && capacity >= 1
    ensures Consistent(Insert(s, capacity, key, value), capacity)
  {
  }

  /** `put` of a stored key replaces its value, moves it to the tail and
      leaves the size unchanged. */
  lemma InsertExisting<K, V>(s: CacheState<K, V>, capacity: nat, key: K, value: V)
    requires Coherent(s) && capacity >= 1 && key in s.cache
    ensures var r := Insert(s, capacity, key, value);
      var i := IndexOf(s.queue, key);
      && r.cache.Keys == s.cache.Keys
      && r.cache[key] == value
      && (forall k :: k in s.cache && k != key ==> r.cache[k] == s.cache[k])
      && |r.cache| == |s.cache|
      && r.queue == s.queue[..i] + s.queue[i + 1..] + [key]
  {
  }

  /** `put` of a new key below capacity appends it, evicting nothing. */
  lemma InsertFresh<K, V>(s: CacheState<K, V>, capacity: nat, key: K, value: V)
    requires Coherent(s) && capacity >= 1 && key !in s.cache && |s.cache| < capacity
    ensures var r := Insert(s, capacity, key, value);
      && r.cache.Keys == s.cache.Keys + {key}
      && r.cache[key] == value
      && (forall k :: k in s.cache ==> r.cache[k] == s.cache[k])
      && |r.cache| == |s.cache| + 1
      && r.queue == s.queue + [key]
  {
  }

  /** `put` of a new key at capacity evicts exactly the head of the queue
      from both structures, appends the new key, and keeps the size. */
  lemma InsertEvicting<K, V>(s: CacheState<K, V>, capacity: nat, key: K, value: V)
    requires Coherent(s) && capacity >= 1 && key !in s.cache && |s.cache| >= capacity
    ensures s.queue != []
    ensures var r := Insert(s, capacity, key, value);
      var oldest := s.queue[0];
      && oldest !in r.cache
      && r.cache.Keys == s.cache.Keys - {oldest} + {key}
      && r.cache[key] == value
      && (forall k :: k in s.cache && k != oldest ==> r.cache[k] == s.cache[k])
      && |r.cache| == |s.cache|
      && r.queue == s.queue[1..] + [key]
  {
  }

  /** Right after `put(key, value)`, `get(key)` returns `value`. */
  lemma InsertThenLookup<K, V>(s: CacheState<K, V>, capacity: nat, key: K, value: V)
    requires Coherent(s) && capacity >= 1
    ensures Lookup(Insert(s, capacity, key, value), key).0 == Some(value)
  {
    if key in s.cache {
      InsertExisting(s, capacity, key, value);
    } else if |s.cache| >= capacity {
      InsertEvicting(s, capacity, key, value);
    } else {
      InsertFresh(s, capacity, key, value);
    }
  }

  // ---------------------------------------------------------------------
  // batch eviction

  lemma MinusTwice<K, V>(m: map<K, V>, a: set<K>, b: set<K>)
    ensures m - a - b == m - (a + b)
  {
  }

  /** A round of the eviction loop on a non-empty cache pops the head. */
  lemma EvictIfAnyPops<K, V>(s: CacheState<K, V>)
    requires Coherent(s) && s.queue != []
    ensures EvictIfAny(s).queue == s.queue[1..]
    ensures EvictIfAny(s).cache == s.cache - {s.queue[0]}
  {
  }

  /** After `n` rounds the queue is what followed its first `min(n, size)`
      keys. */
  lemma {:induction false} EvictRoundsQueue<K, V>(s: CacheState<K, V>, n: nat)
    requires Coherent(s)
    ensures EvictRounds(s, n).queue == s.queue[Min(n, |s.queue|)..]
    decreases n
  {
    if n > 0 {
      var t := EvictIfAny(s);
      EvictRoundsQueue(t, n - 1);
      if s.queue == [] {
        assert t == s by { CoherentSizes(s); }
      } else {
        assert t.queue == s.queue[1..] by { EvictIfAnyPops(s); }
        PrefixAfterPop(s.queue, Min(n, |s.queue|));
      }
    }
  }

  /** After `n` rounds the map has lost exactly the first `min(n, size)`
      keys of the queue, and every other entry is as it was. */
  lemma {:induction false} EvictRoundsCache<K, V>(s: CacheState<K, V>, n: nat)
    requires Coherent(s)
    ensures EvictRounds(s, n).cache == s.cache - Elements(s.queue[..Min(n, |s.queue|)])
    decreases n
  {
    if n == 0 {
      assert Elements(s.queue[..0]) == {};
      assert s.cache == s.cache - {};
    } else {
      var t := EvictIfAny(s);
      EvictRoundsCache(t, n - 1);
      if s.queue == [] {
        assert t == s by { CoherentSizes(s); }
      } else {
        var m := Min(n, |s.queue|);
        assert t.queue == s.queue[1..] && t.cache == s.cache - {s.queue[0]} by { EvictIfAnyPops(s); }
        PrefixAfterPop(s.queue, m);
        assert Min(n - 1, |t.queue|) == m - 1;
        MinusTwice(s.cache, {s.queue[0]}, Elements(t.queue[..m - 1]));
      }
    }
  }

  /** `n` rounds of the eviction loop remove exactly the first
      `min(n, size)` keys of the queue from both structures and leave the
      rest of the queue as it was. */
  lemma EvictRoundsDropsOldest<K, V>(s: CacheState<K, V>, n: nat)
    requires Coherent(s)
    ensures var m := Min(n, |s.queue|);
      var r := EvictRounds(s, n);
      && r.queue == s.queue[m..]
      && r.cache == s.cache - Elements(s.queue[..m])
      && |r.cache| == |s.cache| - m
  {
    EvictRoundsQueue(s, n);
    EvictRoundsCache(s, n);
    CoherentSizes(s);
    CoherentSizes(EvictRounds(s, n));
  }

  /** Batch eviction keeps the whole invariant. */
  lemma EvictRoundsKeepsConsistent<K, V>(s: CacheState<K, V>, capacity: nat, n: nat)
    requires Consistent(s, capacity)
    ensures Consistent(EvictRounds(s, n), capacity)
  {
    EvictRoundsDropsOldest(s, n);
  }

  /** Batch eviction on an empty cache changes nothing. */
  lemma EvictRoundsOnEmpty<K, V>(s: CacheState<K, V>, n: nat)
    requires Coherent(s) && s.cache == map[]
    ensures EvictRounds(s, n) == s
  {
  }

  /** A pressure event on a non-empty cache removes exactly
      `EvictionCount(size)` of its least recently used entries. */
  lemma PressureEvictionDropsOldest<K, V>(s: CacheState<K, V>)
    requires Coherent(s) && |s.cache| >= 1
    ensures var c := EvictionCount(|s.cache|);
      var r := PressureEviction(s);
      && c <= |s.queue|
      && r.queue == s.queue[c..]
      && r.cache == s.cache - Elements(s.queue[..c])
      && |r.cache| == |s.cache| - c
  {
    CoherentSizes(s);
    EvictRoundsDropsOldest(s, EvictionCount(|s.cache|));
  }

  /** The floor of one empties a cache holding a single entry. */
  lemma PressureEvictionDrainsSingleton<K, V>(s: CacheState<K, V>)
    requires Coherent(s) && |s.cache| == 1
    ensures PressureEviction(s) == Empty()
  {
    CoherentSizes(s);
    PressureEvictionDropsOldest(s);
    var r := PressureEviction(s);
    assert r.cache.Keys == {};
    assert r.cache == map[] && r.queue == [];
  }

  // ---------------------------------------------------------------------
  // histories

  /** One operation of a linearised history of the cache. */
  datatype Op<K, V> = GetOp(key: K) | PutOp(key: K, value: V) | PressureOp

  /** The state after one operation: `get` (whose result is dropped), `put`
      or one memory-pressure eviction. */
  function Step<K(==), V>(s: CacheState<K, V>, capacity: nat, op: Op<K, V>): (r: CacheState<K, V>)
    requires Coherent(s) && capacity >= 1
    ensures Coherent(r)
  {
    match op
    case GetOp(k) => Lookup(s, k).1
    case PutOp(k, v) => Insert(s, capacity, k, v)
    case PressureOp => PressureEviction(s)
  }

  /** The state after running `ops` one after the other from `s`. */
  function Run<K(==), V>(s: CacheState<K, V>, capacity: nat, ops: seq<Op<K, V>>): (r: CacheState<K, V>)
    requires Coherent(s) && capacity >= 1
    ensures Coherent(r)
    decreases |ops|
  {
    if ops == [] then s else Run(Step(s, capacity, ops[0]), capacity, ops[1..])
  }

  /** Whatever the operations, the cache never holds more than `capacity`
      entries and map and queue stay coherent. */
  lemma {:induction false} RunKeepsConsistent<K, V>(s: CacheState<K, V>, capacity: nat, ops: seq<Op<K, V>>)
    requires Consistent(s, capacity) && capacity >= 1
    ensures Consistent(Run(s, capacity, ops), capacity)
    decreases |ops|
  {
    if ops != [] {
      var t := Step(s, capacity, ops[0]);
      match ops[0] {
        case GetOp(k) =>
        case PutOp(k, v) => InsertKeepsConsistent(s, capacity, k, v);
        case PressureOp => EvictRoundsKeepsConsistent(s, capacity, EvictionCount(|s.cache|));
      }
      RunKeepsConsistent(t, capacity, ops[1..]);
    }
  }

  /** With capacity 3 and the keys a, b, c put in that order, putting a
      fourth key d evicts a and keeps b, c, d. */
  lemma CapacityEvictsLeastRecent<K, V>(s: CacheState<K, V>, a: K, b: K, c: K, d: K, vd: V)
    requires Coherent(s) && s.queue == [a, b, c] && d !in s.queue
    ensures var r := Insert(s, 3, d, vd);
      && r.queue == [b, c, d]
      && a !in r.cache && b in r.cache && c in r.cache && d in r.cache
  {
    var r := Insert(s, 3, d, vd);
    assert |s.cache| == 3 by { CoherentSizes(s); }
    assert r.queue == [b, c, d];
    assert r.queue[0] == b && r.queue[1] == c && r.queue[2] == d;
  }

  /** With capacity 3 and the keys a, b, c put in that order, reading a and
      then putting a fourth key d evicts b instead of a. */
  lemma LookupRefreshesRecency<K, V>(s: CacheState<K, V>, a: K, b: K, c: K, d: K, vd: V)
    requires Coherent(s) && s.queue == [a, b, c] && d !in s.queue
    ensures var r := Insert(Lookup(s, a).1, 3, d, vd);
      && r.queue == [c, a, d]
      && b !in r.cache && a in r.cache && c in r.cache && d in r.cache
  {
    var t := Lookup(s, a).1;
    assert Remove(s.queue, a) == [b, c];
    assert t.queue == [b, c, a];
    CapacityEvictsLeastRecent(t, b, c, a, d, vd);
  }
}
