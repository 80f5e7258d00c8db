/** The `LRUCache` object: a dictionary and a recency deque that its
    methods update in place. Every method keeps `Valid()` and moves the
    object from one `CacheState` to the next exactly as the functions of
    `LruModel` say, so the lemmas proved there hold of the object. The lock
    is not modelled: each method is one atomic step. */
module LruCache {
  import opened Recency
  import opened LruModel

  class LRUCache<K(==), V> {
    var cache: map<K, V>
    var queue: seq<K>
    const capacity: nat

    /** The object's dictionary and deque as a value. */
    function Contents(): CacheState<K, V>
      reads this
    {
      CacheState(cache, queue)
    }

    ghost predicate Valid()
      reads this
    {
      capacity >= 1 && Consistent(Contents(), capacity)
    }

    /** The state part of `__init__`: an empty dictionary and deque. The
        monitor thread it starts is not modelled. */
    constructor (capacity: nat)
      requires capacity >= 1
      ensures Valid()
      ensures this.capacity == capacity && Contents() == Empty()
    {
      this.capacity := capacity;
      cache := map[];
      queue := [];
    }

    /** `get(key)`. */
    method Get(key: K) returns (r: Option<V>)
      requires Valid()
      modifies this
      ensures Valid()
      ensures (r, Contents()) == Lookup(old(Contents()), key)
    {
      ghost var before := Contents();
      if key !in cache {
        return None;
      }
      queue := Remove(queue, key);
      queue := queue + [key];
      r := Some(cache[key]);
      assert (r, Contents()) == Lookup(before, key);
    }

    /** `put(key, value)`. */
    method Put(key: K, value: V)
      requires Valid()
      modifies this
      ensures Valid()
      ensures Contents() == Insert(old(Contents()), capacity, key, value)
    {
      InsertKeepsConsistent(Contents(), capacity, key, value);
      CoherentSizes(Contents());
      if key in cache {
        queue := Remove(queue, key);
      } else if |cache| >= capacity {
        var oldest := queue[0];
        queue := queue[1..];
        cache := cache - {oldest};
      }
      cache := cache[key := value];
      queue := queue + [key];
    }

    /** The loop of the memory monitor: `count` times, if the cache is not
        empty, pop the head of the deque and delete it from the map. */
    method EvictBatch(count: nat)
      requires Valid()
      modifies this
      ensures Valid()
      ensures Contents() == EvictRounds(old(Contents()), count)
    {
      for i := 0 to count
        invariant Valid()
        invariant EvictRounds(Contents(), count - i) == EvictRounds(old(Contents()), count)
      {
        ghost var before := Contents();
        EvictRoundsKeepsConsistent(before, capacity, 1);
        if |cache| > 0 {
          CoherentSizes(before);
          var oldest := queue[0];
          queue := queue[1..];
          cache := cache - {oldest};
        }
        assert Contents() == EvictIfAny(before);
      }
    }

    /** One pass of the monitor loop once memory has been sampled:
        `memoryOverLimit` stands for `memory_percent > memory_limit_percent`.
        Over the limit, it evicts `max(1, size / 10)` entries. */
    method MonitorStep(memoryOverLimit: bool)
      requires Valid()
      modifies this
      ensures Valid()
      ensures Contents() == if memoryOverLimit then PressureEviction(old(Contents())) else old(Contents())
    {
      if memoryOverLimit {
        var itemsToRemove := EvictionCount(|cache|);
        EvictBatch(itemsToRemove);
      }
    }
  }

  /** A caller's view: after `put(key, value)` the next `get(key)` returns
      `value`, and afterwards the cache is still bounded by its capacity. */
  method PutThenGet<K(==), V>(c: LRUCache<K, V>, key: K, value: V) returns (r: Option<V>)
    requires c.Valid()
    modifies c
    ensures c.Valid() && |c.cache| <= c.capacity
    ensures r == Some(value)
  {
    InsertThenLookup(c.Contents(), c.capacity, key, value);
    c.Put(key, value);
    r := c.Get(key);
  }
}
