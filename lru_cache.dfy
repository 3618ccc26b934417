/**
 * The bounded least-recently-used cache object: a recency list of keys
 * and a table from key to value, both updated in place by `Get` and
 * `Set`. Each method is specified by its effect on the value model in
 * module LruModel, where the eviction behaviour is proved.
 */
module Cache {
  import opened Sequences
  import opened LruModel

  class LRUCache<K(==), V> {
    /** Maximum number of entries. */
    const capacity: nat
    /** Value handed back by `Get` when the key is absent. */
    const nullValue: V
    /** Recency list: most recently used at the front, oldest at the back. */
    var keys: seq<K>
    /** Stored values; a key's list position stands for the list iterator kept beside each value. */
    var cache: map<K, V>

    ghost predicate Valid()
      reads this
    {
      capacity >= 1 && Inv(State(), capacity)
    }

    /** The list and the table as one value. */
    function State(): Lru<K, V>
      reads this
    {
      Lru(keys, cache)
    }

    constructor (capacity: nat, nullValue: V)
      requires capacity >= 1
      ensures Valid()
      ensures this.capacity == capacity && this.nullValue == nullValue
      ensures keys == [] && cache == map[]
    {
      this.capacity := capacity;
      this.nullValue := nullValue;
      keys := [];
      cache := map[];
    }

    /**
     * The stored value of `key`, which becomes the most recently used key;
     * on a miss the sentinel, with nothing changed.
     */
    method Get(key: K) returns (v: V)
      requires Valid()
      modifies this
      ensures Valid()
      ensures v == Lookup(old(State()), nullValue, key)
      ensures State() == AfterGet(old(State()), key)
    {
      if key !in cache {
        return nullValue;
      }
      Touch(key);
      v := cache[key];
    }

    /**
     * Store `value` under `key` as the most recently used entry; a new key
     * in a full cache first pushes out the oldest key.
     */
    method Set(key: K, value: V)
      requires Valid()
      modifies this
      ensures Valid()
      ensures State() == AfterSet(old(State()), capacity, key, value)
    {
      ghost var s := State();
      SizesAgree(s);
      if key in cache {
        cache := cache[key := value];
        assert cache.Keys == s.cache.Keys;
        Touch(key);
      } else {
        if |cache| == capacity {
          var oldestKey := keys[|keys| - 1];
          keys := keys[..|keys| - 1];
          cache := cache - {oldestKey};
          assert State() == EvictOldest(s);
        }
        ghost var t := State();
        keys := [key] + keys;
        cache := cache[key := value];
        assert State() == InsertFront(t, key, value);
      }
    }

    /** Unlink `key` from its place in the recency list and relink it at the front. */
    method Touch(key: K)
      requires Valid() && key in cache
      modifies this`keys
      ensures Valid()
      ensures keys == MoveToFront(old(keys), key)
    {
      var position := IndexOf(keys, key);
      keys := keys[..position] + keys[position + 1..];
      keys := [key] + keys;
    }
  }

  /**
   * Capacity plus one distinct keys, set in order into a fresh cache of
   * capacity two: the first one is gone, the last one is found.
   */
  method EvictsFirstOfThree<K(==), V>(k1: K, k2: K, k3: K, v1: V, v2: V, v3: V, nullValue: V)
    returns (got1: V, got3: V)
    requires k1 != k2 && k2 != k3 && k1 != k3
    ensures got1 == nullValue && got3 == v3
  {
    var c := new LRUCache(2, nullValue);
    c.Set(k1, v1);
    c.Set(k2, v2);
    TwoKeysSet(k1, k2, v1, v2);
    ghost var s2 := c.State();
    c.Set(k3, v3);
    SetNewKeyWhenFull(s2, 2, k3, v3);
    got1 := c.Get(k1);
    got3 := c.Get(k3);
  }

  /**
   * Using the older of two keys before a third arrives keeps it resident;
   * the untouched key is evicted instead.
   */
  method UseProtectsFromEviction<K(==), V>(k1: K, k2: K, k3: K, v1: V, v2: V, v3: V, nullValue: V)
    returns (got1: V, got2: V)
    requires k1 != k2 && k2 != k3 && k1 != k3
    ensures got1 == v1 && got2 == nullValue
  {
    var c := new LRUCache(2, nullValue);
    c.Set(k1, v1);
    c.Set(k2, v2);
    var _ := c.Get(k1);
    c.Set(k3, v3);
    UseProtectsScenario(k1, k2, k3, v1, v2, v3);
    got1 := c.Get(k1);
    got2 := c.Get(k2);
  }

  /** Two distinct keys set into an empty model of capacity two. */
  lemma TwoKeysSet<K, V>(k1: K, k2: K, v1: V, v2: V)
    requires k1 != k2
    ensures var s1 := AfterSet(Lru([], map[]), 2, k1, v1);
      AfterSet(s1, 2, k2, v2) == Lru([k2, k1], map[k1 := v1, k2 := v2])
  {
    var s1 := AfterSet(Lru([], map[]), 2, k1, v1);
    assert s1 == Lru([k1], map[k1 := v1]) by {
      SetNewKeyWithRoom(Lru([], map[]), 2, k1, v1);
    }
    SetNewKeyWithRoom(s1, 2, k2, v2);
  }

  /** The final state of UseProtectsFromEviction, worked out on the value model. */
  lemma UseProtectsScenario<K, V>(k1: K, k2: K, k3: K, v1: V, v2: V, v3: V)
    requires k1 != k2 && k2 != k3 && k1 != k3
    ensures var s1 := AfterSet(Lru([], map[]), 2, k1, v1);
      var s2 := AfterSet(s1, 2, k2, v2);
      var s3 := AfterGet(s2, k1);
      var s4 := AfterSet(s3, 2, k3, v3);
      k1 in s4.cache && s4.cache[k1] == v1 && k2 !in s4.cache
  {
    TwoKeysSet(k1, k2, v1, v2);
    var m := map[k1 := v1, k2 := v2];
    var s3 := AfterGet(Lru([k2, k1], m), k1);
    assert s3 == Lru([k1, k2], m) by {
      IndexOfFirst([k2, k1], k1, 1);
      assert MoveToFront([k2, k1], k1) == [k1] + ([k2] + []);
    }
    SetNewKeyWhenFull(s3, 2, k3, v3);
  }
}
