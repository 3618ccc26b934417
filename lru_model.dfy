/**
 * Value-level model of the least-recently-used cache: the recency list
 * `keys` (front = most recently used, back = oldest) and the table
 * `cache` from key to stored value, with the effect of `get` and `set`
 * on them as functions, and the eviction behaviour proved about those
 * functions.
 */
module LruModel {
  import opened Sequences

  datatype Lru<K, V> = Lru(keys: seq<K>, cache: map<K, V>)

  /** The recency list holds exactly the keys of the table, each once. */
  ghost predicate Consistent<K, V>(s: Lru<K, V>) {
    && NoDup(s.keys)
    && Elements(s.keys) == s.cache.Keys
  }

  /** The object invariant: consistent and within capacity. */
  ghost predicate Inv<K, V>(s: Lru<K, V>, capacity: nat) {
    Consistent(s) && |s.cache| <= capacity
  }

  /** The list and the table always have the same size. */
  lemma SizesAgree<K, V>(s: Lru<K, V>)
    requires Consistent(s)
    ensures |s.keys| == |s.cache|
  {
    DistinctCard(s.keys);
  }

  /** What `get` returns: the stored value, or the sentinel on a miss. */
  function Lookup<K, V>(s: Lru<K, V>, nullValue: V, key: K): V {
    if key in s.cache then s.cache[key] else nullValue
  }

  /** State after `get(key)`: a hit promotes `key` to most recently used. */
  function AfterGet<K, V>(s: Lru<K, V>, key: K): (r: Lru<K, V>)
    requires Consistent(s)
    ensures Consistent(r) && r.cache == s.cache
    ensures key in s.cache ==> r.keys[0] == key && Without(r.keys, key) == Without(s.keys, key)
    ensures key !in s.cache ==> r == s
  {
    if key in s.cache then Lru(MoveToFront(s.keys, key), s.cache) else s
  }

  /** The oldest key: the back of the recency list. */
  function Oldest<K>(keys: seq<K>): K
    requires keys != []
  {
    keys[|keys| - 1]
  }

  /** Drop the oldest key from both the list and the table. */
  function EvictOldest<K, V>(s: Lru<K, V>): (r: Lru<K, V>)
    requires Consistent(s) && s.keys != []
    ensures Consistent(r)
    ensures Oldest(s.keys) !in r.cache && r.cache.Keys == s.cache.Keys - {Oldest(s.keys)}
    ensures forall k :: k in r.cache ==> r.cache[k] == s.cache[k]
  {
    var n := |s.keys| - 1;
    assert Elements(s.keys[..n]) == Elements(s.keys) - {s.keys[n]} by {
      assert s.keys == s.keys[..n] + [s.keys[n]];
      forall j | 0 <= j < n ensures s.keys[..n][j] != s.keys[n] {
        assert s.keys[..n][j] == s.keys[j];
      }
    }
    Lru(s.keys[..n], s.cache - {s.keys[n]})
  }

  /** Put a key that is not in the table at the front, with its value. */
  function InsertFront<K, V>(s: Lru<K, V>, key: K, value: V): (r: Lru<K, V>)
    requires Consistent(s) && key !in s.cache
    ensures Consistent(r)
    ensures r.cache.Keys == s.cache.Keys + {key}
  {
    var keys := [key] + s.keys;
    assert NoDup(keys) by {
      forall i, j | 0 <= i < j < |keys| ensures keys[i] != keys[j] {
        assert keys[j] == s.keys[j - 1];
      }
    }
    Lru(keys, s.cache[key := value])
  }

  /**
   * State after `set(key, value)`: an existing key gets the new value and
   * is promoted; a new key is inserted at the front, after evicting the
   * oldest key when the table is already full.
   */
  function AfterSet<K, V>(s: Lru<K, V>, capacity: nat, key: K, value: V): (r: Lru<K, V>)
    requires capacity >= 1 && Inv(s, capacity)
    ensures Inv(r, capacity)
    ensures key in r.cache && r.cache[key] == value && r.keys[0] == key
    ensures forall k :: k in r.cache && k != key ==> k in s.cache && r.cache[k] == s.cache[k]
  {
    SizesAgree(s);
    if key in s.cache then
      Lru(MoveToFront(s.keys, key), s.cache[key := value])
    else if |s.cache| == capacity then
      var t := EvictOldest(s);
      SizesAgree(t);
      InsertFront(t, key, value)
    else
      InsertFront(s, key, value)
  }

  /** `set` on a key already present: new value, promoted, nothing evicted. */
  lemma SetExistingKey<K, V>(s: Lru<K, V>, capacity: nat, key: K, value: V)
    requires capacity >= 1 && Inv(s, capacity) && key in s.cache
    ensures var r := AfterSet(s, capacity, key, value);
      && r.cache.Keys == s.cache.Keys
      && |r.keys| == |s.keys|
      && r.keys[0] == key
      && Without(r.keys, key) == Without(s.keys, key)
  {
  }

  /** `set` on a new key with room left: inserted at the front, nothing removed. */
  lemma SetNewKeyWithRoom<K, V>(s: Lru<K, V>, capacity: nat, key: K, value: V)
    requires capacity >= 1 && Inv(s, capacity) && key !in s.cache && |s.cache| < capacity
    ensures var r := AfterSet(s, capacity, key, value);
      && r.keys == [key] + s.keys
      && r.cache.Keys == s.cache.Keys + {key}
      && |r.cache| == |s.cache| + 1
  {
  }

  /**
   * `set` on a new key in a full table: exactly the oldest key leaves the
   * list and the table, the new one enters at the front, and the size
   * stays at the capacity.
   */
  lemma SetNewKeyWhenFull<K, V>(s: Lru<K, V>, capacity: nat, key: K, value: V)
    requires capacity >= 1 && Inv(s, capacity) && key !in s.cache && |s.cache| == capacity
    ensures s.keys != []
    ensures var r := AfterSet(s, capacity, key, value);
      && r.keys == [key] + s.keys[..|s.keys| - 1]
      && s.cache.Keys - r.cache.Keys == {Oldest(s.keys)}
      && r.cache.Keys - s.cache.Keys == {key}
      && |r.cache| == capacity
  {
    SizesAgree(s);
    var t := EvictOldest(s);
    var r := AfterSet(s, capacity, key, value);
    assert r == InsertFront(t, key, value);
    assert r.cache.Keys == s.cache.Keys - {Oldest(s.keys)} + {key};
    assert Oldest(s.keys) != key;
    SizesAgree(r);
  }

  /** The effect of a run of `set` calls, one per pair, in order. */
  function SetAll<K, V>(s: Lru<K, V>, capacity: nat, ops: seq<(K, V)>): (r: Lru<K, V>)
    requires capacity >= 1 && Inv(s, capacity)
    ensures Inv(r, capacity)
    decreases |ops|
  {
    if ops == [] then s
    else SetAll(AfterSet(s, capacity, ops[0].0, ops[0].1), capacity, ops[1..])
  }

  /** Every key in `ops` is distinct and absent from the table of `s`. */
  ghost predicate FreshKeys<K, V>(s: Lru<K, V>, ops: seq<(K, V)>) {
    && (forall j :: 0 <= j < |ops| ==> ops[j].0 !in s.cache)
    && (forall i, j :: 0 <= i < j < |ops| ==> ops[i].0 != ops[j].0)
  }

  /** Inserting a new key at the front moves every resident key back by one. */
  lemma InsertFrontShifts<K, V>(s: Lru<K, V>, key: K, value: V, k: K)
    requires Consistent(s) && key !in s.cache && k in s.cache
    ensures var r := InsertFront(s, key, value);
      k in r.cache && r.cache[k] == s.cache[k] && IndexOf(r.keys, k) == IndexOf(s.keys, k) + 1
  {
    assert k in s.keys;
    IndexOfCons(key, s.keys, k);
  }

  /** Evicting the oldest key leaves every other key where it was. */
  lemma EvictOldestKeeps<K, V>(s: Lru<K, V>, k: K)
    requires Consistent(s) && s.keys != [] && k in s.cache
    ensures var t := EvictOldest(s);
      && (k in t.cache <==> IndexOf(s.keys, k) < |s.keys| - 1)
      && (k in t.cache ==> t.cache[k] == s.cache[k] && IndexOf(t.keys, k) == IndexOf(s.keys, k))
  {
    assert k in s.keys;
    var i, n := IndexOf(s.keys, k), |s.keys| - 1;
    if i < n {
      IndexOfPrefix(s.keys, n, k);
    } else {
      assert k == Oldest(s.keys);
    }
  }

  /**
   * One insertion of a new key ages every resident key by one position;
   * the key at position `capacity - 1` (the back of a full list) is the
   * one that leaves.
   */
  lemma NewKeyAges<K, V>(s: Lru<K, V>, capacity: nat, key: K, value: V, k: K)
    requires capacity >= 1 && Inv(s, capacity) && key !in s.cache && k in s.cache
    ensures var r := AfterSet(s, capacity, key, value);
      && (k in r.cache <==> IndexOf(s.keys, k) + 1 < capacity)
      && (k in r.cache ==> r.cache[k] == s.cache[k] && IndexOf(r.keys, k) == IndexOf(s.keys, k) + 1)
  {
    SizesAgree(s);
    if |s.cache| == capacity {
      var t := EvictOldest(s);
      EvictOldestKeeps(s, k);
      if k in t.cache {
        InsertFrontShifts(t, key, value, k);
      }
    } else {
      InsertFrontShifts(s, key, value, k);
    }
  }

  /** A key absent from the table stays absent while nobody sets it. */
  lemma {:induction false} StaysOut<K, V>(s: Lru<K, V>, capacity: nat, ops: seq<(K, V)>, k: K)
    requires capacity >= 1 && Inv(s, capacity) && k !in s.cache
    requires forall j :: 0 <= j < |ops| ==> ops[j].0 != k
    ensures k !in SetAll(s, capacity, ops).cache
    decreases |ops|
  {
    if ops != [] {
      StaysOut(AfterSet(s, capacity, ops[0].0, ops[0].1), capacity, ops[1..], k);
    }
  }

  /** After the first of a run of fresh insertions, the rest are still fresh. */
  lemma FreshKeysTail<K, V>(s: Lru<K, V>, capacity: nat, ops: seq<(K, V)>)
    requires capacity >= 1 && Inv(s, capacity) && FreshKeys(s, ops) && ops != []
    ensures FreshKeys(AfterSet(s, capacity, ops[0].0, ops[0].1), ops[1..])
  {
    var s' := AfterSet(s, capacity, ops[0].0, ops[0].1);
    forall j | 0 <= j < |ops| - 1 ensures ops[1..][j].0 !in s'.cache {
      assert ops[1..][j] == ops[j + 1];
      assert ops[j + 1].0 != ops[0].0;
    }
    forall i, j | 0 <= i < j < |ops| - 1 ensures ops[1..][i].0 != ops[1..][j].0 {
      assert ops[1..][i] == ops[i + 1] && ops[1..][j] == ops[j + 1];
    }
  }

  /**
   * A resident key at recency position `i` survives exactly as long as
   * fewer than `capacity - i` new keys are inserted after it, keeping its
   * value and moving back one position per insertion; then it is evicted.
   */
  lemma {:induction false} AgesOut<K, V>(s: Lru<K, V>, capacity: nat, ops: seq<(K, V)>, k: K)
    requires capacity >= 1 && Inv(s, capacity) && k in s.cache && FreshKeys(s, ops)
    ensures var r := SetAll(s, capacity, ops);
      && (k in r.cache <==> IndexOf(s.keys, k) + |ops| < capacity)
      && (k in r.cache ==> r.cache[k] == s.cache[k] && IndexOf(r.keys, k) == IndexOf(s.keys, k) + |ops|)
    decreases |ops|
  {
    SizesAgree(s);
    if ops != [] {
      var s' := AfterSet(s, capacity, ops[0].0, ops[0].1);
      assert SetAll(s, capacity, ops) == SetAll(s', capacity, ops[1..]);
      NewKeyAges(s, capacity, ops[0].0, ops[0].1, k);
      FreshKeysTail(s, capacity, ops);
      if k in s'.cache {
        AgesOut(s', capacity, ops[1..], k);
      } else {
        forall j | 0 <= j < |ops| - 1 ensures ops[1..][j].0 != k {
          assert ops[1..][j] == ops[j + 1];
        }
        StaysOut(s', capacity, ops[1..], k);
      }
    }
  }

  /**
   * After `set(key, value)`, `get(key)` answers `value` until `capacity`
   * further new keys have been inserted; from then on it answers the
   * sentinel.
   */
  lemma SetThenNewKeys<K, V>(s: Lru<K, V>, capacity: nat, key: K, value: V, ops: seq<(K, V)>, nullValue: V)
    requires capacity >= 1 && Inv(s, capacity)
    requires FreshKeys(AfterSet(s, capacity, key, value), ops)
    ensures Lookup(AfterSet(s, capacity, key, value), nullValue, key) == value
    ensures Lookup(SetAll(AfterSet(s, capacity, key, value), capacity, ops), nullValue, key)
            == if |ops| < capacity then value else nullValue
  {
    var s' := AfterSet(s, capacity, key, value);
    IndexOfUnique(s'.keys, 0);
    AgesOut(s', capacity, ops, key);
  }

  /**
   * A hit by `get` protects the key: it stays, with its value, through
   * `capacity - 1` insertions of new keys, and leaves at the next one.
   */
  lemma GetThenNewKeys<K, V>(s: Lru<K, V>, capacity: nat, key: K, ops: seq<(K, V)>, nullValue: V)
    requires capacity >= 1 && Inv(s, capacity) && key in s.cache && FreshKeys(s, ops)
    ensures Lookup(SetAll(AfterGet(s, key), capacity, ops), nullValue, key)
            == if |ops| < capacity then s.cache[key] else nullValue
  {
    var s' := AfterGet(s, key);
    IndexOfUnique(s'.keys, 0);
    AgesOut(s', capacity, ops, key);
  }
}
