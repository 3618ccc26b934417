# Verified model of gputt's LRU plan cache

gputt keeps the transpose plans it has already built in a bounded
least-recently-used cache, `LRUCache<key_type, value_type>` in
`include/LRUCache.h`. That cache holds:

- a fixed capacity;
- a fixed "null value" that `get` returns on a miss;
- a doubly linked list `keys`, with the most recently used key at the front and the oldest at the back;
- a hash map `cache` from each key to its value, plus an iterator to the key's list node.

`get(key)` returns the stored value and promotes the key to the front.
On a miss it returns the null value and changes nothing.
`set(key, value)` works in one of two ways:

- If the key is present, it overwrites the value and promotes the key.
- If the key is new, it pushes it at the front. When the map already holds `capacity` entries, it first pops the oldest key off the back of the list and erases it from the map.

This project models that class in Dafny and proves what it promises.

- `sequences.dfy` (module `Sequences`) is about the recency list as a sequence. `IndexOf` stands for the list iterator. `MoveToFront` is the list surgery of the private `touch`. There are lemmas on duplicate-freedom and on the order of the untouched keys.
- `lru_model.dfy` (module `LruModel`) models the cache state as a value `Lru(keys, cache)`. `Consistent` and `Inv` are the object invariant. `AfterGet` and `AfterSet` give the effect of each operation. `SetAll` applies a run of `set` calls. The lemmas cover the eviction behaviour: which key leaves, when a key ages out, and how a use protects a key.
- `lru_cache.dfy` (module `Cache`) is the class `LRUCache` itself. It has `const capacity`, `const nullValue`, `var keys: seq<K>` and `var cache: map<K, V>`. `Get`, `Set` and `Touch` update those fields in place, and each is proved against the `LruModel` functions. Two client methods show that the class contracts alone settle the eviction and recency scenarios.

The class invariant `Valid()` requires three things:

- `keys` has no duplicates.
- Its elements are exactly the keys of `cache`.
- `|cache| <= capacity`, with `capacity >= 1`.

The constructor demands `capacity >= 1`. With capacity 0, the first `set` of a new key finds `cache.size() == capacity` and calls `keys.back()` on an empty list (`include/LRUCache.h:82-83`). That is undefined behaviour in C++, so the model does not admit it.

## Model

| member | source | states |
|---|---|---|
| Sequences.IndexOf | include/LRUCache.h:38-41 | the iterator kept for a key, as a position: the key sits there in the list and at no earlier position |
| Sequences.MoveToFront | include/LRUCache.h:97-101 | erasing a key's node and pushing it at the front keeps the length and the multiset of keys, puts the key first, keeps the order of all other keys and keeps the list duplicate-free |
| LruModel.SizesAgree | include/LRUCache.h:49-55 | under the invariant the list and the map have the same size, so a full map means a non-empty list |
| LruModel.AfterGet | include/LRUCache.h:64-71 | `get` keeps the invariant and never changes the map; a hit moves the key to the front and keeps every other key's relative order; a miss changes nothing |
| LruModel.EvictOldest | include/LRUCache.h:83-85 | removing the back of the list drops exactly the oldest key from both list and map and keeps every other value |
| LruModel.InsertFront | include/LRUCache.h:87-92 | pushing an absent key at the front and inserting it in the map keeps list and map consistent and adds exactly that key |
| LruModel.AfterSet | include/LRUCache.h:73-94 | `set` keeps the invariant, including the capacity bound; afterwards the key is at the front and maps to the new value; every other key left in the map was there before with the same value |
| LruModel.SetExistingKey | include/LRUCache.h:75-79 | `set` on a present key evicts nothing, keeps the list length, moves the key to the front and keeps the order of the other keys |
| LruModel.SetNewKeyWithRoom | include/LRUCache.h:80-92 | `set` on a new key below capacity puts it in front of the unchanged list, removes no key and grows the size by one |
| LruModel.SetNewKeyWhenFull | include/LRUCache.h:82-92 | `set` on a new key at capacity removes exactly one key, the oldest (back of the list), from list and map, adds the new key at the front, and keeps the size at capacity |
| LruModel.SetAll | include/LRUCache.h:73-94 | any run of `set` calls keeps the invariant |
| LruModel.NewKeyAges | include/LRUCache.h:80-92 | inserting a new key moves every resident key back one position with its value unchanged, and evicts only the key at position capacity-1 |
| LruModel.StaysOut | include/LRUCache.h:80-92 | a key absent from the map stays absent through `set` calls on other keys |
| LruModel.AgesOut | include/LRUCache.h:64-94 | a resident key at position i survives n inserted new keys, with its value, at position i+n, exactly when i+n < capacity; otherwise it has been evicted |
| LruModel.SetThenNewKeys | include/LRUCache.h:64-94 | after `set(k, v)`, `get(k)` returns v; after capacity further distinct new keys it returns the null value, and after fewer it still returns v |
| LruModel.GetThenNewKeys | include/LRUCache.h:64-101 | after a `get` hit on k, k keeps its value through capacity-1 insertions of new keys and is gone after capacity of them |
| Cache.LRUCache.constructor | include/LRUCache.h:61-62 | a new cache has the given capacity and null value, an empty list and an empty map, and satisfies the invariant |
| Cache.LRUCache.Get | include/LRUCache.h:64-71 | returns the stored value, or the null value on a miss; the new list and map are those given by `AfterGet`; the invariant is kept |
| Cache.LRUCache.Set | include/LRUCache.h:73-94 | the new list and map are those given by `AfterSet`; the invariant is kept |
| Cache.LRUCache.Touch | include/LRUCache.h:97-101 | changes only the list, to `MoveToFront` of the old list, and keeps the invariant |
| Cache.EvictsFirstOfThree | include/LRUCache.h:64-94 | in a cache of capacity two, setting three distinct keys makes `get` of the first return the null value and `get` of the third return its value |
| Cache.UseProtectsFromEviction | include/LRUCache.h:64-101 | in a cache of capacity two, a `get` of the older key before a third key arrives keeps it; the untouched key is evicted instead |

## Left out

- The `std::mutex` and the `lock_guard` in `get` and `set` (`include/LRUCache.h:58, 65, 74`) are left out. The lock only serialises whole calls, so the methods are modelled as sequential.
- The `unordered_map` hashing is left out and becomes a Dafny `map`.
- The list iterator stored with each value is left out. It becomes the key's position in `keys` (`IndexOf`), so unlinking is O(n) in the model instead of O(1).
- `size_t` is left out. The capacity is an unbounded `nat`, and no wrap-around can arise because the size never exceeds it.
- A stored value equal to the null value cannot be told apart from a miss by a caller of `Get`. The model keeps this sentinel behaviour of the code, and does not use the separate "not found" result described for the plan cache.
- Destroying an evicted plan is left out. The cache is generic and only erases the entry. Whatever releases the plan lies outside `include/LRUCache.h`.
- Plan search and ranking are left out: `TensorSplit`, the plan constructors, `countCycles` and the comparison operators in `include/gputtplan.h`. They are declared there without bodies, and their cost fields are floating point.
- The C API in `include/gputt.h` is left out. It is handle plumbing over GPU kernels.
- The device-memory wrappers in `src/CudaMem.cpp` are left out. They are calls into the CUDA runtime or an allocator library.
