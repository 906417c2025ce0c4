# LRU cache of r-cache, modelled in Dafny

This project models `LRUCache<T>` from `src/cache/cache.rs`, the bounded
key/value store of the r-cache crate. Its state is a capacity `cap`, a map
`data_map` from string keys to values, and a recency list `list` of keys,
least recently used first. Three operations change that state in place:

- `get` scans the list and moves the first match to the back, then looks the
  key up in the map;
- `set` evicts the front entry when the list is at capacity, appends the key
  unless it is already listed, stores the value, and reports whether the map
  had no entry for the key;
- `delete` scans the list and, on a match, removes the front entry.

Files:

- `wrappers.dfy` (module `Wrappers`): `Option<T>`, standing in for Rust's `Option`.
- `lru_spec.dfy` (module `LruSpec`): the state as a datatype `State<T>`, the
  invariant `WellFormed`, the three operations as functions `SpecGet`,
  `SpecSet` and `SpecDelete`, a statement of the conventional LRU contract
  (`ConventionalGet`, `ConventionalSet`, `ConventionalDelete`), and the lemmas.
- `cache.dfy` (module `Cache`): the class `LRUCache<T>` with fields `cap`,
  `dataMap` and `list`, and methods `Get`, `Set` and `Delete` that update
  them in place. `Get` and `Delete` keep the source's index loops. Each
  method is proved to produce the state the matching `Spec*` function gives,
  and to keep `Valid()`.

The model follows the code as written. The code departs from the
conventional LRU contract in three ways, and the model keeps all three:

1. `set` evicts the front entry whenever the list is at capacity. It does
   this before it checks whether the key is already resident, so writing a
   resident key other than the front entry to a full cache evicts a
   bystander. A resident front key is evicted, re-appended and reported as a
   fresh insert (`SetAtCapacity`, `SetResidentAtCapacity`).
2. `set` does not move a resident key to the back (`SetBelowCapacity`).
3. `delete` removes the front entry `list[0]` rather than the key it found.
   The key itself is removed only when it was at the front
   (`DeleteRemovesFront`).

The conventional contract is stated in `lru_spec.dfy` as `ConventionalGet`,
`ConventionalSet` and `ConventionalDelete`: `get` of a resident key moves it
to the back and returns its value; `set` of a resident key replaces its value
and moves it to the back without evicting anything, while `set` of a new key
evicts the front entry only when the cache is full; `delete` removes exactly
the given key. `ConventionalKeepsWellFormed` shows that these three keep the
same invariant as the code. The lemmas `SetIsConventionalIff` and
`DeleteIsConventionalIff` state exactly when the code matches this contract,
and `GetIsConventional` shows that `get` always matches it.

## Model

| member | source | states |
|---|---|---|
| `Cache.LRUCache.constructor` | src/cache/cache.rs:17-19 | a new cache has the given capacity, an empty list and an empty map, and satisfies the invariant |
| `Cache.LRUCache.Get` | src/cache/cache.rs:23-34 | the index scan moves the first match to the back of the list. The result is the map's value for the key, or None. The new state is `SpecGet` of the old one. On a hit the list is the old list with the key erased, then the key appended. On a miss the list is unchanged. The invariant is kept |
| `Cache.LRUCache.Set` | src/cache/cache.rs:36-48 | the new state and the result are `SpecSet` of the old state. The key is listed and maps to the value. The result is true iff the key was not listed, or was the front entry of a list at capacity. The invariant is kept |
| `Cache.LRUCache.Delete` | src/cache/cache.rs:50-60 | the result is true iff the key was listed. On true, the list loses its front entry and the map loses that entry's key. On false, nothing changes. The new state is `SpecDelete` of the old one. The invariant is kept |
| `LruSpec.FirstIndex` | src/cache/cache.rs:24-31 | the index where the scans stop: the first occurrence of the key, or the list length iff the key is not listed |
| `LruSpec.RemoveAt` | src/cache/cache.rs:27 | `Vec::remove(i)`: one element shorter, with the elements before `i` kept and those after it shifted down by one |
| `LruSpec.SpecGet` | src/cache/cache.rs:23-34 | `get` leaves the capacity, the map and the list length unchanged. It returns a value iff the key is in the map |
| `LruSpec.EvictFront` | src/cache/cache.rs:37-40 | `list.remove(0)` plus the map removal: the list loses one entry, and the map loses exactly the front key |
| `LruSpec.SpecSet` | src/cache/cache.rs:36-48 | after `set` the capacity is unchanged, the key is listed and the key maps to the given value |
| `LruSpec.SpecDelete` | src/cache/cache.rs:50-60 | `delete` reports true iff the key is listed. On false it changes nothing. It never changes the capacity |
| `LruSpec.GetIsConventional` | src/cache/cache.rs:23-34 | on a consistent cache, `get` is the conventional lookup. On a hit the key moves to the back, the other keys keep their order and the stored value is returned. On a miss the state is unchanged and None is returned |
| `LruSpec.GetMiss` | src/cache/cache.rs:24-33 | `get` of a key that is neither listed nor in the map returns None and leaves list and map unchanged |
| `LruSpec.GetPreservesWellFormed` | src/cache/cache.rs:23-34 | `get` keeps the invariant: no duplicates, list keys equal map keys, at most `cap` keys |
| `LruSpec.SetWithinCapacity` | src/cache/cache.rs:37-44 | with `cap >= 1` and `len(list) <= cap` before `set`, `len(list) <= cap` after it |
| `LruSpec.SetAtCapacity` | src/cache/cache.rs:37-47 | at capacity, `set` removes the front entry from list and map unless it re-inserts that same key. A resident key behind the front stays in place, the list shrinks by one and the result is false. Any other key is appended and the result is true, even when the key was the evicted front entry |
| `LruSpec.SetBelowCapacity` | src/cache/cache.rs:42-47 | below capacity, a resident key keeps its position (no promotion) and the result is false. A new key is appended and the result is true |
| `LruSpec.SetStoresValue` | src/cache/cache.rs:37-47 | after `set` the key maps to the value. Every other key keeps its value, and stays iff it was resident and was not the evicted front entry |
| `LruSpec.SetReportsInsert` | src/cache/cache.rs:37-47 | `set` returns true iff the key was not listed, or was the front entry that the eviction just removed |
| `LruSpec.EvictFrontConsistent` | src/cache/cache.rs:37-40 | the eviction step keeps list and map in agreement and leaves the evicted key unlisted |
| `LruSpec.SetPreservesConsistent` | src/cache/cache.rs:37-47 | `set` keeps list and map in agreement, with no duplicates. So the key occurs exactly once |
| `LruSpec.SetPreservesWellFormed` | src/cache/cache.rs:36-48 | `set` keeps the invariant |
| `LruSpec.SetsKeepWellFormed` | src/cache/cache.rs:36-48 | any run of `set` calls keeps the invariant, so the cache never holds more than `cap` keys |
| `LruSpec.SetFreshIsConventional` | src/cache/cache.rs:37-47 | for a key that is not resident, `set` is the conventional insert: evict the front entry if full, then append the key |
| `LruSpec.SetResidentAtCapacity` | src/cache/cache.rs:37-47 | for a resident key at capacity, `set` always differs from the conventional contract |
| `LruSpec.SetResidentBelowCapacity` | src/cache/cache.rs:42-47 | for a resident key below capacity, `set` matches the conventional contract iff the key is already at the back |
| `LruSpec.SetIsConventionalIff` | src/cache/cache.rs:36-48 | `set` matches the conventional contract iff the key is new, or is the most recent entry of a cache that is not full |
| `LruSpec.GetThenSetKeepsKey` | src/cache/cache.rs:23-47 | with at least two keys listed, a key just read by `get` survives the next `set` of any key |
| `LruSpec.DeleteRemovesFront` | src/cache/cache.rs:50-59 | `delete` of a listed key returns true and removes the front entry from list and map. The key itself survives iff it was not the front entry |
| `LruSpec.DeletePreservesWellFormed` | src/cache/cache.rs:50-59 | `delete` keeps the invariant |
| `LruSpec.DeleteIsConventionalIff` | src/cache/cache.rs:50-59 | `delete` matches the conventional contract iff the key is absent or is the front entry |
| `LruSpec.UnitTestCache` | src/cache/cache.rs:70-80 | the unit test `cache`: with capacity 3, four `set`s return true and `get("1")` returns "1". Then `delete("4")` returns true, leaving list ["3", "4"] without "2", and `delete("1")` returns false and changes nothing |

## Left out

- `src/singleflight/wait_group.rs`, `src/single_flight/single_flight.rs`: thread synchronisation (a Mutex/Condvar barrier and concurrent call deduplication). A sequential model has nothing of theirs to state: run alone, `do_fn` just returns the loader's result.
- `src/group/group.rs`: a Mutex wrapper whose `new` builds a cache of capacity 10 and whose `put` forwards to `set`. It adds no logic of its own.
- The threaded test `safe_cache` (src/cache/cache.rs:82-108): it exercises `Arc`, `Mutex` and threads, not the cache logic.
- Cache.LRUCache.constructor: `cap` is a `nat` and the constructor requires `cap >= 1`. The source accepts any `i64`. A negative `cap` wraps to a huge `usize` in the cast at line 37, so that cache never evicts. With `cap == 0`, `list.remove(0)` panics when the list is empty. Neither the wrap nor the panic is modelled. `SpecSet` requires `cap >= 1` or a non-empty list, which is exactly the case where `remove(0)` does not panic.
- Cache.LRUCache.Get, Cache.LRUCache.Set and Cache.LRUCache.Delete require `Valid()`. The Rust methods have no precondition, but every cache built by `new` with `cap >= 1` satisfies `Valid()`, and all three methods keep it.
- `HashMap` hashing and `T: Clone` are not modelled. The map is a Dafny `map`, and a value is returned as it is stored instead of as a clone.
- `Vec::contains` at line 42 is modelled as sequence membership, not as a loop.
- The trait `Cache<T>` is modelled by the class's three methods, without a separate interface.
