/**
 * `LRUCache<T>` of src/cache/cache.rs: a capacity, a value map and a recency
 * list (least recently used first) that `get`, `set` and `delete` update in
 * place. Each method is proved to leave the object in the state that the
 * matching function of `LruSpec` gives for the state it started in, and to
 * keep the invariant `Valid()`.
 */
module Cache {
  import opened Wrappers
  import opened LruSpec

  class LRUCache<T> {
    var cap: nat
    var dataMap: map<string, T>
    var list: seq<string>

    /** The fields as a value of the specification's state type. */
    function Model(): State<T>
      reads this
    {
      State(cap, list, dataMap)
    }

    /** The list has no duplicates, lists exactly the keys of the map, and
        holds at most `cap >= 1` keys. */
    ghost predicate Valid()
      reads this
    {
      WellFormed(Model())
    }

    /** `LRUCache::new`: an empty cache of the given capacity. */
    constructor (cap: nat)
      requires cap >= 1
      ensures Valid()
      ensures Model() == State(cap, [], map[])
    {
      this.cap := cap;
      dataMap := map[];
      list := [];
    }

    /** `get`: scans the list; on the first match moves that key to the back
        and stops; then returns the map's value for `key`, if any. */
    method Get(key: string) returns (r: Option<T>)
      requires Valid()
      modifies this
      ensures Valid()
      ensures (Model(), r) == SpecGet(old(Model()), key)
      ensures r == (if key in old(dataMap) then Some(old(dataMap)[key]) else None)
      ensures key in old(list) ==> list == Erase(old(list), key) + [key]
      ensures key !in old(list) ==> list == old(list)
    {
      for i := 0 to |list|
        invariant list == old(list)
        invariant forall j :: 0 <= j < i ==> list[j] != key
      {
        if list[i] == key {
          var s := list[i];
          list := RemoveAt(list, i);
          list := list + [s];
          break;
        }
      }
      r := if key in dataMap then Some(dataMap[key]) else None;
      GetIsConventional(old(Model()), key);
      GetPreservesWellFormed(old(Model()), key);
    }

    /** `set`: evicts the front entry when the list is at capacity, appends
        `key` unless it is listed, stores `value`, and reports whether the map
        had no entry for `key` after the eviction. */
    method Set(key: string, value: T) returns (inserted: bool)
      requires Valid()
      modifies this
      ensures Valid()
      ensures (Model(), inserted) == SpecSet(old(Model()), key, value)
      ensures cap == old(cap) && key in list && dataMap[key] == value
      ensures inserted <==> key !in old(list) || (|old(list)| >= cap && key == old(list)[0])
    {
      ghost var c := Model();
      if |list| >= cap {
        var s := list[0];
        list := RemoveAt(list, 0);
        dataMap := dataMap - {s};
        assert Model() == EvictFront(c);
      }
      if key !in list {
        list := list + [key];
      }
      inserted := key !in dataMap;
      dataMap := dataMap[key := value];
      SetPreservesWellFormed(c, key, value);
      SetReportsInsert(c, key, value);
    }

    /** `delete`: scans the list; on a match removes the front entry of the
        list and its map entry and returns true; returns false when `key` is
        not listed. */
    method Delete(key: string) returns (removed: bool)
      requires Valid()
      modifies this
      ensures Valid()
      ensures (Model(), removed) == SpecDelete(old(Model()), key)
      ensures removed <==> key in old(list)
      ensures removed ==> list == old(list)[1..] && dataMap == old(dataMap) - {old(list)[0]}
      ensures !removed ==> list == old(list) && dataMap == old(dataMap)
    {
      for i := 0 to |list|
        invariant list == old(list) && dataMap == old(dataMap)
        invariant forall j :: 0 <= j < i ==> list[j] != key
      {
        if list[i] == key {
          var s := list[0];
          list := RemoveAt(list, 0);
          dataMap := dataMap - {s};
          assert Model() == EvictFront(old(Model()));
          DeletePreservesWellFormed(old(Model()), key);
          return true;
        }
      }
      return false;
    }
  }
}
