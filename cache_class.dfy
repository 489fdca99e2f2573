/**
 * `lruCache` of hw04_lru_cache/cache.go as an object: `queue` is a `List`
 * object that `Set` and `Get` update in place and `Clear` replaces, `items`
 * is the index, and `heap` holds the `cacheItem` objects, whose values `Set`
 * overwrites in place. Each method is proved to leave the object in exactly
 * the state the function of the same name in `CacheModel` computes, so the
 * properties proved there, and the stale-handle trace, apply to the object.
 */
module CacheClass {
  import opened Wrappers
  import opened ListModel
  import ListClass
  import opened CacheModel

  class LruCache<V> {
    const capacity: int
    var queue: ListClass.List<Handle>
    var items: map<Key, Handle>
    var heap: seq<CacheItem<V>>

    ghost function Model(): CacheState<V>
      reads this, queue
    {
      CacheState(capacity, queue.Model(), items, heap)
    }

    ghost predicate Valid()
      reads this, queue
    {
      CacheModel.Valid(Model())
    }

    /** `NewCache(capacity)`. */
    constructor (capacity: int)
      requires capacity >= 0
      ensures Valid() && Model() == NewCache(capacity) && fresh(queue)
    {
      this.capacity := capacity;
      queue := new ListClass.List();
      items := map[];
      heap := [];
    }

    /** `Set(key, value)`: answers whether the key was present. */
    method Set(key: Key, value: V) returns (existed: bool)
      requires Valid()
      modifies this, queue
      ensures Valid() && queue == old(queue)
      ensures (Model(), existed) == CacheModel.Set(old(Model()), key, value)
    {
      ghost var m0 := Model();
      if key in items {
        var item := items[key];
        var e := queue.nodes[item].value;
        heap := heap[e := heap[e].(value := value)];
        queue.MoveToFront(item);
        assert Model() == Update(m0, key, value);
        return true;
      }

      if capacity == 0 {
        return false;
      }

      var len := queue.Len();
      if len == capacity {
        var back := queue.Back();
        queue.Remove(back.handle);
        items := items - {heap[queue.nodes[back.handle].value].key};
        assert Model() == Evict(m0);
      }
      ghost var m1 := Model();

      var newCacheItem := |heap|;
      heap := heap + [CacheItem(key, value)];
      var newListItem := queue.PushFront(newCacheItem);
      items := items[key := newListItem];
      assert Model() == Insert(m1, key, value);
      return false;
    }

    /** `Get(key)`: the value on a hit, `None` on a miss. */
    method Get(key: Key) returns (found: Option<V>)
      requires Valid()
      modifies queue
      ensures Valid()
      ensures (Model(), found) == CacheModel.Get(old(Model()), key)
    {
      ghost var m0 := Model();
      ghost var r := CacheModel.Get(m0, key);
      if key in items {
        var item := items[key];
        queue.MoveToFront(item);
        assert Model() == r.0;
        return Some(heap[queue.nodes[item].value].value);
      }
      return None;
    }

    /** `Clear()`: a new list and a new index. */
    method Clear()
      requires Valid()
      modifies this
      ensures Valid() && fresh(queue)
      ensures Model() == CacheModel.Clear(old(Model()))
    {
      queue := new ListClass.List();
      items := map[];
    }
  }
}
