/**
 * Value-level model of the LRU cache of hw04_lru_cache/cache.go, built on the
 * list model of list.go.
 *
 * The list's values are pointers to `cacheItem` objects. Those objects live in
 * `heap` and a node's value is a handle into it, so the in-place write of a
 * value (cache.go line 32) is seen through every node that points at the same
 * `cacheItem`; this matters because `MoveToFront` copies that pointer into a
 * fresh node.
 */
module CacheModel {
  import opened Wrappers
  import opened ListModel

  type Key = string

  /** `cacheItem`. */
  datatype CacheItem<V> = CacheItem(key: Key, value: V)

  /** `lruCache`: capacity, the recency list `queue`, the index `items`, and the `cacheItem` objects. */
  datatype CacheState<V> = CacheState(
    capacity: int,
    queue: ListState<Handle>,
    items: map<Key, Handle>,
    heap: seq<CacheItem<V>>)

  /**
   * Pointers are in bounds and each index entry points at a node whose
   * `cacheItem` carries that very key. This much holds in every state the
   * code can reach, unlike the consistency between `items` and `queue`.
   */
  predicate Linked<V>(c: CacheState<V>) {
    && c.capacity >= 0
    && WellFormed(c.queue)
    && (forall n :: 0 <= n < |c.queue.nodes| ==> c.queue.nodes[n].value < |c.heap|)
    && (forall k :: k in c.items ==> c.items[k] < |c.queue.nodes|)
    && (forall k :: k in c.items ==> c.heap[c.queue.nodes[c.items[k]].value].key == k)
  }

  /**
   * `Linked`, and front and back are nil together; the queue has no front only
   * while nothing has been stored since construction or the last `Clear`.
   */
  predicate Valid<V>(c: CacheState<V>) {
    && Linked(c)
    && (c.queue.front == Nil <==> c.queue.back == Nil)
    && (c.queue.front == Nil ==> c.queue.len == 0 && c.items == map[])
  }

  /** What `Get` would answer: the value of the `cacheItem` the index points at. */
  function Lookup<V>(c: CacheState<V>, key: Key): Option<V>
    requires Linked(c)
  {
    if key in c.items then Some(c.heap[c.queue.nodes[c.items[key]].value].value) else None
  }

  /** `NewCache`: an empty list and an empty index. Negative capacities are not accepted. */
  function NewCache<V>(capacity: int): (c: CacheState<V>)
    requires capacity >= 0
    ensures Valid(c) && c.capacity == capacity
    ensures IsList(c.queue, []) && c.items == map[]
    ensures forall k :: Lookup(c, k) == None
  {
    CacheState(capacity, NewList(), map[], [])
  }

  /**
   * The eviction step of `Set`: remove the `Back()` node from the queue and
   * delete the key of its `cacheItem` from the index.
   */
  function Evict<V>(c: CacheState<V>): (r: CacheState<V>)
    requires Valid(c) && c.queue.len == c.capacity > 0
    ensures Linked(r) && r.heap == c.heap && r.capacity == c.capacity
    ensures |r.queue.nodes| == |c.queue.nodes| && r.queue.len == c.queue.len - 1
    ensures r.queue.front == Nil <==> r.queue.back == Nil
  {
    var b := c.queue.back.handle;
    var q := Remove(c.queue, b);
    c.(queue := q, items := c.items - {c.heap[c.queue.nodes[b].value].key})
  }

  /** The key whose `cacheItem` hangs on the `Back()` node: the one `Set` evicts. */
  function BackKey<V>(c: CacheState<V>): Key
    requires Valid(c) && c.queue.back != Nil
  {
    c.heap[c.queue.nodes[c.queue.back.handle].value].key
  }

  /** `MoveToFront` keeps every node's `cacheItem` handle below a bound the old ones were below, such as the heap size. */
  lemma {:induction false} MoveToFrontBounded(l: ListState<Handle>, i: Handle, bound: nat)
    requires WellFormed(l) && i < |l.nodes| && forall j :: 0 <= j < |l.nodes| ==> l.nodes[j].value < bound
    ensures forall j :: 0 <= j < |MoveToFront(l, i).nodes| ==> MoveToFront(l, i).nodes[j].value < bound
  {
    var r := MoveToFront(l, i);
    forall j | 0 <= j < |r.nodes| ensures r.nodes[j].value < bound {
      if j >= |l.nodes| {
        assert j == |l.nodes| && l.front != At(i);
      }
    }
  }

  /**
   * The update path of `Set`: overwrite the value in the key's `cacheItem`
   * (cache.go line 32) and move its node to the front.
   */
  function Update<V>(c: CacheState<V>, key: Key, value: V): (r: CacheState<V>)
    requires Valid(c) && key in c.items
    ensures Valid(r) && r.capacity == c.capacity && r.items == c.items
  {
    var n := c.items[key];
    var e := c.queue.nodes[n].value;
    MoveToFrontBounded(c.queue, n, |c.heap|);
    c.(heap := c.heap[e := c.heap[e].(value := value)], queue := MoveToFront(c.queue, n))
  }

  /** The insertion path of `Set`: a new `cacheItem` on a new front node, indexed under `key`. */
  function Insert<V>(c: CacheState<V>, key: Key, value: V): (r: CacheState<V>)
    requires Linked(c) && (c.queue.front == Nil <==> c.queue.back == Nil)
    ensures Valid(r) && r.capacity == c.capacity
    ensures r.queue == PushFront(c.queue, |c.heap|).0
    ensures r.items == c.items[key := |c.queue.nodes|]
    ensures r.heap == c.heap + [CacheItem(key, value)]
  {
    var pushed := PushFront(c.queue, |c.heap|);
    c.(queue := pushed.0, items := c.items[key := pushed.1], heap := c.heap + [CacheItem(key, value)])
  }

  /**
   * `Set(key, value)`. A present key gets its value overwritten and its node
   * moved to the front, and the answer is true. An absent key is refused
   * when the capacity is 0; otherwise, when the queue is full, the back is
   * evicted first, and then a new `cacheItem` is pushed at the front and
   * indexed, and the answer is false.
   */
  function Set<V>(c: CacheState<V>, key: Key, value: V): (r: (CacheState<V>, bool))
    requires Valid(c)
    ensures Valid(r.0) && r.0.capacity == c.capacity
    ensures r.1 <==> key in c.items
  {
    if key in c.items then
      (Update(c, key, value), true)
    else if c.capacity == 0 then
      (c, false)
    else if c.queue.len == c.capacity then
      (Insert(Evict(c), key, value), false)
    else
      (Insert(c, key, value), false)
  }

  /**
   * `Get(key)`: on a hit, moves the key's node to the front and answers the
   * value of its `cacheItem`; on a miss, answers nothing and changes nothing.
   */
  function Get<V>(c: CacheState<V>, key: Key): (r: (CacheState<V>, Option<V>))
    requires Valid(c)
    ensures Valid(r.0) && r.0.capacity == c.capacity
  {
    if key in c.items then
      var n := c.items[key];
      MoveToFrontBounded(c.queue, n, |c.heap|);
      var q := MoveToFront(c.queue, n);
      (c.(queue := q), Some(c.heap[q.nodes[n].value].value))
    else
      (c, None)
  }

  /** `Clear`: a new empty list and a new empty index; the capacity stays. */
  function Clear<V>(c: CacheState<V>): (r: CacheState<V>)
    requires Valid(c)
    ensures Valid(r)
  {
    c.(queue := NewList(), items := map[])
  }

  // ---------------------------------------------------------------------------
  // Sequences of calls
  // ---------------------------------------------------------------------------

  datatype Op<V> = SetOp(key: Key, value: V) | GetOp(key: Key) | ClearOp

  datatype Reply<V> = SetReply(existed: bool) | GetReply(found: Option<V>) | ClearReply

  function Step<V>(c: CacheState<V>, op: Op<V>): (r: (CacheState<V>, Reply<V>))
    requires Valid(c)
    ensures Valid(r.0) && r.0.capacity == c.capacity
  {
    match op
    case SetOp(k, v) => var (c', b) := Set(c, k, v); (c', SetReply(b))
    case GetOp(k) => var (c', found) := Get(c, k); (c', GetReply(found))
    case ClearOp => (Clear(c), ClearReply)
  }

  /** The calls `ops`, one after the other, and their answers. */
  function Run<V>(c: CacheState<V>, ops: seq<Op<V>>): (r: (CacheState<V>, seq<Reply<V>>))
    requires Valid(c)
    ensures Valid(r.0) && r.0.capacity == c.capacity && |r.1| == |ops|
    decreases |ops|
  {
    if ops == [] then (c, [])
    else
      var (c1, reply) := Step(c, ops[0]);
      var (c2, replies) := Run(c1, ops[1..]);
      (c2, [reply] + replies)
  }

  // ---------------------------------------------------------------------------
  // Properties of single calls
  // ---------------------------------------------------------------------------

  /**
   * `Set` of a present key overwrites its value and answers true; the index
   * is left as it was (nothing is evicted) and no other key's value changes.
   */
  lemma {:induction false} SetPresentKey<V>(c: CacheState<V>, key: Key, value: V)
    requires Valid(c) && key in c.items
    ensures var (r, existed) := Set(c, key, value);
            && existed
            && r.items == c.items
            && r.queue == MoveToFront(c.queue, c.items[key])
            && Lookup(r, key) == Some(value)
            && forall k :: k != key ==> Lookup(r, k) == Lookup(c, k)
  {
    var r := Set(c, key, value).0;
    var n := c.items[key];
    var e := c.queue.nodes[n].value;
    assert r == Update(c, key, value);
    forall k | k != key && k in c.items
      ensures Lookup(r, k) == Lookup(c, k)
    {
      var e' := c.queue.nodes[c.items[k]].value;
      assert c.heap[e'].key == k && c.heap[e].key == key;
      assert r.queue.nodes[c.items[k]].value == e';
    }
  }

  /** `Set` of an absent key into a cache of capacity 0 changes nothing and answers false. */
  lemma {:induction false} SetZeroCapacity<V>(c: CacheState<V>, key: Key, value: V)
    requires Valid(c) && key !in c.items && c.capacity == 0
    ensures Set(c, key, value) == (c, false)
  {
  }

  /**
   * `Set` of an absent key into a full cache first removes the `Back()` node
   * from the queue and its key from the index, then inserts; it answers false.
   */
  lemma {:induction false} SetEvictsBack<V>(c: CacheState<V>, key: Key, value: V)
    requires Valid(c) && key !in c.items && c.capacity > 0 && c.queue.len == c.capacity
    ensures c.queue.back != Nil
    ensures var (r, existed) := Set(c, key, value);
            && !existed
            && r.queue == PushFront(Remove(c.queue, c.queue.back.handle), |c.heap|).0
            && r.items == (c.items - {BackKey(c)})[key := |c.queue.nodes|]
            && (BackKey(c) != key ==> Lookup(r, BackKey(c)) == None)
  {
  }

  /** On a proper list, the eviction drops exactly the last node; the rest keep their order behind the new node. */
  lemma {:induction false} SetEvictsLast<V>(c: CacheState<V>, hs: seq<Handle>, key: Key, value: V)
    requires Valid(c) && IsList(c.queue, hs)
    requires key !in c.items && c.capacity > 0 && c.queue.len == c.capacity
    ensures IsList(Set(c, key, value).0.queue, [|c.queue.nodes|] + hs[..|hs| - 1])
    ensures Values(Set(c, key, value).0.queue, [|c.queue.nodes|] + hs[..|hs| - 1]) ==
              [|c.heap|] + Values(c.queue, hs)[..|hs| - 1]
  {
    var last := |hs| - 1;
    var removed := Remove(c.queue, hs[last]);
    assert c.queue.back == At(hs[last]);
    RemoveKeepsList(c.queue, hs, last);
    assert Without(hs, last) == hs[..last];
    assert Without(Values(c.queue, hs), last) == Values(c.queue, hs)[..last];
    PushFrontKeepsList(removed, hs[..last], |c.heap|);
  }

  /**
   * `Set` of an absent key into a cache of positive capacity pushes a new
   * node at the front, indexes the key to that node and answers false; when
   * the cache is not full the rest of the index is kept.
   */
  lemma {:induction false} SetAbsentKey<V>(c: CacheState<V>, key: Key, value: V)
    requires Valid(c) && key !in c.items && c.capacity > 0
    ensures var (r, existed) := Set(c, key, value);
            var h := |c.queue.nodes|;
            && !existed
            && key in r.items && r.items[key] == h
            && r.queue.front == At(h)
            && Lookup(r, key) == Some(value)
            && (c.queue.len != c.capacity ==> r.items == c.items[key := h] && r.queue == PushFront(c.queue, |c.heap|).0)
  {
  }

  /**
   * `Get` answers what the index points at. On a miss it changes nothing; on
   * a hit it keeps the index and every stored value and only reorders.
   */
  lemma {:induction false} GetAnswersLookup<V>(c: CacheState<V>, key: Key)
    requires Valid(c)
    ensures var (r, found) := Get(c, key);
            && found == Lookup(c, key)
            && r.items == c.items && r.heap == c.heap
            && (key !in c.items ==> r == c)
            && (key in c.items ==> r.queue == MoveToFront(c.queue, c.items[key]))
            && forall k :: Lookup(r, k) == Lookup(c, k)
  {
  }

  /** A `Get` right after a `Set` of the same key finds the value just set, whenever the capacity is positive. */
  lemma {:induction false} SetThenGet<V>(c: CacheState<V>, key: Key, value: V)
    requires Valid(c) && c.capacity > 0
    ensures Get(Set(c, key, value).0, key).1 == Some(value)
  {
    if key in c.items {
      SetPresentKey(c, key, value);
    } else {
      SetAbsentKey(c, key, value);
    }
    GetAnswersLookup(Set(c, key, value).0, key);
  }

  /** `Clear` empties the queue and the index and keeps the capacity, so every later `Get` misses. */
  lemma {:induction false} ClearForgets<V>(c: CacheState<V>)
    requires Valid(c)
    ensures var r := Clear(c);
            && r.capacity == c.capacity
            && IsList(r.queue, []) && r.items == map[]
            && forall k :: Get(r, k) == (r, None)
  {
  }

  // ---------------------------------------------------------------------------
  // Properties of sequences of calls
  // ---------------------------------------------------------------------------

  function ZeroCapacityReply<V>(op: Op<V>): Reply<V> {
    match op
    case SetOp(_, _) => SetReply(false)
    case GetOp(_) => GetReply(None)
    case ClearOp => ClearReply
  }

  /** A cache of capacity 0 stores nothing: every `Set` answers false and every `Get` misses. */
  lemma {:induction false} ZeroCapacityAbsorbs<V>(c: CacheState<V>, ops: seq<Op<V>>)
    requires Valid(c) && c.capacity == 0 && c.items == map[]
    ensures Run(c, ops).0.items == map[]
    ensures forall j :: 0 <= j < |ops| ==> Run(c, ops).1[j] == ZeroCapacityReply(ops[j])
    decreases |ops|
  {
    if ops != [] {
      var c1 := Step(c, ops[0]).0;
      assert c1.items == map[] && Step(c, ops[0]).1 == ZeroCapacityReply(ops[0]);
      ZeroCapacityAbsorbs(c1, ops[1..]);
      forall j | 0 < j < |ops| ensures Run(c, ops).1[j] == ZeroCapacityReply(ops[j]) {
        assert ops[1..][j - 1] == ops[j];
      }
    }
  }
}
