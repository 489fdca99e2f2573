/**
 * The LRU cache of hw04_lru_cache/cache.go with `MoveToFront` corrected.
 *
 * The `MoveToFront` of hw04_lru_cache/list.go removes the node and pushes a
 * NEW node at the front, so the index keeps pointing at the detached node
 * (see `StaleHandle`). The evident intent, as in Go's `container/list`, is to
 * relink the SAME node at the front. With that single change the cache keeps
 * a coherent state: the index and the queue hold the same keys, one node per
 * key, and never more than `capacity` of them; `Get` and `Set` move the key
 * they touch to the front of the recency order, and a full `Set` evicts the
 * least recently used key.
 */
module FixedCache {
  import opened Wrappers
  import opened ListModel
  import opened CacheModel
  import StaleHandle

  // ---------------------------------------------------------------------------
  // The corrected MoveToFront
  // ---------------------------------------------------------------------------

  /** Links the existing node `i` in before the front of `m`, making it the new front. */
  function LinkFront<T>(m: ListState<T>, i: Handle): (r: ListState<T>)
    requires WellFormed(m) && i < |m.nodes|
    ensures WellFormed(r) && |r.nodes| == |m.nodes| && r.len == m.len + 1
    ensures r.front == At(i) && r.back.At?
    ensures m.front != At(i) ==> r.nodes[i] == ListItem(m.nodes[i].value, m.front, Nil)
    ensures m.front.At? && m.front != At(i) ==>
              r.nodes[m.front.handle] == m.nodes[m.front.handle].(prev := At(i))
    ensures forall j :: 0 <= j < |m.nodes| ==> r.nodes[j].value == m.nodes[j].value
    ensures forall j :: 0 <= j < |m.nodes| && j != i && At(j) != m.front ==> r.nodes[j] == m.nodes[j]
  {
    var nodes := m.nodes[i := ListItem(m.nodes[i].value, m.front, Nil)];
    var back := if m.back.At? then m.back else At(i);
    if m.front.At? then ListState(SetPrev(nodes, m.front.handle, At(i)), At(i), back, m.len + 1)
    else ListState(nodes, At(i), back, m.len + 1)
  }

  /** `MoveToFront(i)` as intended: nothing when `i` is the front, otherwise unlink `i` and link it in at the front. */
  function Relink<T>(l: ListState<T>, i: Handle): (r: ListState<T>)
    requires WellFormed(l) && i < |l.nodes|
    ensures WellFormed(r) && |r.nodes| == |l.nodes| && r.len == l.len
    ensures r.front == At(i) && (l.front == At(i) ==> r == l)
    ensures l.front != At(i) ==> r.back.At?
    ensures forall j :: 0 <= j < |l.nodes| ==> r.nodes[j].value == l.nodes[j].value
  {
    if l.front == At(i) then l else LinkFront(Remove(l, i), i)
  }

  /** Linking a node that is not on a proper list in at the front gives a proper list with it in front. */
  lemma {:induction false} LinkFrontKeepsList<T>(m: ListState<T>, rest: seq<Handle>, i: Handle)
    requires WellFormed(m) && IsList(m, rest) && i < |m.nodes| && i !in rest
    ensures IsList(LinkFront(m, i), [i] + rest)
    ensures Values(LinkFront(m, i), [i] + rest) == [m.nodes[i].value] + Values(m, rest)
  {
    var r := LinkFront(m, i);
    var hs := [i] + rest;
    DistinctCons(i, rest);
    forall k | 0 <= k < |rest| - 1
      ensures r.nodes[rest[k]].next == At(rest[k + 1]) && r.nodes[rest[k + 1]].prev == At(rest[k])
    {
      assert At(rest[k + 1]) != m.front;
    }
    forall k | 0 <= k < |hs| - 1
      ensures r.nodes[hs[k]].next == At(hs[k + 1]) && r.nodes[hs[k + 1]].prev == At(hs[k])
    {
      if k > 0 { assert hs[k] == rest[k - 1] && hs[k + 1] == rest[k]; }
    }
    if rest != [] {
      assert r.nodes[rest[|rest| - 1]].next == Nil by {
        if |rest| > 1 { assert At(rest[|rest| - 1]) != m.front; }
      }
    }
    assert IsList(r, hs);
    LinkFrontValues(m, rest, i);
  }

  lemma {:induction false} LinkFrontValues<T>(m: ListState<T>, rest: seq<Handle>, i: Handle)
    requires WellFormed(m) && i < |m.nodes| && forall k :: 0 <= k < |rest| ==> rest[k] < |m.nodes|
    ensures Values(LinkFront(m, i), [i] + rest) == [m.nodes[i].value] + Values(m, rest)
  {
    var hs := [i] + rest;
    var r := LinkFront(m, i);
    var a := Values(r, hs);
    var b := [m.nodes[i].value] + Values(m, rest);
    forall j | 0 <= j < |a|
      ensures a[j] == b[j]
    {
      assert a[j] == r.nodes[hs[j]].value == m.nodes[hs[j]].value;
      if j > 0 {
        assert hs[j] == rest[j - 1];
      }
    }
  }

  /** Relinking a member other than the front moves that very node to the front. */
  lemma {:induction false} RelinkInner<T>(l: ListState<T>, hs: seq<Handle>, k: nat)
    requires WellFormed(l) && IsList(l, hs) && 0 < k < |hs|
    ensures IsList(Relink(l, hs[k]), [hs[k]] + Without(hs, k))
    ensures Values(Relink(l, hs[k]), [hs[k]] + Without(hs, k)) == [l.nodes[hs[k]].value] + Without(Values(l, hs), k)
  {
    var i := hs[k];
    var m := Remove(l, i);
    assert Relink(l, i) == LinkFront(m, i) by { assert l.front != At(i); }
    assert m.nodes[i].value == l.nodes[i].value;
    RemoveKeepsList(l, hs, k);
    DistinctWithout(hs, k);
    LinkFrontKeepsList(m, Without(hs, k), i);
  }

  /**
   * The corrected `MoveToFront` of the member `hs[k]`: the same node is now
   * the front, the others follow in their old order, and no node is left
   * detached.
   */
  lemma {:induction false} RelinkKeepsList<T>(l: ListState<T>, hs: seq<Handle>, k: nat)
    requires WellFormed(l) && IsList(l, hs) && k < |hs|
    ensures IsList(Relink(l, hs[k]), [hs[k]] + Without(hs, k))
    ensures Values(Relink(l, hs[k]), [hs[k]] + Without(hs, k)) == [l.nodes[hs[k]].value] + Without(Values(l, hs), k)
  {
    if k == 0 {
      assert Relink(l, hs[0]) == l;
      FirstThenRest(hs);
      FirstThenRest(Values(l, hs));
    } else {
      RelinkInner(l, hs, k);
    }
  }

  lemma {:induction false} FirstThenRest<X>(s: seq<X>)
    requires s != []
    ensures [s[0]] + Without(s, 0) == s
  {
    assert Without(s, 0) == s[1..];
  }

  /** Moving a member to the front keeps the set of members. */
  lemma {:induction false} SameMembers(hs: seq<Handle>, k: nat)
    requires k < |hs|
    ensures forall h :: h in hs <==> h in [hs[k]] + Without(hs, k)
  {
    assert hs == hs[..k] + [hs[k]] + hs[k + 1..];
  }

  // ---------------------------------------------------------------------------
  // The corrected cache
  // ---------------------------------------------------------------------------

  /** The update path of `Set`, with the node relinked rather than replaced. */
  function UpdateFixed<V>(c: CacheState<V>, key: Key, value: V): (r: CacheState<V>)
    requires Valid(c) && key in c.items
    ensures Valid(r) && r.capacity == c.capacity && r.items == c.items
  {
    var n := c.items[key];
    var e := c.queue.nodes[n].value;
    var c1 := c.(heap := c.heap[e := c.heap[e].(value := value)]);
    RelinkValid(c1, n);
    c1.(queue := Relink(c1.queue, n))
  }

  /** `Set` with the corrected `MoveToFront`; eviction and insertion are those of cache.go. */
  function SetFixed<V>(c: CacheState<V>, key: Key, value: V): (r: (CacheState<V>, bool))
    requires Valid(c)
    ensures Valid(r.0) && r.0.capacity == c.capacity
    ensures r.1 <==> key in c.items
  {
    if key in c.items then
      (UpdateFixed(c, key, value), true)
    else if c.capacity == 0 then
      (c, false)
    else if c.queue.len == c.capacity then
      (Insert(Evict(c), key, value), false)
    else
      (Insert(c, key, value), false)
  }

  /** Relinking a node of a valid cache keeps it valid and keeps every node's `cacheItem`. */
  lemma {:induction false} RelinkValid<V>(c: CacheState<V>, n: Handle)
    requires Valid(c) && n < |c.queue.nodes|
    ensures Valid(c.(queue := Relink(c.queue, n)))
    ensures forall j :: 0 <= j < |c.queue.nodes| ==> Relink(c.queue, n).nodes[j].value == c.queue.nodes[j].value
  {
    var q := Relink(c.queue, n);
    assert |q.nodes| == |c.queue.nodes|;
    assert q.front != Nil && q.back != Nil by {
      if c.queue.front != At(n) {
        assert q.back.At?;
      } else {
        assert q == c.queue;
      }
    }
  }

  /** `Get` with the corrected `MoveToFront`: it answers what the index holds and changes no key's value. */
  function GetFixed<V>(c: CacheState<V>, key: Key): (r: (CacheState<V>, Option<V>))
    requires Valid(c)
    ensures Valid(r.0) && r.0.capacity == c.capacity && r.0.items == c.items
    ensures r.1 == Lookup(c, key) && forall k :: Lookup(r.0, k) == Lookup(c, k)
  {
    if key in c.items then
      var n := c.items[key];
      RelinkValid(c, n);
      (c.(queue := Relink(c.queue, n)), Some(c.heap[c.queue.nodes[n].value].value))
    else
      (c, None)
  }

  function StepFixed<V>(c: CacheState<V>, op: Op<V>): (r: (CacheState<V>, Reply<V>))
    requires Valid(c)
    ensures Valid(r.0) && r.0.capacity == c.capacity
  {
    match op
    case SetOp(k, v) => var (c', b) := SetFixed(c, k, v); (c', SetReply(b))
    case GetOp(k) => var (c', found) := GetFixed(c, k); (c', GetReply(found))
    case ClearOp => (Clear(c), ClearReply)
  }

  function RunFixed<V>(c: CacheState<V>, ops: seq<Op<V>>): (r: (CacheState<V>, seq<Reply<V>>))
    requires Valid(c)
    ensures Valid(r.0) && r.0.capacity == c.capacity && |r.1| == |ops|
    decreases |ops|
  {
    if ops == [] then (c, [])
    else
      var (c1, reply) := StepFixed(c, ops[0]);
      var (c2, replies) := RunFixed(c1, ops[1..]);
      (c2, [reply] + replies)
  }

  // ---------------------------------------------------------------------------
  // Coherence of index and queue
  // ---------------------------------------------------------------------------

  /** The key of the `cacheItem` node `h` points at. */
  function KeyAt<V>(c: CacheState<V>, h: Handle): Key
    requires Linked(c) && h < |c.queue.nodes|
  {
    c.heap[c.queue.nodes[h].value].key
  }

  /** The keys of the nodes `hs`, in that order. */
  function Order<V>(c: CacheState<V>, hs: seq<Handle>): (ks: seq<Key>)
    requires Linked(c) && forall j :: 0 <= j < |hs| ==> hs[j] < |c.queue.nodes|
    ensures |ks| == |hs| && forall j :: 0 <= j < |hs| ==> ks[j] == KeyAt(c, hs[j])
  {
    seq(|hs|, j requires 0 <= j < |hs| => KeyAt(c, hs[j]))
  }

  /** The queue is the proper list `hs`, every node on it is indexed under its key, and every index entry is on it. */
  predicate Indexed<V>(c: CacheState<V>, hs: seq<Handle>) {
    && Linked(c) && IsList(c.queue, hs)
    && (forall j :: 0 <= j < |hs| ==> KeyAt(c, hs[j]) in c.items && c.items[KeyAt(c, hs[j])] == hs[j])
    && (forall k :: k in c.items ==> c.items[k] in hs)
  }

  /** The nodes reached from the front of the queue. */
  function Handles<V>(c: CacheState<V>): seq<Handle>
    requires Linked(c)
  {
    Walk(c.queue, c.queue.front, |c.queue.nodes|)
  }

  /** The state the cache is meant to keep: index and queue agree, within the capacity. */
  predicate Coherent<V>(c: CacheState<V>) {
    && Linked(c) && Indexed(c, Handles(c))
    && c.queue.len <= c.capacity
  }

  lemma {:induction false} IndexedValid<V>(c: CacheState<V>, hs: seq<Handle>)
    requires Indexed(c, hs)
    ensures Valid(c) && Handles(c) == hs
  {
    if c.queue.front == Nil {
      assert hs == [];
      assert c.items.Keys == {};
    }
    LenCountsReachable(c.queue, hs);
  }

  /** The keys from the most recently to the least recently used. */
  function Recency<V>(c: CacheState<V>): (ks: seq<Key>)
    requires Coherent(c)
    ensures |ks| == c.queue.len
    ensures forall k :: k in ks <==> k in c.items
  {
    var hs := Handles(c);
    assert forall k :: k in c.items ==> k in Order(c, hs) by {
      forall k | k in c.items ensures k in Order(c, hs) {
        var j :| 0 <= j < |hs| && hs[j] == c.items[k];
        assert Order(c, hs)[j] == k;
      }
    }
    Order(c, hs)
  }

  function IndexOf<X(==)>(s: seq<X>, x: X): (i: nat)
    requires x in s
    ensures i < |s| && s[i] == x
  {
    if s[0] == x then 0 else 1 + IndexOf(s[1..], x)
  }

  /** The recency order after `key` is used: `key` first, the others in their old order. */
  function Promote(ks: seq<Key>, key: Key): (r: seq<Key>)
    requires key in ks
    ensures |r| == |ks| && r[0] == key
  {
    [key] + Without(ks, IndexOf(ks, key))
  }

  /** Distinct elements: as many as the sequence is long. */
  lemma {:induction false} DistinctCard<X>(s: seq<X>)
    requires forall a, b :: 0 <= a < b < |s| ==> s[a] != s[b]
    ensures |set x | x in s| == |s|
    decreases |s|
  {
    if s != [] {
      var t := s[1..];
      DistinctCard(t);
      assert (set x | x in s) == {s[0]} + (set x | x in t);
      assert s[0] !in t;
    }
  }

  /** In a coherent cache the index, the queue and the recency order have the same size, at most the capacity. */
  lemma {:induction false} CoherentBound<V>(c: CacheState<V>)
    requires Coherent(c)
    ensures |c.items| == c.queue.len == |Recency(c)| <= c.capacity
  {
    var ks := Recency(c);
    RecencyDistinct(c);
    DistinctCard(ks);
    assert c.items.Keys == set x | x in ks;
  }

  // ---------------------------------------------------------------------------
  // Each path of Set and Get keeps the cache coherent
  // ---------------------------------------------------------------------------

  /** The nodes of `c` and `d` point at `cacheItem`s with the same keys. */
  predicate SameKeys<V>(c: CacheState<V>, d: CacheState<V>) {
    && Linked(c) && Linked(d) && |d.queue.nodes| == |c.queue.nodes|
    && forall h :: 0 <= h < |c.queue.nodes| ==> KeyAt(d, h) == KeyAt(c, h)
  }

  /** Rearranging the queue's nodes without changing their keys or the index keeps the index in step. */
  lemma {:induction false} ReorderIndexed<V>(c: CacheState<V>, hs: seq<Handle>, d: CacheState<V>, hs': seq<Handle>)
    requires Indexed(c, hs) && SameKeys(c, d) && d.items == c.items && IsList(d.queue, hs')
    requires forall h :: h in hs <==> h in hs'
    ensures Indexed(d, hs')
  {
    forall j | 0 <= j < |hs'| ensures KeyAt(d, hs'[j]) in d.items && d.items[KeyAt(d, hs'[j])] == hs'[j] {
      assert hs'[j] in hs;
      var i :| 0 <= i < |hs| && hs[i] == hs'[j];
    }
  }

  /** The keys along the rearranged nodes are the old keys rearranged the same way. */
  lemma {:induction false} OrderRotate<V>(c: CacheState<V>, hs: seq<Handle>, d: CacheState<V>, k: nat)
    requires SameKeys(c, d) && k < |hs| && forall j :: 0 <= j < |hs| ==> hs[j] < |c.queue.nodes|
    ensures Order(d, [hs[k]] + Without(hs, k)) == [Order(c, hs)[k]] + Without(Order(c, hs), k)
  {
    var rest := Without(hs, k);
    OrderSameKeys(c, d, [hs[k]] + rest);
    OrderCons(c, hs[k], rest);
    OrderWithout(c, hs, k);
  }

  /** Two states whose nodes carry the same keys give the same order. */
  lemma {:induction false} OrderSameKeys<V>(c: CacheState<V>, d: CacheState<V>, hs: seq<Handle>)
    requires SameKeys(c, d) && forall j :: 0 <= j < |hs| ==> hs[j] < |c.queue.nodes|
    ensures Order(d, hs) == Order(c, hs)
  {
    var a := Order(d, hs);
    var b := Order(c, hs);
    forall j | 0 <= j < |hs| ensures a[j] == b[j] {
      assert a[j] == KeyAt(d, hs[j]);
    }
  }

  lemma {:induction false} OrderCons<V>(c: CacheState<V>, h: Handle, hs: seq<Handle>)
    requires Linked(c) && h < |c.queue.nodes| && forall j :: 0 <= j < |hs| ==> hs[j] < |c.queue.nodes|
    ensures Order(c, [h] + hs) == [KeyAt(c, h)] + Order(c, hs)
  {
    var a := Order(c, [h] + hs);
    var b := [KeyAt(c, h)] + Order(c, hs);
    forall j | 0 <= j < |a| ensures a[j] == b[j] {
      if j > 0 {
        assert ([h] + hs)[j] == hs[j - 1];
      }
    }
  }

  lemma {:induction false} OrderWithout<V>(c: CacheState<V>, hs: seq<Handle>, k: nat)
    requires Linked(c) && k < |hs| && forall j :: 0 <= j < |hs| ==> hs[j] < |c.queue.nodes|
    ensures Order(c, Without(hs, k)) == Without(Order(c, hs), k)
  {
    var a := Order(c, Without(hs, k));
    var b := Without(Order(c, hs), k);
    forall j | 0 <= j < |a| ensures a[j] == b[j] {
      if j < k {
        assert Without(hs, k)[j] == hs[j];
      } else {
        assert Without(hs, k)[j] == hs[j + 1];
      }
    }
  }

  /** Moving the member `hs[k]` to the front and keeping the keys of all `cacheItem`s keeps the index in step. */
  lemma {:induction false} RelinkIndexed<V>(c: CacheState<V>, hs: seq<Handle>, k: nat, d: CacheState<V>)
    requires Indexed(c, hs) && k < |hs|
    requires Linked(d) && d.items == c.items && d.queue == Relink(c.queue, hs[k])
    requires |d.heap| == |c.heap| && forall e :: 0 <= e < |c.heap| ==> d.heap[e].key == c.heap[e].key
    ensures Indexed(d, [hs[k]] + Without(hs, k))
    ensures Order(d, [hs[k]] + Without(hs, k)) == [Order(c, hs)[k]] + Without(Order(c, hs), k)
  {
    assert SameKeys(c, d);
    RelinkKeepsList(c.queue, hs, k);
    SameMembers(hs, k);
    ReorderIndexed(c, hs, d, [hs[k]] + Without(hs, k));
    OrderRotate(c, hs, d, k);
  }

  /** Inserting an absent key puts a new node, indexed under it, in front of the others. */
  lemma {:induction false} InsertIndexed<V>(c: CacheState<V>, hs: seq<Handle>, key: Key, value: V)
    requires Indexed(c, hs) && key !in c.items
    ensures Indexed(Insert(c, key, value), [|c.queue.nodes|] + hs)
    ensures Order(Insert(c, key, value), [|c.queue.nodes|] + hs) == [key] + Order(c, hs)
  {
    var r := Insert(c, key, value);
    var hs' := [|c.queue.nodes|] + hs;
    PushFrontKeepsList(c.queue, hs, |c.heap|);
    InsertKeys(c, key, value);
    InsertKept(c, hs, key, value, hs');
    IndexedIntro(r, hs');
    InsertOrder(c, hs, key, value);
  }

  lemma {:induction false} InsertKept<V>(c: CacheState<V>, hs: seq<Handle>, key: Key, value: V, t: seq<Handle>)
    requires Indexed(c, hs) && key !in c.items && t == [|c.queue.nodes|] + hs
    requires Linked(Insert(c, key, value)) && KeyAt(Insert(c, key, value), |c.queue.nodes|) == key
    requires forall j :: 0 <= j < |c.queue.nodes| ==> KeyAt(Insert(c, key, value), j) == KeyAt(c, j)
    ensures forall j :: 0 <= j < |t| ==>
              KeyAt(Insert(c, key, value), t[j]) in Insert(c, key, value).items
              && Insert(c, key, value).items[KeyAt(Insert(c, key, value), t[j])] == t[j]
    ensures forall k :: k in Insert(c, key, value).items ==> Insert(c, key, value).items[k] in t
  {
    var r := Insert(c, key, value);
    forall j | 0 <= j < |t| ensures KeyAt(r, t[j]) in r.items && r.items[KeyAt(r, t[j])] == t[j] {
      if j > 0 { assert t[j] == hs[j - 1]; }
    }
    forall k | k in r.items ensures r.items[k] in t {
      if k != key { assert c.items[k] in hs; }
    }
  }

  /** The new node holds the new key; every older node keeps its key. */
  lemma {:induction false} InsertKeys<V>(c: CacheState<V>, key: Key, value: V)
    requires Linked(c) && (c.queue.front == Nil <==> c.queue.back == Nil)
    ensures Linked(Insert(c, key, value))
    ensures KeyAt(Insert(c, key, value), |c.queue.nodes|) == key
    ensures forall j :: 0 <= j < |c.queue.nodes| ==> KeyAt(Insert(c, key, value), j) == KeyAt(c, j)
  {
  }

  lemma {:induction false} InsertOrder<V>(c: CacheState<V>, hs: seq<Handle>, key: Key, value: V)
    requires Linked(c) && (c.queue.front == Nil <==> c.queue.back == Nil)
    requires forall j :: 0 <= j < |hs| ==> hs[j] < |c.queue.nodes|
    ensures Order(Insert(c, key, value), [|c.queue.nodes|] + hs) == [key] + Order(c, hs)
  {
    var r := Insert(c, key, value);
    var hs' := [|c.queue.nodes|] + hs;
    InsertKeys(c, key, value);
    var a := Order(r, hs');
    var b := [key] + Order(c, hs);
    forall j | 0 <= j < |a| ensures a[j] == b[j] {
      if j > 0 { assert hs'[j] == hs[j - 1]; }
    }
  }

  /** Dropping the last node and its key from the index keeps the rest in step. */
  lemma {:induction false} DropLastIndexed<V>(c: CacheState<V>, hs: seq<Handle>, e: CacheState<V>)
    requires Indexed(c, hs) && hs != [] && SameKeys(c, e) && IsList(e.queue, hs[..|hs| - 1])
    requires e.items == c.items - {KeyAt(c, hs[|hs| - 1])}
    ensures Indexed(e, hs[..|hs| - 1])
    ensures Order(e, hs[..|hs| - 1]) == Order(c, hs)[..|hs| - 1]
  {
    var t := hs[..|hs| - 1];
    DropLastKept(c, hs, e, t);
    DropLastCovered(c, hs, e);
    IndexedIntro(e, t);
    DropLastOrder(c, hs, e);
  }

  lemma {:induction false} IndexedIntro<V>(c: CacheState<V>, hs: seq<Handle>)
    requires Linked(c) && IsList(c.queue, hs)
    requires forall j :: 0 <= j < |hs| ==> KeyAt(c, hs[j]) in c.items && c.items[KeyAt(c, hs[j])] == hs[j]
    requires forall k :: k in c.items ==> c.items[k] in hs
    ensures Indexed(c, hs)
  {
  }

  lemma {:induction false} DropLastKept<V>(c: CacheState<V>, hs: seq<Handle>, e: CacheState<V>, t: seq<Handle>)
    requires Indexed(c, hs) && hs != [] && SameKeys(c, e) && t == hs[..|hs| - 1]
    requires e.items == c.items - {KeyAt(c, hs[|hs| - 1])}
    ensures forall j :: 0 <= j < |t| ==> KeyAt(e, t[j]) in e.items && e.items[KeyAt(e, t[j])] == t[j]
  {
    var n := |hs| - 1;
    forall j | 0 <= j < |t| ensures KeyAt(e, t[j]) in e.items && e.items[KeyAt(e, t[j])] == t[j] {
      assert t[j] == hs[j] != hs[n];
    }
  }

  lemma {:induction false} DropLastCovered<V>(c: CacheState<V>, hs: seq<Handle>, e: CacheState<V>)
    requires Indexed(c, hs) && hs != []
    requires e.items == c.items - {KeyAt(c, hs[|hs| - 1])}
    ensures forall k :: k in e.items ==> e.items[k] in hs[..|hs| - 1]
  {
    var n := |hs| - 1;
    forall k | k in e.items ensures e.items[k] in hs[..n] {
      assert c.items[k] in hs;
      var i :| 0 <= i < |hs| && hs[i] == c.items[k];
      assert i != n;
      assert hs[..n][i] == hs[i];
    }
  }

  lemma {:induction false} DropLastOrder<V>(c: CacheState<V>, hs: seq<Handle>, e: CacheState<V>)
    requires SameKeys(c, e) && hs != [] && forall j :: 0 <= j < |hs| ==> hs[j] < |c.queue.nodes|
    ensures Order(e, hs[..|hs| - 1]) == Order(c, hs)[..|hs| - 1]
  {
    var n := |hs| - 1;
    var a := Order(e, hs[..n]);
    var b := Order(c, hs)[..n];
    forall j | 0 <= j < n ensures a[j] == b[j] {
      assert hs[..n][j] == hs[j];
    }
  }

  /** Evicting from a full cache drops the last node and the key at the end of the order, and only that key. */
  lemma {:induction false} EvictIndexed<V>(c: CacheState<V>, hs: seq<Handle>)
    requires Valid(c) && Indexed(c, hs) && c.queue.len == c.capacity > 0
    ensures BackKey(c) == Order(c, hs)[|hs| - 1]
    ensures Indexed(Evict(c), hs[..|hs| - 1])
    ensures Order(Evict(c), hs[..|hs| - 1]) == Order(c, hs)[..|hs| - 1]
  {
    var n := |hs| - 1;
    var e := Evict(c);
    assert c.queue.back == At(hs[n]);
    assert e.queue == Remove(c.queue, hs[n]) && e.heap == c.heap;
    assert e.items == c.items - {KeyAt(c, hs[n])};
    RemoveKeepsList(c.queue, hs, n);
    assert Without(hs, n) == hs[..n];
    assert SameKeys(c, e);
    DropLastIndexed(c, hs, e);
  }

  /** Relinking the node of a present key, keys of all `cacheItem`s kept: still coherent, and the key is promoted. */
  lemma {:induction false} RelinkCoherent<V>(c: CacheState<V>, key: Key, d: CacheState<V>)
    requires Coherent(c) && key in c.items
    requires Linked(d) && d.items == c.items && d.capacity == c.capacity
    requires d.queue == Relink(c.queue, c.items[key])
    requires |d.heap| == |c.heap| && forall e :: 0 <= e < |c.heap| ==> d.heap[e].key == c.heap[e].key
    ensures Coherent(d) && Recency(d) == Promote(Recency(c), key)
  {
    var hs := Handles(c);
    var ks := Order(c, hs);
    assert Recency(c) == ks;
    var k := IndexOf(ks, key);
    assert KeyAt(c, hs[k]) == key;
    var hs' := [hs[k]] + Without(hs, k);
    RelinkIndexed(c, hs, k, d);
    IndexedValid(d, hs');
    assert Recency(d) == Order(d, hs');
  }

  /** `Get` on a coherent cache keeps it coherent and promotes a hit. */
  lemma {:induction false} GetFixedPromotes<V>(c: CacheState<V>, key: Key)
    requires Coherent(c)
    ensures var r := GetFixed(c, key).0;
            && Coherent(r)
            && Recency(r) == if key in c.items then Promote(Recency(c), key) else Recency(c)
  {
    if key in c.items {
      RelinkCoherent(c, key, GetFixed(c, key).0);
    }
  }

  /** `Set` of a present key replaces its value, answers true, and changes no other key's value. */
  lemma {:induction false} SetFixedPresentValues<V>(c: CacheState<V>, key: Key, value: V)
    requires Valid(c) && key in c.items
    ensures var (r, existed) := SetFixed(c, key, value);
            && existed
            && r.items == c.items
            && Lookup(r, key) == Some(value)
            && (forall k :: k != key ==> Lookup(r, k) == Lookup(c, k))
  {
    var r := SetFixed(c, key, value).0;
    var e := c.queue.nodes[c.items[key]].value;
    forall k' | k' != key && k' in c.items ensures Lookup(r, k') == Lookup(c, k') {
      assert c.heap[c.queue.nodes[c.items[k']].value].key == k' && c.heap[e].key == key;
    }
  }

  /** `Set` of a present key on a coherent cache keeps it coherent and promotes the key. */
  lemma {:induction false} SetFixedPresent<V>(c: CacheState<V>, key: Key, value: V)
    requires Coherent(c) && key in c.items
    ensures Coherent(SetFixed(c, key, value).0)
    ensures Recency(SetFixed(c, key, value).0) == Promote(Recency(c), key)
  {
    RelinkCoherent(c, key, SetFixed(c, key, value).0);
  }

  /** `Set` of an absent key while there is room: a new most recently used key, nothing evicted. */
  lemma {:induction false} SetFixedRoom<V>(c: CacheState<V>, key: Key, value: V)
    requires Coherent(c) && key !in c.items && c.queue.len < c.capacity
    ensures var (r, existed) := SetFixed(c, key, value);
            && !existed
            && Coherent(r)
            && Recency(r) == [key] + Recency(c)
            && Lookup(r, key) == Some(value)
  {
    var hs := Handles(c);
    var r := SetFixed(c, key, value).0;
    assert r == Insert(c, key, value);
    InsertIndexed(c, hs, key, value);
    IndexedValid(r, [|c.queue.nodes|] + hs);
    assert Recency(r) == Order(r, [|c.queue.nodes|] + hs);
  }

  /** In a coherent cache no key occurs twice in the recency order. */
  lemma {:induction false} RecencyDistinct<V>(c: CacheState<V>)
    requires Coherent(c)
    ensures forall a, b :: 0 <= a < b < |Recency(c)| ==> Recency(c)[a] != Recency(c)[b]
  {
    var hs := Handles(c);
    assert Recency(c) == Order(c, hs);
    forall a, b | 0 <= a < b < |hs| ensures Order(c, hs)[a] != Order(c, hs)[b] {
      assert hs[a] != hs[b];
    }
  }

  /** `Set` of an absent key into a full cache evicts the least recently used key and puts the new one first. */
  lemma {:induction false} SetFixedFull<V>(c: CacheState<V>, key: Key, value: V)
    requires Coherent(c) && key !in c.items && c.queue.len == c.capacity > 0
    ensures var (r, existed) := SetFixed(c, key, value);
            var n := |Recency(c)| - 1;
            && !existed
            && Coherent(r)
            && BackKey(c) == Recency(c)[n]
            && Recency(r) == [key] + Recency(c)[..n]
            && Lookup(r, Recency(c)[n]) == None
            && Lookup(r, key) == Some(value)
  {
    var hs := Handles(c);
    var ks := Recency(c);
    assert ks == Order(c, hs);
    var n := |hs| - 1;
    var e := Evict(c);
    var r := SetFixed(c, key, value).0;
    assert r == Insert(e, key, value);
    EvictIndexed(c, hs);
    InsertIndexed(e, hs[..n], key, value);
    IndexedValid(r, [|e.queue.nodes|] + hs[..n]);
    assert Recency(r) == Order(r, [|e.queue.nodes|] + hs[..n]);
    RecencyDistinct(c);
    assert ks[n] !in ks[..n] by {
      forall a | 0 <= a < n ensures ks[..n][a] != ks[n] { assert ks[..n][a] == ks[a]; }
    }
  }

  /** `Clear` leaves a coherent, empty cache. */
  lemma {:induction false} ClearCoherent<V>(c: CacheState<V>)
    requires Coherent(c)
    ensures Coherent(Clear(c)) && Recency(Clear(c)) == []
  {
    IndexedValid(Clear(c), []);
  }

  /** A new cache is coherent and empty. */
  lemma {:induction false} NewCacheCoherent<V>(capacity: int)
    requires capacity >= 0
    ensures Coherent(NewCache<V>(capacity)) && Recency(NewCache<V>(capacity)) == []
  {
    IndexedValid(NewCache<V>(capacity), []);
  }

  lemma {:induction false} StepFixedCoherent<V>(c: CacheState<V>, op: Op<V>)
    requires Coherent(c)
    ensures Coherent(StepFixed(c, op).0)
  {
    match op
    case SetOp(k, v) =>
      if k in c.items { SetFixedPresent(c, k, v); }
      else if c.capacity == 0 { }
      else if c.queue.len == c.capacity { SetFixedFull(c, k, v); }
      else { SetFixedRoom(c, k, v); }
    case GetOp(k) => GetFixedPromotes(c, k);
    case ClearOp => ClearCoherent(c);
  }

  /** With the corrected `MoveToFront`, no sequence of calls takes the cache past its capacity. */
  lemma {:induction false} RunFixedBounded<V>(c: CacheState<V>, ops: seq<Op<V>>)
    requires Coherent(c)
    ensures Coherent(RunFixed(c, ops).0)
    ensures |RunFixed(c, ops).0.items| == RunFixed(c, ops).0.queue.len <= c.capacity
    decreases |ops|
  {
    if ops != [] {
      StepFixedCoherent(c, ops[0]);
      RunFixedBounded(StepFixed(c, ops[0]).0, ops[1..]);
    } else {
      CoherentBound(c);
    }
  }

  /** The call sequence that takes the original cache to three keys keeps the corrected one within two. */
  lemma {:induction false} FixedTraceBounded()
    ensures |RunFixed(NewCache(2), StaleHandle.Trace()).0.items| <= 2
  {
    NewCacheCoherent<int>(2);
    RunFixedBounded(NewCache<int>(2), StaleHandle.Trace());
  }
}
