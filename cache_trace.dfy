/**
 * What the stale handle left behind by `MoveToFront` does to the cache.
 *
 * `MoveToFront` (list.go lines 81-82) does not relink the node it is given: it
 * removes it and pushes a NEW node carrying the same `cacheItem`. The index
 * entry (cache.go lines 33 and 58) keeps the old node, which is off the list
 * but still has its old `Prev`/`Next`, so the next `Remove` of it relinks
 * through stale pointers and decrements `len` for a node that was not there.
 * The lemmas run one concrete sequence of calls through the model and show
 * the intended invariants failing.
 */
module StaleHandle {
  import opened Wrappers
  import opened ListModel
  import opened CacheModel

  /** Capacity 2: Set A, Set B, Get A, Get A, Set C, Set D, Set E. */
  function Trace(): seq<Op<int>> {
    [SetOp("A", 1), SetOp("B", 2), GetOp("A"), GetOp("A"), SetOp("C", 3), SetOp("D", 4), SetOp("E", 5)]
  }

  /** The intended invariant: `len(items) == queue.Len() <= capacity`. */
  predicate IntendedBound<V>(c: CacheState<V>) {
    |c.items| == c.queue.len <= c.capacity
  }

  /** The nodes reachable from the front of the queue. */
  function Live<V>(c: CacheState<V>): seq<Handle>
    requires Valid(c)
  {
    Walk(c.queue, c.queue.front, |c.queue.nodes|)
  }

  /** A list node holding the `cacheItem` handle `value`. */
  function Node(value: Handle, next: Ptr, prev: Ptr): ListItem<Handle> {
    ListItem(value, next, prev)
  }

  /** The reply to a `Set` of a key that was not present. */
  function SetMiss(): Reply<int> { SetReply(false) }

  /** The reply to a `Get` that finds the value 1. */
  function GetHitOne(): Reply<int> { GetReply(Some(1)) }

  /** The state after Set A, Set B, Get A. */
  function AfterFirstMove(): CacheState<int> {
    CacheState(2,
      ListState([Node(0, Nil, At(1)), Node(1, Nil, At(2)), Node(0, At(1), Nil)], At(2), At(1), 2),
      map["A" := 0, "B" := 1],
      [CacheItem("A", 1), CacheItem("B", 2)])
  }

  /** The state after the second Get A: the queue holds three nodes but `len` says 2. */
  function AfterSecondMove(): CacheState<int> {
    CacheState(2,
      ListState([Node(0, Nil, At(1)), Node(1, Nil, At(2)), Node(0, At(1), At(3)), Node(0, At(2), Nil)], At(3), At(1), 2),
      map["A" := 0, "B" := 1],
      [CacheItem("A", 1), CacheItem("B", 2)])
  }

  /** The state before Set E: the back node still carries A's `cacheItem`, though A was evicted by Set D. */
  function BeforeLastSet(): CacheState<int> {
    CacheState(2,
      ListState([Node(0, Nil, At(1)), Node(1, Nil, At(2)), Node(0, Nil, At(3)), Node(0, Nil, At(4)), Node(2, At(3), At(5)), Node(3, At(4), Nil)],
                At(5), At(3), 2),
      map["C" := 4, "D" := 5],
      [CacheItem("A", 1), CacheItem("B", 2), CacheItem("C", 3), CacheItem("D", 4)])
  }

  /** The final state: three keys indexed in a cache of capacity 2. */
  function Final(): CacheState<int> {
    CacheState(2,
      ListState([Node(0, Nil, At(1)), Node(1, Nil, At(2)), Node(0, Nil, At(3)), Node(0, Nil, At(4)), Node(2, Nil, At(5)), Node(3, At(4), At(6)),
                 Node(4, At(5), Nil)],
                At(6), At(4), 2),
      map["C" := 4, "D" := 5, "E" := 6],
      [CacheItem("A", 1), CacheItem("B", 2), CacheItem("C", 3), CacheItem("D", 4), CacheItem("E", 5)])
  }

  function AfterSetA(): CacheState<int> {
    CacheState(2, ListState([Node(0, Nil, Nil)], At(0), At(0), 1), map["A" := 0], [CacheItem("A", 1)])
  }

  function AfterSetB(): CacheState<int> {
    CacheState(2, ListState([Node(0, Nil, At(1)), Node(1, At(0), Nil)], At(1), At(0), 2),
               map["A" := 0, "B" := 1], [CacheItem("A", 1), CacheItem("B", 2)])
  }

  lemma {:induction false} StepSetA()
    ensures Set(NewCache(2), "A", 1) == (AfterSetA(), false)
  {
    var c0 := NewCache<int>(2);
    assert "A" !in c0.items;
    assert c0.queue.len != c0.capacity;
    var p := PushFront(c0.queue, 0);
    assert p.0.nodes == [Node(0, Nil, Nil)];
    assert p == (ListState([Node(0, Nil, Nil)], At(0), At(0), 1), 0);
    assert Insert(c0, "A", 1) == AfterSetA();
  }

  function AfterSetC(): CacheState<int> {
    CacheState(2,
      ListState([Node(0, Nil, At(1)), Node(1, Nil, At(2)), Node(0, Nil, At(3)), Node(0, At(2), At(4)), Node(2, At(3), Nil)], At(4), At(2), 2),
      map["A" := 0, "C" := 4],
      [CacheItem("A", 1), CacheItem("B", 2), CacheItem("C", 3)])
  }

  lemma {:induction false} StepSetB()
    ensures Valid(AfterSetA())
    ensures Set(AfterSetA(), "B", 2) == (AfterSetB(), false)
  {
    var c := AfterSetA();
    assert "B" !in c.items && c.queue.len != c.capacity;
    var p := PushFront(c.queue, 1);
    assert p.0.nodes == [Node(0, Nil, At(1)), Node(1, At(0), Nil)];
    assert Insert(c, "B", 2) == AfterSetB();
  }

  lemma {:induction false} StepFirstGetA()
    ensures Valid(AfterSetB())
    ensures Get(AfterSetB(), "A") == (AfterFirstMove(), Some(1))
  {
    var c := AfterSetB();
    var removed := Remove(c.queue, 0);
    assert removed == ListState([Node(0, Nil, At(1)), Node(1, Nil, Nil)], At(1), At(1), 1);
    assert PushFront(removed, 0).0 == AfterFirstMove().queue;
  }

  lemma {:induction false} StepSecondGetA()
    ensures Valid(AfterFirstMove())
    ensures Get(AfterFirstMove(), "A") == (AfterSecondMove(), Some(1))
  {
    var c := AfterFirstMove();
    var removed := Remove(c.queue, 0);
    assert removed == ListState([Node(0, Nil, At(1)), Node(1, Nil, At(2)), Node(0, At(1), Nil)], At(2), At(1), 1);
    assert PushFront(removed, 0).0 == AfterSecondMove().queue;
  }

  /** `AfterSecondMove` with its back node (B) removed and B dropped from the index. */
  function AfterSecondMoveEvicted(): CacheState<int> {
    AfterSecondMove().(queue := ListState([Node(0, Nil, At(1)), Node(1, Nil, At(2)), Node(0, Nil, At(3)), Node(0, At(2), Nil)], At(3), At(2), 1),
                       items := map["A" := 0])
  }

  /** `AfterSetC` with its back node (the stale A node) removed and A dropped from the index. */
  function AfterSetCEvicted(): CacheState<int> {
    AfterSetC().(queue := ListState([Node(0, Nil, At(1)), Node(1, Nil, At(2)), Node(0, Nil, At(3)), Node(0, Nil, At(4)), Node(2, At(3), Nil)],
                                    At(4), At(3), 1),
                 items := map["C" := 4])
  }

  /** `BeforeLastSet` with its back node removed and A, which it still carries, dropped from the index. */
  function BeforeLastSetEvicted(): CacheState<int> {
    BeforeLastSet().(queue := ListState([Node(0, Nil, At(1)), Node(1, Nil, At(2)), Node(0, Nil, At(3)), Node(0, Nil, At(4)), Node(2, Nil, At(5)),
                                         Node(3, At(4), Nil)],
                                        At(5), At(4), 1))
  }

  lemma {:induction false} EvictBeforeSetC()
    ensures Valid(AfterSecondMove()) && AfterSecondMove().queue.len == AfterSecondMove().capacity > 0
    ensures Evict(AfterSecondMove()) == AfterSecondMoveEvicted()
  {
    StepSecondGetA();
    var c := AfterSecondMove();
    assert Remove(c.queue, 1) == AfterSecondMoveEvicted().queue;
    assert c.items - {"B"} == map["A" := 0];
  }

  lemma {:induction false} InsertC()
    ensures Valid(AfterSecondMoveEvicted())
    ensures Insert(AfterSecondMoveEvicted(), "C", 3) == AfterSetC()
  {
    EvictBeforeSetC();
    assert PushFront(AfterSecondMoveEvicted().queue, 2).0 == AfterSetC().queue;
  }

  lemma {:induction false} StepSetC()
    ensures Valid(AfterSecondMove())
    ensures Set(AfterSecondMove(), "C", 3) == (AfterSetC(), false)
  {
    EvictBeforeSetC();
    InsertC();
    assert "C" !in AfterSecondMove().items;
  }

  lemma {:induction false} EvictBeforeSetD()
    ensures Valid(AfterSetC()) && AfterSetC().queue.len == AfterSetC().capacity > 0
    ensures Evict(AfterSetC()) == AfterSetCEvicted()
  {
    InsertC();
    var c := AfterSetC();
    assert Remove(c.queue, 2) == AfterSetCEvicted().queue;
    assert c.items - {"A"} == map["C" := 4];
  }

  lemma {:induction false} InsertD()
    ensures Valid(AfterSetCEvicted())
    ensures Insert(AfterSetCEvicted(), "D", 4) == BeforeLastSet()
  {
    EvictBeforeSetD();
    assert PushFront(AfterSetCEvicted().queue, 3).0 == BeforeLastSet().queue;
  }

  lemma {:induction false} StepSetD()
    ensures Valid(AfterSetC())
    ensures Set(AfterSetC(), "D", 4) == (BeforeLastSet(), false)
  {
    EvictBeforeSetD();
    InsertD();
    assert "D" !in AfterSetC().items;
  }

  lemma {:induction false} EvictBeforeSetE()
    ensures Valid(BeforeLastSet()) && BeforeLastSet().queue.len == BeforeLastSet().capacity > 0
    ensures Evict(BeforeLastSet()) == BeforeLastSetEvicted()
  {
    InsertD();
    var c := BeforeLastSet();
    assert Remove(c.queue, 3) == BeforeLastSetEvicted().queue;
    assert c.items - {"A"} == c.items;
  }

  lemma {:induction false} InsertE()
    ensures Valid(BeforeLastSetEvicted())
    ensures Insert(BeforeLastSetEvicted(), "E", 5) == Final()
  {
    EvictBeforeSetE();
    assert PushFront(BeforeLastSetEvicted().queue, 4).0 == Final().queue;
  }

  lemma {:induction false} StepSetE()
    ensures Valid(BeforeLastSet())
    ensures Set(BeforeLastSet(), "E", 5) == (Final(), false)
  {
    EvictBeforeSetE();
    InsertE();
    assert "E" !in BeforeLastSet().items;
  }

  /** The answers to the calls of `Trace`: every `Set` is of a new key, every `Get` hits. */
  function TraceReplies(): seq<Reply<int>> {
    [SetMiss(), SetMiss(), GetHitOne(), GetHitOne(), SetMiss(), SetMiss(), SetMiss()]
  }

  /** A `Set` that takes `c` to `c1`, then the rest of the calls. */
  lemma {:induction false} RunSet<V>(c: CacheState<V>, key: Key, value: V, rest: seq<Op<V>>, c1: CacheState<V>, c2: CacheState<V>,
                                      replies: seq<Reply<V>>)
    requires Valid(c) && Set(c, key, value) == (c1, false)
    requires Valid(c1) && Run(c1, rest) == (c2, replies)
    ensures Run(c, [SetOp(key, value)] + rest) == (c2, [SetReply(false)] + replies)
  {
    assert ([SetOp(key, value)] + rest)[1..] == rest;
  }

  /** A `Get` that takes `c` to `c1` and answers `found`, then the rest of the calls. */
  lemma {:induction false} RunGet<V>(c: CacheState<V>, key: Key, found: Option<V>, rest: seq<Op<V>>, c1: CacheState<V>,
                                      c2: CacheState<V>, replies: seq<Reply<V>>)
    requires Valid(c) && Get(c, key) == (c1, found)
    requires Valid(c1) && Run(c1, rest) == (c2, replies)
    ensures Run(c, [GetOp(key)] + rest) == (c2, [GetReply(found)] + replies)
  {
    assert ([GetOp(key)] + rest)[1..] == rest;
  }

  /** The last calls of `Trace`, from the state before them, one stage at a time. */
  lemma {:induction false} RunFromSetE()
    ensures Run(BeforeLastSet(), [SetOp("E", 5)]) == (Final(), [SetMiss()])
  {
    assert [SetOp("E", 5)] + [] == [SetOp("E", 5)];
    assert [SetMiss()] + [] == [SetMiss()];
    StepSetE();
    RunSet(BeforeLastSet(), "E", 5, [], Final(), Final(), []);
  }

  lemma {:induction false} RunFromSetD()
    ensures Run(AfterSetC(), [SetOp("D", 4), SetOp("E", 5)]) == (Final(), [SetMiss(), SetMiss()])
  {
    assert [SetOp("D", 4)] + [SetOp("E", 5)] == [SetOp("D", 4), SetOp("E", 5)];
    assert [SetMiss()] + [SetMiss()] == [SetMiss(), SetMiss()];
    StepSetD();
    RunFromSetE();
    RunSet(AfterSetC(), "D", 4, [SetOp("E", 5)], BeforeLastSet(), Final(), [SetMiss()]);
  }

  lemma {:induction false} RunFromSetC()
    ensures Run(AfterSecondMove(), [SetOp("C", 3), SetOp("D", 4), SetOp("E", 5)]) == (Final(), [SetMiss(), SetMiss(), SetMiss()])
  {
    assert [SetOp("C", 3)] + [SetOp("D", 4), SetOp("E", 5)] == [SetOp("C", 3), SetOp("D", 4), SetOp("E", 5)];
    assert [SetMiss()] + [SetMiss(), SetMiss()] == [SetMiss(), SetMiss(), SetMiss()];
    StepSetC();
    RunFromSetD();
    RunSet(AfterSecondMove(), "C", 3, [SetOp("D", 4), SetOp("E", 5)], AfterSetC(), Final(), [SetMiss(), SetMiss()]);
  }

  lemma {:induction false} RunFromSecondGet()
    ensures Run(AfterFirstMove(), [GetOp("A"), SetOp("C", 3), SetOp("D", 4), SetOp("E", 5)]) == (Final(), [GetHitOne(), SetMiss(), SetMiss(), SetMiss()])
  {
    assert [GetOp("A")] + [SetOp("C", 3), SetOp("D", 4), SetOp("E", 5)] == [GetOp("A"), SetOp("C", 3), SetOp("D", 4), SetOp("E", 5)];
    assert [GetHitOne()] + [SetMiss(), SetMiss(), SetMiss()] == [GetHitOne(), SetMiss(), SetMiss(), SetMiss()];
    StepSecondGetA();
    RunFromSetC();
    RunGet(AfterFirstMove(), "A", Some(1), [SetOp("C", 3), SetOp("D", 4), SetOp("E", 5)], AfterSecondMove(), Final(),
           [SetMiss(), SetMiss(), SetMiss()]);
  }

  lemma {:induction false} RunFromFirstGet()
    ensures Run(AfterSetB(), [GetOp("A"), GetOp("A"), SetOp("C", 3), SetOp("D", 4), SetOp("E", 5)]) == (Final(), [GetHitOne(), GetHitOne(), SetMiss(), SetMiss(), SetMiss()])
  {
    assert [GetOp("A")] + [GetOp("A"), SetOp("C", 3), SetOp("D", 4), SetOp("E", 5)] == [GetOp("A"), GetOp("A"), SetOp("C", 3), SetOp("D", 4), SetOp("E", 5)];
    assert [GetHitOne()] + [GetHitOne(), SetMiss(), SetMiss(), SetMiss()] == [GetHitOne(), GetHitOne(), SetMiss(), SetMiss(), SetMiss()];
    StepFirstGetA();
    RunFromSecondGet();
    RunGet(AfterSetB(), "A", Some(1), [GetOp("A"), SetOp("C", 3), SetOp("D", 4), SetOp("E", 5)], AfterFirstMove(), Final(), [GetHitOne(), SetMiss(), SetMiss(), SetMiss()]);
  }

  lemma {:induction false} RunFromSetB()
    ensures Run(AfterSetA(), [SetOp("B", 2), GetOp("A"), GetOp("A"), SetOp("C", 3), SetOp("D", 4), SetOp("E", 5)]) == (Final(), [SetMiss(), GetHitOne(), GetHitOne(), SetMiss(), SetMiss(), SetMiss()])
  {
    assert [SetOp("B", 2)] + [GetOp("A"), GetOp("A"), SetOp("C", 3), SetOp("D", 4), SetOp("E", 5)] == [SetOp("B", 2), GetOp("A"), GetOp("A"), SetOp("C", 3), SetOp("D", 4), SetOp("E", 5)];
    assert [SetMiss()] + [GetHitOne(), GetHitOne(), SetMiss(), SetMiss(), SetMiss()] == [SetMiss(), GetHitOne(), GetHitOne(), SetMiss(), SetMiss(), SetMiss()];
    StepSetB();
    RunFromFirstGet();
    RunSet(AfterSetA(), "B", 2, [GetOp("A"), GetOp("A"), SetOp("C", 3), SetOp("D", 4), SetOp("E", 5)], AfterSetB(), Final(), [GetHitOne(), GetHitOne(), SetMiss(), SetMiss(), SetMiss()]);
  }

  /** Running `Trace` from an empty cache of capacity 2 passes through the states above. */
  lemma {:induction false} RunTrace()
    ensures Run(NewCache(2), Trace()) == (Final(), TraceReplies())
  {
    assert [SetOp("A", 1)] + [SetOp("B", 2), GetOp("A"), GetOp("A"), SetOp("C", 3), SetOp("D", 4), SetOp("E", 5)] == Trace();
    assert [SetMiss()] + [SetMiss(), GetHitOne(), GetHitOne(), SetMiss(), SetMiss(), SetMiss()] == TraceReplies();
    StepSetA();
    RunFromSetB();
    RunSet(NewCache(2), "A", 1, [SetOp("B", 2), GetOp("A"), GetOp("A"), SetOp("C", 3), SetOp("D", 4), SetOp("E", 5)], AfterSetA(), Final(), [SetMiss(), GetHitOne(), GetHitOne(), SetMiss(), SetMiss(), SetMiss()]);
  }

  /**
   * After the second `Get A` the queue already holds three nodes while `len`
   * says 2, and the node the index keeps for A is not one of them.
   */
  lemma {:induction false} SecondMoveLeavesStaleHandle()
    ensures Valid(AfterSecondMove())
    ensures Live(AfterSecondMove()) == [3, 2, 1]
    ensures AfterSecondMove().queue.len == 2
    ensures AfterSecondMove().items["A"] !in Live(AfterSecondMove())
  {
    var l := AfterSecondMove().queue;
    assert Walk(l, At(1), 4) == [1];
    assert Walk(l, At(2), 5) == [2, 1];
  }

  /**
   * Before `Set E` the back of the queue carries the `cacheItem` of A, which
   * `Set D` already evicted, while C, the least recently used key that is
   * still indexed, is not at the back.
   */
  lemma {:induction false} EvictionTargetsEvictedKey()
    ensures Valid(BeforeLastSet()) && BeforeLastSet().queue.back != Nil
    ensures BackKey(BeforeLastSet()) == "A"
    ensures "A" !in BeforeLastSet().items && "C" in BeforeLastSet().items
  {
  }

  /** What is wrong with `Final`: three keys indexed, three nodes reachable, `len` 2, and C still served. */
  lemma {:induction false} FinalBreaksBound()
    ensures Valid(Final())
    ensures |Final().items| == 3 > Final().capacity
    ensures !IntendedBound(Final())
    ensures Live(Final()) == [6, 5, 4] && Final().queue.len == 2
    ensures Lookup(Final(), "C") == Some(3)
  {
    FinalWalk();
    assert Final().items.Keys == {"C", "D", "E"};
  }

  lemma {:induction false} FinalWalk()
    ensures Valid(Final()) && Live(Final()) == [6, 5, 4]
  {
    InsertE();
    var l := Final().queue;
    assert Walk(l, At(4), 5) == [4];
    assert Walk(l, At(5), 6) == [5, 4];
  }

  /**
   * The counterexample: after `Trace` the cache of capacity 2 indexes three
   * keys, its queue walks over three nodes while `len` says 2, and C is still
   * served although D and E were set after it.
   */
  lemma {:induction false} CapacityExceeded()
    ensures var c := Run(NewCache(2), Trace()).0;
            && |c.items| == 3 > c.capacity == 2
            && !IntendedBound(c)
            && Live(c) == [6, 5, 4] && c.queue.len == 2
            && Lookup(c, "C") == Some(3)
  {
    FinalBreaksBound();
    RunTrace();
  }
}
