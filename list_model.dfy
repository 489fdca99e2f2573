/**
 * Value-level model of the doubly-linked recency list of hw04_lru_cache/list.go.
 *
 * Every `ListItem` the list ever allocated lives in an arena (`nodes`) and is
 * named by its index, a `Handle`; a Go pointer `*ListItem` becomes a `Ptr`,
 * either `Nil` or `At(handle)`. Nodes are never freed: a node that was unlinked
 * stays in the arena with whatever `Next`/`Prev` it had, exactly like a Go
 * object that is still referenced from elsewhere.
 *
 * The functions below perform the same field writes, in the same order, as
 * the Go methods. `IsList(l, hs)` says that the arena really forms a proper
 * doubly-linked list whose nodes, front to back, are `hs`; the lemmas show
 * which operations keep that shape and what they do to the value sequence.
 */
module ListModel {

  type Handle = nat

  datatype Ptr = Nil | At(handle: Handle)

  /** One `ListItem`: its value and its two links. */
  datatype ListItem<T> = ListItem(value: T, next: Ptr, prev: Ptr)

  /** The `List` struct (front, back, len) together with the arena of all its nodes. */
  datatype ListState<T> = ListState(nodes: seq<ListItem<T>>, front: Ptr, back: Ptr, len: int)

  predicate PtrIn(p: Ptr, n: nat) {
    p.At? ==> p.handle < n
  }

  /** Every pointer held by the list or by one of its nodes names an allocated node. */
  predicate WellFormed<T>(l: ListState<T>) {
    && PtrIn(l.front, |l.nodes|)
    && PtrIn(l.back, |l.nodes|)
    && forall h :: 0 <= h < |l.nodes| ==> PtrIn(l.nodes[h].next, |l.nodes|) && PtrIn(l.nodes[h].prev, |l.nodes|)
  }

  function SetNext<T>(nodes: seq<ListItem<T>>, h: Handle, p: Ptr): seq<ListItem<T>>
    requires h < |nodes|
  {
    nodes[h := nodes[h].(next := p)]
  }

  function SetPrev<T>(nodes: seq<ListItem<T>>, h: Handle, p: Ptr): seq<ListItem<T>>
    requires h < |nodes|
  {
    nodes[h := nodes[h].(prev := p)]
  }

  /** `NewList`: no nodes, front = back = nil, len = 0. */
  function NewList<T>(): (l: ListState<T>)
    ensures WellFormed(l) && IsList(l, [])
  {
    ListState([], Nil, Nil, 0)
  }

  /**
   * `PushFront(v)`: allocates a node holding `v` whose `Next` is the old front,
   * makes it the new front (and the back when the list was empty) and returns it.
   */
  function PushFront<T>(l: ListState<T>, v: T): (r: (ListState<T>, Handle))
    requires WellFormed(l)
    ensures WellFormed(r.0)
    ensures r.1 == |l.nodes| && |r.0.nodes| == |l.nodes| + 1
    ensures r.0.front == At(r.1) && r.0.len == l.len + 1
    ensures r.0.nodes[r.1] == ListItem(v, l.front, Nil)
    ensures l.front == Nil ==> r.0.back == At(r.1)
    ensures l.front != Nil ==> r.0.back == l.back
    ensures forall j :: 0 <= j < |l.nodes| ==> r.0.nodes[j].value == l.nodes[j].value
    ensures forall j :: 0 <= j < |l.nodes| && At(j) != l.front ==> r.0.nodes[j] == l.nodes[j]
    ensures l.front.At? ==> r.0.nodes[l.front.handle] == l.nodes[l.front.handle].(prev := At(r.1))
  {
    var h := |l.nodes|;
    var nodes := l.nodes + [ListItem(v, l.front, Nil)];
    if l.front.At? then
      (ListState(SetPrev(nodes, l.front.handle, At(h)), At(h), l.back, l.len + 1), h)
    else
      (ListState(nodes, At(h), At(h), l.len + 1), h)
  }

  /**
   * `PushBack(v)`: allocates a node holding `v` whose `Prev` is the old back,
   * makes it the new back (and the front when the list was empty) and returns it.
   */
  function PushBack<T>(l: ListState<T>, v: T): (r: (ListState<T>, Handle))
    requires WellFormed(l)
    ensures WellFormed(r.0)
    ensures r.1 == |l.nodes| && |r.0.nodes| == |l.nodes| + 1
    ensures r.0.back == At(r.1) && r.0.len == l.len + 1
    ensures r.0.nodes[r.1] == ListItem(v, Nil, l.back)
    ensures l.back == Nil ==> r.0.front == At(r.1)
    ensures l.back != Nil ==> r.0.front == l.front
    ensures forall j :: 0 <= j < |l.nodes| ==> r.0.nodes[j].value == l.nodes[j].value
    ensures forall j :: 0 <= j < |l.nodes| && At(j) != l.back ==> r.0.nodes[j] == l.nodes[j]
    ensures l.back.At? ==> r.0.nodes[l.back.handle] == l.nodes[l.back.handle].(next := At(r.1))
  {
    var h := |l.nodes|;
    var nodes := l.nodes + [ListItem(v, Nil, l.back)];
    if l.back.At? then
      (ListState(SetNext(nodes, l.back.handle, At(h)), l.front, At(h), l.len + 1), h)
    else
      (ListState(nodes, At(h), At(h), l.len + 1), h)
  }

  /**
   * `Remove(i)`: links `i.Prev` to `i.Next` (or moves front/back when `i` was an
   * endpoint) and decrements len. It trusts `i` blindly: nothing checks that `i`
   * is on the list, and `i`'s own links are left as they were.
   */
  function Remove<T>(l: ListState<T>, i: Handle): (r: ListState<T>)
    requires WellFormed(l) && i < |l.nodes|
    ensures WellFormed(r)
    ensures |r.nodes| == |l.nodes| && r.len == l.len - 1
    ensures r.nodes[i] == l.nodes[i]
    ensures forall j :: 0 <= j < |l.nodes| ==> r.nodes[j].value == l.nodes[j].value
    ensures forall j :: 0 <= j < |l.nodes| && At(j) != l.nodes[i].prev && At(j) != l.nodes[i].next ==>
              r.nodes[j] == l.nodes[j]
    ensures r.front == (if l.nodes[i].prev == Nil then l.nodes[i].next else l.front)
    ensures r.back == (if l.nodes[i].next == Nil then l.nodes[i].prev else l.back)
    ensures l.nodes[i].prev.At? ==> r.nodes[l.nodes[i].prev.handle].next == l.nodes[i].next
    ensures l.nodes[i].next.At? ==> r.nodes[l.nodes[i].next.handle].prev == l.nodes[i].prev
  {
    var it := l.nodes[i];
    var nodes1 := if it.prev.At? then SetNext(l.nodes, it.prev.handle, it.next) else l.nodes;
    var front := if it.prev.At? then l.front else it.next;
    var it1 := nodes1[i];
    var nodes2 := if it1.next.At? then SetPrev(nodes1, it1.next.handle, it1.prev) else nodes1;
    var back := if it1.next.At? then l.back else it1.prev;
    ListState(nodes2, front, back, l.len - 1)
  }

  /**
   * `MoveToFront(i)`: nothing when `i` is the front; otherwise `Remove(i)`
   * followed by `PushFront(i.Value)`, which allocates a NEW node. The node `i`
   * itself is left detached.
   */
  function MoveToFront<T>(l: ListState<T>, i: Handle): (r: ListState<T>)
    requires WellFormed(l) && i < |l.nodes|
    ensures WellFormed(r)
    ensures l.front == At(i) ==> r == l
    ensures l.front != At(i) ==>
              && |r.nodes| == |l.nodes| + 1
              && r.front == At(|l.nodes|)
              && r.nodes[|l.nodes|].value == l.nodes[i].value
              && r.len == l.len
    ensures l.front != Nil && l.back != Nil ==> r.front != Nil && r.back != Nil
    ensures forall j :: 0 <= j < |l.nodes| ==> r.nodes[j].value == l.nodes[j].value
  {
    if l.front == At(i) then l
    else
      var removed := Remove(l, i);
      PushFront(removed, removed.nodes[i].value).0
  }

  /** The list is a proper doubly-linked list whose nodes, front to back, are `hs`. */
  predicate IsList<T>(l: ListState<T>, hs: seq<Handle>) {
    && (forall k :: 0 <= k < |hs| ==> hs[k] < |l.nodes|)
    && (forall j, k :: 0 <= j < k < |hs| ==> hs[j] != hs[k])
    && l.len == |hs|
    && (if hs == [] then l.front == Nil && l.back == Nil
        else
          && l.front == At(hs[0]) && l.back == At(hs[|hs| - 1])
          && l.nodes[hs[0]].prev == Nil && l.nodes[hs[|hs| - 1]].next == Nil)
    && (forall k :: 0 <= k < |hs| - 1 ==> l.nodes[hs[k]].next == At(hs[k + 1]))
    && (forall k :: 0 <= k < |hs| - 1 ==> l.nodes[hs[k + 1]].prev == At(hs[k]))
  }

  /** The values held by the nodes `hs`, in that order. */
  function Values<T>(l: ListState<T>, hs: seq<Handle>): (vs: seq<T>)
    requires forall k :: 0 <= k < |hs| ==> hs[k] < |l.nodes|
    ensures |vs| == |hs|
    ensures forall k :: 0 <= k < |hs| ==> vs[k] == l.nodes[hs[k]].value
  {
    seq(|hs|, k requires 0 <= k < |hs| => l.nodes[hs[k]].value)
  }

  /** `s` without its element at position `k`, the others kept in order. */
  function Without<X>(s: seq<X>, k: nat): (r: seq<X>)
    requires k < |s|
    ensures |r| == |s| - 1
    ensures forall j :: 0 <= j < k ==> r[j] == s[j]
    ensures forall j :: k <= j < |r| ==> r[j] == s[j + 1]
  {
    s[..k] + s[k + 1..]
  }

  /** The nodes met by following `Next` from `p`, for at most `fuel` steps. */
  function Walk<T>(l: ListState<T>, p: Ptr, fuel: nat): seq<Handle>
    requires WellFormed(l) && PtrIn(p, |l.nodes|)
    decreases fuel
  {
    if fuel == 0 || p == Nil then []
    else [p.handle] + Walk(l, l.nodes[p.handle].next, fuel - 1)
  }

  // ---------------------------------------------------------------------------
  // Properties of the operations on a proper list
  // ---------------------------------------------------------------------------

  /** Prepending a handle that is not in `hs` keeps the handles distinct. */
  lemma {:induction false} DistinctCons(h: Handle, hs: seq<Handle>)
    requires forall j, k :: 0 <= j < k < |hs| ==> hs[j] != hs[k]
    requires h !in hs
    ensures forall j, k :: 0 <= j < k < |[h] + hs| ==> ([h] + hs)[j] != ([h] + hs)[k]
  {
    var hs' := [h] + hs;
    forall j, k | 0 <= j < k < |hs'| ensures hs'[j] != hs'[k] {
      if j > 0 { assert hs'[j] == hs[j - 1] && hs'[k] == hs[k - 1]; }
    }
  }

  /** Appending a handle that is not in `hs` keeps the handles distinct. */
  lemma {:induction false} DistinctSnoc(hs: seq<Handle>, h: Handle)
    requires forall j, k :: 0 <= j < k < |hs| ==> hs[j] != hs[k]
    requires h !in hs
    ensures forall j, k :: 0 <= j < k < |hs + [h]| ==> (hs + [h])[j] != (hs + [h])[k]
  {
  }

  lemma {:induction false} PushFrontLinks<T>(l: ListState<T>, hs: seq<Handle>, v: T)
    requires WellFormed(l) && IsList(l, hs)
    ensures var r := PushFront(l, v).0;
            var hs' := [|l.nodes|] + hs;
            && (forall k :: 0 <= k < |hs'| - 1 ==> r.nodes[hs'[k]].next == At(hs'[k + 1]))
            && (forall k :: 0 <= k < |hs'| - 1 ==> r.nodes[hs'[k + 1]].prev == At(hs'[k]))
  {
    var r := PushFront(l, v).0;
    var hs' := [|l.nodes|] + hs;
    forall k | 0 <= k < |hs| - 1
      ensures r.nodes[hs[k]].next == At(hs[k + 1]) && r.nodes[hs[k + 1]].prev == At(hs[k])
    {
      assert At(hs[k + 1]) != l.front;
    }
    forall k | 0 <= k < |hs'| - 1
      ensures r.nodes[hs'[k]].next == At(hs'[k + 1]) && r.nodes[hs'[k + 1]].prev == At(hs'[k])
    {
      if k > 0 { assert hs'[k] == hs[k - 1] && hs'[k + 1] == hs[k]; }
    }
  }

  /** `PushFront` on a proper list gives a proper list with the fresh node in front. */
  lemma {:induction false} PushFrontKeepsList<T>(l: ListState<T>, hs: seq<Handle>, v: T)
    requires WellFormed(l) && IsList(l, hs)
    ensures var r := PushFront(l, v).0;
            var h := |l.nodes|;
            && h !in hs
            && IsList(r, [h] + hs)
            && Values(r, [h] + hs) == [v] + Values(l, hs)
  {
    var r := PushFront(l, v).0;
    var h := |l.nodes|;
    var hs' := [h] + hs;
    assert h !in hs;
    DistinctCons(h, hs);
    PushFrontLinks(l, hs, v);
    if hs != [] {
      assert r.nodes[hs[|hs| - 1]].next == Nil by {
        if |hs| > 1 { assert At(hs[|hs| - 1]) != l.front; }
      }
    }
    assert IsList(r, hs');
    assert Values(r, hs') == [v] + Values(l, hs);
  }

  /** `PushBack` on a proper list gives a proper list with the fresh node at the back. */
  lemma {:induction false} PushBackKeepsList<T>(l: ListState<T>, hs: seq<Handle>, v: T)
    requires WellFormed(l) && IsList(l, hs)
    ensures var r := PushBack(l, v).0;
            var h := |l.nodes|;
            && h !in hs
            && IsList(r, hs + [h])
            && Values(r, hs + [h]) == Values(l, hs) + [v]
  {
    var r := PushBack(l, v).0;
    var h := |l.nodes|;
    var hs' := hs + [h];
    assert h !in hs;
    DistinctSnoc(hs, h);
    PushBackLinks(l, hs, v);
    if hs != [] {
      assert r.nodes[hs[0]].prev == Nil by {
        if |hs| > 1 { assert At(hs[0]) != l.back; }
      }
    }
    assert IsList(r, hs');
    PushBackValues(l, hs, v);
  }

  lemma {:induction false} PushBackLinks<T>(l: ListState<T>, hs: seq<Handle>, v: T)
    requires WellFormed(l) && IsList(l, hs)
    ensures var r := PushBack(l, v).0;
            var hs' := hs + [|l.nodes|];
            && (forall k :: 0 <= k < |hs'| - 1 ==> r.nodes[hs'[k]].next == At(hs'[k + 1]))
            && (forall k :: 0 <= k < |hs'| - 1 ==> r.nodes[hs'[k + 1]].prev == At(hs'[k]))
  {
    var r := PushBack(l, v).0;
    var hs' := hs + [|l.nodes|];
    forall k | 0 <= k < |hs'| - 1
      ensures r.nodes[hs'[k]].next == At(hs'[k + 1]) && r.nodes[hs'[k + 1]].prev == At(hs'[k])
    {
      if k < |hs| - 1 {
        assert At(hs[k]) != l.back;
        assert hs'[k] == hs[k] && hs'[k + 1] == hs[k + 1];
      }
    }
  }

  lemma {:induction false} PushBackValues<T>(l: ListState<T>, hs: seq<Handle>, v: T)
    requires WellFormed(l) && forall k :: 0 <= k < |hs| ==> hs[k] < |l.nodes|
    ensures Values(PushBack(l, v).0, hs + [|l.nodes|]) == Values(l, hs) + [v]
  {
    var a := Values(PushBack(l, v).0, hs + [|l.nodes|]);
    var b := Values(l, hs) + [v];
    forall k | 0 <= k < |a| ensures a[k] == b[k] {
      if k < |hs| { assert (hs + [|l.nodes|])[k] == hs[k]; }
    }
  }

  lemma {:induction false} DistinctWithout(hs: seq<Handle>, k: nat)
    requires forall j, k :: 0 <= j < k < |hs| ==> hs[j] != hs[k]
    requires k < |hs|
    ensures forall a, b :: 0 <= a < b < |Without(hs, k)| ==> Without(hs, k)[a] != Without(hs, k)[b]
    ensures hs[k] !in Without(hs, k)
  {
    var w := Without(hs, k);
    forall a, b | 0 <= a < b < |w| ensures w[a] != w[b] {
      var a' := if a < k then a else a + 1;
      var b' := if b < k then b else b + 1;
      assert w[a] == hs[a'] && w[b] == hs[b'] && a' < b';
    }
    forall a | 0 <= a < |w| ensures w[a] != hs[k] {
      var a' := if a < k then a else a + 1;
      assert w[a] == hs[a'];
    }
  }

  /** Which nodes `Remove` of the member `hs[k]` rewrites: only its two neighbours. */
  lemma {:induction false} RemoveFrame<T>(l: ListState<T>, hs: seq<Handle>, k: nat)
    requires WellFormed(l) && IsList(l, hs) && k < |hs|
    ensures var r := Remove(l, hs[k]);
            && (forall j :: 0 <= j < |hs| && j != k - 1 && j != k + 1 ==> r.nodes[hs[j]] == l.nodes[hs[j]])
            && (k > 0 ==> r.nodes[hs[k - 1]] == l.nodes[hs[k - 1]].(next := l.nodes[hs[k]].next))
            && (k < |hs| - 1 ==> r.nodes[hs[k + 1]] == l.nodes[hs[k + 1]].(prev := l.nodes[hs[k]].prev))
  {
    var i := hs[k];
    assert k > 0 ==> l.nodes[i].prev == At(hs[k - 1]);
    assert k < |hs| - 1 ==> l.nodes[i].next == At(hs[k + 1]);
    assert k > 0 && k < |hs| - 1 ==> hs[k - 1] != hs[k + 1];
  }

  lemma {:induction false} RemoveLinks<T>(l: ListState<T>, hs: seq<Handle>, k: nat)
    requires WellFormed(l) && IsList(l, hs) && k < |hs|
    ensures var r := Remove(l, hs[k]);
            var hs' := Without(hs, k);
            && (forall j :: 0 <= j < |hs'| - 1 ==> r.nodes[hs'[j]].next == At(hs'[j + 1]))
            && (forall j :: 0 <= j < |hs'| - 1 ==> r.nodes[hs'[j + 1]].prev == At(hs'[j]))
  {
    var r := Remove(l, hs[k]);
    var hs' := Without(hs, k);
    RemoveFrame(l, hs, k);
    forall j | 0 <= j < |hs'| - 1
      ensures r.nodes[hs'[j]].next == At(hs'[j + 1]) && r.nodes[hs'[j + 1]].prev == At(hs'[j])
    {
      if j < k - 1 {
        assert hs'[j] == hs[j] && hs'[j + 1] == hs[j + 1];
      } else if j == k - 1 {
        assert hs'[j] == hs[k - 1] && hs'[j + 1] == hs[k + 1];
      } else {
        assert hs'[j] == hs[j + 1] && hs'[j + 1] == hs[j + 2];
      }
    }
  }

  lemma {:induction false} RemoveEnds<T>(l: ListState<T>, hs: seq<Handle>, k: nat)
    requires WellFormed(l) && IsList(l, hs) && k < |hs|
    ensures var r := Remove(l, hs[k]);
            var hs' := Without(hs, k);
            if hs' == [] then r.front == Nil && r.back == Nil
            else
              && r.front == At(hs'[0]) && r.nodes[hs'[0]].prev == Nil
              && r.back == At(hs'[|hs'| - 1]) && r.nodes[hs'[|hs'| - 1]].next == Nil
  {
    var i := hs[k];
    var r := Remove(l, i);
    var hs' := Without(hs, k);
    RemoveFrame(l, hs, k);
    assert k > 0 ==> l.nodes[i].prev == At(hs[k - 1]);
    assert k < |hs| - 1 ==> l.nodes[i].next == At(hs[k + 1]);
    if hs' != [] {
      assert r.front == At(hs'[0]) && r.nodes[hs'[0]].prev == Nil by {
        if k == 0 {
          assert hs'[0] == hs[1] && l.nodes[i].prev == Nil;
        } else {
          assert hs'[0] == hs[0] && l.nodes[i].prev != Nil;
        }
      }
      var n := |hs| - 1;
      assert r.back == At(hs'[|hs'| - 1]) && r.nodes[hs'[|hs'| - 1]].next == Nil by {
        if k == n {
          assert hs'[|hs'| - 1] == hs[n - 1] && l.nodes[i].next == Nil;
          assert r.nodes[hs[n - 1]] == l.nodes[hs[n - 1]].(next := Nil);
        } else {
          assert hs'[|hs'| - 1] == hs[n] && l.nodes[i].next != Nil && n != k + 1 ==> r.nodes[hs[n]] == l.nodes[hs[n]];
        }
      }
    }
  }

  /**
   * `Remove` of a member drops exactly that node, keeps the others in order,
   * decrements len and moves front/back when the node was an endpoint.
   */
  lemma {:induction false} RemoveKeepsList<T>(l: ListState<T>, hs: seq<Handle>, k: nat)
    requires WellFormed(l) && IsList(l, hs) && k < |hs|
    ensures var r := Remove(l, hs[k]);
            && IsList(r, Without(hs, k))
            && Values(r, Without(hs, k)) == Without(Values(l, hs), k)
            && r.nodes[hs[k]] == l.nodes[hs[k]]
  {
    var r := Remove(l, hs[k]);
    var hs' := Without(hs, k);
    DistinctWithout(hs, k);
    RemoveLinks(l, hs, k);
    RemoveEnds(l, hs, k);
    assert IsList(r, hs');
    RemoveValues(l, hs, k);
  }

  lemma {:induction false} RemoveValues<T>(l: ListState<T>, hs: seq<Handle>, k: nat)
    requires WellFormed(l) && k < |hs| && forall j :: 0 <= j < |hs| ==> hs[j] < |l.nodes|
    ensures Values(Remove(l, hs[k]), Without(hs, k)) == Without(Values(l, hs), k)
  {
    var a := Values(Remove(l, hs[k]), Without(hs, k));
    var b := Without(Values(l, hs), k);
    forall j | 0 <= j < |a| ensures a[j] == b[j] {
      if j < k {
        assert Without(hs, k)[j] == hs[j];
      } else {
        assert Without(hs, k)[j] == hs[j + 1];
      }
    }
  }

  /** `MoveToFront` of the front node changes nothing. */
  lemma {:induction false} MoveToFrontOfFront<T>(l: ListState<T>, hs: seq<Handle>)
    requires WellFormed(l) && IsList(l, hs) && hs != []
    ensures MoveToFront(l, hs[0]) == l
  {
  }

  /**
   * `MoveToFront` of any other member: the values become the moved value
   * followed by the others in their old order, and len is unchanged.
   */
  lemma {:induction false} MoveToFrontKeepsList<T>(l: ListState<T>, hs: seq<Handle>, k: nat)
    requires WellFormed(l) && IsList(l, hs) && 0 < k < |hs|
    ensures var r := MoveToFront(l, hs[k]);
            var hs' := [|l.nodes|] + Without(hs, k);
            && IsList(r, hs')
            && Values(r, hs') == [l.nodes[hs[k]].value] + Without(Values(l, hs), k)
            && r.len == l.len
  {
    var i := hs[k];
    var removed := Remove(l, i);
    var rest := Without(hs, k);
    var v := removed.nodes[i].value;
    assert MoveToFront(l, i) == PushFront(removed, v).0 by { assert hs[0] != i; }
    assert IsList(removed, rest) && Values(removed, rest) == Without(Values(l, hs), k) by {
      RemoveKeepsList(l, hs, k);
    }
    assert |removed.nodes| == |l.nodes| && v == l.nodes[i].value;
    PushFrontKeepsList(removed, rest, v);
  }

  /**
   * After `MoveToFront` of a member other than the front, the new front is a
   * fresh node, and the moved node is off the list but keeps its old, now
   * stale, `Next` and `Prev`.
   */
  lemma {:induction false} MoveToFrontDetaches<T>(l: ListState<T>, hs: seq<Handle>, k: nat)
    requires WellFormed(l) && IsList(l, hs) && 0 < k < |hs|
    ensures var r := MoveToFront(l, hs[k]);
            && r.front == At(|l.nodes|)
            && r.front != At(hs[k])
            && hs[k] !in [|l.nodes|] + Without(hs, k)
            && r.nodes[hs[k]] == l.nodes[hs[k]]
  {
    var i := hs[k];
    var removed := Remove(l, i);
    assert hs[0] != i && l.nodes[i].prev == At(hs[k - 1]);
    assert removed.front == At(hs[0]);
    DistinctWithout(hs, k);
  }

  // ---------------------------------------------------------------------------
  // len counts the reachable nodes
  // ---------------------------------------------------------------------------

  function RangeSet(n: nat): (s: set<nat>)
    ensures forall x :: x in s <==> 0 <= x < n
    ensures |s| == n
  {
    if n == 0 then {} else RangeSet(n - 1) + {n - 1}
  }

  /** Distinct handles drawn from `s` are no more than `s` has elements. */
  lemma {:induction false} DistinctFits(hs: seq<Handle>, s: set<Handle>)
    requires forall j, k :: 0 <= j < k < |hs| ==> hs[j] != hs[k]
    requires forall k :: 0 <= k < |hs| ==> hs[k] in s
    ensures |hs| <= |s|
  {
    if hs != [] {
      var tail := hs[1..];
      forall k | 0 <= k < |tail| ensures tail[k] in s - {hs[0]} {
        assert tail[k] == hs[k + 1];
      }
      DistinctFits(tail, s - {hs[0]});
    }
  }

  /** A proper list cannot hold more nodes than the arena has allocated. */
  lemma {:induction false} ListFitsArena<T>(l: ListState<T>, hs: seq<Handle>)
    requires IsList(l, hs)
    ensures |hs| <= |l.nodes|
  {
    DistinctFits(hs, RangeSet(|l.nodes|));
  }

  lemma {:induction false} WalkFrom<T>(l: ListState<T>, hs: seq<Handle>, k: nat, fuel: nat)
    requires WellFormed(l) && IsList(l, hs) && k < |hs| && fuel >= |hs| - k
    ensures Walk(l, At(hs[k]), fuel) == hs[k..]
    decreases |hs| - k
  {
    if k < |hs| - 1 {
      WalkFrom(l, hs, k + 1, fuel - 1);
    }
  }

  /**
   * On a proper list, following `Next` from the front reaches exactly the
   * list's nodes, and so `len` is the number of reachable nodes.
   */
  lemma {:induction false} LenCountsReachable<T>(l: ListState<T>, hs: seq<Handle>)
    requires WellFormed(l) && IsList(l, hs)
    ensures Walk(l, l.front, |l.nodes|) == hs
    ensures l.len == |Walk(l, l.front, |l.nodes|)|
  {
    ListFitsArena(l, hs);
    if hs != [] {
      WalkFrom(l, hs, 0, |l.nodes|);
    }
  }
}
