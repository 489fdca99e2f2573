/**
 * The `List` of hw04_lru_cache/list.go as an object whose methods rewrite its
 * fields in place. The arena of nodes is the field `nodes`; a method that
 * "writes `x.Prev`" replaces the arena entry of `x`. Each method is proved to
 * leave the object in exactly the state the corresponding function of
 * `ListModel` computes, so the lemmas proved there apply to the object.
 */
module ListClass {
  import opened ListModel

  class List<T> {
    var nodes: seq<ListItem<T>>
    var front: Ptr
    var back: Ptr
    var len: int

    ghost function Model(): ListState<T>
      reads this
    {
      ListState(nodes, front, back, len)
    }

    ghost predicate Valid()
      reads this
    {
      WellFormed(Model())
    }

    /** `NewList`: front = back = nil and len = 0. */
    constructor ()
      ensures Valid() && Model() == NewList()
    {
      nodes := [];
      front := Nil;
      back := Nil;
      len := 0;
    }

    /** `Len`: on a proper list, the number of its nodes. */
    method Len() returns (n: int)
      requires Valid()
      ensures n == len
      ensures forall hs :: IsList(Model(), hs) ==> n == |hs|
    {
      n := len;
    }

    /** `Front`: on a proper list, its first node, or nil when it is empty. */
    method Front() returns (p: Ptr)
      requires Valid()
      ensures p == front && PtrIn(p, |nodes|)
      ensures forall hs :: IsList(Model(), hs) ==> p == (if hs == [] then Nil else At(hs[0]))
    {
      p := front;
    }

    /** `Back`: on a proper list, its last node, or nil when it is empty. */
    method Back() returns (p: Ptr)
      requires Valid()
      ensures p == back && PtrIn(p, |nodes|)
      ensures forall hs :: IsList(Model(), hs) ==> p == (if hs == [] then Nil else At(hs[|hs| - 1]))
    {
      p := back;
    }

    method PushFront(v: T) returns (h: Handle)
      requires Valid()
      modifies this
      ensures Valid()
      ensures (Model(), h) == ListModel.PushFront(old(Model()), v)
    {
      h := |nodes|;
      nodes := nodes + [ListItem(v, front, Nil)];
      if front.At? {
        nodes := nodes[front.handle := nodes[front.handle].(prev := At(h))];
      } else {
        back := At(h);
      }
      front := At(h);
      len := len + 1;
    }

    method PushBack(v: T) returns (h: Handle)
      requires Valid()
      modifies this
      ensures Valid()
      ensures (Model(), h) == ListModel.PushBack(old(Model()), v)
    {
      h := |nodes|;
      nodes := nodes + [ListItem(v, Nil, back)];
      if back.At? {
        nodes := nodes[back.handle := nodes[back.handle].(next := At(h))];
      } else {
        front := At(h);
      }
      back := At(h);
      len := len + 1;
    }

    /** `Remove(i)`: `i` must be a node (Go dereferences it); it need not be on the list. */
    method Remove(i: Handle)
      requires Valid() && i < |nodes|
      modifies this
      ensures Valid()
      ensures Model() == ListModel.Remove(old(Model()), i)
    {
      if nodes[i].prev.At? {
        var p := nodes[i].prev.handle;
        nodes := nodes[p := nodes[p].(next := nodes[i].next)];
      } else {
        front := nodes[i].next;
      }
      if nodes[i].next.At? {
        var n := nodes[i].next.handle;
        nodes := nodes[n := nodes[n].(prev := nodes[i].prev)];
      } else {
        back := nodes[i].prev;
      }
      len := len - 1;
    }

    method MoveToFront(i: Handle)
      requires Valid() && i < |nodes|
      modifies this
      ensures Valid()
      ensures Model() == ListModel.MoveToFront(old(Model()), i)
    {
      if front == At(i) {
        return;
      }
      Remove(i);
      var _ := PushFront(nodes[i].value);
    }
  }
}
