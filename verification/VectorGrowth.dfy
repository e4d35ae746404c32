// The growth policy of libshims/utils/VectorImpl.cpp makes appending cheap: amortised over any run of
// pushes, at most three items are copied per push.

module VectorGrowth {
  import opened Vectors

  /** Capacity and total number of copied items after `n` successful pushes onto an empty vector. */
  datatype Cost = Cost(capacity: nat, copied: nat)

  function PushCost(n: nat): Cost {
    if n == 0 then Cost(0, 0)
    else
      var c := PushCost(n - 1);
      if c.capacity < n then Cost(GrownCapacity(n), c.copied + n - 1) else c
  }

  /** The copies made so far are paid for twice over by the capacity, and three times by the pushes. */
  lemma {:induction false} AmortisedGrowth(n: nat)
    ensures n <= PushCost(n).capacity
    ensures PushCost(n).copied <= 2 * PushCost(n).capacity
    ensures PushCost(n).copied <= 3 * n
  {
    if n == 0 {
    } else {
      AmortisedGrowth(n - 1);
    }
  }

  lemma OneMore<T>(s: seq<T>, x: T)
    ensures Spliced(s, |s|, Repeat(x, 1)) == s + [x]
  {
    assert Repeat(x, 1) == [x];
  }

  lemma FirstItems<T>(xs: seq<T>, n: nat)
    requires n < |xs|
    ensures xs[..n] + [xs[n]] == xs[..n + 1]
  {
  }

  /** Push number `n + 1`. */
  method Push<T(0)>(v: VectorImpl<T>, x: T, w: World<T>, alloc: bool, ghost n: nat) returns (done: bool)
    requires w.Valid() && v in w.vectors && v.count == n && v.Free() && v.Capacity() == PushCost(n).capacity
    modifies v, w, w.Memory()
    ensures w.Valid() && w.OthersKept(v)
    ensures var m := if done then n + 1 else n;
      && v.count == m && v.Capacity() == PushCost(m).capacity
      && w.copied - PushCost(m).copied == old(w.copied) - PushCost(n).copied
    ensures v.Items() == if done then old(v.Items()) + [x] else old(v.Items())
    ensures done ==> v.Free()
    ensures done || !alloc || GrowOverflows(n, 1, v.Capacity(), v.maxItems)
  {
    hide World.Valid, World.Memory, Max, GrowOverflows, GrownCapacity, Spliced, Repeat;
    OneMore(v.Items(), x);
    v.InWorld(w);
    var r := v.InsertAt(x, v.count, 1, w, alloc);
    done := r.Index?;
    v.InWorld(w);
  }

  /** Pushes the items of `xs` onto an empty vector until one push fails. */
  method PushAll<T(0)>(v: VectorImpl<T>, xs: seq<T>, w: World<T>, alloc: nat -> bool) returns (n: nat)
    requires w.Valid() && v in w.vectors && v.storage == null
    modifies v, w, w.Memory()
    ensures w.Valid() && w.OthersKept(v)
    ensures n <= |xs| && v.Items() == xs[..n] && v.Capacity() == PushCost(n).capacity
    ensures w.copied == old(w.copied) + PushCost(n).copied
    ensures w.copied <= old(w.copied) + 3 * n
    ensures n == |xs| || !alloc(n) || GrowOverflows(n, 1, v.Capacity(), v.maxItems)
  {
    hide GrowOverflows, World.Valid, VectorImpl.Items;
    v.InWorld(w);
    n := 0;
    var done := true;
    while n < |xs| && done
      invariant n <= |xs| && w.Valid() && w.OthersKept(v)
      invariant v.Items() == xs[..n] && v.count == n && (done ==> v.Free())
      invariant v.Capacity() == PushCost(n).capacity && w.copied == old(w.copied) + PushCost(n).copied
    {
      FirstItems(xs, n);
      done := Push(v, xs[n], w, alloc(n), n);
      if !done { break; }
      n := n + 1;
    }
    AmortisedGrowth(n);
  }

  /** Room for three items is asked for, and one item comes. */
  method OneItem<T(0)>(v: VectorImpl<T>, x: T, w: World<T>)
    requires w.Valid() && v in w.vectors && v.storage == null && v.maxItems >= 4
    modifies v, w, w.Memory()
    ensures w.Valid() && w.OthersKept(v) && v.Items() == [x] && v.Capacity() == 3 && v.Free()
  {
    var r := v.SetCapacity(3, w, true);
    OneMore(v.Items(), x);
    r := v.InsertAt(x, 0, 1, w, true);
  }

  /** A removal that makes the block larger: room for three items is asked for, one item comes and goes. */
  method ShrinkEnlarges<T(0)>(v: VectorImpl<T>, x: T, w: World<T>) returns (before: nat, after: nat)
    requires w.Valid() && v in w.vectors && v.storage == null && v.maxItems >= 4
    modifies v, w, w.Memory()
    ensures w.Valid() && w.OthersKept(v) && v.Items() == [] && v.Capacity() == after
    ensures before == 3 && after == 4
  {
    hide World.Valid, GrownCapacity;
    OneItem(v, x, w);
    v.InWorld(w);
    before := v.Capacity();
    var r := v.RemoveItemsAt(0, 1, w, true);
    v.InWorld(w);
    after := v.Capacity();
  }
}
