// Model of VectorImpl::sort: the stable insertion sort of libshims/utils/VectorImpl.cpp, run on the
// shared block until the first pair that is out of order and on a private copy from then on.

module VectorSorting {
  import opened Vectors

  // ---------- What a sort is ----------

  /** Proof handle: the laws of a comparator are applied only to pairs that a proof names. */
  predicate Below<T>(cmp: (T, T) -> int, x: T, y: T) { cmp(x, y) <= 0 }

  /** A comparator that is a total preorder. */
  ghost predicate Consistent<T(!new)>(cmp: (T, T) -> int) {
    && (forall x, y {:trigger Below(cmp, x, y)} :: cmp(x, y) > 0 <==> cmp(y, x) < 0)
    && (forall x, y, z {:trigger Below(cmp, x, y), Below(cmp, y, z)} ::
          cmp(x, y) <= 0 && cmp(y, z) <= 0 ==> cmp(x, z) <= 0)
  }

  lemma Chain<T(!new)>(cmp: (T, T) -> int, x: T, y: T, z: T)
    requires Consistent(cmp) && cmp(x, y) <= 0 && cmp(y, z) <= 0
    ensures cmp(x, z) <= 0
  {
    assert Below(cmp, x, y) && Below(cmp, y, z);
  }

  lemma Mirror<T(!new)>(cmp: (T, T) -> int, x: T, y: T)
    requires Consistent(cmp)
    ensures cmp(x, y) > 0 <==> cmp(y, x) < 0
    ensures cmp(x, y) < 0 <==> cmp(y, x) > 0
    ensures cmp(x, x) == 0
  {
    assert Below(cmp, x, y) == (cmp(x, y) <= 0) && Below(cmp, y, x) == (cmp(y, x) <= 0);
    assert Below(cmp, x, x) == (cmp(x, x) <= 0);
  }

  ghost predicate Ordered<T>(cmp: (T, T) -> int, s: seq<T>) {
    forall i, j :: 0 <= i < j < |s| ==> cmp(s[i], s[j]) <= 0
  }

  predicate StepwiseOrdered<T>(cmp: (T, T) -> int, s: seq<T>) {
    forall i :: 0 < i < |s| ==> cmp(s[i - 1], s[i]) <= 0
  }

  /** The items that compare equal to `x`, in their order of occurrence. */
  function Ties<T>(cmp: (T, T) -> int, s: seq<T>, x: T): seq<T> {
    if s == [] then []
    else
      var y := s[|s| - 1];
      Ties(cmp, s[..|s| - 1], x) + if cmp(y, x) == 0 then [y] else []
  }

  /** `t` is a stable sort of `s`: ordered, a permutation, and every class of ties in its old order. */
  ghost predicate StableSort<T(!new)>(cmp: (T, T) -> int, s: seq<T>, t: seq<T>) {
    && Ordered(cmp, t)
    && multiset(t) == multiset(s)
    && forall x :: Ties(cmp, t, x) == Ties(cmp, s, x)
  }

  // ---------- Insertion sort on sequences ----------

  /** Puts `x` after the last item of `p` that is not above it, scanning from the end. */
  function Placed<T>(cmp: (T, T) -> int, p: seq<T>, x: T): seq<T> {
    if p == [] || cmp(p[|p| - 1], x) <= 0 then p + [x]
    else Placed(cmp, p[..|p| - 1], x) + [p[|p| - 1]]
  }

  function InsertionSorted<T>(cmp: (T, T) -> int, s: seq<T>): seq<T> {
    if s == [] then [] else Placed(cmp, InsertionSorted(cmp, s[..|s| - 1]), s[|s| - 1])
  }

  lemma {:induction false} PlacedSplits<T>(cmp: (T, T) -> int, p: seq<T>, x: T) returns (k: nat)
    ensures k <= |p| && Placed(cmp, p, x) == p[..k] + [x] + p[k..]
    ensures k > 0 ==> cmp(p[k - 1], x) <= 0
    ensures forall j :: k <= j < |p| ==> cmp(p[j], x) > 0
  {
    if p == [] || cmp(p[|p| - 1], x) <= 0 {
      k := |p|;
    } else {
      k := PlacedSplits(cmp, p[..|p| - 1], x);
    }
  }

  lemma {:induction false} TiesConcat<T>(cmp: (T, T) -> int, s: seq<T>, t: seq<T>, x: T)
    ensures Ties(cmp, s + t, x) == Ties(cmp, s, x) + Ties(cmp, t, x)
  {
    if t == [] {
      assert s + t == s;
    } else {
      TiesConcat(cmp, s, t[..|t| - 1], x);
      assert (s + t)[..|s + t| - 1] == s + t[..|t| - 1];
    }
  }

  lemma {:induction false} NoTies<T>(cmp: (T, T) -> int, s: seq<T>, x: T)
    requires forall k :: 0 <= k < |s| ==> cmp(s[k], x) != 0
    ensures Ties(cmp, s, x) == []
  {
    if s == [] {
    } else {
      NoTies(cmp, s[..|s| - 1], x);
    }
  }

  lemma TiesSwap<T>(cmp: (T, T) -> int, a: seq<T>, b: seq<T>, x: T, z: T)
    requires Ties(cmp, b, z) == [] || Ties(cmp, [x], z) == []
    ensures Ties(cmp, a + [x] + b, z) == Ties(cmp, a + b + [x], z)
  {
    TiesConcat(cmp, a + [x], b, z);
    TiesConcat(cmp, a, [x], z);
    TiesConcat(cmp, a + b, [x], z);
    TiesConcat(cmp, a, b, z);
  }

  /** Placing an item keeps every class of ties in order: what it overtakes is strictly above it. */
  lemma PlacedKeepsTies<T(!new)>(cmp: (T, T) -> int, p: seq<T>, x: T, z: T)
    requires Consistent(cmp)
    ensures Ties(cmp, Placed(cmp, p, x), z) == Ties(cmp, p + [x], z)
  {
    var k := PlacedSplits(cmp, p, x);
    assert p == p[..k] + p[k..];
    if cmp(x, z) == 0 {
      OvertakenAreNoTies(cmp, p[k..], x, z);
    } else {
      NoTies(cmp, [x], z);
    }
    TiesSwap(cmp, p[..k], p[k..], x, z);
  }

  lemma OvertakenAreNoTies<T(!new)>(cmp: (T, T) -> int, s: seq<T>, x: T, z: T)
    requires Consistent(cmp) && cmp(x, z) == 0
    requires forall k :: 0 <= k < |s| ==> cmp(s[k], x) > 0
    ensures Ties(cmp, s, z) == []
  {
    forall k | 0 <= k < |s| ensures cmp(s[k], z) != 0 {
      if cmp(s[k], z) == 0 {
        Mirror(cmp, x, z);
        Chain(cmp, s[k], z, x);
      }
    }
    NoTies(cmp, s, z);
  }

  lemma PlacedStaysOrdered<T(!new)>(cmp: (T, T) -> int, p: seq<T>, x: T)
    requires Consistent(cmp) && Ordered(cmp, p)
    ensures Ordered(cmp, Placed(cmp, p, x))
  {
    var k := PlacedSplits(cmp, p, x);
    var r := Placed(cmp, p, x);
    forall i, j | 0 <= i < j < |r| ensures cmp(r[i], r[j]) <= 0 {
      if j == k && i < k - 1 {
        Chain(cmp, p[i], p[k - 1], x);
      } else if i == k {
        Mirror(cmp, p[j - 1], x);
      }
    }
  }

  lemma PlacedIsPermutation<T>(cmp: (T, T) -> int, p: seq<T>, x: T)
    ensures multiset(Placed(cmp, p, x)) == multiset(p + [x])
  {
    hide *;
    var k := PlacedSplits(cmp, p, x);
    assert p == p[..k] + p[k..];
  }

  /** Insertion sort is a stable sort. */
  lemma {:induction false} InsertionSortedIsStable<T(!new)>(cmp: (T, T) -> int, s: seq<T>)
    requires Consistent(cmp)
    ensures StableSort(cmp, s, InsertionSorted(cmp, s))
  {
    if s == [] {
    } else {
      var p, x := s[..|s| - 1], s[|s| - 1];
      assert s == p + [x];
      InsertionSortedIsStable(cmp, p);
      var t := InsertionSorted(cmp, p);
      PlacedStaysOrdered(cmp, t, x);
      PlacedIsPermutation(cmp, t, x);
      forall z ensures Ties(cmp, Placed(cmp, t, x), z) == Ties(cmp, s, z) {
        PlacedKeepsTies(cmp, t, x, z);
        TiesConcat(cmp, t, [x], z);
        TiesConcat(cmp, p, [x], z);
      }
    }
  }

  /** There is only one stable sort, so the algorithm is determined by its specification. */
  lemma {:induction false} StableSortIsUnique<T(!new)>(cmp: (T, T) -> int, t: seq<T>, u: seq<T>)
    requires Consistent(cmp) && Ordered(cmp, t) && Ordered(cmp, u)
    requires forall x :: Ties(cmp, t, x) == Ties(cmp, u, x)
    ensures t == u
  {
    if t == [] || u == [] {
      if t != [] { TiesOfLast(cmp, t); }
      if u != [] { TiesOfLast(cmp, u); }
    } else {
      SameLast(cmp, t, u);
      var n, m := |t| - 1, |u| - 1;
      forall x ensures Ties(cmp, t[..n], x) == Ties(cmp, u[..m], x) {
        assert Ties(cmp, t, x) == Ties(cmp, u, x);
        SameInit(Ties(cmp, t[..n], x), Ties(cmp, u[..m], x), if cmp(t[n], x) == 0 then [t[n]] else []);
      }
      StableSortIsUnique(cmp, t[..n], u[..m]);
    }
  }

  lemma SameInit<T>(a: seq<T>, b: seq<T>, c: seq<T>)
    requires a + c == b + c
    ensures a == b
  {
    assert |a + c| == |b + c| && a == (a + c)[..|a|] && b == (b + c)[..|b|];
  }

  lemma TiesOfLast<T(!new)>(cmp: (T, T) -> int, s: seq<T>)
    requires Consistent(cmp) && s != []
    ensures var y := s[|s| - 1]; Ties(cmp, s, y) != [] && Ties(cmp, s, y)[|Ties(cmp, s, y)| - 1] == y
  {
    var y := s[|s| - 1];
    Mirror(cmp, y, y);
  }

  lemma {:induction false} TiesAreBelowLast<T(!new)>(cmp: (T, T) -> int, s: seq<T>, x: T)
    requires Consistent(cmp) && Ordered(cmp, s) && Ties(cmp, s, x) != []
    ensures cmp(x, s[|s| - 1]) <= 0
  {
    var y := s[|s| - 1];
    Mirror(cmp, x, y);
    if cmp(y, x) != 0 {
      TiesAreBelowLast(cmp, s[..|s| - 1], x);
      Chain(cmp, x, s[|s| - 2], y);
    }
  }

  lemma SameLast<T(!new)>(cmp: (T, T) -> int, t: seq<T>, u: seq<T>)
    requires Consistent(cmp) && Ordered(cmp, t) && Ordered(cmp, u) && t != [] && u != []
    requires forall x :: Ties(cmp, t, x) == Ties(cmp, u, x)
    ensures t[|t| - 1] == u[|u| - 1]
  {
    var y, z := t[|t| - 1], u[|u| - 1];
    TiesOfLast(cmp, t);
    TiesOfLast(cmp, u);
    assert Ties(cmp, u, y) == Ties(cmp, t, y) && Ties(cmp, t, z) == Ties(cmp, u, z);
    TiesAreBelowLast(cmp, u, y);
    TiesAreBelowLast(cmp, t, z);
    Mirror(cmp, y, z);
  }

  lemma {:induction false} SortedStaysPut<T>(cmp: (T, T) -> int, s: seq<T>)
    requires StepwiseOrdered(cmp, s)
    ensures InsertionSorted(cmp, s) == s
  {
    if s == [] {
    } else {
      SortedStaysPut(cmp, s[..|s| - 1]);
    }
  }

  // ---------- The algorithm ----------

  lemma {:induction false} PlacedAt<T>(cmp: (T, T) -> int, p: seq<T>, x: T, k: nat)
    requires k <= |p| && (k > 0 ==> cmp(p[k - 1], x) <= 0)
    requires forall j :: k <= j < |p| ==> cmp(p[j], x) > 0
    ensures Placed(cmp, p, x) == p[..k] + [x] + p[k..]
  {
    if k < |p| {
      var q := p[..|p| - 1];
      PlacedAt(cmp, q, x, k);
      assert p[..k] == q[..k] && p[k..] == q[k..] + [p[|p| - 1]];
    } else {
      assert p[..k] == p;
    }
  }

  lemma ShiftedIs<T>(b: seq<T>, was: seq<T>, i: nat, next: nat, x: T)
    requires next <= i < |b| == |was| && b[next] == x
    requires forall k :: 0 <= k < next ==> b[k] == was[k]
    requires forall k :: next < k <= i ==> b[k] == was[k - 1]
    ensures b[..i + 1] == was[..i][..next] + [x] + was[..i][next..]
  {
  }

  /** The inner do-while loop: lifts item `i` out and shifts everything above it one position up. */
  method ShiftInto<T>(a: array<T>, i: nat, cmp: (T, T) -> int)
    requires 0 < i < a.Length && cmp(a[i - 1], a[i]) > 0
    modifies a
    ensures a[..i + 1] == Placed(cmp, old(a[..i]), old(a[i]))
    ensures a[i + 1..] == old(a[i + 1..])
  {
    hide Placed;
    ghost var was := a[..];
    var temp := a[i];
    var next := i;
    var again := true;
    while again
      invariant 0 <= next <= i
      invariant if again then next > 0 && cmp(was[next - 1], temp) > 0
                else next == 0 || cmp(was[next - 1], temp) <= 0
      invariant forall k :: next <= k < i ==> cmp(was[k], temp) > 0
      invariant forall k :: 0 <= k < next ==> a[k] == was[k]
      invariant forall k :: next < k <= i ==> a[k] == was[k - 1]
      invariant forall k :: i < k < a.Length ==> a[k] == was[k]
      decreases next, again
    {
      a[next] := a[next - 1];
      next := next - 1;
      again := next > 0 && cmp(a[next - 1], temp) > 0;
    }
    a[next] := temp;
    PlacedAt(cmp, was[..i], temp, next);
    ShiftedIs(a[..], was, i, next, temp);
    assert a[..][..i + 1] == a[..i + 1];
  }

  /** One round of the outer loop: item `i` joins the ordered items before it. */
  method PlaceNext<T>(a: array<T>, i: nat, cmp: (T, T) -> int)
    requires 0 < i < a.Length
    modifies a
    ensures a[..i + 1] == Placed(cmp, old(a[..i]), old(a[i]))
    ensures forall k :: i < k < a.Length ==> a[k] == old(a[k])
  {
    ghost var was := a[..];
    if cmp(a[i - 1], a[i]) > 0 {
      ShiftInto(a, i, cmp);
      assert forall k :: i < k < a.Length ==> a[k] == a[i + 1..][k - i - 1] == was[i + 1..][k - i - 1];
    } else {
      assert a[..i + 1] == a[..i] + [a[i]];
    }
  }

  /** The outer loop from the first disordered item on. */
  method SortFrom<T>(a: array<T>, start: nat, n: nat, cmp: (T, T) -> int)
    requires 0 < start <= n <= a.Length && StepwiseOrdered(cmp, a[..start])
    modifies a
    ensures a[..n] == InsertionSorted(cmp, old(a[..n]))
  {
    ghost var was := a[..];
    SortedStaysPut(cmp, was[..start]);
    var i := start;
    while i < n
      invariant start <= i <= n
      invariant a[..i] == InsertionSorted(cmp, was[..i])
      invariant forall k :: i <= k < a.Length ==> a[k] == was[k]
    {
      OneMorePlaced(cmp, was, i);
      PlaceNext(a, i, cmp);
      i := i + 1;
    }
  }

  lemma OneMorePlaced<T>(cmp: (T, T) -> int, s: seq<T>, i: nat)
    requires i < |s|
    ensures InsertionSorted(cmp, s[..i + 1]) == Placed(cmp, InsertionSorted(cmp, s[..i]), s[i])
  {
    assert s[..i + 1][..i] == s[..i];
  }

  /** The index of the first item that is below its predecessor, or at least `n` if there is none. */
  method FirstDisordered<T>(a: array<T>, n: nat, cmp: (T, T) -> int) returns (i: nat)
    requires n <= a.Length
    ensures i > 0 && StepwiseOrdered(cmp, a[..if i < n then i else n])
    ensures i < n ==> cmp(a[i - 1], a[i]) > 0
  {
    i := 1;
    while i < n && cmp(a[i - 1], a[i]) <= 0
      invariant 1 <= i && StepwiseOrdered(cmp, a[..if i < n then i else n])
    {
      i := i + 1;
    }
  }

  datatype SortOutcome = NoError | OutOfMemory | Abort

  /** From the first disordered item on: a private copy, a temporary, then the rest of the outer loop. */
  method SortCopy<T(0)>(v: VectorImpl<T>, i: nat, cmp: (T, T) -> int, w: World<T>, alloc: bool, malloc: bool)
    returns (r: SortOutcome)
    requires w.Valid() && v in w.vectors && v.storage != null
    requires 0 < i < v.count && StepwiseOrdered(cmp, v.Items()[..i])
    modifies v, w, v.Block(), v.PrivateData()
    ensures w.Valid() && w.OthersKept(v)
    ensures v.Items() == if r.NoError? then InsertionSorted(cmp, old(v.Items())) else old(v.Items())
    ensures r == if !alloc && !old(v.Free()) then Abort else if !malloc then OutOfMemory else NoError
    ensures r != Abort ==> v.storage != null && v.storage.sharers == {v}
  {
    hide World.Valid, InsertionSorted;
    v.InWorld(w);
    v.SoleSharer(w);
    ghost var was := v.Items();
    var ok := v.EditArray(w, alloc);
    if ok && malloc {
      assert v.storage.data[..i] == was[..i];
      SortFrom(v.storage.data, i, v.count, cmp);
    }
    v.Isolated(w);
    return if !ok then Abort else if !malloc then OutOfMemory else NoError;
  }

  /** VectorImpl::sort. The scan reads the shared block; the first disordered pair is what makes the
      vector take a private copy and a temporary. */
  method Sort<T(0)>(v: VectorImpl<T>, cmp: (T, T) -> int, w: World<T>, alloc: bool, malloc: bool)
    returns (r: SortOutcome)
    requires w.Valid() && v in w.vectors
    modifies v, w, v.Block(), v.PrivateData()
    ensures w.Valid() && w.OthersKept(v)
    ensures v.Items() == if r.NoError? then InsertionSorted(cmp, old(v.Items())) else old(v.Items())
    ensures r == if old(StepwiseOrdered(cmp, v.Items())) then NoError
                 else if !alloc && !old(v.Free()) then Abort
                 else if !malloc then OutOfMemory
                 else NoError
    ensures old(StepwiseOrdered(cmp, v.Items())) ==> v.storage == old(v.storage) && w.buffers == old(w.buffers)
    ensures !old(StepwiseOrdered(cmp, v.Items())) && r != Abort ==>
      v.storage != null && v.storage.sharers == {v}
  {
    hide World.Valid, InsertionSorted;
    v.InWorld(w);
    ghost var was := v.Items();
    if v.count <= 1 {
      SortedStaysPut(cmp, was);
      return NoError;
    }
    var i := FirstDisordered(v.storage.data, v.count, cmp);
    if i >= v.count {
      SortedStaysPut(cmp, was);
      return NoError;
    }
    r := SortCopy(v, i, cmp, w, alloc, malloc);
  }
}
