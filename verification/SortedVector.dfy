// Model of SortedVectorImpl (libshims/utils/VectorImpl.cpp): a vector kept in strict order of its
// comparator, which makes it a set of items with at most one of each class of ties. The methods are proved for
// vectors in any order; what their results mean is then proved for strictly and for weakly ordered ones.

module SortedVectors {
  import opened Options
  import opened Vectors
  import opened VectorSorting

  ghost predicate Strict<T>(cmp: (T, T) -> int, s: seq<T>) {
    forall i, j {:trigger cmp(s[i], s[j])} :: 0 <= i < j < |s| ==> cmp(s[i], s[j]) < 0
  }

  // ---------- What add and remove mean ----------

  /** The first item of `s` that compares equal to `x`. */
  function Lookup<T>(cmp: (T, T) -> int, s: seq<T>, x: T): Option<T> {
    if s == [] then None
    else if cmp(s[0], x) == 0 then Some(s[0])
    else Lookup(cmp, s[1..], x)
  }

  /** `s` with `x` in its place, replacing the item it compares equal to. */
  function Added<T>(cmp: (T, T) -> int, s: seq<T>, x: T): seq<T> {
    if s == [] || cmp(s[0], x) > 0 then [x] + s
    else if cmp(s[0], x) == 0 then [x] + s[1..]
    else [s[0]] + Added(cmp, s[1..], x)
  }

  /** Adding the items of `t` one after the other. */
  function AddedAll<T>(cmp: (T, T) -> int, s: seq<T>, t: seq<T>): seq<T> {
    if t == [] then s else Added(cmp, AddedAll(cmp, s, t[..|t| - 1]), t[|t| - 1])
  }

  lemma StrictIsOrdered<T>(cmp: (T, T) -> int, s: seq<T>)
    requires Strict(cmp, s)
    ensures Ordered(cmp, s)
  {
  }

  /** Where the binary search points: every item before `k` is below `x` and every item from `k` on above. */
  ghost predicate Gap<T>(cmp: (T, T) -> int, s: seq<T>, x: T, k: nat) {
    && k <= |s|
    && (forall i :: 0 <= i < k ==> cmp(s[i], x) < 0)
    && (forall i :: k <= i < |s| ==> cmp(s[i], x) > 0)
  }

  lemma {:induction false} AddedInGap<T>(cmp: (T, T) -> int, s: seq<T>, x: T, k: nat)
    requires Gap(cmp, s, x, k)
    ensures Added(cmp, s, x) == Spliced(s, k, [x])
  {
    if k == 0 {
      assert s[..0] + [x] + s == [x] + s;
    } else {
      AddedInGap(cmp, s[1..], x, k - 1);
      SplicedBehindFirst(s, k, [x]);
    }
  }

  lemma SplicedBehindFirst<T>(s: seq<T>, k: nat, v: seq<T>)
    requires 0 < k <= |s|
    ensures Spliced(s, k, v) == [s[0]] + Spliced(s[1..], k - 1, v)
  {
    assert s[..k] == [s[0]] + s[1..][..k - 1];
  }

  lemma {:induction false} AddedOverTie<T>(cmp: (T, T) -> int, s: seq<T>, x: T, k: nat)
    requires k < |s| && cmp(s[k], x) == 0
    requires forall i :: 0 <= i < k ==> cmp(s[i], x) < 0
    ensures Added(cmp, s, x) == s[k := x]
  {
    if k == 0 {
    } else {
      AddedOverTie(cmp, s[1..], x, k - 1);
    }
  }

  lemma BelowTie<T(!new)>(cmp: (T, T) -> int, a: T, b: T, x: T)
    requires Consistent(cmp) && cmp(a, b) < 0 && cmp(b, x) <= 0
    ensures cmp(a, x) < 0
  {
    Mirror(cmp, a, b);
    Mirror(cmp, a, x);
    if cmp(x, a) <= 0 {
      Chain(cmp, b, x, a);
    }
  }

  lemma AboveTie<T(!new)>(cmp: (T, T) -> int, a: T, b: T, x: T)
    requires Consistent(cmp) && cmp(a, b) < 0 && cmp(a, x) >= 0
    ensures cmp(b, x) > 0
  {
    Mirror(cmp, a, x);
    Mirror(cmp, a, b);
    Mirror(cmp, b, x);
    if cmp(b, x) <= 0 {
      Chain(cmp, b, x, a);
    }
  }

  /** In a strictly ordered vector an item either ties with exactly one item or falls into one gap. */
  lemma {:induction false} Position<T(!new)>(cmp: (T, T) -> int, s: seq<T>, x: T) returns (k: nat)
    requires Consistent(cmp) && Strict(cmp, s)
    ensures k <= |s| && forall i :: 0 <= i < k ==> cmp(s[i], x) < 0
    ensures forall i :: k < i < |s| ==> cmp(s[i], x) > 0
    ensures k < |s| ==> cmp(s[k], x) >= 0
  {
    if s == [] || cmp(s[0], x) >= 0 {
      k := 0;
      forall i | 0 < i < |s| ensures cmp(s[i], x) > 0 { AboveTie(cmp, s[0], s[i], x); }
    } else {
      k := Position(cmp, s[1..], x);
      k := k + 1;
    }
  }

  /** Adding keeps the strict order, whatever the item. */
  lemma AddedStaysStrict<T(!new)>(cmp: (T, T) -> int, s: seq<T>, x: T)
    requires Consistent(cmp) && Strict(cmp, s)
    ensures Strict(cmp, Added(cmp, s, x))
  {
    var k := Position(cmp, s, x);
    forall i | 0 <= i < |s| ensures cmp(s[i], x) < 0 <==> cmp(x, s[i]) > 0 { Mirror(cmp, s[i], x); }
    forall i | 0 <= i < |s| ensures cmp(s[i], x) > 0 <==> cmp(x, s[i]) < 0 { Mirror(cmp, s[i], x); }
    if k < |s| && cmp(s[k], x) == 0 {
      AddedOverTie(cmp, s, x, k);
    } else {
      AddedInGap(cmp, s, x, k);
    }
  }

  /** Adding is a map update: the class of `x` now holds `x`, every other class what it held before. */
  lemma {:induction false} LookupAdded<T(!new)>(cmp: (T, T) -> int, s: seq<T>, x: T, y: T)
    requires Consistent(cmp) && Strict(cmp, s)
    ensures Lookup(cmp, Added(cmp, s, x), y) == if cmp(x, y) == 0 then Some(x) else Lookup(cmp, s, y)
  {
    if s == [] || cmp(s[0], x) > 0 {
    } else if cmp(s[0], x) == 0 {
      if cmp(x, y) != 0 && cmp(s[0], y) == 0 {
        Mirror(cmp, s[0], x);
        Mirror(cmp, s[0], y);
        Chain(cmp, x, s[0], y);
        Chain(cmp, y, s[0], x);
        Mirror(cmp, x, y);
      }
    } else {
      LookupAdded(cmp, s[1..], x, y);
      if cmp(x, y) == 0 && cmp(s[0], y) == 0 {
        BelowTie(cmp, s[0], x, y);
      }
    }
  }

  lemma {:induction false} AddedAllStaysStrict<T(!new)>(cmp: (T, T) -> int, s: seq<T>, t: seq<T>)
    requires Consistent(cmp) && Strict(cmp, s)
    ensures Strict(cmp, AddedAll(cmp, s, t))
  {
    if t == [] {
    } else {
      AddedAllStaysStrict(cmp, s, t[..|t| - 1]);
      AddedStaysStrict(cmp, AddedAll(cmp, s, t[..|t| - 1]), t[|t| - 1]);
    }
  }

  /** Removing the item that ties with `x` empties that class and no other. */
  lemma {:induction false} LookupRemoved<T(!new)>(cmp: (T, T) -> int, s: seq<T>, k: nat, x: T, y: T)
    requires Consistent(cmp) && Strict(cmp, s) && k < |s| && cmp(s[k], x) == 0
    ensures Strict(cmp, Cut(s, k, 1))
    ensures Lookup(cmp, Cut(s, k, 1), y) == if cmp(x, y) == 0 then None else Lookup(cmp, s, y)
  {
    hide Consistent;
    Mirror(cmp, s[k], x);
    if k > 0 {
      LookupRemoved(cmp, s[1..], k - 1, x, y);
      assert Cut(s, k, 1) == [s[0]] + Cut(s[1..], k - 1, 1);
      if cmp(x, y) == 0 {
        BelowTie(cmp, s[0], s[k], x);
        BelowTie(cmp, s[0], x, y);
      }
    } else {
      assert Cut(s, 0, 1) == s[1..];
      SameClass(cmp, s[0], x, y);
      if cmp(x, y) == 0 {
        forall i | 0 <= i < |s| - 1 ensures cmp(s[1..][i], y) > 0 { AboveTie(cmp, s[0], s[i + 1], y); }
        NothingFound(cmp, s[1..], y);
      }
    }
  }

  /** Items that tie tie with the same items. */
  lemma SameClass<T(!new)>(cmp: (T, T) -> int, a: T, x: T, y: T)
    requires Consistent(cmp) && cmp(a, x) == 0
    ensures cmp(a, y) == 0 <==> cmp(x, y) == 0
  {
    Mirror(cmp, a, x);
    Mirror(cmp, x, y);
    Mirror(cmp, a, y);
    if cmp(x, y) == 0 {
      Chain(cmp, a, x, y);
      Chain(cmp, y, x, a);
    }
    if cmp(a, y) == 0 {
      Chain(cmp, x, a, y);
      Chain(cmp, y, a, x);
    }
  }

  lemma {:induction false} NothingFound<T>(cmp: (T, T) -> int, s: seq<T>, y: T)
    requires forall i :: 0 <= i < |s| ==> cmp(s[i], y) != 0
    ensures Lookup(cmp, s, y) == None
  {
    if s == [] {
    } else {
      NothingFound(cmp, s[1..], y);
    }
  }

  // ---------- What the binary search makes of it ----------

  /** The binary search among the items from `l` up to `h`: the index of a tie or -1, and the place it ends at. */
  function Search<T>(cmp: (T, T) -> int, s: seq<T>, x: T, l: nat, h: nat): (r: (int, nat))
    requires l <= h <= |s|
    ensures if r.0 >= 0 then r.0 == r.1 < |s| && cmp(s[r.0], x) == 0 else r.0 == -1 && l <= r.1 <= h
    decreases h - l
  {
    if l == h then (-1, l)
    else
      var mid := l + (h - 1 - l) / 2;
      var c := cmp(s[mid], x);
      if c == 0 then (mid, mid) else if c < 0 then Search(cmp, s, x, mid + 1, h) else Search(cmp, s, x, l, mid)
  }

  lemma SearchStep<T>(cmp: (T, T) -> int, s: seq<T>, x: T, l: nat, h: nat)
    requires l <= h <= |s|
    ensures l == h ==> Search(cmp, s, x, l, h) == (-1, l)
    ensures l < h ==>
      var mid := l + (h - 1 - l) / 2;
      l <= mid < h && Search(cmp, s, x, l, h) ==
        if cmp(s[mid], x) == 0 then (mid, mid)
        else if cmp(s[mid], x) < 0 then Search(cmp, s, x, mid + 1, h) else Search(cmp, s, x, l, mid)
  {
  }

  /** Among nothing but ties the search picks the middle one. */
  lemma MiddleOfTies<T>(cmp: (T, T) -> int, s: seq<T>, x: T)
    requires s != [] && forall i :: 0 <= i < |s| ==> cmp(s[i], x) == 0
    ensures Search(cmp, s, x, 0, |s|) == ((|s| - 1) / 2, (|s| - 1) / 2)
  {
  }

  /** What add makes of a vector. */
  function Inserted<T>(cmp: (T, T) -> int, s: seq<T>, x: T): seq<T> {
    var r := Search(cmp, s, x, 0, |s|);
    if r.0 >= 0 then s[r.0 := x] else Spliced(s, r.1, [x])
  }

  function InsertedAll<T>(cmp: (T, T) -> int, s: seq<T>, t: seq<T>): seq<T> {
    if t == [] then s else Inserted(cmp, InsertedAll(cmp, s, t[..|t| - 1]), t[|t| - 1])
  }

  /** In an ordered vector the search finds a tie if there is one, and otherwise the gap where the item belongs. */
  lemma {:induction false} SearchFinds<T(!new)>(cmp: (T, T) -> int, s: seq<T>, x: T, l: nat, h: nat)
    requires Consistent(cmp) && Ordered(cmp, s) && l <= h <= |s|
    requires forall i :: 0 <= i < l ==> cmp(s[i], x) < 0
    requires forall i :: h <= i < |s| ==> cmp(s[i], x) > 0
    ensures var r := Search(cmp, s, x, l, h); r.0 < 0 ==> Gap(cmp, s, x, r.1)
    decreases h - l
  {
    hide Search;
    SearchStep(cmp, s, x, l, h);
    if l == h {
    } else {
      var mid := l + (h - 1 - l) / 2;
      if cmp(s[mid], x) < 0 {
        forall i | 0 <= i <= mid ensures cmp(s[i], x) < 0 { AllBelow(cmp, s, i, mid, x); }
        SearchFinds(cmp, s, x, mid + 1, h);
      } else if cmp(s[mid], x) > 0 {
        forall i | mid <= i < |s| ensures cmp(s[i], x) > 0 { AllAbove(cmp, s, mid, i, x); }
        SearchFinds(cmp, s, x, l, mid);
      }
    }
  }

  lemma AllBelow<T(!new)>(cmp: (T, T) -> int, s: seq<T>, i: nat, m: nat, x: T)
    requires Consistent(cmp) && Ordered(cmp, s) && i <= m < |s| && cmp(s[m], x) < 0
    ensures cmp(s[i], x) < 0
  {
    if i < m {
      Mirror(cmp, s[i], x);
      Mirror(cmp, s[m], x);
      if cmp(x, s[i]) <= 0 { Chain(cmp, x, s[i], s[m]); }
    }
  }

  lemma AllAbove<T(!new)>(cmp: (T, T) -> int, s: seq<T>, m: nat, i: nat, x: T)
    requires Consistent(cmp) && Ordered(cmp, s) && m <= i < |s| && cmp(s[m], x) > 0
    ensures cmp(s[i], x) > 0
  {
    if m < i && cmp(s[i], x) <= 0 { Chain(cmp, s[m], s[i], x); }
  }

  /** In an ordered vector an item is looked up iff the search finds it. */
  lemma SearchLooksUp<T(!new)>(cmp: (T, T) -> int, s: seq<T>, x: T)
    requires Consistent(cmp) && Ordered(cmp, s)
    ensures Lookup(cmp, s, x).Some? <==> Search(cmp, s, x, 0, |s|).0 >= 0
  {
    SearchFinds(cmp, s, x, 0, |s|);
    var r := Search(cmp, s, x, 0, |s|);
    if r.0 >= 0 {
      SomethingFound(cmp, s, x, r.0);
    } else {
      NothingFound(cmp, s, x);
    }
  }

  lemma {:induction false} SomethingFound<T>(cmp: (T, T) -> int, s: seq<T>, x: T, k: nat)
    requires k < |s| && cmp(s[k], x) == 0
    ensures Lookup(cmp, s, x).Some?
  {
    if k == 0 || cmp(s[0], x) == 0 {
    } else {
      SomethingFound(cmp, s[1..], x, k - 1);
    }
  }

  /** Add on a strictly ordered vector is the map update. */
  lemma InsertedIsAdded<T(!new)>(cmp: (T, T) -> int, s: seq<T>, x: T)
    requires Consistent(cmp) && Strict(cmp, s)
    ensures Inserted(cmp, s, x) == Added(cmp, s, x)
  {
    SearchFinds(cmp, s, x, 0, |s|);
    var r := Search(cmp, s, x, 0, |s|);
    if r.0 >= 0 {
      forall i | 0 <= i < r.0 ensures cmp(s[i], x) < 0 { BelowTie(cmp, s[i], s[r.0], x); }
      AddedOverTie(cmp, s, x, r.0);
    } else {
      AddedInGap(cmp, s, x, r.1);
    }
  }

  lemma {:induction false} InsertedAllIsAddedAll<T(!new)>(cmp: (T, T) -> int, s: seq<T>, t: seq<T>)
    requires Consistent(cmp) && Strict(cmp, s)
    ensures InsertedAll(cmp, s, t) == AddedAll(cmp, s, t)
  {
    if t == [] {
    } else {
      InsertedAllIsAddedAll(cmp, s, t[..|t| - 1]);
      AddedAllStaysStrict(cmp, s, t[..|t| - 1]);
      InsertedIsAdded(cmp, AddedAll(cmp, s, t[..|t| - 1]), t[|t| - 1]);
    }
  }

  /** On a weakly ordered vector add replaces one of the ties, or goes into the gap; the order stays. */
  lemma InsertedStaysOrdered<T(!new)>(cmp: (T, T) -> int, s: seq<T>, x: T)
    requires Consistent(cmp) && Ordered(cmp, s)
    ensures Ordered(cmp, Inserted(cmp, s, x))
    ensures if exists i :: 0 <= i < |s| && cmp(s[i], x) == 0
      then exists k :: 0 <= k < |s| && cmp(s[k], x) == 0 && Inserted(cmp, s, x) == s[k := x]
      else exists k :: Gap(cmp, s, x, k) && Inserted(cmp, s, x) == Spliced(s, k, [x])
  {
    SearchFinds(cmp, s, x, 0, |s|);
    var r := Search(cmp, s, x, 0, |s|);
    if r.0 >= 0 {
      OverTieStaysOrdered(cmp, s, x, r.0);
    } else {
      InGapStaysOrdered(cmp, s, x, r.1);
    }
  }

  lemma OverTieStaysOrdered<T(!new)>(cmp: (T, T) -> int, s: seq<T>, x: T, k: nat)
    requires Consistent(cmp) && Ordered(cmp, s) && k < |s| && cmp(s[k], x) == 0
    ensures Ordered(cmp, s[k := x])
  {
    Mirror(cmp, s[k], x);
    forall i | 0 <= i < k ensures cmp(s[i], x) <= 0 { Chain(cmp, s[i], s[k], x); }
    forall i | k < i < |s| ensures cmp(x, s[i]) <= 0 { Chain(cmp, x, s[k], s[i]); }
  }

  lemma InGapStaysOrdered<T(!new)>(cmp: (T, T) -> int, s: seq<T>, x: T, k: nat)
    requires Consistent(cmp) && Ordered(cmp, s) && Gap(cmp, s, x, k)
    ensures Ordered(cmp, Spliced(s, k, [x]))
  {
    var r := Spliced(s, k, [x]);
    forall i | k <= i < |s| ensures cmp(x, s[i]) <= 0 { Mirror(cmp, s[i], x); }
    forall i, j | 0 <= i < j < |r| ensures cmp(r[i], r[j]) <= 0 {
      var i', j' := if i < k then i else i - 1, if j < k then j else j - 1;
      if i == k { assert r[j] == s[j']; } else if j == k { assert r[i] == s[i]; } else {
        assert r[i] == s[i'] && r[j] == s[j'];
      }
    }
  }

  lemma {:induction false} InsertedAllStaysOrdered<T(!new)>(cmp: (T, T) -> int, s: seq<T>, t: seq<T>)
    requires Consistent(cmp) && Ordered(cmp, s)
    ensures Ordered(cmp, InsertedAll(cmp, s, t))
  {
    if t == [] {
    } else {
      InsertedAllStaysOrdered(cmp, s, t[..|t| - 1]);
      InsertedStaysOrdered(cmp, InsertedAll(cmp, s, t[..|t| - 1]), t[|t| - 1]);
    }
  }

  /** Removal takes one of the ties; the rest stays ordered. */
  lemma CutStaysOrdered<T(!new)>(cmp: (T, T) -> int, s: seq<T>, k: nat)
    requires Ordered(cmp, s) && k < |s|
    ensures Ordered(cmp, Cut(s, k, 1)) && multiset(s) == multiset(Cut(s, k, 1)) + multiset{s[k]}
  {
    var r := Cut(s, k, 1);
    forall i, j | 0 <= i < j < |r| ensures cmp(r[i], r[j]) <= 0 {
      assert r[i] == s[if i < k then i else i + 1] && r[j] == s[if j < k then j else j + 1];
    }
    assert s == s[..k] + [s[k]] + s[k + 1..];
  }

  // ---------- The fast merge ----------

  /** What merge does with a sorted argument: two boundary comparisons, then item by item. */
  function Merged<T>(cmp: (T, T) -> int, s: seq<T>, t: seq<T>): seq<T>
    requires s != []
  {
    if t == [] then s
    else if cmp(t[|t| - 1], s[0]) <= 0 then t + s
    else if cmp(t[0], s[|s| - 1]) >= 0 then s + t
    else InsertedAll(cmp, s, t)
  }

  /** The boundary comparison that selects a fast path finds a tie. */
  predicate BoundaryTie<T>(cmp: (T, T) -> int, s: seq<T>, t: seq<T>)
    requires s != []
  {
    t != [] && (cmp(t[|t| - 1], s[0]) == 0 || (cmp(t[|t| - 1], s[0]) > 0 && cmp(t[0], s[|s| - 1]) == 0))
  }

  lemma StrictGap<T(!new)>(cmp: (T, T) -> int, q: seq<T>, x: T, s: seq<T>)
    requires Consistent(cmp) && Strict(cmp, q + [x] + s)
    ensures Strict(cmp, q + s) && Added(cmp, q + s, x) == q + [x] + s
  {
    var r, qs := q + [x] + s, q + s;
    forall i, j | 0 <= i < j < |qs| ensures cmp(qs[i], qs[j]) < 0 {
      var i', j' := if i < |q| then i else i + 1, if j < |q| then j else j + 1;
      assert qs[i] == r[i'] && qs[j] == r[j'] && cmp(r[i'], r[j']) < 0;
    }
    forall i | 0 <= i < |q| ensures cmp(qs[i], x) < 0 {
      assert qs[i] == r[i] && x == r[|q|] && cmp(r[i], r[|q|]) < 0;
    }
    forall i | |q| <= i < |qs| ensures cmp(qs[i], x) > 0 {
      assert qs[i] == r[i + 1] && x == r[|q|] && cmp(r[|q|], r[i + 1]) < 0;
      Mirror(cmp, x, qs[i]);
    }
    AddedInGap(cmp, qs, x, |q|);
    assert Spliced(qs, |q|, [x]) == r;
  }

  lemma {:induction false} AddedAllInFront<T(!new)>(cmp: (T, T) -> int, s: seq<T>, t: seq<T>)
    requires Consistent(cmp) && Strict(cmp, t + s)
    ensures AddedAll(cmp, s, t) == t + s
  {
    if t == [] {
      assert t + s == s;
    } else {
      var q, x := t[..|t| - 1], t[|t| - 1];
      assert t + s == q + [x] + s;
      StrictGap(cmp, q, x, s);
      AddedAllInFront(cmp, s, q);
    }
  }

  lemma {:induction false} AddedAllBehind<T(!new)>(cmp: (T, T) -> int, s: seq<T>, t: seq<T>)
    requires Consistent(cmp) && Strict(cmp, s + t)
    ensures AddedAll(cmp, s, t) == s + t
  {
    if t == [] {
      assert s + t == s;
    } else {
      var q, x := t[..|t| - 1], t[|t| - 1];
      assert s + t == (s + q) + [x] + [] && (s + q) + [] == s + q;
      StrictGap(cmp, s + q, x, []);
      AddedAllBehind(cmp, s, q);
    }
  }

  lemma {:induction false} AddedAllInTurn<T>(cmp: (T, T) -> int, s: seq<T>, t: seq<T>, u: seq<T>)
    ensures AddedAll(cmp, s, t + u) == AddedAll(cmp, AddedAll(cmp, s, t), u)
  {
    if u == [] {
      assert t + u == t;
    } else {
      AddedAllInTurn(cmp, s, t, u[..|u| - 1]);
      assert (t + u)[..|t + u| - 1] == t + u[..|u| - 1];
    }
  }

  /** Ordering across the boundary of a concatenation. */
  lemma JoinStrict<T(!new)>(cmp: (T, T) -> int, a: seq<T>, b: seq<T>)
    requires Consistent(cmp) && Strict(cmp, a) && Strict(cmp, b) && a != [] && b != []
    requires cmp(a[|a| - 1], b[0]) < 0
    ensures Strict(cmp, a + b)
  {
    forall i, j | 0 <= i < |a| && 0 <= j < |b| ensures cmp(a[i], b[j]) < 0 {
      Mirror(cmp, b[0], b[j]);
      BelowTie(cmp, a[|a| - 1], b[0], b[j]);
      if i < |a| - 1 { BelowTie(cmp, a[i], a[|a| - 1], b[j]); }
    }
  }

  lemma JoinOrdered<T(!new)>(cmp: (T, T) -> int, a: seq<T>, b: seq<T>)
    requires Consistent(cmp) && Strict(cmp, a) && Strict(cmp, b) && a != [] && b != []
    requires cmp(a[|a| - 1], b[0]) == 0
    ensures Ordered(cmp, a + b) && !Strict(cmp, a + b)
  {
    var m := |a| - 1;
    forall i, j | 0 <= i < |a| && 0 <= j < |b| ensures cmp(a[i], b[j]) <= 0 {
      if j > 0 { Chain(cmp, a[m], b[0], b[j]); }
      if i < m { Chain(cmp, a[i], a[m], b[j]); }
    }
    assert (a + b)[m] == a[m] && (a + b)[m + 1] == b[0];
  }

  lemma TieJoins<T(!new)>(cmp: (T, T) -> int, a: seq<T>, b: seq<T>)
    requires Consistent(cmp) && Strict(cmp, a) && Strict(cmp, b) && a != [] && b != []
    requires cmp(a[|a| - 1], b[0]) == 0
    ensures Strict(cmp, a[..|a| - 1] + b)
  {
    var q := a[..|a| - 1];
    if q != [] {
      BelowTie(cmp, q[|q| - 1], a[|a| - 1], b[0]);
      JoinStrict(cmp, q, b);
    } else {
      assert q + b == b;
    }
  }

  /** With a tie at the front the naive merge replaces the receiver's first item. */
  lemma FrontTie<T(!new)>(cmp: (T, T) -> int, s: seq<T>, t: seq<T>)
    requires Consistent(cmp) && Strict(cmp, s) && Strict(cmp, t) && s != [] && t != []
    requires cmp(t[|t| - 1], s[0]) == 0
    ensures AddedAll(cmp, s, t) == t + s[1..]
  {
    var q, x := t[..|t| - 1], t[|t| - 1];
    TieJoins(cmp, t, s);
    AddedAllInFront(cmp, s, q);
    Mirror(cmp, x, s[0]);
    TieAfter(cmp, q, s, x);
    assert q + [x] == t;
  }

  lemma TieAfter<T>(cmp: (T, T) -> int, q: seq<T>, s: seq<T>, x: T)
    requires s != [] && cmp(s[0], x) == 0 && forall i :: 0 <= i < |q| ==> cmp(q[i], x) < 0
    ensures Added(cmp, q + s, x) == q + [x] + s[1..]
  {
    AddedOverTie(cmp, q + s, x, |q|);
    assert (q + s)[|q| := x] == q + [x] + s[1..];
  }

  lemma AddedLast<T(!new)>(cmp: (T, T) -> int, s: seq<T>, x: T)
    requires Consistent(cmp) && Strict(cmp, s) && s != [] && cmp(s[|s| - 1], x) == 0
    ensures AddedAll(cmp, s, [x]) == s[..|s| - 1] + [x]
  {
    var m := |s| - 1;
    forall i | 0 <= i < m ensures cmp(s[i], x) < 0 { BelowTie(cmp, s[i], s[m], x); }
    AddedOverTie(cmp, s, x, m);
    assert [x][..0] == [];
  }

  /** With a tie at the back it replaces the receiver's last item. */
  lemma BackTie<T(!new)>(cmp: (T, T) -> int, s: seq<T>, t: seq<T>)
    requires Consistent(cmp) && Strict(cmp, s) && Strict(cmp, t) && s != [] && t != []
    requires cmp(s[|s| - 1], t[0]) == 0
    ensures AddedAll(cmp, s, t) == s[..|s| - 1] + t
  {
    var p, x, u := s[..|s| - 1], t[0], t[1..];
    AddedAllInTurn(cmp, s, [x], u);
    AddedLast(cmp, s, x);
    TieJoins(cmp, s, t);
    assert t == [x] + u;
    LastInTurn(cmp, p, x, u);
  }

  lemma LastInTurn<T(!new)>(cmp: (T, T) -> int, p: seq<T>, x: T, u: seq<T>)
    requires Consistent(cmp) && Strict(cmp, p + ([x] + u))
    ensures AddedAll(cmp, p + [x], u) == p + ([x] + u)
  {
    assert p + ([x] + u) == p + [x] + u;
    AddedAllBehind(cmp, p + [x], u);
  }

  /** The fast merge equals the item-by-item merge exactly when its boundary comparison is no tie; with a
      tie it keeps both items, so the order is only weak. */
  lemma MergeIsExact<T(!new)>(cmp: (T, T) -> int, s: seq<T>, t: seq<T>)
    requires Consistent(cmp) && Strict(cmp, s) && Strict(cmp, t) && s != []
    ensures Merged(cmp, s, t) == AddedAll(cmp, s, t) <==> !BoundaryTie(cmp, s, t)
    ensures Strict(cmp, Merged(cmp, s, t)) <==> !BoundaryTie(cmp, s, t)
    ensures Ordered(cmp, Merged(cmp, s, t))
  {
    if t == [] {
    } else if cmp(t[|t| - 1], s[0]) < 0 {
      JoinStrict(cmp, t, s);
      AddedAllInFront(cmp, s, t);
    } else if cmp(t[|t| - 1], s[0]) == 0 {
      JoinOrdered(cmp, t, s);
      FrontTie(cmp, s, t);
    } else if cmp(t[0], s[|s| - 1]) > 0 {
      Mirror(cmp, t[0], s[|s| - 1]);
      JoinStrict(cmp, s, t);
      AddedAllBehind(cmp, s, t);
    } else if cmp(t[0], s[|s| - 1]) == 0 {
      Mirror(cmp, t[0], s[|s| - 1]);
      JoinOrdered(cmp, s, t);
      BackTie(cmp, s, t);
    } else {
      InsertedAllIsAddedAll(cmp, s, t);
      AddedAllStaysStrict(cmp, s, t);
    }
  }

  /** Merging weakly ordered vectors keeps the weak order. */
  lemma MergeStaysOrdered<T(!new)>(cmp: (T, T) -> int, s: seq<T>, t: seq<T>)
    requires Consistent(cmp) && Ordered(cmp, s) && Ordered(cmp, t) && s != []
    ensures Ordered(cmp, Merged(cmp, s, t))
  {
    if t == [] {
    } else if cmp(t[|t| - 1], s[0]) <= 0 {
      WeakJoin(cmp, t, s);
    } else if cmp(t[0], s[|s| - 1]) >= 0 {
      Mirror(cmp, t[0], s[|s| - 1]);
      WeakJoin(cmp, s, t);
    } else {
      InsertedAllStaysOrdered(cmp, s, t);
    }
  }

  lemma WeakJoin<T(!new)>(cmp: (T, T) -> int, a: seq<T>, b: seq<T>)
    requires Consistent(cmp) && Ordered(cmp, a) && Ordered(cmp, b) && a != [] && b != []
    requires cmp(a[|a| - 1], b[0]) <= 0
    ensures Ordered(cmp, a + b)
  {
    forall i, j | 0 <= i < |a| && 0 <= j < |b| ensures cmp(a[i], b[j]) <= 0 {
      if i < |a| - 1 { Chain(cmp, a[i], a[|a| - 1], b[0]); }
      if j > 0 { Chain(cmp, a[i], b[0], b[j]); }
    }
  }

  /** Two vectors of one equal number each: the merge keeps both numbers, the fold of add keeps one. */
  lemma TieKeepsBoth(cmp: (int, int) -> int)
    requires forall x, y :: cmp(x, y) == x - y
    ensures Consistent(cmp) && Strict(cmp, [1])
    ensures Merged(cmp, [1], [1]) == [1, 1] && AddedAll(cmp, [1], [1]) == [1]
  {
    assert [1][..0] == [];
    assert AddedAll(cmp, [1], [1]) == Added(cmp, [1], 1);
  }

  // ---------- The methods ----------

  /** _indexOrderOf: the binary search. */
  method IndexOrderOf<T(0)>(v: VectorImpl<T>, x: T, cmp: (T, T) -> int, w: World<T>) returns (err: int, order: nat)
    requires w.Valid() && v in w.vectors
    ensures (err, order) == Search(cmp, v.Items(), x, 0, v.count) && v.count == |v.Items()|
  {
    hide World.Valid, Search;
    v.InWorld(w);
    err := -1;
    var l, h := 0, v.count - 1;
    ghost var s := v.Items();
    while l <= h
      invariant 0 <= l <= h + 1 <= |s| == v.count
      invariant Search(cmp, s, x, 0, v.count) == Search(cmp, s, x, l, h + 1)
    {
      SearchStep(cmp, s, x, l, h + 1);
      var mid := l + (h - l) / 2;
      var c := cmp(v.storage.data[mid], x);
      if c == 0 {
        return mid, mid;
      } else if c < 0 {
        l := mid + 1;
      } else {
        h := mid - 1;
      }
    }
    SearchStep(cmp, s, x, l, h + 1);
    order := l;
  }

  /** What add reports: the place of the item, unless it has to be inserted or its block copied in vain. */
  function AddVerdict(tied: bool, at: nat, count: nat, capacity: nat, free: bool, maxItems: nat, alloc: bool): Outcome {
    if tied then (if alloc || free then Index(at) else Fatal)
    else InsertVerdict(count, capacity, free, maxItems, at, 1, alloc)
  }

  /** The item goes over the tie at `err`, or into the gap at `order` when there is none. */
  method Put<T(0)>(v: VectorImpl<T>, x: T, err: int, order: nat, w: World<T>, alloc: bool) returns (r: Outcome)
    requires w.Valid() && v in w.vectors && err < v.count && order <= v.count
    modifies v, w, v.Block(), v.PrivateData()
    ensures w.Valid() && w.OthersKept(v)
    ensures r == AddVerdict(err >= 0, if err >= 0 then err else order,
                            old(v.count), old(v.Capacity()), old(v.Free()), v.maxItems, alloc)
    ensures r.Index? ==> v.Items() == if err >= 0 then old(v.Items())[err := x] else Spliced(old(v.Items()), order, [x])
    ensures !r.Index? ==> v.Items() == old(v.Items())
  {
    if err < 0 {
      r := v.InsertAt(x, order, 1, w, alloc);
      assert Repeat(x, 1) == [x];
    } else {
      r := v.ReplaceAt(x, err, w, alloc);
    }
  }

  /** SortedVectorImpl::add. */
  method Add<T(0)>(v: VectorImpl<T>, x: T, cmp: (T, T) -> int, w: World<T>, alloc: bool) returns (r: Outcome)
    requires w.Valid() && v in w.vectors
    modifies v, w, v.Block(), v.PrivateData()
    ensures w.Valid() && w.OthersKept(v)
    ensures var found := old(Search(cmp, v.Items(), x, 0, |v.Items()|));
      r == AddVerdict(found.0 >= 0, found.1, old(v.count), old(v.Capacity()), old(v.Free()), v.maxItems, alloc)
    ensures v.Items() == if r.Index? then Inserted(cmp, old(v.Items()), x) else old(v.Items())
  {
    var index, order := IndexOrderOf(v, x, cmp, w);
    r := Put(v, x, index, order, w, alloc);
  }

  lemma {:induction false} InsertedAllGrows<T>(cmp: (T, T) -> int, s: seq<T>, t: seq<T>)
    ensures |InsertedAll(cmp, s, t)| <= |s| + |t|
  {
    if t == [] {
    } else {
      InsertedAllGrows(cmp, s, t[..|t| - 1]);
    }
  }

  lemma NothingInserted<T>(cmp: (T, T) -> int, s: seq<T>, t: seq<T>)
    ensures InsertedAll(cmp, s, t[..0]) == s
  {
  }

  lemma InsertedInTurn<T>(cmp: (T, T) -> int, s: seq<T>, t: seq<T>, k: nat)
    requires k < |t|
    ensures InsertedAll(cmp, s, t[..k + 1]) == Inserted(cmp, InsertedAll(cmp, s, t[..k]), t[k])
  {
    assert t[..k + 1][..k] == t[..k];
  }

  /** With memory an add fails only for lack of room. */
  lemma AddFailsForRoom(tied: bool, at: nat, count: nat, capacity: nat, free: bool, maxItems: nat)
    requires at <= count && !AddVerdict(tied, at, count, capacity, free, maxItems, true).Index?
    ensures TooLarge(count + 1, maxItems)
  {
  }

  /** Item `k` of the argument `t` is added, after those before it were added to `s`. */
  method AddNext<T(0)>(v: VectorImpl<T>, u: VectorImpl<T>, cmp: (T, T) -> int, w: World<T>, alloc: bool,
      k: nat, ghost s: seq<T>, ghost t: seq<T>) returns (r: Outcome)
    requires w.Valid() && v in w.vectors && u in w.vectors && u != v && u.Items() == t && k < u.count == |t|
    requires v.Items() == InsertedAll(cmp, s, t[..k])
    modifies v, w, v.Block(), v.PrivateData()
    ensures w.Valid() && w.OthersKept(v)
    ensures v.Items() == InsertedAll(cmp, s, t[..if r.Index? then k + 1 else k])
    ensures !r.Index? && alloc ==> TooLarge(|v.Items()| + 1, v.maxItems)
  {
    InsertedInTurn(cmp, s, t, k);
    ghost var found := Search(cmp, v.Items(), t[k], 0, |v.Items()|);
    ghost var count, capacity, free := v.count, v.Capacity(), v.Free();
    r := Add(v, u.storage.data[k], cmp, w, alloc);
    if !r.Index? && alloc {
      AddFailsForRoom(found.0 >= 0, found.1, count, capacity, free, v.maxItems);
    }
  }

  /** merge of an arbitrary vector: one add after the other, stopping at the first failure. `alloc(k)` is
      the verdict for the k-th add. The argument may share the receiver's block. */
  method MergeEach<T(0)>(v: VectorImpl<T>, u: VectorImpl<T>, cmp: (T, T) -> int, w: World<T>, alloc: nat -> bool)
    returns (r: Outcome, done: nat)
    requires w.Valid() && v in w.vectors && u in w.vectors && u != v
    modifies v, w, w.Memory()
    ensures w.Valid() && w.OthersKept(v)
    ensures done <= |old(u.Items())| && (r.Index? <==> done == |old(u.Items())|)
    ensures r.Index? ==> r == Index(0)
    ensures !r.Index? ==> !alloc(done) || TooLarge(|v.Items()| + 1, v.maxItems)
    ensures v.Items() == InsertedAll(cmp, old(v.Items()), old(u.Items())[..done])
  {
    ghost var s, t := v.Items(), u.Items();
    done := 0;
    NothingInserted(cmp, s, t);
    while done < u.count
      invariant done <= u.count == |t| && u.Items() == t
      invariant w.Valid() && w.OthersKept(v)
      invariant v.Items() == InsertedAll(cmp, s, t[..done])
    {
      r := AddNext(v, u, cmp, w, alloc(done), done, s, t);
      if !r.Index? { return; }
      done := done + 1;
    }
    r := Index(0);
  }

  lemma MergeShapes<T>(s: seq<T>, t: seq<T>)
    ensures Spliced(s, 0, t) == t + s && Spliced(s, |s|, t) == s + t && t[..|t|] == t
  {
  }

  lemma TooLargeGrows(size: nat, more: nat, maxItems: nat)
    requires TooLarge(size, maxItems) && size <= more
    ensures TooLarge(more, maxItems)
  {
  }

  /** What a successful merge reports: where it put an argument that fits behind as a whole, otherwise 0. */
  function MergePlace<T>(cmp: (T, T) -> int, s: seq<T>, t: seq<T>): nat
    requires s != []
  {
    if t != [] && cmp(t[|t| - 1], s[0]) > 0 && cmp(t[0], s[|s| - 1]) >= 0 then |s| else 0
  }

  /** merge of a vector into a non-empty one. A merge fails only for lack of memory, and has then
      added the first `done` items; with enough memory and room it succeeds. */
  method Merge<T(0)>(v: VectorImpl<T>, u: VectorImpl<T>, cmp: (T, T) -> int, w: World<T>, alloc: nat -> bool)
    returns (r: Outcome, ghost done: nat)
    requires w.Valid() && v in w.vectors && u in w.vectors && u != v && v.count > 0
    requires v.itemSize == u.itemSize
    modifies v, w, w.Memory()
    ensures w.Valid() && w.OthersKept(v)
    ensures r.Index? ==> v.Items() == Merged(cmp, old(v.Items()), old(u.Items()))
    ensures r.Index? ==> r == Index(MergePlace(cmp, old(v.Items()), old(u.Items())))
    ensures var s, t := old(v.Items()), old(u.Items());
      |s| > 0 && (r.Index? ==>
        if t == [] then v.Items() == s && r == Index(0)
        else if cmp(t[|t| - 1], s[0]) <= 0 then v.Items() == t + s && r == Index(0)
        else if cmp(t[0], s[|s| - 1]) >= 0 then v.Items() == s + t && r == Index(|s|)
        else v.Items() == InsertedAll(cmp, s, t) && r == Index(0))
    ensures !r.Index? ==> done < |old(u.Items())|
    ensures !r.Index? ==> !alloc(done) || TooLarge(old(v.count) + old(u.count), v.maxItems)
    ensures !r.Index? && done == 0 ==> v.Items() == old(v.Items())
    ensures !r.Index? && done > 0 ==> v.Items() == InsertedAll(cmp, old(v.Items()), old(u.Items())[..done])
  {
    hide World.Valid, TooLarge, Inserted, InsertedAll;
    v.InWorld(w);
    u.InWorld(w);
    r := Index(0);
    done := 0;
    if u.count > 0 {
      if cmp(u.storage.data[u.count - 1], v.storage.data[0]) <= 0 {
        r := InsertWhole(v, u, 0, w, alloc(0));
      } else if cmp(u.storage.data[0], v.storage.data[v.count - 1]) >= 0 {
        r := InsertWhole(v, u, v.count, w, alloc(0));
      } else {
        r, done := MergeSlowly(v, u, cmp, w, alloc);
      }
    }
  }

  /** The fast paths of merge. */
  method InsertWhole<T(0)>(v: VectorImpl<T>, u: VectorImpl<T>, at: nat, w: World<T>, alloc: bool) returns (r: Outcome)
    requires w.Valid() && v in w.vectors && u in w.vectors && u != v && u.count > 0 && (at == 0 || at == v.count)
    requires v.itemSize == u.itemSize
    modifies v, w, v.Block(), v.PrivateData()
    ensures w.Valid() && w.OthersKept(v)
    ensures r.Index? ==> r == Index(at)
    ensures r.Index? ==> v.Items() == if at == 0 then old(u.Items() + v.Items()) else old(v.Items() + u.Items())
    ensures !r.Index? ==> v.Items() == old(v.Items()) && (!alloc || TooLarge(old(v.count) + old(u.count), v.maxItems))
  {
    hide World.Valid, Spliced;
    v.InWorld(w);
    u.InWorld(w);
    MergeShapes(v.Items(), u.Items());
    r := v.InsertVectorAt(u, at, w, alloc);
  }

  /** The slow path of merge. */
  method MergeSlowly<T(0)>(v: VectorImpl<T>, u: VectorImpl<T>, cmp: (T, T) -> int, w: World<T>, alloc: nat -> bool)
    returns (r: Outcome, ghost done: nat)
    requires w.Valid() && v in w.vectors && u in w.vectors && u != v
    modifies v, w, w.Memory()
    ensures w.Valid() && w.OthersKept(v)
    ensures r.Index? ==> r == Index(0) && v.Items() == InsertedAll(cmp, old(v.Items()), old(u.Items()))
    ensures !r.Index? ==> done < |old(u.Items())|
    ensures !r.Index? ==> !alloc(done) || TooLarge(|old(v.Items())| + |old(u.Items())|, v.maxItems)
    ensures !r.Index? && done == 0 ==> v.Items() == old(v.Items())
    ensures !r.Index? && done > 0 ==> v.Items() == InsertedAll(cmp, old(v.Items()), old(u.Items())[..done])
  {
    ghost var s, t := v.Items(), u.Items();
    NothingInserted(cmp, s, t);
    r, done := MergeEach(v, u, cmp, w, alloc);
    if r.Index? {
      WholeMerge(cmp, s, t);
    } else {
      InsertedAllGrows(cmp, s, t[..done]);
      if alloc(done) { TooLargeGrows(|v.Items()| + 1, |s| + |t|, v.maxItems); }
    }
  }

  lemma WholeMerge<T>(cmp: (T, T) -> int, s: seq<T>, t: seq<T>)
    ensures t[..|t|] == t && (t == [] ==> InsertedAll(cmp, s, t) == s)
  {
  }

  /** SortedVectorImpl::remove. The index is reported even when the removal could not allocate. */
  method Remove<T(0)>(v: VectorImpl<T>, x: T, cmp: (T, T) -> int, w: World<T>, alloc: bool)
    returns (i: int, r: Outcome)
    requires w.Valid() && v in w.vectors && v.count <= SIZE_MAX
    modifies v, w, v.Block(), v.PrivateData()
    ensures w.Valid() && w.OthersKept(v)
    ensures i == old(Search(cmp, v.Items(), x, 0, |v.Items()|)).0
    ensures i < 0 ==> r == Index(0) && v.Items() == old(v.Items())
    ensures i >= 0 ==>
      && r == RemoveVerdict(old(v.count), old(v.Capacity()), old(v.Free()), true, i, 1, alloc)
      && v.Items() == if r.Index? && RemovalHappens(old(v.count), old(v.Capacity()), i, 1, alloc)
                      then Cut(old(v.Items()), i, 1) else old(v.Items())
  {
    var order;
    i, order := IndexOrderOf(v, x, cmp, w);
    r := Index(0);
    if i >= 0 {
      r := v.RemoveItemsAt(i, 1, w, alloc);
    }
  }
}
