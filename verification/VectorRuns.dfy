// Copy-on-write is invisible: any run of operations on any number of vectors that share blocks behaves
// like the same run on independent sequences. The model of libshims/utils/VectorImpl.cpp as a whole.

module VectorRuns {
  import opened Vectors
  import opened VectorSorting

  /** What may be done to one vector, possibly with a second one as operand. */
  datatype Change<!T> =
    | Assign
    | InsertItems(at: nat, n: nat, x: T)
    | InsertVector(at: nat)
    | Replace(at: nat, x: T)
    | RemoveItems(at: nat, n: nat)
    | Reserve(size: nat)
    | SortBy(cmp: (T, T) -> int)
    | Finish

  /** Vectors are named by their index in a table; an operation on a missing vector does nothing. */
  datatype Op<!T> =
    | Create(trivialCopy: bool, trivialDtor: bool, itemSize: nat)
    | Copy(of: nat)
    | On(to: nat, operand: nat, change: Change<T>)

  /** The effect of a change on a sequence; one that does not apply leaves it alone. */
  function Changed<T>(s: seq<T>, t: seq<T>, c: Change<T>): seq<T> {
    match c
    case Assign => t
    case InsertItems(at, n, x) => if at <= |s| then Spliced(s, at, Repeat(x, n)) else s
    case InsertVector(at) => if at <= |s| then Spliced(s, at, t) else s
    case Replace(at, x) => if at < |s| then s[at := x] else s
    case RemoveItems(at, n) => if at + n <= |s| then Cut(s, at, n) else s
    case Reserve(_) => s
    case SortBy(cmp) => InsertionSorted(cmp, s)
    case Finish => []
  }

  /** The effect of an operation on independent sequences; `done` tells whether it took effect. */
  function Effect<T>(vs: seq<seq<T>>, op: Op<T>, done: bool): seq<seq<T>> {
    if !done then vs
    else match op
      case Create(_, _, _) => vs + [[]]
      case Copy(i) => if i < |vs| then vs + [vs[i]] else vs
      case On(i, j, c) => if i < |vs| && j < |vs| then vs[i := Changed(vs[i], vs[j], c)] else vs
  }

  function Effects<T>(vs: seq<seq<T>>, ops: seq<Op<T>>, done: seq<bool>): seq<seq<T>>
    requires |ops| == |done|
  {
    if ops == [] then vs
    else Effect(Effects(vs, ops[..|ops| - 1], done[..|ops| - 1]), ops[|ops| - 1], done[|ops| - 1])
  }

  /** Programs run from front to back. */
  lemma {:induction false} EffectsConcat<T>(vs: seq<seq<T>>, a: seq<Op<T>>, b: seq<Op<T>>, da: seq<bool>, db: seq<bool>)
    requires |a| == |da| && |b| == |db|
    ensures Effects(vs, a + b, da + db) == Effects(Effects(vs, a, da), b, db)
  {
    if b == [] {
      assert a + b == a && da + db == da;
    } else {
      var n := |b| - 1;
      EffectsConcat(vs, a, b[..n], da, db[..n]);
      assert (a + b)[..|a| + n] == a + b[..n] && (da + db)[..|a| + n] == da + db[..n];
    }
  }

  /** A copy is a vector of its own: what is done to the original, or to the copy, does not reach the other. */
  lemma CopiesAreIndependent<T>(vs: seq<seq<T>>, i: nat, c: Change<T>)
    requires i < |vs|
    ensures var copied := Effect(vs, Op.Copy(i), true);
      && |copied| == |vs| + 1 && copied[|vs|] == copied[i] == vs[i]
      && Effect(copied, On(i, i, c), true)[|vs|] == vs[i]
      && Effect(copied, On(|vs|, |vs|, c), true)[i] == vs[i]
  {
    hide Changed;
  }

  // ---------- When an operation takes effect ----------

  /** Does the code support the change? Not a removal whose bounds check is fooled, not an insertion of a vector with
      items of another size (`same` says that they are not), and not an insertion of a vector into itself that moves
      or frees the items before they are copied (`self`). */
  predicate Supported<T>(c: Change<T>, count: nat, capacity: nat, free: bool, maxItems: nat, self: bool, same: bool) {
    match c
    case RemoveItems(at, n) => at <= SIZE_MAX && n <= SIZE_MAX && !RemovalUndefined(count, at, n)
    case InsertVector(at) =>
      same &&
      (self && free && count > 0 && at <= count && !GrowOverflows(count, count, capacity, maxItems) ==>
        count <= at && 2 * count <= capacity)
    case _ => true
  }

  /** Does the change take effect on a vector with the items `s` in a block of `capacity` that may be edited in
      place if `free`, when allocations go as `alloc` and `malloc` say? `t` are the operand's items. */
  predicate Succeeds<T>(c: Change<T>, s: seq<T>, capacity: nat, free: bool, maxItems: nat, t: seq<T>, self: bool,
      same: bool, alloc: bool, malloc: bool)
  {
    Supported(c, |s|, capacity, free, maxItems, self, same) &&
    match c
    case Assign => same
    case InsertItems(at, n, _) => InsertVerdict(|s|, capacity, free, maxItems, at, n, alloc).Index?
    case InsertVector(at) => InsertVerdict(|s|, capacity, free, maxItems, at, |t|, alloc).Index?
    case Replace(at, _) => at < |s| && (alloc || free)
    case RemoveItems(at, n) =>
      at + n <= |s| && (alloc || (free && !ShrinkReallocates(|s| - n, capacity)))
    case Reserve(size) => size <= |s| || (size <= maxItems && alloc)
    case SortBy(cmp) => StepwiseOrdered(cmp, s) || ((alloc || free) && malloc)
    case Finish => true
  }

  /** The item sizes of the vectors after an operation; they are fixed at creation. */
  function SizesAfter<T>(sizes: seq<nat>, op: Op<T>): seq<nat> {
    match op
    case Create(_, _, itemSize) => if itemSize > 0 then sizes + [itemSize] else sizes
    case Copy(i) => if i < |sizes| then sizes + [sizes[i]] else sizes
    case On(_, _, _) => sizes
  }

  function Sizes<T>(sizes: seq<nat>, ops: seq<Op<T>>): seq<nat> {
    if ops == [] then sizes else SizesAfter(Sizes(sizes, ops[..|ops| - 1]), ops[|ops| - 1])
  }

  /** Does an operation on independent sequences apply, and is there room for its result? */
  predicate Applies<T>(vs: seq<seq<T>>, sizes: seq<nat>, op: Op<T>) {
    match op
    case Create(_, _, itemSize) => itemSize > 0
    case Copy(i) => i < |vs|
    case On(i, j, c) =>
      i < |vs| && i < |sizes| && j < |vs| &&
      match c
      case Assign => j < |sizes| && sizes[i] == sizes[j]
      case InsertItems(at, n, _) => n > 0 && at <= |vs[i]| && !TooLarge(|vs[i]| + n, Limit(sizes[i]))
      case InsertVector(at) =>
        && j < |sizes| && sizes[i] == sizes[j]
        && i != j && vs[j] != [] && at <= |vs[i]| && !TooLarge(|vs[i]| + |vs[j]|, Limit(sizes[i]))
      case Replace(at, _) => at < |vs[i]|
      case RemoveItems(at, n) => at + n <= |vs[i]|
      case Reserve(size) => size <= Limit(sizes[i])
      case _ => true
  }

  /** What the program computes when every operation takes effect. */
  function Ideal<T>(vs: seq<seq<T>>, ops: seq<Op<T>>): seq<seq<T>> {
    if ops == [] then vs else Effect(Ideal(vs, ops[..|ops| - 1]), ops[|ops| - 1], true)
  }

  /** In the ideal run every operation applies, and there is room for its result. */
  ghost predicate AllApply<T>(vs: seq<seq<T>>, sizes: seq<nat>, ops: seq<Op<T>>) {
    forall k: nat :: k < |ops| ==> Applies(Ideal(vs, ops[..k]), Sizes(sizes, ops[..k]), ops[k])
  }

  /** Every operation that applied when its turn came, with memory for it, took effect. */
  ghost predicate MemorySuffices<T>(vs: seq<seq<T>>, sizes: seq<nat>, ops: seq<Op<T>>, done: seq<bool>,
      alloc: nat -> bool, malloc: nat -> bool)
    requires |ops| == |done|
  {
    forall k: nat :: k < |ops| && MustHappen(vs, sizes, ops, done, k, alloc, malloc) ==> done[k]
  }

  /** Operation `k` applies when its turn comes, and there is memory for it. */
  predicate MustHappen<T>(vs: seq<seq<T>>, sizes: seq<nat>, ops: seq<Op<T>>, done: seq<bool>, k: nat,
      alloc: nat -> bool, malloc: nat -> bool)
    requires k < |ops| && k <= |done|
  {
    alloc(k) && malloc(k) && Applies(Effects(vs, ops[..k], done[..k]), Sizes(sizes, ops[..k]), ops[k])
  }

  lemma OneMoreStep<T>(vs: seq<seq<T>>, sizes: seq<nat>, ops: seq<Op<T>>, done: seq<bool>, d: bool,
      alloc: nat -> bool, malloc: nat -> bool)
    requires |ops| == |done| + 1 && MemorySuffices(vs, sizes, ops[..|done|], done, alloc, malloc)
    requires MustHappen(vs, sizes, ops, done, |done|, alloc, malloc) ==> d
    ensures var k := |done|;
      && Effects(vs, ops, done + [d]) == Effect(Effects(vs, ops[..k], done), ops[k], d)
      && Sizes(sizes, ops) == SizesAfter(Sizes(sizes, ops[..k]), ops[k])
    ensures MemorySuffices(vs, sizes, ops, done + [d], alloc, malloc)
  {
    var n, all := |done|, done + [d];
    assert all[..n] == done;
    forall k: nat | k < |ops| && MustHappen(vs, sizes, ops, all, k, alloc, malloc) ensures all[k] {
      if k < n {
        assert ops[..n][..k] == ops[..k] && all[..k] == done[..k];
      }
    }
  }

  /** With memory for everything nothing is missing from the result. */
  lemma {:induction false} NothingMissing<T>(vs: seq<seq<T>>, sizes: seq<nat>, ops: seq<Op<T>>, done: seq<bool>,
      alloc: nat -> bool, malloc: nat -> bool)
    requires |ops| == |done| && forall k: nat :: k < |ops| ==> alloc(k) && malloc(k)
    requires MemorySuffices(vs, sizes, ops, done, alloc, malloc) && AllApply(vs, sizes, ops)
    ensures Effects(vs, ops, done) == Ideal(vs, ops)
  {
    if ops == [] {
    } else {
      var n := |ops| - 1;
      forall k: nat | k < n
        ensures ops[..n][..k] == ops[..k] && done[..n][..k] == done[..k]
      {
      }
      NothingMissing(vs, sizes, ops[..n], done[..n], alloc, malloc);
      assert Applies(Ideal(vs, ops[..n]), Sizes(sizes, ops[..n]), ops[n]);
      assert MustHappen(vs, sizes, ops, done, n, alloc, malloc);
    }
  }

  /** A program's vectors, with what a program without sharing would hold in `values`. */
  class Table<T(0)> {
    const w: World<T>
    var table: seq<VectorImpl<T>>
    ghost var values: seq<seq<T>>
    ghost var sizes: seq<nat>  // the item sizes

    ghost predicate Valid()
      reads this, w, w.vectors, w.Memory()
    {
      && w.Valid()
      && (forall v :: v in table ==> v in w.vectors)
      && (forall i, j :: 0 <= i < j < |table| ==> table[i] != table[j])
      && |values| == |table| == |sizes|
      && forall i :: 0 <= i < |table| ==> Holds(table[i], values[i], sizes[i])
    }

    ghost predicate Holds(v: VectorImpl<T>, s: seq<T>, size: nat)
      requires w.Valid() && v in w.vectors
      reads w, w.vectors, w.buffers, w.Memory()
    {
      v.Items() == s && v.itemSize == size && |s| <= SIZE_MAX
    }

    /** Succeeds, for a vector and its operand. */
    ghost predicate Takes(v: VectorImpl<T>, u: VectorImpl<T>, c: Change<T>, alloc: bool, malloc: bool)
      requires w.Valid() && v in w.vectors && u in w.vectors
      reads w, w.vectors, w.buffers, w.Memory()
    {
      Succeeds(c, v.Items(), v.Capacity(), v.Free(), v.maxItems, u.Items(), u == v, u.itemSize == v.itemSize,
        alloc, malloc)
    }

    /** Only newly allocated vectors and blocks have joined. */
    twostate predicate Grew()
      reads this, w
    {
      w.Grew() && forall v :: v in w.vectors && v !in old(w.vectors) ==> fresh(v)
    }

    constructor ()
      ensures Valid() && values == [] && sizes == []
    {
      w := new World<T>();
      table, values, sizes := [], [], [];
    }

    /** One vector changed and the others were kept. */
    twostate lemma Updated(i: nat)
      requires old(Valid()) && w.Valid() && i < |table| && table == old(table)
      requires w.OthersKept(table[i])
      requires values == old(values)[i := table[i].Items()] && sizes == old(sizes) && |values[i]| <= SIZE_MAX
      ensures Valid()
    {
      assert old(Holds(table[i], values[i], sizes[i]));
      forall j | 0 <= j < |table| ensures Holds(table[j], values[j], sizes[j]) {
        if j != i { assert table[j] != table[i] && old(Holds(table[j], values[j], sizes[j])); }
      }
    }

    /** A vector joined and the others were kept. */
    twostate lemma Extended(new v: VectorImpl<T>)
      requires old(Valid()) && w.Valid() && v in w.vectors && fresh(v) && table == old(table) + [v]
      requires old(w.vectors) <= w.vectors
      requires forall u :: u in old(w.vectors) ==>
        u.storage == old(u.storage) && u.count == old(u.count) && u.Items() == old(u.Items())
      requires values == old(values) + [v.Items()] && sizes == old(sizes) + [v.itemSize] && |v.Items()| <= SIZE_MAX
      ensures Valid()
    {
      forall j | 0 <= j < |table| ensures Holds(table[j], values[j], sizes[j]) {
        if j < |old(table)| { assert old(Holds(table[j], values[j], sizes[j])); }
      }
    }

    method Create(trivialCopy: bool, trivialDtor: bool, itemSize: nat)
      requires Valid() && itemSize > 0
      modifies this, w
      ensures Valid() && values == old(values) + [[]] && sizes == old(sizes) + [itemSize] && Grew()
    {
      var v := new VectorImpl<T>.Empty(trivialCopy, trivialDtor, itemSize, w);
      table, values, sizes := table + [v], values + [v.Items()], sizes + [v.itemSize];
      Extended(v);
    }

    method Copy(i: nat)
      requires Valid() && i < |table|
      modifies this, w, w.Memory()
      ensures Valid() && values == old(values) + [old(values)[i]] && sizes == old(sizes) + [old(sizes)[i]] && Grew()
    {
      hide World.Valid;
      table[i].InWorld(w);
      assert Holds(table[i], values[i], sizes[i]);
      var v := new VectorImpl<T>.Copy(table[i], w);
      table, values, sizes := table + [v], values + [v.Items()], sizes + [v.itemSize];
      Extended(v);
    }

    /** A removal may be reported although the memory for the smaller block was missing. */
    method Remove(v: VectorImpl<T>, at: nat, n: nat, alloc: bool) returns (done: bool)
      requires w.Valid() && v in w.vectors && v.count <= SIZE_MAX && at <= SIZE_MAX && n <= SIZE_MAX
      requires !RemovalUndefined(v.count, at, n)
      modifies v, w, w.Memory()
      ensures w.Valid() && w.OthersKept(v)
      ensures done <==> old(Takes(v, v, RemoveItems(at, n), alloc, true))
      ensures v.Items() == if done then Cut(old(v.Items()), at, n) else old(v.Items())
    {
      hide World.Valid, Cut;
      v.InWorld(w);
      var happens := RemovalHappens(v.count, v.Capacity(), at, n, alloc);
      var r := v.RemoveItemsAt(at, n, w, alloc);
      done := r.Index? && happens;
    }

    method Insert(v: VectorImpl<T>, u: VectorImpl<T>, c: Change<T>, alloc: bool) returns (done: bool)
      requires w.Valid() && v in w.vectors && u in w.vectors && (c.InsertItems? || c.InsertVector?)
      requires Supported(c, v.count, v.Capacity(), v.Free(), v.maxItems, u == v, u.itemSize == v.itemSize)
      modifies v, w, w.Memory()
      ensures w.Valid() && w.OthersKept(v)
      ensures done <==> old(Takes(v, u, c, alloc, true))
      ensures v.Items() == if done then Changed(old(v.Items()), old(u.Items()), c) else old(v.Items())
    {
      var r;
      match c {
        case InsertItems(at, n, x) => r := v.InsertAt(x, at, n, w, alloc);
        case InsertVector(at) => r := v.InsertVectorAt(u, at, w, alloc);
      }
      return r.Index?;
    }

    /** The changes of items in their places. */
    method Rewrite(v: VectorImpl<T>, u: VectorImpl<T>, c: Change<T>, alloc: bool, malloc: bool) returns (done: bool)
      requires w.Valid() && v in w.vectors && u in w.vectors && (c.Replace? || c.SortBy?)
      modifies v, w, w.Memory()
      ensures w.Valid() && w.OthersKept(v)
      ensures done <==> old(Takes(v, u, c, alloc, malloc))
      ensures v.Items() == if done then Changed(old(v.Items()), old(u.Items()), c) else old(v.Items())
    {
      hide World.Valid, RemovalUndefined, InsertVerdict, InsertionSorted, StepwiseOrdered;
      v.InWorld(w);
      u.InWorld(w);
      var r := Index(0);
      match c {
        case Replace(at, x) => r := v.ReplaceAt(x, at, w, alloc);
        case SortBy(cmp) => var o := Sort(v, cmp, w, alloc, malloc); if !o.NoError? { r := NoMemory; }
      }
      v.InWorld(w);
      return r.Index?;
    }

    /** The changes of the block as a whole. */
    method Reblock(v: VectorImpl<T>, u: VectorImpl<T>, c: Change<T>, alloc: bool) returns (done: bool)
      requires w.Valid() && v in w.vectors && u in w.vectors && (c.Assign? || c.Reserve? || c.Finish?)
      modifies v, w, w.Memory()
      ensures w.Valid() && w.OthersKept(v)
      ensures done <==> old(Takes(v, u, c, alloc, true))
      ensures v.Items() == if done then Changed(old(v.Items()), old(u.Items()), c) else old(v.Items())
    {
      hide World.Valid, RemovalUndefined, InsertVerdict, InsertionSorted, StepwiseOrdered;
      v.InWorld(w);
      u.InWorld(w);
      var r := Index(0);
      match c {
        case Assign => var ok := v.Assign(u, w); if !ok { r := Fatal; }
        case Reserve(size) => r := v.SetCapacity(size, w, alloc);
        case Finish => v.Finish(w);
      }
      v.InWorld(w);
      return r.Index?;
    }

    /** Any change that the code supports; the others are not made. */
    method Change(v: VectorImpl<T>, u: VectorImpl<T>, c: Change<T>, alloc: bool, malloc: bool) returns (done: bool)
      requires w.Valid() && v in w.vectors && u in w.vectors && v.count <= SIZE_MAX
      modifies v, w, w.Memory()
      ensures w.Valid() && w.OthersKept(v)
      ensures done <==> old(Takes(v, u, c, alloc, malloc))
      ensures v.Items() == if done then Changed(old(v.Items()), old(u.Items()), c) else old(v.Items())
    {
      if !Supported(c, v.count, v.Capacity(), v.Free(), v.maxItems, u == v, u.itemSize == v.itemSize) { return false; }
      if c.RemoveItems? {
        done := Remove(v, c.at, c.n, alloc);
      } else if c.InsertItems? || c.InsertVector? {
        done := Insert(v, u, c, alloc);
      } else if c.Replace? || c.SortBy? {
        done := Rewrite(v, u, c, alloc, malloc);
      } else {
        done := Reblock(v, u, c, alloc);
      }
    }

    /** One operation of a program, with the verdicts of its allocations. It takes effect exactly when the
        verdicts and the state of its vector say so, and certainly when it applies and memory suffices. */
    method Step(op: Op<T>, alloc: bool, malloc: bool) returns (done: bool)
      requires Valid()
      modifies this, w, w.vectors, w.Memory()
      ensures Valid() && Grew()
      ensures values == Effect(old(values), op, done) && sizes == SizesAfter(old(sizes), op)
      ensures op.Create? ==> done == (op.itemSize > 0)
      ensures op.Copy? ==> done == (op.of < |old(table)|)
      ensures op.On? && (op.to >= |old(table)| || op.operand >= |old(table)|) ==> !done
      ensures op.On? && op.to < |old(table)| && op.operand < |old(table)| ==>
        (done <==> old(Takes(table[op.to], table[op.operand], op.change, alloc, malloc)))
      ensures alloc && malloc && Applies(old(values), old(sizes), op) ==> done
    {
      done := false;
      match op {
        case Create(trivialCopy, trivialDtor, itemSize) =>
          if itemSize > 0 {
            Create(trivialCopy, trivialDtor, itemSize);
            done := true;
          }
        case Copy(i) =>
          if i < |table| {
            Copy(i);
            done := true;
          }
        case On(i, j, c) =>
          if i < |table| && j < |table| { done := On(i, j, c, alloc, malloc); }
      }
    }

    method On(i: nat, j: nat, c: Change<T>, alloc: bool, malloc: bool) returns (done: bool)
      requires Valid() && i < |table| && j < |table|
      modifies this, table[i], w, w.Memory()
      ensures Valid() && Grew() && table == old(table) && sizes == old(sizes)
      ensures done <==> old(Takes(table[i], table[j], c, alloc, malloc))
      ensures alloc && malloc && Applies(old(values), old(sizes), Op.On(i, j, c)) ==> done
      ensures values == if done then old(values)[i := Changed(old(values)[i], old(values)[j], c)] else old(values)
    {
      hide World.Valid, Applies, Succeeds, Changed;
      assert Holds(table[i], values[i], sizes[i]) && Holds(table[j], values[j], sizes[j]);
      table[i].InWorld(w);
      ghost var s, t := values[i], values[j];
      AppliesSucceeds(values, sizes, i, j, c, table[i].Capacity(), table[i].Free(), table[j] == table[i]);
      StaysCountable(c, s, table[i].Capacity(), table[i].Free(), table[i].maxItems, t, table[j] == table[i],
        sizes[j] == sizes[i], alloc, malloc);
      done := Change(table[i], table[j], c, alloc, malloc);
      values := values[i := table[i].Items()];
      Updated(i);
    }

    /** A whole program: whatever blocks were shared, copied, resized or freed on the way, and whichever
        allocations failed, the vectors hold what independent sequences would hold. Operations fail only for
        lack of memory or room, and with memory and room for everything the result is the ideal one. */
    method Run(ops: seq<Op<T>>, alloc: nat -> bool, malloc: nat -> bool) returns (done: seq<bool>)
      requires Valid()
      modifies this, w, w.vectors, w.Memory()
      ensures Valid() && |done| == |ops|
      ensures values == Effects(old(values), ops, done) && sizes == Sizes(old(sizes), ops)
      ensures MemorySuffices(old(values), old(sizes), ops, done, alloc, malloc)
      ensures (forall k: nat :: k < |ops| ==> alloc(k) && malloc(k)) && AllApply(old(values), old(sizes), ops) ==>
        values == Ideal(old(values), ops)
    {
      done := [];
      ghost var vs, ss := values, sizes;
      for k := 0 to |ops|
        invariant Valid() && Grew() && |done| == k
        invariant values == Effects(vs, ops[..k], done) && sizes == Sizes(ss, ops[..k])
        invariant MemorySuffices(vs, ss, ops[..k], done, alloc, malloc)
      {
        var d := Step(ops[k], alloc(k), malloc(k));
        assert ops[..k + 1][..k] == ops[..k] && done[..k] == done;
        OneMoreStep(vs, ss, ops[..k + 1], done, d, alloc, malloc);
        done := done + [d];
      }
      assert ops[..|ops|] == ops;
      if (forall k: nat :: k < |ops| ==> alloc(k) && malloc(k)) && AllApply(vs, ss, ops) {
        NothingMissing(vs, ss, ops, done, alloc, malloc);
      }
    }
  }

  /** With memory and room a change that applies takes effect, whatever the state of the blocks. */
  lemma AppliesSucceeds<T>(vs: seq<seq<T>>, sizes: seq<nat>, i: nat, j: nat, c: Change<T>, capacity: nat, free: bool,
      self: bool)
    requires i < |vs| == |sizes| && j < |vs| && |vs[i]| <= SIZE_MAX && (self ==> i == j)
    ensures Applies(vs, sizes, Op.On(i, j, c)) ==>
      Succeeds(c, vs[i], capacity, free, Limit(sizes[i]), vs[j], self, sizes[j] == sizes[i], true, true)
  {
  }

  /** What applies is exact: a change other than an insertion of nothing applies iff, given memory, it takes effect in
      every state of the vector's block that its items fit into. */
  lemma AppliesIsExact<T>(vs: seq<seq<T>>, sizes: seq<nat>, i: nat, j: nat, c: Change<T>, same: bool)
    requires i < |vs| == |sizes| && j < |vs| && same == (sizes[j] == sizes[i])
    requires |vs[i]| <= Limit(sizes[i]) && |vs[i]| <= SIZE_MAX
    requires c.InsertItems? ==> c.n > 0
    requires c.InsertVector? ==> i != j && vs[j] != []
    ensures Applies(vs, sizes, Op.On(i, j, c)) <==>
      forall capacity: nat, free: bool :: |vs[i]| <= capacity <= Limit(sizes[i]) ==>
        Succeeds(c, vs[i], capacity, free, Limit(sizes[i]), vs[j], false, same, true, true)
  {
    if forall capacity: nat, free: bool :: |vs[i]| <= capacity <= Limit(sizes[i]) ==>
      Succeeds(c, vs[i], capacity, free, Limit(sizes[i]), vs[j], false, same, true, true)
    {
      assert Succeeds(c, vs[i], |vs[i]|, true, Limit(sizes[i]), vs[j], false, same, true, true);
    }
  }

  /** An insertion of a vector into itself is not supported iff it would go through in a block of its own that moves or
      is given up before its items are copied: anywhere but behind the last item, or without room for all. */
  lemma SelfInsertionUnsupportedIff<T>(at: nat, count: nat, capacity: nat, free: bool, maxItems: nat)
    requires count > 0
    ensures !Supported<T>(InsertVector(at), count, capacity, free, maxItems, true, true) <==>
      free && InsertVerdict(count, capacity, free, maxItems, at, count, true).Index? && (at < count || capacity < 2 * count)
  {
  }

  /** No change makes a vector longer than a size_t can say. */
  lemma StaysCountable<T>(c: Change<T>, s: seq<T>, capacity: nat, free: bool, maxItems: nat, t: seq<T>, self: bool,
      same: bool, alloc: bool, malloc: bool)
    requires |s| <= SIZE_MAX && |t| <= SIZE_MAX
    ensures Succeeds(c, s, capacity, free, maxItems, t, self, same, alloc, malloc) ==> |Changed(s, t, c)| <= SIZE_MAX
  {
    match c
    case SortBy(cmp) => SortedLength(cmp, s);
    case _ =>
  }

  lemma {:induction false} SortedLength<T>(cmp: (T, T) -> int, s: seq<T>)
    ensures |InsertionSorted(cmp, s)| == |s|
  {
    if s == [] {
    } else {
      SortedLength(cmp, s[..|s| - 1]);
      var _ := PlacedSplits(cmp, InsertionSorted(cmp, s[..|s| - 1]), s[|s| - 1]);
    }
  }
}
