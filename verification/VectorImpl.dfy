// Model of libshims/utils/VectorImpl.cpp: copy-on-write vectors over reference-counted buffers.
//
// Capacities are counted in items. An allocation that may fail takes its verdict from the caller
// (`alloc`), and a process abort is the outcome `Fatal`, which leaves the state as it was.

module Vectors {

  const MIN_CAPACITY: nat := 4
  const SIZE_MAX: nat := 0xFFFF_FFFF  // size_t of the 32-bit target

  datatype Outcome = Index(at: nat) | BadIndex | BadValue | NoMemory | Fatal

  // ---------- The sequence operations that the vector implements ----------

  function Spliced<T>(s: seq<T>, at: nat, x: seq<T>): seq<T>
    requires at <= |s|
  {
    s[..at] + x + s[at..]
  }

  lemma SplicedIs<T>(s: seq<T>, at: nat, x: seq<T>, r: seq<T>)
    requires at <= |s| && |r| == |s| + |x|
    requires forall k :: 0 <= k < at ==> r[k] == s[k]
    requires forall k :: 0 <= k < |x| ==> r[at + k] == x[k]
    requires forall k :: at <= k < |s| ==> r[k + |x|] == s[k]
    ensures r == Spliced(s, at, x)
  {
    forall k | 0 <= k < |r| ensures r[k] == Spliced(s, at, x)[k] {
      if k >= at + |x| { assert r[(k - |x|) + |x|] == s[k - |x|]; }
      if at <= k < at + |x| { assert r[at + (k - at)] == x[k - at]; }
    }
  }

  function Cut<T>(s: seq<T>, at: nat, n: nat): seq<T>
    requires at + n <= |s|
  {
    s[..at] + s[at + n..]
  }

  lemma CutIs<T>(s: seq<T>, at: nat, n: nat, r: seq<T>)
    requires at + n <= |s| && |r| == |s| - n
    requires forall k :: 0 <= k < at ==> r[k] == s[k]
    requires forall k :: at + n <= k < |s| ==> r[k - n] == s[k]
    ensures r == Cut(s, at, n)
  {
    forall k | at <= k < |r| ensures r[k] == Cut(s, at, n)[k] {
      assert r[(k + n) - n] == s[k + n];
    }
  }

  lemma CutEnds<T>(s: seq<T>, at: nat)
    requires at <= |s|
    ensures Cut(s, at, 0) == s && Cut(s, at, |s| - at) == s[..at]
  {
  }

  /** `n` items from `from` on, moved to `to` where they overwrite what was there. */
  function Moved<T>(d: seq<T>, to: nat, from: nat, n: nat): seq<T>
    requires to + n <= |d| && from + n <= |d|
  {
    d[..to] + d[from..from + n] + d[to + n..]
  }

  lemma MovedIs<T>(d: seq<T>, e: seq<T>, to: nat, from: nat, n: nat)
    requires to + n <= |d| == |e| && from + n <= |d|
    requires forall k :: 0 <= k < |e| ==> e[k] == d[if to <= k < to + n then k - to + from else k]
    ensures e == Moved(d, to, from, n)
  {
  }

  lemma MovedDown<T>(d: seq<T>, at: nat, n: nat, count: nat)
    requires at + n <= count <= |d|
    ensures Moved(d, at, at + n, count - n - at)[..count - n] == Cut(d[..count], at, n)
    ensures at + n == count ==> d[..at] == Cut(d[..count], at, n)
  {
  }

  function Repeat<T>(x: T, n: nat): (r: seq<T>)
    ensures |r| == n && forall k :: 0 <= k < n ==> r[k] == x
  {
    seq(n, _ => x)
  }

  // ---------- The capacity policy ----------

  function Max(a: nat, b: nat): nat { if a > b then a else b }

  function GrownCapacity(size: nat): nat { Max(MIN_CAPACITY, size + size / 2 + 1) }

  function ShrunkCapacity(size: nat): nat { Max(MIN_CAPACITY, size * 2) }

  /** Does the capacity for `size` items overflow a size_t, in items or in bytes? */
  predicate TooLarge(size: nat, maxItems: nat) {
    size + size / 2 + 1 > SIZE_MAX || GrownCapacity(size) > maxItems
  }

  /** Does one of the checked size_t computations of `_grow` overflow, so that the process aborts? */
  predicate GrowOverflows(count: nat, amount: nat, capacity: nat, maxItems: nat) {
    count + amount > SIZE_MAX || (capacity < count + amount && TooLarge(count + amount, maxItems))
  }

  /** The largest number of items whose size in bytes is a size_t. */
  function MaxItems(itemSize: nat): (m: nat)
    requires itemSize > 0
    ensures forall n: nat :: n <= m <==> n * itemSize <= SIZE_MAX
  {
    SIZE_MAX / itemSize
  }

  /** MaxItems of the item size of a vector. */
  function Limit(itemSize: nat): nat { if itemSize == 0 then 0 else MaxItems(itemSize) }

  /** The capacity that `_shrink` allocates for `size` items. Its size in bytes is an unchecked product, which wraps
      around when that many items are too many for a size_t. */
  function AllocatedCapacity(size: nat, maxItems: nat): nat {
    var c := ShrunkCapacity(size);
    if c <= maxItems then c else c - maxItems - 1
  }

  /** What is left of the wrapped product is the size of so many items, and they are enough for what stays. */
  lemma WrappedProduct(itemSize: nat, size: nat, capacity: nat)
    requires itemSize > 0 && ShrinkReallocates(size, capacity) && capacity <= MaxItems(itemSize)
    ensures ShrunkCapacity(size) * itemSize % (SIZE_MAX + 1) / itemSize == AllocatedCapacity(size, MaxItems(itemSize))
    ensures size <= AllocatedCapacity(size, MaxItems(itemSize)) <= MaxItems(itemSize)
    ensures ShrunkCapacity(size) * itemSize > SIZE_MAX <==> MaxItems(itemSize) < MIN_CAPACITY
  {
    var c, m, range := ShrunkCapacity(size), MaxItems(itemSize), SIZE_MAX + 1;
    if c <= m {
      assert c * itemSize <= SIZE_MAX;
      QuotientIs(c * itemSize, itemSize, c);
    } else {
      assert c == 4 && 2 <= m <= 3 && size == 0;
      assert 2 * itemSize <= m * itemSize <= SIZE_MAX && (m + 1) * itemSize > SIZE_MAX by {
        if m == 2 { assert 3 * itemSize > SIZE_MAX; } else { assert 4 * itemSize > SIZE_MAX; }
      }
      assert c * itemSize % range == 4 * itemSize - range;
      QuotientIs(4 * itemSize - range, itemSize, 3 - m);
    }
  }

  lemma QuotientIs(x: nat, d: nat, q: nat)
    requires d > 0 && q * d <= x < q * d + d
    ensures x / d == q
  {
    var k := x / d;
    assert k * d <= x < k * d + d;
    Smaller(k, q + 1, d);
    Smaller(q, k + 1, d);
  }

  lemma Smaller(a: nat, b: nat, d: nat)
    requires a * d < b * d
    ensures a < b
  {
  }

  /** What an insertion of `n` items at `at` reports. `free` says that the storage may be edited in place. */
  function InsertVerdict(count: nat, capacity: nat, free: bool, maxItems: nat, at: nat, n: nat, alloc: bool): Outcome {
    if at > count then BadIndex
    else if GrowOverflows(count, n, capacity, maxItems) then Fatal
    else if capacity < count + n then (if alloc then Index(at) else NoMemory)
    else if !free && !alloc then Fatal
    else if at < capacity then Index(at)
    else NoMemory
  }

  predicate ShrinkReallocates(size: nat, capacity: nat) { size < capacity / 2 }

  /** Growth makes room for half as many items again: the grown capacity is the least one, of at least four, that
      is more than one and a half times the size. */
  lemma GrownIsLeast(size: nat, c: nat)
    ensures GrownCapacity(size) >= 4 && 2 * GrownCapacity(size) > 3 * size
    ensures c >= 4 && 2 * c > 3 * size ==> c >= GrownCapacity(size)
  {
  }

  /** Shrinking leaves room for as many items again, and happens when that makes a block of more than four smaller. */
  lemma ShrunkIsLeast(size: nat, c: nat, capacity: nat)
    ensures ShrunkCapacity(size) >= 4 && ShrunkCapacity(size) >= 2 * size
    ensures c >= 4 && c >= 2 * size ==> c >= ShrunkCapacity(size)
    ensures ShrinkReallocates(size, capacity) <==> 2 * (size + 1) <= capacity
  {
  }

  /** The bounds check of removeItemsAt, made in size_t arithmetic. */
  predicate RemovalAccepted(count: nat, at: nat, n: nat) { (at + n) % (SIZE_MAX + 1) <= count }

  /** The check accepts exactly the ranges inside the vector unless the sum wraps around, and every sum
      that wraps to at most `count` is a range outside the vector that is accepted all the same. */
  lemma RemovalCheckExact(count: nat, at: nat, n: nat)
    requires count <= SIZE_MAX && at <= SIZE_MAX && n <= SIZE_MAX
    ensures (RemovalAccepted(count, at, n) <==> at + n <= count)
       <==> !(SIZE_MAX < at + n <= SIZE_MAX + 1 + count)
  {
    if at + n > SIZE_MAX {
      assert (at + n) % (SIZE_MAX + 1) == at + n - (SIZE_MAX + 1);
    }
  }

  /** One item, and the last index there is: the check lets the removal of that item pass. */
  lemma WrappedRemovalIsAccepted()
    ensures RemovalAccepted(1, SIZE_MAX, 1) && !(SIZE_MAX + 1 <= 1) && RemovalUndefined(1, SIZE_MAX, 1)
  {
  }

  /** An accepted range outside the vector whose length `_shrink` does not refuse either. */
  predicate RemovalUndefined(count: nat, at: nat, n: nat) {
    at + n > SIZE_MAX && RemovalAccepted(count, at, n) && n <= count
  }

  /** The reallocating branch of `_shrink` makes the block smaller iff it had more than four items, or four items
      are too many for a size_t; otherwise, with a capacity of two or three, it enlarges it. */
  lemma ShrinkReduces(size: nat, capacity: nat, maxItems: nat)
    requires ShrinkReallocates(size, capacity) && capacity <= maxItems
    ensures AllocatedCapacity(size, maxItems) >= size
    ensures AllocatedCapacity(size, maxItems) < capacity <==> capacity > MIN_CAPACITY || maxItems < MIN_CAPACITY
    ensures AllocatedCapacity(size, maxItems) > capacity <==> capacity < MIN_CAPACITY <= maxItems
  {
  }

  /** What removeItemsAt reports. `stored` says that there is a block at all. */
  function RemoveVerdict(count: nat, capacity: nat, free: bool, stored: bool, at: nat, n: nat, alloc: bool): Outcome {
    if !RemovalAccepted(count, at, n) then BadValue
    else if !stored then Index(at)
    else if n > count then Fatal
    else if !ShrinkReallocates(count - n, capacity) && !free && !alloc then Fatal
    else Index(at)
  }

  /** Does a removal that is reported as done really take place? */
  predicate RemovalHappens(count: nat, capacity: nat, at: nat, n: nat, alloc: bool) {
    at + n <= count && (alloc || !ShrinkReallocates(count - n, capacity))
  }

  /** When an insertion succeeds and when it fails how, in numbers. */
  lemma InsertionOutcome(count: nat, capacity: nat, free: bool, maxItems: nat, at: nat, n: nat, alloc: bool)
    ensures var r, size := InsertVerdict(count, capacity, free, maxItems, at, n, alloc), count + n;
      var full := capacity < size;
      var overflows := size > 0xFFFF_FFFF
        || (full && (size + size / 2 >= 0xFFFF_FFFF || maxItems < 4 || size + size / 2 >= maxItems));
      && (r == BadIndex <==> at > count)
      && (r == Fatal <==> at <= count && (overflows || (!full && !free && !alloc)))
      && (r == NoMemory <==> at <= count && !overflows && if full then !alloc else (free || alloc) && at == capacity)
      && (r == Index(at) <==> at <= count && !overflows && if full then alloc else (free || alloc) && at < capacity)
  {
  }

  /** The same for a removal that stays inside the vector; without a block the vector is empty and stays so. */
  lemma RemovalOutcome(count: nat, capacity: nat, free: bool, at: nat, n: nat, alloc: bool)
    requires at + n <= count <= 0xFFFF_FFFF
    ensures var r := RemoveVerdict(count, capacity, free, true, at, n, alloc);
      && (r == Fatal <==> capacity < 2 * (count - n + 1) && !free && !alloc)
      && (r == Index(at) <==> capacity >= 2 * (count - n + 1) || free || alloc)
      && (RemovalHappens(count, capacity, at, n, alloc) <==> alloc || capacity < 2 * (count - n + 1))
    ensures RemoveVerdict(count, capacity, free, false, at, n, alloc) == Index(at)
  {
  }

  // ---------- Shared buffers ----------

  /** A reference-counted block; it is allocated while `refs` is positive. `sharers` are the vectors that
      point at it and `len` is how many items they keep in it. */
  class SharedBuffer<T(0)> {
    var refs: nat
    const data: array<T>
    ghost var sharers: set<VectorImpl<T>>
    ghost var len: nat

    ghost predicate Exact(vectors: set<VectorImpl<T>>)
      reads this, vectors
    {
      && refs == |sharers|
      && sharers <= vectors
      && len <= data.Length
      && forall v :: v in sharers ==> v.storage == this && v.count == len
    }

    constructor (size: nat, ghost sharer: VectorImpl<T>, ghost len: nat)
      ensures refs == 1 && fresh(data) && data.Length == size
      ensures sharers == {sharer} && this.len == len
    {
      refs := 1;
      data := new T[size];
      sharers, this.len := {sharer}, len;
    }
  }

  /** memcpy or do_copy between two distinct blocks, or from the part of a block in front of `at`. */
  method CopyItems<T>(dest: array<T>, at: nat, src: array<T>, from: nat, n: nat)
    requires at + n <= dest.Length && from + n <= src.Length && (dest == src ==> from + n <= at)
    modifies dest
    ensures forall k :: at <= k < at + n ==> dest[k] == old(src[k - at + from])
    ensures forall k :: 0 <= k < at || at + n <= k < dest.Length ==> dest[k] == old(dest[k])
  {
    for i := 0 to n
      invariant forall k :: at <= k < at + i ==> dest[k] == old(src[k - at + from])
      invariant forall k :: 0 <= k < at || at + i <= k < dest.Length ==> dest[k] == old(dest[k])
    {
      dest[at + i] := src[from + i];
    }
  }

  /** The first `keep` items stay where they are; `n` items from `from` on land at `to`. */
  method CopyAround<T>(dest: array<T>, src: array<T>, keep: nat, to: nat, from: nat, n: nat)
    requires dest != src && keep <= to && to + n <= dest.Length && keep <= from && from + n <= src.Length
    modifies dest
    ensures forall k :: 0 <= k < keep ==> dest[k] == src[k]
    ensures forall k :: from <= k < from + n ==> dest[to + (k - from)] == src[k]
  {
    if keep != 0 {
      CopyItems(dest, 0, src, 0, keep);
    }
    if n != 0 {
      CopyItems(dest, to, src, from, n);
    }
  }

  /** Overlapping move to higher positions: the highest item goes first. */
  method MoveForward<T>(a: array<T>, to: nat, from: nat, n: nat)
    requires from <= to && to + n <= a.Length
    modifies a
    ensures a[..] == Moved(old(a[..]), to, from, n)
  {
    ghost var was := a[..];
    var i := n;
    while i > 0
      invariant 0 <= i <= n
      invariant forall k :: to + i <= k < to + n ==> a[k] == was[k - to + from]
      invariant forall k :: 0 <= k < to + i || to + n <= k < a.Length ==> a[k] == was[k]
    {
      i := i - 1;
      a[to + i] := a[from + i];
    }
    MovedIs(was, a[..], to, from, n);
  }

  /** Overlapping move to lower positions: the lowest item goes first. */
  method MoveBackward<T>(a: array<T>, to: nat, from: nat, n: nat)
    requires to <= from && from + n <= a.Length
    modifies a
    ensures a[..] == Moved(old(a[..]), to, from, n)
  {
    ghost var was := a[..];
    for i := 0 to n
      invariant forall k :: to <= k < to + i ==> a[k] == was[k - to + from]
      invariant forall k :: 0 <= k < to || to + i <= k < a.Length ==> a[k] == was[k]
    {
      a[to + i] := a[from + i];
    }
    MovedIs(was, a[..], to, from, n);
  }

  /** Moves the items from `at` on out of the way of `amount` new ones. */
  method OpenGap<T>(a: array<T>, at: nat, amount: nat, count: nat)
    requires at <= count && count + amount <= a.Length
    modifies a
    ensures forall k :: 0 <= k < at ==> a[k] == old(a[k])
    ensures forall k :: at <= k < count ==> a[k + amount] == old(a[k])
  {
    if at != count {
      MoveForward(a, at + amount, at, count - at);
    }
  }

  /** Moves the items behind the `n` at `at` over them. */
  method CloseGap<T>(a: array<T>, at: nat, n: nat, count: nat)
    requires at + n <= count <= a.Length
    modifies a
    ensures a[..count - n] == Cut(old(a[..count]), at, n)
  {
    MovedDown(a[..], at, n, count);
    if at != count - n {
      MoveBackward(a, at, at + n, count - n - at);
    }
  }

  // ---------- The world of all vectors and buffers ----------

  /** Every vector alive and every buffer ever allocated. */
  class World<T(0)> {
    ghost var vectors: set<VectorImpl<T>>
    ghost var buffers: set<SharedBuffer<T>>
    ghost var home: map<array<T>, SharedBuffer<T>>  // which buffer a block of memory belongs to
    ghost var copied: nat  // how many items were copied from one block to another

    constructor ()
      ensures Valid() && vectors == {} && buffers == {} && copied == 0
    {
      vectors, buffers, home, copied := {}, {}, map[], 0;
    }

    /** Reference counts are exact (so a buffer is freed when its last sharer lets go, and not before),
        buffers do not overlap, vectors that share a buffer agree on the item count, and no block is larger than a
        size_t can say. */
    ghost predicate Valid()
      reads this, vectors, buffers
    {
      Counted() && Sized()
    }

    ghost predicate Counted()
      reads this, vectors, buffers
    {
      && (forall b :: b in buffers ==> b.Exact(vectors))
      && (forall b :: b in buffers ==> b.data in home && home[b.data] == b)
      && (forall v :: v in vectors && v.storage == null ==> v.count == 0)
      && (forall v :: v in vectors && v.storage != null ==> v.storage in buffers && v in v.storage.sharers)
    }

    ghost predicate Sized()
      reads this, vectors
    {
      forall v :: v in vectors ==> v.maxItems == Limit(v.itemSize) && v.Capacity() <= v.maxItems
    }

    /** Blocks are only ever added, and only newly allocated ones. */
    twostate predicate Grew()
      reads this
    {
      && old(buffers) <= buffers
      && forall b :: b in buffers && b !in old(buffers) ==> fresh(b) && fresh(b.data)
    }

    /** All blocks with their items, as a frame. */
    ghost function Memory(): set<object>
      reads this
    {
      (set b | b in buffers :: b as object) + (set b | b in buffers :: b.data as object)
    }

    /** Nothing about the other vectors changed. */
    twostate predicate OthersKept(v: VectorImpl<T>)
      reads this, vectors, set u | u in vectors && u.storage != null :: u.storage.data
    {
      && vectors == old(vectors)
      && Grew()
      && forall u :: u in vectors && u != v ==>
           u.storage == old(u.storage) && u.count == old(u.count) && u.Items() == old(u.Items())
    }
  }

  // ---------- Vectors ----------

  class VectorImpl<T(0)> {
    var storage: SharedBuffer?<T>
    var count: nat
    const trivialCopy: bool
    const trivialDtor: bool
    const itemSize: nat
    const maxItems: nat  // Limit of the item size

    /** May the storage be edited without copying it first? */
    predicate Free()
      reads this, Block()
    {
      storage == null || storage.refs == 1
    }

    /** The shared block, if any, as a frame. */
    function Block(): set<SharedBuffer<T>>
      reads this
    {
      if storage == null then {} else {storage}
    }

    ghost function Items(): seq<T>
      reads this, set b | b in Block() :: b.data
    {
      if storage == null || count > storage.data.Length then [] else storage.data[..count]
    }

    function Capacity(): nat
      reads this
    {
      if storage == null then 0 else storage.data.Length
    }

    constructor Empty(trivialCopy: bool, trivialDtor: bool, itemSize: nat, w: World<T>)
      requires w.Valid() && itemSize > 0
      modifies w
      ensures w.Valid() && w.vectors == old(w.vectors) + {this} && w.buffers == old(w.buffers)
      ensures storage == null && count == 0 && Items() == [] && this.itemSize == itemSize
    {
      this.trivialCopy, this.trivialDtor := trivialCopy, trivialDtor;
      this.itemSize, maxItems := itemSize, Limit(itemSize);
      storage, count := null, 0;
      new;
      w.vectors := w.vectors + {this};
    }

    constructor Copy(rhs: VectorImpl<T>, w: World<T>)
      requires w.Valid() && rhs in w.vectors
      modifies w, rhs.Block()
      ensures w.Valid() && w.vectors == old(w.vectors) + {this} && w.buffers == old(w.buffers)
      ensures storage == rhs.storage && Items() == rhs.Items() && itemSize == rhs.itemSize
    {
      trivialCopy, trivialDtor := rhs.trivialCopy, rhs.trivialDtor;
      itemSize, maxItems := rhs.itemSize, rhs.maxItems;
      storage, count := null, 0;
      new;
      w.vectors := w.vectors + {this};
      if rhs.storage != null {
        Share(rhs, w);
      }
    }

    /** What a valid world says about this vector alone. */
    lemma InWorld(w: World<T>)
      requires w.Valid() && this in w.vectors
      ensures |Items()| == count && (storage == null ==> count == 0)
      ensures maxItems == Limit(itemSize) && Capacity() <= maxItems
      ensures storage != null ==> storage in w.Memory() && storage.data in w.Memory()
      ensures storage != null ==> count <= storage.data.Length && Items() == storage.data[..count]
    {
    }

    /** Alone on a newly allocated block of `size` items. */
    twostate predicate Private(size: nat, w: World<T>, was: set<SharedBuffer<T>>, b: SharedBuffer?<T>)
      reads this, w, Block()
    {
      && storage != null && storage.data.Length == size && storage.sharers == {this}
      && storage != b && fresh(storage) && fresh(storage.data)
      && w.buffers == was + {storage}
    }

    // ----- The three pointer moves everything else is made of -----

    /** release_storage followed by clearing the fields, which is what finish_vector does. */
    method Finish(w: World<T>)
      requires w.Valid() && this in w.vectors
      modifies this, Block()
      ensures w.Valid() && storage == null && count == 0
      ensures forall b :: b in old(Block()) ==>
        b.refs == old(b.refs) - 1 && b.sharers == old(b.sharers) - {this} && b.len == old(b.len)
    {
      hide Limit;
      if storage != null {
        storage.refs := storage.refs - 1;
        storage.sharers := storage.sharers - {this};
        storage, count := null, 0;
      }
    }

    method PointAt(b: SharedBuffer<T>, n: nat, ghost cost: nat, w: World<T>)
      requires w.Counted() && this in w.vectors && storage == null
      requires b.refs == 1 && b.sharers == {this} && b.len == n <= b.data.Length
      requires b !in w.buffers && b.data !in w.home
      modifies this, w
      ensures w.Counted() && storage == b && count == n
      ensures w.vectors == old(w.vectors) && w.buffers == old(w.buffers) + {b} && w.copied == old(w.copied) + cost
    {
      storage, count := b, n;
      w.buffers, w.home, w.copied := w.buffers + {b}, w.home[b.data := b], w.copied + cost;
    }

    /** Points an empty vector at a newly allocated block, which it took `cost` item copies to fill. */
    method Adopt(b: SharedBuffer<T>, n: nat, ghost cost: nat, w: World<T>)
      requires w.Valid() && this in w.vectors && storage == null
      requires b.refs == 1 && b.sharers == {this} && b.len == n <= b.data.Length <= maxItems
      requires b !in w.buffers && b.data !in w.home
      modifies this, w
      ensures w.Valid() && storage == b && count == n
      ensures w.vectors == old(w.vectors) && w.buffers == old(w.buffers) + {b} && w.copied == old(w.copied) + cost
    {
      hide World.Counted, Limit;
      PointAt(b, n, cost, w);
    }

    /** release_storage, then point at a newly allocated block. */
    method Replace(b: SharedBuffer<T>, n: nat, ghost cost: nat, w: World<T>)
      requires w.Valid() && this in w.vectors
      requires b.refs == 1 && b.sharers == {this} && b.len == n <= b.data.Length <= maxItems
      requires b !in w.buffers && b.data !in w.home
      modifies this, w, Block()
      ensures w.Valid() && w.vectors == old(w.vectors)
      ensures storage == b && count == n && w.buffers == old(w.buffers) + {b}
      ensures b.sharers == {this} && w.copied == old(w.copied) + cost
    {
      Finish(w);
      Adopt(b, n, cost, w);
    }

    method Acquire(b: SharedBuffer<T>, n: nat, w: World<T>)
      requires w.Counted() && this in w.vectors && storage == null && b in w.buffers && b.len == n
      modifies this, b
      ensures w.Counted() && storage == b && count == n
      ensures b.refs == old(b.refs) + 1
    {
      storage, count := b, n;
      b.refs := b.refs + 1;
      b.sharers := b.sharers + {this};
      assert b.Exact(w.vectors);
      forall c | c in w.buffers && c != b ensures c.Exact(w.vectors) {
        assert old(c.Exact(w.vectors));
      }
    }

    lemma BlockOf(w: World<T>)
      requires w.Counted() && this in w.vectors && storage != null
      ensures storage in w.buffers && count == storage.len
    {
    }

    /** Points an empty vector at another vector's block. */
    method Share(rhs: VectorImpl<T>, w: World<T>)
      requires w.Valid() && this in w.vectors && storage == null && rhs in w.vectors && rhs.storage != null
      requires itemSize == rhs.itemSize
      modifies this, rhs.storage
      ensures w.Valid() && storage == rhs.storage && count == rhs.count
      ensures rhs.storage == old(rhs.storage)
      ensures rhs.storage.refs == old(rhs.storage.refs) + 1
    {
      hide World.Counted, Limit;
      rhs.BlockOf(w);
      Acquire(rhs.storage, rhs.count, w);
    }

    /** operator=; the process aborts when the item sizes differ. */
    method Assign(rhs: VectorImpl<T>, w: World<T>) returns (ok: bool)
      requires w.Valid() && this in w.vectors && rhs in w.vectors
      modifies this, Block(), rhs.Block()
      ensures w.Valid() && w.OthersKept(this)
      ensures ok <==> itemSize == rhs.itemSize
      ensures Items() == if ok then old(rhs.Items()) else old(Items())
      ensures ok && this != rhs ==> storage == (if old(rhs.count) > 0 then old(rhs.storage) else null)
    {
      hide World.Valid;
      InWorld(w);
      rhs.InWorld(w);
      ok := itemSize == rhs.itemSize;
      if ok && this != rhs {
        Finish(w);
        if rhs.count != 0 {
          Share(rhs, w);
        }
      }
    }

    /** editArrayImpl: afterwards the storage, if any, belongs to this vector alone. */
    method EditArray(w: World<T>, alloc: bool) returns (ok: bool)
      requires w.Valid() && this in w.vectors
      modifies this, w, Block()
      ensures w.Valid() && w.vectors == old(w.vectors)
      ensures count == old(count) && Items() == old(Items())
      ensures Capacity() == old(Capacity())
      ensures ok <==> alloc || old(Free())
      ensures ok && storage != null ==> storage.sharers == {this}
      ensures !ok || old(Free()) ==> storage == old(storage)
      ensures w.copied == old(w.copied) + if storage == old(storage) then 0 else count
      ensures if storage == old(storage) then unchanged(this) && unchanged(w)
              else fresh(storage) && fresh(storage.data) && w.buffers == old(w.buffers) + {storage}
      ensures storage != null && storage == old(storage) ==> unchanged(storage)
    {
      hide World.Valid;
      InWorld(w);
      SoleSharer(w);
      if storage != null {
        if storage.refs != 1 {
          if !alloc { return false; }
          var editable := new SharedBuffer<T>(storage.data.Length, this, count);
          CopyItems(editable.data, 0, storage.data, 0, count);
          Replace(editable, count, count, w);
        }
      }
      ok := true;
    }

    /** SharedBuffer::editResize: reallocates for a sole owner, otherwise copies and lets go. Either way
        the vector ends up alone on a block of `size` items that begins with its old items; it keeps
        or claims `n` of them. */
    method EditResize(size: nat, n: nat, w: World<T>, alloc: bool) returns (ok: bool)
      requires w.Valid() && this in w.vectors && storage != null && n <= size <= maxItems
      modifies this, w, Block()
      ensures w.Valid() && w.vectors == old(w.vectors)
      ensures ok == alloc
      ensures ok ==> count == n && Private(size, w, old(w.buffers), old(storage))
      ensures ok ==> w.copied == old(w.copied) + old(count)
      ensures ok ==> forall k :: 0 <= k < size && k < old(storage).data.Length
                       ==> storage.data[k] == old(storage.data[k])
      ensures !ok ==> unchanged(this) && unchanged(w) && unchanged(old(storage))
    {
      hide World.Valid;
      InWorld(w);
      if !alloc { return false; }
      var b := new SharedBuffer<T>(size, this, n);
      var m := if size < storage.data.Length then size else storage.data.Length;
      CopyItems(b.data, 0, storage.data, 0, m);
      Replace(b, n, count, w);
      ok := true;
    }

    /** A gap of `amount` items at `at` separates the two halves of `was`, in a block of this vector's own. */
    ghost predicate Opened(was: seq<T>, at: nat, amount: nat)
      reads this, Block(), set b | b in Block() :: b.data
    {
      && storage != null && storage.sharers == {this}
      && at <= |was| && count == |was| + amount <= storage.data.Length
      && (forall k :: 0 <= k < at ==> storage.data[k] == was[k])
      && (forall k :: at <= k < |was| ==> storage.data[k + amount] == was[k])
    }

    /** A sole owner keeps or claims `n` items. */
    method SetCount(n: nat, w: World<T>)
      requires w.Valid() && this in w.vectors && storage != null && storage.sharers == {this}
      requires n <= storage.data.Length
      modifies this`count, storage`len
      ensures w.Valid() && count == n
    {
      hide Limit;
      count, storage.len := n, n;
    }

    method GrowInPlace(at: nat, amount: nat, w: World<T>)
      requires w.Valid() && this in w.vectors && at <= count
      requires storage != null && storage.sharers == {this} && count + amount <= Capacity()
      modifies this, storage, storage.data
      ensures w.Valid() && storage == old(storage) && Opened(old(Items()), at, amount)
    {
      hide World.Valid;
      InWorld(w);
      OpenGap(storage.data, at, amount, count);
      SetCount(count + amount, w);
    }

    method GrowFresh(at: nat, amount: nat, capacity: nat, w: World<T>)
      requires w.Valid() && this in w.vectors && at <= count && count + amount <= capacity <= maxItems
      modifies this, w, Block()
      ensures w.Valid() && w.vectors == old(w.vectors)
      ensures Private(capacity, w, old(w.buffers), old(storage)) && Opened(old(Items()), at, amount)
      ensures w.copied == old(w.copied) + old(count)
    {
      hide World.Valid;
      InWorld(w);
      var b := new SharedBuffer<T>(capacity, this, count + amount);
      if storage != null {
        CopyAround(b.data, storage.data, at, at + amount, at, count - at);
      }
      Replace(b, count + amount, count, w);
    }

    /** The reallocating branch of `_grow`. */
    method GrowElsewhere(at: nat, amount: nat, w: World<T>)
      requires w.Valid() && this in w.vectors && at <= count && Capacity() < count + amount
      requires GrownCapacity(count + amount) <= maxItems
      modifies this, w, Block()
      ensures w.Valid() && w.vectors == old(w.vectors)
      ensures Private(GrownCapacity(old(count) + amount), w, old(w.buffers), old(storage))
      ensures Opened(old(Items()), at, amount) && w.copied == old(w.copied) + old(count)
      ensures count == old(count) + amount <= Capacity()
    {
      hide World.Valid, GrownCapacity;
      InWorld(w);
      var newSize := count + amount;
      EnoughCapacity(newSize);
      if storage != null && count == at && trivialCopy && trivialDtor {
        var _ := EditResize(GrownCapacity(newSize), newSize, w, true);
      } else {
        GrowFresh(at, amount, GrownCapacity(newSize), w);
      }
    }

    lemma EnoughCapacity(n: nat)
      ensures GrownCapacity(n) >= n
    {
    }

    /** The branch of `_grow` for a block that is large enough. */
    method GrowHere(at: nat, amount: nat, w: World<T>, alloc: bool) returns (ok: bool)
      requires w.Valid() && this in w.vectors && at <= count && count + amount <= Capacity()
      modifies this, w, Block(), PrivateData()
      ensures w.Valid() && w.vectors == old(w.vectors) && w.Grew() && Capacity() == old(Capacity())
      ensures ok == (alloc || old(Free()))
      ensures !ok ==> unchanged(this) && unchanged(w) && Items() == old(Items())
      ensures ok && storage != null ==> Opened(old(Items()), at, amount)
      ensures ok && storage == null ==> old(storage) == null && unchanged(w)
      ensures ok ==> count == old(count) + amount <= Capacity()
      ensures ok && storage != null ==> storage.data in old(PrivateData()) || fresh(storage.data)
      ensures ok && old(Free()) ==> storage == old(storage)
      ensures ok ==> w.copied == old(w.copied) + if old(Free()) then 0 else old(count)
    {
      hide World.Valid;
      InWorld(w);
      SoleSharer(w);
      ok := EditArray(w, alloc);
      if ok && storage != null {
        GrowInPlace(at, amount, w);
      }
    }

    /** The in-place and reallocating branches of `_grow` agree on `Opened`. */
    method Grow(at: nat, amount: nat, w: World<T>, alloc: bool) returns (r: Outcome)
      requires w.Valid() && this in w.vectors && at <= count
      modifies this, w, Block(), PrivateData()
      ensures w.Valid() && w.vectors == old(w.vectors) && w.Grew()
      ensures r.Index? ==> r.at == at < Capacity() && Opened(old(Items()), at, amount)
      ensures r.Index? ==> storage.data in old(PrivateData()) || fresh(storage.data)
      ensures r.Index? && old(Capacity()) >= old(count) + amount && old(Free()) ==> storage == old(storage)
      ensures r == InsertVerdict(old(count), old(Capacity()), old(Free()), maxItems, at, amount, alloc)
      ensures r.Index? ==> Capacity() == if old(Capacity()) < count then GrownCapacity(count) else old(Capacity())
      ensures r.Index? ==>
        w.copied == old(w.copied) + if old(Capacity()) < count || !old(Free()) then old(count) else 0
      ensures !r.Index? ==> Items() == old(Items())
      ensures !r.Index? && amount > 0 ==> unchanged(this) && unchanged(w)
    {
      hide World.Valid, Opened, GrownCapacity;
      InWorld(w);
      if GrowOverflows(count, amount, Capacity(), maxItems) { return Fatal; }
      if Capacity() < count + amount {
        if !alloc { return NoMemory; }
        GrowElsewhere(at, amount, w);
      } else {
        var ok := GrowHere(at, amount, w, alloc);
        if !ok { return Fatal; }
      }
      if at >= Capacity() && storage != null {
        NothingOpened(old(Items()), at);
      }
      return if at < Capacity() then Index(at) else NoMemory;
    }

    /** What `_grow` and `_shrink` do to the other vectors: nothing. */
    twostate lemma Isolated(w: World<T>)
      requires old(w.Valid() && this in w.vectors)
      requires w.vectors == old(w.vectors) && w.Grew()
      requires forall u :: u in w.vectors && u != this ==> unchanged(u)
      requires forall b :: b in old(w.buffers) && old(b.sharers) != {this} ==> unchanged(b.data)
      ensures w.OthersKept(this)
    {
      forall u | u in w.vectors && u != this
        ensures u.Items() == old(u.Items())
      {
        if u.storage != null {
          assert u in old(u.storage.sharers);
        }
      }
    }

    method FillGap(src: array<T>, from: nat, n: nat, at: nat, ghost was: seq<T>)
      requires Opened(was, at, n) && from + n <= src.Length && (storage.data == src ==> from + n <= at)
      modifies storage.data
      ensures Items() == Spliced(was, at, old(src[from..from + n]))
    {
      ghost var x := src[from..from + n];
      CopyItems(storage.data, at, src, from, n);
      SplicedIs(was, at, x, Items());
    }

    /** May `n` items from `from` on of the block `src` be inserted at `at`? Not if they lie in this vector's
        own block and the insertion moves or frees them before they are copied. */
    predicate Readable(src: array?<T>, from: nat, n: nat, at: nat)
      reads this, Block()
    {
      storage != null && storage.data == src && Free() && n > 0 && at <= count
        && !GrowOverflows(count, n, Capacity(), maxItems)
      ==> from + n <= at && count + n <= Capacity()
    }

    /** insertArrayAt on `n` items of some block, which may be the one that this vector uses. */
    method InsertArrayAt(src: array?<T>, from: nat, n: nat, at: nat, w: World<T>, alloc: bool) returns (r: Outcome)
      requires w.Valid() && this in w.vectors && from + n <= (if src == null then 0 else src.Length)
      requires Readable(src, from, n, at)
      modifies this, w, Block(), PrivateData()
      ensures w.Valid() && w.OthersKept(this)
      ensures r == InsertVerdict(old(count), old(Capacity()), old(Free()), maxItems, at, n, alloc)
      ensures Items() ==
        if r.Index? && n > 0 then Spliced(old(Items()), at, old(src[from..from + n])) else old(Items())
    {
      hide World.Valid, GrownCapacity, Spliced;
      InWorld(w);
      SoleSharer(w);
      if at > count { return BadIndex; }
      r := Grow(at, n, w, alloc);
      if r.Index? && n > 0 {
        assert src[from..from + n] == old(src[from..from + n]);
        FillGap(src, from, n, at, old(Items()));
      } else if r.Index? {
        NothingOpened(old(Items()), at);
      }
      Isolated(w);
    }

    /** A block with one reference is this vector's own, and no other block has its items. */
    lemma SoleSharer(w: World<T>)
      requires w.Valid() && this in w.vectors
      ensures storage != null ==> (storage.refs == 1 <==> storage.sharers == {this})
      ensures forall b :: b in w.buffers && b.data in PrivateData() ==> b.sharers == {this}
    {
      if storage != null {
        Alone(this, storage.sharers);
      }
    }

    lemma NothingOpened(was: seq<T>, at: nat)
      requires Opened(was, at, 0)
      ensures Items() == was
    {
      assert was == was[..at] + was[at..];
    }

    method InsertVectorAt(v: VectorImpl<T>, at: nat, w: World<T>, alloc: bool) returns (r: Outcome)
      requires w.Valid() && this in w.vectors && v in w.vectors && v.itemSize == itemSize
      requires v == this ==> Readable(if storage == null then null else storage.data, 0, count, at)
      modifies this, w, Block(), PrivateData()
      ensures w.Valid() && w.OthersKept(this)
      ensures r == InsertVerdict(old(count), old(Capacity()), old(Free()), maxItems, at, old(v.count), alloc)
      ensures Items() == if r.Index? then Spliced(old(Items()), at, old(v.Items())) else old(Items())
    {
      SoleSharer(w);
      r := InsertArrayAt(if v.storage == null then null else v.storage.data, 0, v.count, at, w, alloc);
    }

    method FillSplat(x: T, n: nat, at: nat, ghost was: seq<T>)
      requires Opened(was, at, n)
      modifies storage.data
      ensures Items() == Spliced(was, at, Repeat(x, n))
    {
      ghost var before := storage.data[..];
      for i := 0 to n
        invariant forall k :: at <= k < at + i ==> storage.data[k] == x
        invariant forall k :: 0 <= k < at || at + n <= k < storage.data.Length ==> storage.data[k] == before[k]
      {
        storage.data[at + i] := x;
      }
      SplicedIs(was, at, Repeat(x, n), Items());
    }

    /** insertAt: `n` copies of an item, or of the default-constructed one. */
    method InsertAt(x: T, at: nat, n: nat, w: World<T>, alloc: bool) returns (r: Outcome)
      requires w.Valid() && this in w.vectors
      modifies this, w, Block(), PrivateData()
      ensures w.Valid() && w.OthersKept(this)
      ensures r == InsertVerdict(old(count), old(Capacity()), old(Free()), maxItems, at, n, alloc)
      ensures Items() == if r.Index? then Spliced(old(Items()), at, Repeat(x, n)) else old(Items())
      ensures r.Index? ==> Capacity() == if old(Capacity()) < count then GrownCapacity(count) else old(Capacity())
      ensures r.Index? && n > 0 ==> Free()
      ensures !r.Index? && n > 0 ==> unchanged(this) && unchanged(w)
      ensures r.Index? ==>
        w.copied == old(w.copied) + if old(Capacity()) < count || !old(Free()) then old(count) else 0
    {
      hide World.Valid;
      InWorld(w);
      SoleSharer(w);
      if at > count { return BadIndex; }
      r := Grow(at, n, w, alloc);
      if r.Index? {
        FillSplat(x, n, at, old(Items()));
        SoleSharer(w);
      }
      Isolated(w);
    }

    method ReplaceAt(x: T, at: nat, w: World<T>, alloc: bool) returns (r: Outcome)
      requires w.Valid() && this in w.vectors
      modifies this, w, Block(), PrivateData()
      ensures w.Valid() && w.OthersKept(this)
      ensures r == if at >= old(count) then BadIndex else if alloc || old(Free()) then Index(at) else Fatal
      ensures Items() == if r.Index? then old(Items())[at := x] else old(Items())
    {
      hide World.Valid;
      InWorld(w);
      SoleSharer(w);
      if at >= count { return BadIndex; }
      var ok := EditArray(w, alloc);
      if ok {
        ghost var was := Items();
        storage.data[at] := x;
        assert Items() == was[at := x];
      }
      Isolated(w);
      return if ok then Index(at) else Fatal;
    }

    // ----- Removal -----

    /** `n` items at `at` are gone from `was`, in a block of this vector's own. */
    ghost predicate Closed(was: seq<T>, at: nat, n: nat)
      reads this, Block(), set b | b in Block() :: b.data
    {
      && storage != null && storage.sharers == {this}
      && at + n <= |was| && count <= Capacity() && Items() == Cut(was, at, n)
    }

    method ShrinkInPlace(at: nat, n: nat, w: World<T>)
      requires w.Valid() && this in w.vectors && at + n <= count
      requires storage != null && storage.sharers == {this}
      modifies this, storage, storage.data
      ensures w.Valid() && storage == old(storage) && Closed(old(Items()), at, n)
    {
      hide World.Valid, Cut;
      InWorld(w);
      CloseGap(storage.data, at, n, count);
      SetCount(count - n, w);
    }

    method ShrinkFresh(at: nat, n: nat, capacity: nat, w: World<T>)
      requires w.Valid() && this in w.vectors && storage != null && at + n <= count
      requires count - n <= capacity <= maxItems
      modifies this, w, Block()
      ensures w.Valid() && w.vectors == old(w.vectors)
      ensures Private(capacity, w, old(w.buffers), old(storage)) && Closed(old(Items()), at, n)
    {
      hide World.Valid;
      InWorld(w);
      var b := new SharedBuffer<T>(capacity, this, count - n);
      CopyAround(b.data, storage.data, at, at, at + n, count - n - at);
      CutIs(Items(), at, n, b.data[..count - n]);
      Replace(b, count - n, count - n, w);
    }

    /** The reallocating branch of `_shrink`. */
    method ShrinkElsewhere(at: nat, n: nat, w: World<T>)
      requires w.Valid() && this in w.vectors && storage != null && at + n <= count
      requires ShrinkReallocates(count - n, Capacity())
      modifies this, w, Block()
      ensures w.Valid() && w.vectors == old(w.vectors)
      ensures Private(AllocatedCapacity(count, maxItems), w, old(w.buffers), old(storage)) && Closed(old(Items()), at, n)
    {
      hide World.Valid;
      InWorld(w);
      CutEnds(Items(), at);
      var newSize := count - n;
      if at == newSize && trivialCopy && trivialDtor {
        var _ := EditResize(AllocatedCapacity(newSize, maxItems), newSize, w, true);
      } else {
        ShrinkFresh(at, n, AllocatedCapacity(newSize, maxItems), w);
      }
    }

    /** The other branch of `_shrink`. */
    method ShrinkHere(at: nat, n: nat, w: World<T>, alloc: bool) returns (ok: bool)
      requires w.Valid() && this in w.vectors && storage != null && at + n <= count
      modifies this, w, Block(), PrivateData()
      ensures w.Valid() && w.vectors == old(w.vectors) && w.Grew() && Capacity() == old(Capacity())
      ensures ok == (alloc || old(Free()))
      ensures if ok then Closed(old(Items()), at, n) else Items() == old(Items())
    {
      hide World.Valid;
      InWorld(w);
      SoleSharer(w);
      ok := EditArray(w, alloc);
      if ok {
        ShrinkInPlace(at, n, w);
      }
    }

    /** The in-place and reallocating branches of `_shrink` agree on `Closed`; when the allocation fails
        the vector stays as it was. */
    method Shrink(at: nat, n: nat, w: World<T>, alloc: bool) returns (ok: bool)
      requires w.Valid() && this in w.vectors && (storage == null || n > count || at + n <= count)
      modifies this, w, Block(), PrivateData()
      ensures w.Valid() && w.vectors == old(w.vectors) && w.Grew()
      ensures ok ==
        (old(storage) == null
         || (n <= old(count) && (alloc || old(Free()) || old(ShrinkReallocates(count - n, Capacity())))))
      ensures Items() ==
        if ok && RemovalHappens(old(count), old(Capacity()), at, n, alloc) then Cut(old(Items()), at, n)
        else old(Items())
      ensures Capacity() ==
        if ok && RemovalHappens(old(count), old(Capacity()), at, n, alloc) && old(ShrinkReallocates(count - n, Capacity()))
        then AllocatedCapacity(count, maxItems) else old(Capacity())
    {
      hide World.Valid;
      InWorld(w);
      SoleSharer(w);
      if storage == null { return true; }
      if n > count { return false; }
      CutEnds(Items(), at);
      var newSize := count - n;
      if ShrinkReallocates(newSize, Capacity()) {
        if !alloc { return true; }
        ShrinkElsewhere(at, n, w);
        return true;
      } else {
        ok := ShrinkHere(at, n, w, alloc);
      }
    }

    /** removeItemsAt. It reports success even when `_shrink` could not allocate and removed nothing. */
    method RemoveItemsAt(at: nat, n: nat, w: World<T>, alloc: bool) returns (r: Outcome)
      requires w.Valid() && this in w.vectors && count <= SIZE_MAX && at <= SIZE_MAX && n <= SIZE_MAX
      requires !RemovalUndefined(count, at, n)
      modifies this, w, Block(), PrivateData()
      ensures w.Valid() && w.OthersKept(this)
      ensures r == RemoveVerdict(old(count), old(Capacity()), old(Free()), old(storage) != null, at, n, alloc)
      ensures Items() ==
        if r.Index? && RemovalHappens(old(count), old(Capacity()), at, n, alloc) then Cut(old(Items()), at, n)
        else old(Items())
      ensures Capacity() ==
        if r.Index? && RemovalHappens(old(count), old(Capacity()), at, n, alloc) && old(ShrinkReallocates(count - n, Capacity()))
        then AllocatedCapacity(count, maxItems) else old(Capacity())
    {
      hide World.Valid;
      InWorld(w);
      SoleSharer(w);
      if !RemovalAccepted(count, at, n) { return BadValue; }
      var ok := Shrink(at, n, w, alloc);
      Isolated(w);
      return if ok then Index(at) else Fatal;
    }

    method SetCapacity(size: nat, w: World<T>, alloc: bool) returns (r: Outcome)
      requires w.Valid() && this in w.vectors
      modifies this, w, Block()
      ensures w.Valid() && w.OthersKept(this) && Items() == old(Items())
      ensures r == if size <= count then Index(old(Capacity())) else if size > maxItems then Fatal
                   else if alloc then Index(size) else NoMemory
      ensures Capacity() == if count < size <= maxItems && alloc then size else old(Capacity())
    {
      if size <= count { return Index(Capacity()); }
      if size > maxItems { return Fatal; }
      if !alloc { return NoMemory; }
      GrowFresh(count, 0, size, w);
      Isolated(w);
      return Index(size);
    }

    /** The items of the block, if this vector is alone on it, as a frame. */
    ghost function PrivateData(): set<array<T>>
      reads this, Block()
    {
      set b | b in Block() && b.sharers == {this} :: b.data
    }

  }

  lemma Alone<A>(x: A, s: set<A>)
    requires x in s
    ensures |s| == 1 ==> s == {x}
  {
    if y :| y in s && y != x {
      assert {x, y} <= s;
      assert |s - {x, y}| == |s| - 2;
    }
  }
}
