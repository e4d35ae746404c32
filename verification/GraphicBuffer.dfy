// Flattening of graphic buffers in libshims/ui/GraphicBuffer.cpp: a header of eight ints and the handle's
// ints go into one array, the handle's file descriptors into another.

module GraphicBuffers {

  type Int32 = x: int | -0x8000_0000 <= x <= 0x7FFF_FFFF

  const MAGIC: Int32 := 0x4742_4652  // 'GBFR'
  const HEADER: nat := 8
  const SIZEOF_INT: nat := 4
  const MAX_NUMBER: nat := 4096
  const HANDLE_LIMIT: nat := 0x0FFF_FFFF  // counts up to here keep every size within a size_t

  datatype Status = NoError | NoMemory | BadType | BadValue | RegisterFailed

  datatype Owner = OwnNone | OwnHandle | OwnData

  /** native_handle: first the file descriptors, then the ints. */
  class NativeHandle {
    const numFds: nat
    const numInts: nat
    const data: array<Int32>

    ghost predicate Valid() {
      numFds <= HANDLE_LIMIT && numInts <= HANDLE_LIMIT && data.Length == numFds + numInts
    }

    constructor (numFds: nat, numInts: nat)
      ensures this.numFds == numFds && this.numInts == numInts && fresh(data) && data.Length == numFds + numInts
    {
      this.numFds, this.numInts := numFds, numInts;
      data := new Int32[numFds + numInts];
    }
  }

  // ---------- The format ----------

  /** A buffer as a value. */
  datatype Image = Image(width: Int32, height: Int32, stride: Int32, format: Int32, usage: Int32,
    fds: seq<Int32>, ints: seq<Int32>)

  const BLANK := Image(0, 0, 0, 0, 0, [], [])

  function Encoded(m: Image): (s: seq<Int32>)
    requires |m.fds| <= HANDLE_LIMIT && |m.ints| <= HANDLE_LIMIT
    ensures |s| == HEADER + |m.ints|
  {
    [MAGIC, m.width, m.height, m.stride, m.format, m.usage, |m.fds|, |m.ints|] + m.ints
  }

  /** A count from the header as a size_t of 32 bits. */
  function AsSize(x: Int32): nat { if x < 0 then x + 0x1_0000_0000 else x }

  /** The checks of unflatten on what it is given, in their order. */
  function Checked(buf: seq<Int32>, size: nat, count: nat): Status
    requires size <= |buf| * SIZEOF_INT
  {
    if size < HEADER * SIZEOF_INT then NoMemory
    else if buf[0] != MAGIC then BadType
    else
      var numFds, numInts := AsSize(buf[6]), AsSize(buf[7]);
      if numFds >= MAX_NUMBER || numInts >= MAX_NUMBER - 10 then BadValue
      else if size < (HEADER + numInts) * SIZEOF_INT then NoMemory
      else if count < numFds then NoMemory
      else NoError
  }

  /** What unflatten makes of data that passes the checks; without descriptors and ints nothing is kept. */
  function Decoded(buf: seq<Int32>, size: nat, fds: seq<Int32>, count: nat): Image
    requires size <= |buf| * SIZEOF_INT && count <= |fds| && Checked(buf, size, count) == NoError
  {
    if buf[6] == 0 && buf[7] == 0 then BLANK
    else Image(buf[1], buf[2], buf[3], buf[4], buf[5], fds[..buf[6]], buf[HEADER..HEADER + buf[7]])
  }

  /** The format in plain numbers. */
  lemma FormatIs(m: Image)
    requires |m.fds| <= HANDLE_LIMIT && |m.ints| <= HANDLE_LIMIT
    ensures Encoded(m)[..8] ==
      [0x4742_4652, m.width, m.height, m.stride, m.format, m.usage, |m.fds|, |m.ints|]
    ensures Encoded(m)[8..] == m.ints
  {
  }

  /** What unflatten refuses, and with which status: too little data for a header, a wrong magic number, counts that
      are negative or too large, and too little data for the counts. */
  lemma RefusedFor(buf: seq<Int32>, size: nat, count: nat)
    requires size <= |buf| * 4
    ensures size < 32 ==> Checked(buf, size, count) == NoMemory
    ensures size >= 32 && buf[0] != 0x4742_4652 ==> Checked(buf, size, count) == BadType
    ensures size >= 32 && buf[0] == 0x4742_4652 ==>
      var limits := 0 <= buf[6] < 4096 && 0 <= buf[7] < 4086;
      var room := 32 + 4 * buf[7] <= size && buf[6] <= count;
      && (Checked(buf, size, count) == BadValue <==> !limits)
      && (Checked(buf, size, count) == NoMemory <==> limits && !room)
      && (Checked(buf, size, count) == NoError <==> limits && room)
  {
  }

  /** Which buffers survive being flattened and unflattened: the checks pass exactly when the counts are
      below the limits, and the result is the original exactly when there is something in the handle, or the
      buffer was blank anyway. Whatever follows in the arrays does not matter. */
  lemma RoundTrip(m: Image, buf: seq<Int32>, fds: seq<Int32>, size: nat, count: nat)
    requires |m.fds| <= HANDLE_LIMIT && |m.ints| <= HANDLE_LIMIT
    requires Encoded(m) <= buf && m.fds <= fds && count <= |fds|
    requires (HEADER + |m.ints|) * SIZEOF_INT <= size <= |buf| * SIZEOF_INT && |m.fds| <= count
    ensures Checked(buf, size, count) == NoError <==> |m.fds| < MAX_NUMBER && |m.ints| < MAX_NUMBER - 10
    ensures Checked(buf, size, count) == NoError ==>
      (Decoded(buf, size, fds, count) == m <==> m.fds + m.ints != [] || m == BLANK)
  {
    var e := Encoded(m);
    assert forall i :: 0 <= i < |e| ==> buf[i] == e[i];
    assert buf[6] == |m.fds| && buf[7] == |m.ints|;
    assert buf[HEADER..HEADER + |m.ints|] == e[HEADER..] == m.ints;
    assert fds[..|m.fds|] == m.fds;
    if m.fds + m.ints != [] {
      assert m.fds != [] || m.ints != [];
    }
  }

  /** A buffer of 640 by 480 pixels without a handle passes all checks and comes out blank. */
  lemma EmptyHandleIsBlanked(m: Image)
    requires m == Image(640, 480, 640, 1, 0, [], [])
    ensures Checked(Encoded(m), HEADER * SIZEOF_INT, 0) == NoError
    ensures Decoded(Encoded(m), HEADER * SIZEOF_INT, [], 0) == BLANK != m
  {
    RoundTrip(m, Encoded(m), [], HEADER * SIZEOF_INT, 0);
  }

  // ---------- The object ----------

  class GraphicBuffer {
    var width: Int32
    var height: Int32
    var stride: Int32
    var format: Int32
    var usage: Int32
    var handle: NativeHandle?
    var owner: Owner
    ghost var freed: seq<(Owner, NativeHandle)>  // every handle that free_handle has given back, and how

    ghost predicate Valid()
      reads this
    {
      handle != null ==> handle.Valid()
    }

    ghost function Value(): Image
      requires Valid()
      reads this, if handle == null then {} else {handle.data}
    {
      if handle == null then Image(width, height, stride, format, usage, [], [])
      else Image(width, height, stride, format, usage, handle.data[..handle.numFds], handle.data[handle.numFds..])
    }

    constructor ()
      ensures Valid() && Value() == BLANK && owner == OwnData && freed == []
    {
      width, height, stride, format, usage := 0, 0, 0, 0, 0;
      handle, owner, freed := null, OwnData, [];
    }

    function GetFlattenedSize(): nat
      reads this
    {
      (HEADER + if handle == null then 0 else handle.numInts) * SIZEOF_INT
    }

    function GetFdCount(): nat
      reads this
    {
      if handle == null then 0 else handle.numFds
    }

    /** flatten. `size` is in bytes. The result is the encoding, and nothing else in the arrays changes. */
    method Flatten(buffer: array<Int32>, size: nat, fds: array<Int32>, count: nat)
      returns (status: Status, sizeLeft: nat, countLeft: nat)
      requires Valid() && buffer != fds && size <= buffer.Length * SIZEOF_INT && count <= fds.Length
      requires handle != null ==> handle.data != buffer && handle.data != fds
      modifies buffer, fds
      ensures var m := old(Value()); var used := HEADER + |m.ints|;
        if size >= used * SIZEOF_INT && count >= |m.fds| then
          && status == NoError && sizeLeft == size - used * SIZEOF_INT && countLeft == count - |m.fds|
          && buffer[..] == Encoded(m) + old(buffer[used..])
          && fds[..] == m.fds + old(fds[|m.fds|..])
        else
          status == NoMemory && sizeLeft == size && countLeft == count
          && buffer[..] == old(buffer[..]) && fds[..] == old(fds[..])
    {
      sizeLeft, countLeft := size, count;
      var sizeNeeded := GetFlattenedSize();
      if size < sizeNeeded { return NoMemory, size, count; }
      var fdCountNeeded := GetFdCount();
      if count < fdCountNeeded { return NoMemory, size, count; }
      WriteHeader(buffer);
      if handle != null {
        CopyInts(fds, 0, handle.data, 0, handle.numFds);
        CopyInts(buffer, HEADER, handle.data, handle.numFds, handle.numInts);
      }
      ThreeParts(buffer[..], old(buffer[..]), buffer[..HEADER], Value().ints);
      return NoError, size - sizeNeeded, if handle != null then count - handle.numFds else count;
    }

    method WriteHeader(buffer: array<Int32>)
      requires Valid() && buffer.Length >= HEADER
      modifies buffer
      ensures buffer[..HEADER] == [MAGIC, width, height, stride, format, usage, GetFdCount(), GetIntCount()]
      ensures buffer[HEADER..] == old(buffer[HEADER..])
    {
      buffer[0], buffer[1], buffer[2], buffer[3] := MAGIC, width, height, stride;
      buffer[4], buffer[5], buffer[6], buffer[7] := format, usage, 0, 0;
      if handle != null {
        buffer[6], buffer[7] := handle.numFds, handle.numInts;
      }
    }

    function GetIntCount(): nat
      reads this
    {
      if handle == null then 0 else handle.numInts
    }

    method Blank()
      modifies this`width, this`height, this`stride, this`format, this`usage, this`handle
      ensures Valid() && Value() == BLANK && handle == null
    {
      width, height, stride, format, usage := 0, 0, 0, 0, 0;
      handle := null;
    }

    /** free_handle: an owned handle goes back to where it came from. */
    method FreeHandle()
      requires handle != null
      modifies this`freed
      ensures freed == old(freed) + if owner == OwnNone then [] else [(owner, handle)]
    {
      if owner == OwnHandle || owner == OwnData {
        freed := freed + [(owner, handle)];
      }
    }

    /** unflatten. `created` and `registered` are the verdicts of handle creation and registration. */
    method Unflatten(buffer: array<Int32>, size: nat, fds: array<Int32>, count: nat, created: bool, registered: bool)
      returns (status: Status, sizeLeft: nat, countLeft: nat)
      requires Valid() && size <= buffer.Length * SIZEOF_INT && count <= fds.Length
      modifies this
      ensures Valid()
      ensures var checks := Checked(buffer[..], size, count);
        if checks != NoError then
          && status == checks && sizeLeft == size && countLeft == count && freed == old(freed)
          && (if checks == BadValue then Value() == BLANK && handle == null
              else unchanged(this))
        else
          var m := Decoded(buffer[..], size, fds[..], count);
          var used := HEADER + AsSize(buffer[7]);
          && freed == old(freed) + (if old(handle) == null || old(owner) == OwnNone then [] else [(old(owner), old(handle))])
          && status == (if m.fds + m.ints == [] then NoError
                        else if !created then NoMemory else if !registered then RegisterFailed else NoError)
          && Value() == (if status == NoError then m else BLANK)
          && (handle != null <==> status == NoError && m.fds + m.ints != [])
          && (status == NoError ==> owner == OwnHandle && sizeLeft == size - used * SIZEOF_INT && countLeft == count - |m.fds|)
          && (status != NoError ==> sizeLeft == size && countLeft == count)
    {
      sizeLeft, countLeft := size, count;
      if size < HEADER * SIZEOF_INT { return NoMemory, size, count; }
      if buffer[0] != MAGIC { return BadType, size, count; }
      var numFds, numInts := AsSize(buffer[6]), AsSize(buffer[7]);
      if numFds >= MAX_NUMBER || numInts >= MAX_NUMBER - 10 {
        Blank();
        return BadValue, size, count;
      }
      var sizeNeeded := (HEADER + numInts) * SIZEOF_INT;
      if size < sizeNeeded { return NoMemory, size, count; }
      if count < numFds { return NoMemory, size, count; }
      if handle != null {
        FreeHandle();
      }
      status := Restore(buffer, numInts, fds, numFds, created, registered);
      if status == NoError {
        sizeLeft, countLeft := size - sizeNeeded, count - numFds;
      }
    }

    /** The part of unflatten behind the checks: the new members, and the new handle if there is one. */
    method Restore(buffer: array<Int32>, numInts: nat, fds: array<Int32>, numFds: nat, created: bool, registered: bool)
      returns (status: Status)
      requires Valid() && HEADER + numInts <= buffer.Length && numFds <= fds.Length
      requires numFds <= HANDLE_LIMIT && numInts <= HANDLE_LIMIT
      modifies this`width, this`height, this`stride, this`format, this`usage, this`handle, this`owner
      ensures Valid()
      ensures var empty := numFds == 0 && numInts == 0;
        && status == (if empty then NoError
                      else if !created then NoMemory else if !registered then RegisterFailed else NoError)
        && (handle != null <==> status == NoError && !empty)
        && (status == NoError ==> owner == OwnHandle)
        && Value() == if status != NoError || empty then BLANK
                      else Image(buffer[1], buffer[2], buffer[3], buffer[4], buffer[5],
                                 fds[..numFds], buffer[HEADER..HEADER + numInts])
    {
      if numFds != 0 || numInts != 0 {
        width, height, stride, format, usage := buffer[1], buffer[2], buffer[3], buffer[4], buffer[5];
        if !created {
          Blank();
          return NoMemory;
        }
        handle := Rebuilt(buffer, numInts, fds, numFds);
      } else {
        Blank();
      }
      owner := OwnHandle;
      if handle != null && !registered {
        Blank();
        return RegisterFailed;
      }
      return NoError;
    }
  }

  /** native_handle_create and the two copies into it. */
  method Rebuilt(buffer: array<Int32>, numInts: nat, fds: array<Int32>, numFds: nat) returns (h: NativeHandle)
    requires HEADER + numInts <= buffer.Length && numFds <= fds.Length
    ensures fresh(h) && h.numFds == numFds && h.numInts == numInts && fresh(h.data)
    ensures h.data.Length == numFds + numInts
    ensures h.data[..numFds] == fds[..numFds] && h.data[numFds..] == buffer[HEADER..HEADER + numInts]
  {
    h := new NativeHandle(numFds, numInts);
    CopyInts(h.data, 0, fds, 0, numFds);
    CopyInts(h.data, numFds, buffer, HEADER, numInts);
  }

  lemma ThreeParts(b: seq<Int32>, was: seq<Int32>, head: seq<Int32>, ints: seq<Int32>)
    requires |head| + |ints| <= |b| == |was| && b[..|head|] == head
    requires b[|head|..|head| + |ints|] == ints && b[|head| + |ints|..] == was[|head| + |ints|..]
    ensures b == head + ints + was[|head| + |ints|..]
  {
  }

  /** memcpy between int arrays. */
  method CopyInts(dest: array<Int32>, to: nat, src: array<Int32>, from: nat, n: nat)
    requires dest != src && to + n <= dest.Length && from + n <= src.Length
    modifies dest
    ensures dest[to..to + n] == src[from..from + n]
    ensures dest[..to] == old(dest[..to]) && dest[to + n..] == old(dest[to + n..])
  {
    for i := 0 to n
      invariant forall k :: to <= k < to + i ==> dest[k] == src[k - to + from]
      invariant forall k :: 0 <= k < to || to + n <= k < dest.Length ==> dest[k] == old(dest[k])
    {
      dest[to + i] := src[from + i];
    }
  }

  /** A buffer handed over: flattened here, unflattened there. With room in the arrays, counts below the
      limits and a handle that can be made and registered, the receiver holds what the sender holds,
      unless the sender's handle is empty. */
  method HandOver(a: GraphicBuffer, b: GraphicBuffer, buffer: array<Int32>, size: nat, fds: array<Int32>, count: nat)
    requires a.Valid() && b.Valid() && a != b && buffer != fds
    requires size <= buffer.Length * SIZEOF_INT && count <= fds.Length
    requires a.handle != null ==> a.handle.data != buffer && a.handle.data != fds
    requires var m := a.Value(); size >= (HEADER + |m.ints|) * SIZEOF_INT && count >= |m.fds|
    requires var m := a.Value(); |m.fds| < MAX_NUMBER && |m.ints| < MAX_NUMBER - 10
    modifies b, buffer, fds
    ensures b.Valid()
    ensures b.Value() == old(a.Value()) <==> old(a.Value().fds + a.Value().ints) != [] || old(a.Value()) == BLANK
  {
    ghost var m := a.Value();
    var sent, left, fdsLeft := a.Flatten(buffer, size, fds, count);
    assert Encoded(m) <= buffer[..] && m.fds <= fds[..];
    RoundTrip(m, buffer[..], fds[..], size, count);
    ghost var d := Decoded(buffer[..], size, fds[..], count);
    var status, l, f := b.Unflatten(buffer, size, fds, count, true, true);
    assert b.Value() == d;
  }
}
