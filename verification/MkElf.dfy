// The image writer boot/mkelf.py: a 32-bit little-endian ELF header, one program header per segment, an
// optional board name, and the segments from offset 4096 on.

module MkElf {
  import opened Options

  type byte = x: int | 0 <= x < 256

  /** The mark of an input file; `Entry` is accepted on the command line and has no effect. */
  datatype Mark = Plain | Ramdisk | Ipl | Cmdline | Entry | Rpm

  /** An input file with its address. */
  datatype Segment = Segment(mark: Mark, addr: nat, data: seq<byte>)

  const PT_LOAD: nat := 1
  const PT_NOTE: nat := 4
  const PAGE: nat := 4096
  const BOARD: nat := 16
  const EHDR: nat := 52
  const PHDR: nat := 32
  const U16_RANGE: nat := 0x1_0000
  const U32_RANGE: nat := 0x1_0000_0000

  function TypeOf(m: Mark): nat { if m == Cmdline then PT_NOTE else PT_LOAD }

  function FlagsOf(m: Mark): nat {
    match m
    case Ramdisk => 0x80000000
    case Ipl => 0x40000000
    case Cmdline => 0x20000000
    case Rpm => 0x01000000
    case Plain => 0
    case Entry => 0
  }

  // ---------- struct.pack ----------

  function U16(x: nat): (s: seq<byte>)
    requires x < U16_RANGE
    ensures |s| == 2
  {
    [x % 256, x / 256]
  }

  function U32(x: nat): (s: seq<byte>)
    requires x < U32_RANGE
    ensures |s| == 4
  {
    [x % 256, x / 0x100 % 256, x / 0x1_0000 % 256, x / 0x100_0000]
  }

  predicate AllBelow(xs: seq<nat>, bound: nat) { forall i :: 0 <= i < |xs| ==> xs[i] < bound }

  /** '<LLL...' */
  function Words(xs: seq<nat>): (s: seq<byte>)
    requires AllBelow(xs, U32_RANGE)
    ensures |s| == 4 * |xs|
  {
    if xs == [] then [] else U32(xs[0]) + Words(xs[1..])
  }

  /** '<HHH...' */
  function Halves(xs: seq<nat>): (s: seq<byte>)
    requires AllBelow(xs, U16_RANGE)
    ensures |s| == 2 * |xs|
  {
    if xs == [] then [] else U16(xs[0]) + Halves(xs[1..])
  }

  function U16At(b: seq<byte>, at: nat): nat
    requires at + 2 <= |b|
  {
    (b[at] as int) + 256 * (b[at + 1] as int)
  }

  function U32At(b: seq<byte>, at: nat): nat
    requires at + 4 <= |b|
  {
    (b[at] as int) + 0x100 * (b[at + 1] as int) + 0x1_0000 * (b[at + 2] as int) + 0x100_0000 * (b[at + 3] as int)
  }

  /** Least significant byte first. */
  lemma PackedWordReads(x: nat)
    requires x < U32_RANGE
    ensures var s := U32(x);
      U32At(s, 0) == x == s[0] as int + 0x100 * (s[1] as int) + 0x1_0000 * (s[2] as int) + 0x100_0000 * (s[3] as int)
  {
    assert x / 0x1_0000 == x / 0x100 / 256 && x / 0x100_0000 == x / 0x1_0000 / 256;
  }

  lemma {:induction false} WordInPlace(xs: seq<nat>, i: nat)
    requires i < |xs| && AllBelow(xs, U32_RANGE)
    ensures Words(xs)[4 * i..4 * i + 4] == U32(xs[i])
  {
    if i == 0 {
    } else {
      WordInPlace(xs[1..], i - 1);
      assert Words(xs)[4 * i..4 * i + 4] == Words(xs[1..])[4 * (i - 1)..4 * (i - 1) + 4];
    }
  }

  /** Field `i` reads back what was packed into it. */
  lemma WordReads(xs: seq<nat>, i: nat)
    requires i < |xs| && AllBelow(xs, U32_RANGE)
    ensures U32At(Words(xs), 4 * i) == xs[i]
  {
    WordInPlace(xs, i);
    PackedWordReads(xs[i]);
    var w := Words(xs)[4 * i..4 * i + 4];
    assert w[0] == Words(xs)[4 * i] && w[1] == Words(xs)[4 * i + 1];
    assert w[2] == Words(xs)[4 * i + 2] && w[3] == Words(xs)[4 * i + 3];
  }

  lemma {:induction false} HalfReads(xs: seq<nat>, i: nat)
    requires i < |xs| && AllBelow(xs, U16_RANGE)
    ensures U16At(Halves(xs), 2 * i) == xs[i]
  {
    if i == 0 {
    } else {
      HalfReads(xs[1..], i - 1);
    }
  }

  /** From `at` on, `b` holds the bytes `from` to `to` of `s`. */
  predicate Holds(b: seq<byte>, at: nat, s: seq<byte>, from: nat, to: nat) {
    && to <= |s| && at + to <= |b|
    && (forall j :: from <= j < to ==> b[at + j] == s[j])
  }

  /** '<16s': cut off or padded with zeros. */
  function Name16(name: seq<byte>): (s: seq<byte>)
    ensures |s| == BOARD
  {
    if |name| >= BOARD then name[..BOARD] else name + seq(BOARD - |name|, _ => 0)
  }

  // ---------- The headers ----------

  function Ident(): (s: seq<byte>)
    ensures |s| == 16
  {
    [0x7f, 0x45, 0x4c, 0x46, 1, 1, 1, 0x61] + [0, 0, 0, 0, 0, 0, 0, 0]
  }

  function ElfHeader(entry: nat, phnum: nat): (s: seq<byte>)
    requires entry < U32_RANGE && phnum < U16_RANGE
    ensures |s| == EHDR
  {
    Ident() + Halves([2, 40]) + Words([1, entry, EHDR, 0, 0]) + Halves([EHDR, PHDR, phnum, 0, 0, 0])
  }

  /** The fields of a program header in file order; the last one is the alignment. */
  function PhdrFields(s: Segment, offset: nat): seq<nat> {
    [TypeOf(s.mark), offset, s.addr, s.addr, |s.data|, |s.data|, FlagsOf(s.mark), 0]
  }

  /** The values that 'L' can hold: beyond them struct.pack raises an error. */
  predicate FitsHeader(s: Segment, offset: nat) {
    offset < U32_RANGE && s.addr < U32_RANGE && |s.data| < U32_RANGE
  }

  function ProgramHeader(s: Segment, offset: nat): (h: seq<byte>)
    requires FitsHeader(s, offset)
    ensures |h| == PHDR
  {
    Words(PhdrFields(s, offset))
  }

  // ---------- The output file ----------

  /** Bytes written at a position: a gap before it fills with zeros, and what was there is overwritten. */
  function WriteAt(b: seq<byte>, at: nat, s: seq<byte>): seq<byte> {
    if s == [] then b
    else (if at <= |b| then b[..at] else b + seq(at - |b|, _ => 0)) + s + (if at + |s| < |b| then b[at + |s|..] else [])
  }

  lemma Written(b: seq<byte>, at: nat, s: seq<byte>)
    requires s != []
    ensures var r := WriteAt(b, at, s);
      && |r| == (if at + |s| < |b| then |b| else at + |s|)
      && (forall i :: 0 <= i < |r| ==> r[i] == if at <= i < at + |s| then s[i - at] else if i < |b| then b[i] else 0)
  {
  }

  lemma WriteAtEnd(b: seq<byte>, s: seq<byte>)
    ensures WriteAt(b, |b|, s) == b + s
  {
  }

  lemma WriteOn(b: seq<byte>, at: nat, s: seq<byte>, t: seq<byte>)
    ensures WriteAt(WriteAt(b, at, s), at + |s|, t) == WriteAt(b, at, s + t)
  {
    if s == [] {
      assert s + t == t;
    } else if t == [] {
      assert s + t == s;
    } else {
      var l, r := WriteAt(WriteAt(b, at, s), at + |s|, t), WriteAt(b, at, s + t);
      Written(b, at, s);
      Written(WriteAt(b, at, s), at + |s|, t);
      Written(b, at, s + t);
      assert |l| == |r|;
      assert forall i :: 0 <= i < |l| ==> l[i] == r[i];
    }
  }

  class ElfFile {
    var bytes: seq<byte>
    var pos: nat

    constructor ()
      ensures bytes == [] && pos == 0
    {
      bytes, pos := [], 0;
    }

    method Seek(to: nat)
      modifies `pos
      ensures pos == to
    {
      pos := to;
    }

    method Write(s: seq<byte>)
      modifies this
      ensures bytes == WriteAt(old(bytes), old(pos), s) && pos == old(pos) + |s|
    {
      bytes, pos := WriteAt(bytes, pos, s), pos + |s|;
    }
  }

  // ---------- Layout ----------

  /** The file offset of segment `i`: the segments before it follow each other from the first page on. */
  function OffsetOf(segs: seq<Segment>, i: nat): (o: nat)
    requires i <= |segs|
    ensures o >= PAGE
  {
    if i == 0 then PAGE else OffsetOf(segs, i - 1) + |segs[i - 1].data|
  }

  /** The contents of the first `k` segments, one after the other. */
  function Data(segs: seq<Segment>, k: nat): (d: seq<byte>)
    requires k <= |segs|
    ensures |d| == OffsetOf(segs, k) - PAGE
  {
    if k == 0 then [] else Data(segs, k - 1) + segs[k - 1].data
  }

  predicate FitsUpTo(segs: seq<Segment>, k: nat)
    requires k <= |segs|
  {
    && 0 < |segs| < U16_RANGE && segs[0].addr < U32_RANGE
    && (forall i {:trigger FitsHeader(segs[i], OffsetOf(segs, i))} :: 0 <= i < k ==> FitsHeader(segs[i], OffsetOf(segs, i)))
  }

  predicate Fits(segs: seq<Segment>) { FitsUpTo(segs, |segs|) }

  /** Every field of every header can be packed. */
  lemma FitsIff(segs: seq<Segment>)
    ensures Fits(segs) <==>
      && 0 < |segs| < 0x1_0000
      && forall i :: 0 <= i < |segs| ==>
           segs[i].addr < 0x1_0000_0000 && |segs[i].data| < 0x1_0000_0000 && OffsetOf(segs, i) < 0x1_0000_0000
  {
    hide OffsetOf;
    if Fits(segs) {
      forall i | 0 <= i < |segs|
        ensures segs[i].addr < 0x1_0000_0000 && |segs[i].data| < 0x1_0000_0000 && OffsetOf(segs, i) < 0x1_0000_0000
      {
        assert FitsHeader(segs[i], OffsetOf(segs, i));
      }
    }
  }

  /** The first `k` program headers. */
  function Table(segs: seq<Segment>, k: nat): (t: seq<byte>)
    requires k <= |segs| && FitsUpTo(segs, k)
    ensures |t| == PHDR * k
  {
    if k == 0 then [] else Table(segs, k - 1) + ProgramHeader(segs[k - 1], OffsetOf(segs, k - 1))
  }

  function Headers(segs: seq<Segment>): (h: seq<byte>)
    requires Fits(segs)
    ensures |h| == EHDR + PHDR * |segs|
  {
    ElfHeader(segs[0].addr, |segs|) + Table(segs, |segs|)
  }

  /** The image: headers, then the board name in the last bytes of the first page, then the contents. */
  function Named(h: seq<byte>, board: Option<seq<byte>>): seq<byte> {
    if board.None? then h else WriteAt(h, PAGE - BOARD, Name16(board.value))
  }

  function Image(segs: seq<Segment>, board: Option<seq<byte>>): seq<byte>
    requires Fits(segs)
  {
    WriteAt(Named(Headers(segs), board), PAGE, Data(segs, |segs|))
  }

  // ---------- The writer ----------

  /** The header writers run before any seek, so they append. */
  method WriteElfHeader(elf: ElfFile, entry: nat, phnum: nat) returns (ok: bool)
    requires elf.bytes == [] && elf.pos == 0
    modifies elf
    ensures ok == (entry < U32_RANGE && phnum < U16_RANGE)
    ensures elf.bytes == (if ok then ElfHeader(entry, phnum) else []) && elf.pos == |elf.bytes|
  {
    ok := entry < U32_RANGE && phnum < U16_RANGE;
    if ok {
      WriteAtEnd([], ElfHeader(entry, phnum));
      elf.Write(ElfHeader(entry, phnum));
    }
  }

  method WriteElfPhdr(elf: ElfFile, seg: Segment, offset: nat) returns (ok: bool)
    requires elf.pos == |elf.bytes|
    modifies elf
    ensures ok == FitsHeader(seg, offset)
    ensures elf.bytes == if ok then old(elf.bytes) + ProgramHeader(seg, offset) else old(elf.bytes)
    ensures elf.pos == |elf.bytes|
  {
    ok := FitsHeader(seg, offset);
    if ok {
      WriteAtEnd(elf.bytes, ProgramHeader(seg, offset));
      elf.Write(ProgramHeader(seg, offset));
    }
  }

  lemma NextOffset(inputs: seq<Segment>, i: nat)
    requires i < |inputs|
    ensures OffsetOf(inputs, 0) == PAGE && OffsetOf(inputs, i + 1) == OffsetOf(inputs, i) + |inputs[i].data|
  {
  }

  method LayOut(inputs: seq<Segment>) returns (offsets: seq<nat>)
    ensures |offsets| == |inputs|
    ensures forall i :: 0 <= i < |inputs| ==> offsets[i] == OffsetOf(inputs, i)
  {
    hide OffsetOf;
    var offset := PAGE;
    offsets := [];
    if inputs != [] {
      NextOffset(inputs, 0);
    }
    for i := 0 to |inputs|
      invariant |offsets| == i && (inputs != [] ==> offset == OffsetOf(inputs, i))
      invariant forall j :: 0 <= j < i ==> offsets[j] == OffsetOf(inputs, j)
    {
      NextOffset(inputs, i);
      offsets := offsets + [offset];
      offset := offset + |inputs[i].data|;
    }
  }

  method WriteTable(elf: ElfFile, segs: seq<Segment>, offsets: seq<nat>) returns (ok: bool)
    requires FitsUpTo(segs, 0) && elf.pos == |elf.bytes|
    requires |segs| == |offsets| && forall i :: 0 <= i < |segs| ==> offsets[i] == OffsetOf(segs, i)
    modifies elf
    ensures ok == Fits(segs)
    ensures ok ==> elf.bytes == old(elf.bytes) + Table(segs, |segs|)
  {
    ok := true;
    var i := 0;
    while ok && i < |segs|
      invariant 0 <= i <= |segs|
      invariant elf.pos == |elf.bytes| && (ok ==> FitsUpTo(segs, i))
      invariant ok ==> elf.bytes == old(elf.bytes) + Table(segs, i)
      invariant !ok ==> !Fits(segs)
    {
      ok := WriteElfPhdr(elf, segs[i], offsets[i]);
      if ok {
        TableGrows(old(elf.bytes), segs, i);
      }
      i := i + 1;
    }
  }

  lemma TableGrows(b: seq<byte>, segs: seq<Segment>, i: nat)
    requires i < |segs| && FitsUpTo(segs, i + 1)
    ensures b + Table(segs, i) + ProgramHeader(segs[i], OffsetOf(segs, i)) == b + Table(segs, i + 1)
  {
    Regroup(b, Table(segs, i), ProgramHeader(segs[i], OffsetOf(segs, i)));
  }

  lemma Regroup<T>(a: seq<T>, b: seq<T>, c: seq<T>)
    ensures a + b + c == a + (b + c)
  {
  }

  method WriteHeaders(elf: ElfFile, segs: seq<Segment>, offsets: seq<nat>) returns (ok: bool)
    requires elf.bytes == [] && elf.pos == 0
    requires 0 < |segs| == |offsets| && forall i :: 0 <= i < |segs| ==> offsets[i] == OffsetOf(segs, i)
    modifies elf
    ensures ok == Fits(segs)
    ensures ok ==> elf.bytes == Headers(segs)
  {
    ok := WriteElfHeader(elf, segs[0].addr, |segs|);
    if ok {
      ok := WriteTable(elf, segs, offsets);
    }
  }

  method WriteContents(elf: ElfFile, segs: seq<Segment>, offsets: seq<nat>)
    requires |segs| == |offsets| && forall i :: 0 <= i < |segs| ==> offsets[i] == OffsetOf(segs, i)
    modifies elf
    ensures elf.bytes == WriteAt(old(elf.bytes), PAGE, Data(segs, |segs|))
  {
    for i := 0 to |segs|
      invariant elf.bytes == WriteAt(old(elf.bytes), PAGE, Data(segs, i))
    {
      WriteSegment(elf, segs, i, offsets[i], old(elf.bytes));
    }
  }

  method WriteSegment(elf: ElfFile, segs: seq<Segment>, i: nat, offset: nat, ghost b: seq<byte>)
    requires i < |segs| && offset == OffsetOf(segs, i) && elf.bytes == WriteAt(b, PAGE, Data(segs, i))
    modifies elf
    ensures elf.bytes == WriteAt(b, PAGE, Data(segs, i + 1))
  {
    ContentsGrow(b, segs, i);
    elf.Seek(offset);
    elf.Write(segs[i].data);
  }

  lemma ContentsGrow(b: seq<byte>, segs: seq<Segment>, i: nat)
    requires i < |segs|
    ensures WriteAt(WriteAt(b, PAGE, Data(segs, i)), OffsetOf(segs, i), segs[i].data) == WriteAt(b, PAGE, Data(segs, i + 1))
  {
    WriteOn(b, PAGE, Data(segs, i), segs[i].data);
  }

  /** From the parsed inputs to the closed file. */
  method MakeElf(inputs: seq<Segment>, board: Option<seq<byte>>) returns (elf: ElfFile, ok: bool)
    requires |inputs| > 0
    ensures ok == Fits(inputs)
    ensures ok <==> |inputs| < 0x1_0000 && forall i :: 0 <= i < |inputs| ==>
      inputs[i].addr < 0x1_0000_0000 && |inputs[i].data| < 0x1_0000_0000 && OffsetOf(inputs, i) < 0x1_0000_0000
    ensures ok ==> elf.bytes == Image(inputs, board)
  {
    FitsIff(inputs);
    var offsets := LayOut(inputs);
    elf := new ElfFile();
    ok := WriteHeaders(elf, inputs, offsets);
    if ok {
      if board.Some? {
        elf.Seek(PAGE - BOARD);
        elf.Write(Name16(board.value));
      }
      WriteContents(elf, inputs, offsets);
    }
  }

  // ---------- The reader ----------

  /** A segment as a reader of the file finds it. */
  datatype Loaded = Loaded(ptype: nat, offset: nat, flags: nat, vaddr: nat, paddr: nat, memsz: nat, data: seq<byte>)

  /** struct.unpack of `n` words. */
  function WordsAt(b: seq<byte>, at: nat, n: nat): (xs: seq<nat>)
    requires at + 4 * n <= |b|
    ensures |xs| == n
  {
    if n == 0 then [] else WordsAt(b, at, n - 1) + [U32At(b, at + 4 * (n - 1))]
  }

  /** The program header at a position, and the bytes it names. */
  function ReadEntry(b: seq<byte>, at: nat): Option<Loaded> {
    if at + PHDR > |b| then None
    else
      var p := WordsAt(b, at, 8);
      var offset, size := p[1], p[4];
      if size > 0 && offset + size > |b| then None
      else Some(Loaded(p[0], p[1], p[6], p[2], p[3], p[5], if size == 0 then [] else b[offset..offset + size]))
  }

  /** Program header `i`, found through e_phoff and e_phentsize. */
  function ReadSegment(b: seq<byte>, i: nat): Option<Loaded>
    requires |b| >= EHDR
  {
    var phoff, phentsize := U32At(b, 28), U16At(b, 42);
    ReadEntry(b, phoff + i * phentsize)
  }

  function Given(s: Segment, offset: nat): Loaded {
    Loaded(TypeOf(s.mark), offset, FlagsOf(s.mark), s.addr, s.addr, |s.data|, s.data)
  }

  /** The fields of the 'ELF Header' section of the TIS ELF Specification 1.2, Book I, for a little-endian
      32-bit executable for ARM without section headers. */
  predicate IsElfFile(b: seq<byte>, entry: nat, phnum: nat) {
    && |b| >= EHDR
    && b[..4] == [0x7f, 0x45, 0x4c, 0x46]         // the magic number
    && b[4] == 1 && b[5] == 1 && b[6] == 1        // EI_CLASS, EI_DATA, EI_VERSION
    && U16At(b, 16) == 2                          // e_type: executable
    && U16At(b, 18) == 40                         // e_machine: ARM
    && U32At(b, 20) == 1                          // e_version
    && U32At(b, 24) == entry                      // e_entry
    && U32At(b, 28) == EHDR                       // e_phoff
    && U32At(b, 32) == 0 && U16At(b, 48) == 0     // e_shoff, e_shnum
    && U16At(b, 40) == EHDR                       // e_ehsize
    && U16At(b, 42) == PHDR                       // e_phentsize
    && U16At(b, 44) == phnum                      // e_phnum
  }

  /** The file gives back the entry address, the count (e_phnum) and every segment. */
  ghost predicate ReadsBack(b: seq<byte>, segs: seq<Segment>)
    requires |segs| > 0
  {
    && IsElfFile(b, segs[0].addr, |segs|)
    && (forall i :: 0 <= i < |segs| ==> ReadSegment(b, i) == Some(Given(segs[i], OffsetOf(segs, i))))
  }

  // ---------- Read after write ----------

  /** Entry `i` of the program header table. */
  lemma {:induction false} EntryInPlace(segs: seq<Segment>, k: nat, i: nat)
    requires i < k <= |segs| && FitsUpTo(segs, k)
    ensures Table(segs, k)[PHDR * i..PHDR * i + PHDR] == ProgramHeader(segs[i], OffsetOf(segs, i))
  {
    if i < k - 1 {
      EntryInPlace(segs, k - 1, i);
      Slice(Table(segs, k - 1), ProgramHeader(segs[k - 1], OffsetOf(segs, k - 1)), PHDR * i, PHDR * i + PHDR);
    } else {
      Tail(Table(segs, i), ProgramHeader(segs[i], OffsetOf(segs, i)));
    }
  }

  lemma Tail<T>(a: seq<T>, b: seq<T>)
    ensures (a + b)[|a|..|a| + |b|] == b
  {
  }

  lemma Slice<T>(a: seq<T>, b: seq<T>, from: nat, to: nat)
    requires from <= to <= |a|
    ensures (a + b)[from..to] == a[from..to]
  {
  }

  /** The segments tile the data: each lies where its offset says. */
  lemma {:induction false} ContentsInPlace(segs: seq<Segment>, k: nat, i: nat)
    requires i < k <= |segs|
    ensures OffsetOf(segs, i) + |segs[i].data| == OffsetOf(segs, i + 1) <= OffsetOf(segs, k)
    ensures Data(segs, k)[OffsetOf(segs, i) - PAGE..OffsetOf(segs, i + 1) - PAGE] == segs[i].data
  {
    if i < k - 1 {
      ContentsInPlace(segs, k - 1, i);
      var d := Data(segs, k - 1);
      assert Data(segs, k)[OffsetOf(segs, i) - PAGE..OffsetOf(segs, i + 1) - PAGE]
          == d[OffsetOf(segs, i) - PAGE..OffsetOf(segs, i + 1) - PAGE];
    }
  }

  /** Any number of segments: every one lies in the file where its offset says. */
  lemma ContentsInFile(segs: seq<Segment>, board: Option<seq<byte>>, i: nat)
    requires Fits(segs) && i < |segs| && segs[i].data != []
    ensures OffsetOf(segs, i + 1) <= |Image(segs, board)|
    ensures Image(segs, board)[OffsetOf(segs, i)..OffsetOf(segs, i + 1)] == segs[i].data
  {
    var b, d := Named(Headers(segs), board), Data(segs, |segs|);
    ContentsInPlace(segs, |segs|, i);
    PieceInFile(b, PAGE, d, OffsetOf(segs, i), segs[i].data);
  }

  lemma PieceInFile(b: seq<byte>, at: nat, s: seq<byte>, from: nat, piece: seq<byte>)
    requires at <= from < from + |piece| <= at + |s| && s[from - at..from + |piece| - at] == piece
    ensures from + |piece| <= |WriteAt(b, at, s)| && WriteAt(b, at, s)[from..from + |piece|] == piece
  {
    Written(b, at, s);
  }

  /** The board name always reads back from the end of the first page. */
  lemma BoardNameReads(segs: seq<Segment>, name: seq<byte>)
    requires Fits(segs)
    ensures |Image(segs, Some(name))| >= PAGE
    ensures Image(segs, Some(name))[PAGE - BOARD..PAGE] == Name16(name)
    ensures forall j :: 0 <= j < 16 ==> Image(segs, Some(name))[4080 + j] == if j < |name| then name[j] else 0
  {
    var h, d := Headers(segs), Data(segs, |segs|);
    var b := Named(h, Some(name));
    PieceInFile(h, PAGE - BOARD, Name16(name), PAGE - BOARD, Name16(name));
    if d != [] {
      Written(b, PAGE, d);
    }
    forall j | 0 <= j < 16 ensures Image(segs, Some(name))[4080 + j] == if j < |name| then name[j] else 0 {
      assert Image(segs, Some(name))[4080 + j] == Image(segs, Some(name))[PAGE - BOARD..PAGE][j];
    }
  }

  /** The file ends with the last thing written, and what was never written is zero. */
  lemma GapsAreZero(segs: seq<Segment>, board: Option<seq<byte>>, p: nat)
    requires Fits(segs)
    ensures var b, d := Image(segs, board), Data(segs, |segs|);
      p < |b| <==> p < 52 + 32 * |segs| || (board.Some? && p < 4096) || (d != [] && p < 4096 + |d|)
    ensures 52 + 32 * |segs| <= p < |Image(segs, board)| && p < 4096 && (board.Some? ==> p < 4080) ==>
      Image(segs, board)[p] == 0
  {
    hide Headers, Name16, Data;
    var h, d := Headers(segs), Data(segs, |segs|);
    if board.Some? {
      Written(h, PAGE - BOARD, Name16(board.value));
    }
    if d != [] {
      Written(Named(h, board), PAGE, d);
    }
  }

  /** What the writes leave of the headers: all that lies before the board name or, without one, before the contents. */
  lemma HeadersKept(segs: seq<Segment>, board: Option<seq<byte>>, j: nat)
    requires Fits(segs) && j < |Headers(segs)| && j < if board.None? then PAGE else PAGE - BOARD
    ensures j < |Image(segs, board)| && Image(segs, board)[j] == Headers(segs)[j]
  {
    var h, d := Headers(segs), Data(segs, |segs|);
    if board.Some? {
      Written(h, PAGE - BOARD, Name16(board.value));
    }
    if d != [] {
      Written(Named(h, board), PAGE, d);
    }
  }

  /** After the first page the file is the contents, unless the headers reach behind them. */
  lemma ContentsTileTheFile(segs: seq<Segment>, board: Option<seq<byte>>)
    requires Fits(segs) && Data(segs, |segs|) != []
    ensures |Image(segs, board)| >= PAGE
    ensures Image(segs, board)[PAGE..] == Data(segs, |segs|) <==> |Headers(segs)| <= PAGE + |Data(segs, |segs|)|
  {
    hide WriteAt, Headers, Name16, Data;
    var h, d := Headers(segs), Data(segs, |segs|);
    var named := Named(h, board);
    if board.Some? {
      Written(h, PAGE - BOARD, Name16(board.value));
    }
    Written(named, PAGE, d);
    var r := WriteAt(named, PAGE, d);
    assert |h| <= PAGE + |d| ==> forall j :: PAGE <= j < |r| ==> r[j] == d[j - PAGE];
  }

  lemma ElfHeaderReads(entry: nat, phnum: nat)
    requires entry < U32_RANGE && phnum < U16_RANGE
    ensures IsElfFile(ElfHeader(entry, phnum), entry, phnum)
  {
    var halves, words, more := Halves([2, 40]), Words([1, entry, EHDR, 0, 0]), Halves([EHDR, PHDR, phnum, 0, 0, 0]);
    HalfReads([2, 40], 0);
    HalfReads([2, 40], 1);
    WordReads([1, entry, EHDR, 0, 0], 0);
    WordReads([1, entry, EHDR, 0, 0], 1);
    WordReads([1, entry, EHDR, 0, 0], 2);
    WordReads([1, entry, EHDR, 0, 0], 3);
    HalfReads([EHDR, PHDR, phnum, 0, 0, 0], 0);
    HalfReads([EHDR, PHDR, phnum, 0, 0, 0], 1);
    HalfReads([EHDR, PHDR, phnum, 0, 0, 0], 2);
    HalfReads([EHDR, PHDR, phnum, 0, 0, 0], 4);
    Parts(Ident(), halves, words, more);
  }

  lemma Parts(a: seq<byte>, b: seq<byte>, c: seq<byte>, d: seq<byte>)
    requires |a| == 16 && |b| == 4 && |c| == 20 && |d| == 12
    ensures var h := a + b + c + d;
      && h[..16] == a
      && U16At(h, 16) == U16At(b, 0) && U16At(h, 18) == U16At(b, 2)
      && U32At(h, 20) == U32At(c, 0) && U32At(h, 24) == U32At(c, 4) && U32At(h, 28) == U32At(c, 8)
      && U32At(h, 32) == U32At(c, 12) && U16At(h, 40) == U16At(d, 0) && U16At(h, 42) == U16At(d, 2)
      && U16At(h, 44) == U16At(d, 4) && U16At(h, 48) == U16At(d, 8)
  {
  }

  /** Unpacking reads what was packed, as far as it arrived. */
  lemma {:induction false} WordsRead(b: seq<byte>, at: nat, xs: seq<nat>, n: nat)
    requires n <= |xs| && AllBelow(xs, U32_RANGE) && Holds(b, at, Words(xs), 0, 4 * n)
    ensures WordsAt(b, at, n) == xs[..n]
  {
    if n == 0 {
    } else {
      WordsRead(b, at, xs, n - 1);
      WordReads(xs, n - 1);
      var w, k := Words(xs), 4 * (n - 1);
      assert b[at + k] == w[k] && b[at + (k + 1)] == w[k + 1];
      assert b[at + (k + 2)] == w[k + 2] && b[at + (k + 3)] == w[k + 3];
    }
  }

  lemma EntryReads(b: seq<byte>, at: nat, s: Segment, offset: nat)
    requires FitsHeader(s, offset) && at + PHDR <= |b| && Holds(b, at, ProgramHeader(s, offset), 0, PHDR - 4)
    requires s.data != [] ==> offset + |s.data| <= |b| && b[offset..offset + |s.data|] == s.data
    ensures ReadEntry(b, at) == Some(Given(s, offset))
  {
    hide Words, WordsAt, U32At;
    WordsRead(b, at, PhdrFields(s, offset), 7);
    forall k | 0 <= k < 7 ensures WordsAt(b, at, 8)[k] == PhdrFields(s, offset)[k] {
      WordAt(b, at, 8, k);
      WordAt(b, at, 7, k);
    }
  }

  lemma EntryInHeaders(segs: seq<Segment>, i: nat)
    requires Fits(segs) && i < |segs|
    ensures Holds(Headers(segs), EHDR + PHDR * i, ProgramHeader(segs[i], OffsetOf(segs, i)), 0, PHDR)
  {
    EntryBehind(ElfHeader(segs[0].addr, |segs|), segs, i);
  }

  lemma EntryBehind(e: seq<byte>, segs: seq<Segment>, i: nat)
    requires Fits(segs) && i < |segs| && |e| == EHDR
    ensures Holds(e + Table(segs, |segs|), EHDR + PHDR * i, ProgramHeader(segs[i], OffsetOf(segs, i)), 0, PHDR)
  {
    EntryInPlace(segs, |segs|, i);
    Piece(e, Table(segs, |segs|), PHDR * i, EHDR + PHDR * i, ProgramHeader(segs[i], OffsetOf(segs, i)));
  }

  lemma Piece(a: seq<byte>, b: seq<byte>, from: nat, at: nat, piece: seq<byte>)
    requires at == |a| + from && from + PHDR <= |b| && |piece| == PHDR && b[from..from + PHDR] == piece
    ensures Holds(a + b, at, piece, 0, PHDR)
  {
    forall j | 0 <= j < PHDR
      ensures (a + b)[at + j] == piece[j]
    {
      assert piece[j] == b[from..from + PHDR][j];
    }
  }

  /** Entry `i` of the table as the image holds it: all of it that lies in the first page before the board name. */
  lemma EntryKept(segs: seq<Segment>, board: Option<seq<byte>>, i: nat)
    requires Fits(segs) && i < |segs| && i <= 125
    ensures Holds(Image(segs, board), EHDR + PHDR * i, ProgramHeader(segs[i], OffsetOf(segs, i)), 0, PHDR - 4)
  {
    hide Image, Headers, ProgramHeader, OffsetOf;
    EntryInHeaders(segs, i);
    HeadersKept(segs, board, EHDR + PHDR * i + PHDR - 5);
    forall j | 0 <= j < PHDR - 4
      ensures Image(segs, board)[EHDR + PHDR * i + j] == ProgramHeader(segs[i], OffsetOf(segs, i))[j]
    {
      HeadersKept(segs, board, EHDR + PHDR * i + j);
    }
  }

  lemma ElfHeaderKept(segs: seq<Segment>, board: Option<seq<byte>>)
    requires Fits(segs)
    ensures IsElfFile(Image(segs, board), segs[0].addr, |segs|)
  {
    var b, h := Image(segs, board), ElfHeader(segs[0].addr, |segs|);
    HeadersKept(segs, board, EHDR - 1);
    forall j | 0 <= j < EHDR
      ensures b[j] == h[j]
    {
      HeadersKept(segs, board, j);
    }
    ElfHeaderReads(segs[0].addr, |segs|);
  }

  lemma HeldWord(b: seq<byte>, at: nat, xs: seq<nat>, k: nat)
    requires k < 7 && |xs| == 8 && AllBelow(xs, U32_RANGE) && Holds(b, at, Words(xs), 0, PHDR - 4)
    ensures U32At(b, at + 4 * k) == xs[k]
  {
    WordReads(xs, k);
    var w := Words(xs);
    assert b[at + 4 * k] == w[4 * k] && b[at + (4 * k + 1)] == w[4 * k + 1];
    assert b[at + (4 * k + 2)] == w[4 * k + 2] && b[at + (4 * k + 3)] == w[4 * k + 3];
  }

  /** What the file says about a segment, in numbers: any of the first 126 segments, of any number of them. */
  lemma EntryInNumbers(segs: seq<Segment>, board: Option<seq<byte>>, i: nat)
    requires Fits(segs) && i < |segs| && i <= 125
    ensures var b, at, s := Image(segs, board), 52 + 32 * i, segs[i];
      && at + 28 <= |b|
      && U32At(b, at) == (if s.mark == Cmdline then 4 else 1)
      && U32At(b, at + 4) == OffsetOf(segs, i)
      && U32At(b, at + 8) == s.addr && U32At(b, at + 12) == s.addr
      && U32At(b, at + 16) == |s.data| && U32At(b, at + 20) == |s.data|
      && (U32At(b, at + 24) == 0x80000000 <==> s.mark == Ramdisk)
      && (U32At(b, at + 24) == 0x40000000 <==> s.mark == Ipl)
      && (U32At(b, at + 24) == 0x20000000 <==> s.mark == Cmdline)
      && (U32At(b, at + 24) == 0x01000000 <==> s.mark == Rpm)
      && (U32At(b, at + 24) == 0 <==> s.mark == Plain || s.mark == Entry)
  {
    hide Image, U32At, Words, OffsetOf;
    var b, at, xs := Image(segs, board), EHDR + PHDR * i, PhdrFields(segs[i], OffsetOf(segs, i));
    EntryKept(segs, board, i);
    assert FitsHeader(segs[i], OffsetOf(segs, i));
    HeldWord(b, at, xs, 0);
    HeldWord(b, at, xs, 1);
    HeldWord(b, at, xs, 2);
    HeldWord(b, at, xs, 3);
    HeldWord(b, at, xs, 4);
    HeldWord(b, at, xs, 5);
    HeldWord(b, at, xs, 6);
  }

  /** The offsets in numbers: the first segment is at 4096, and each begins where the one before it ends. */
  lemma OffsetsInNumbers(segs: seq<Segment>, i: nat)
    requires i < |segs|
    ensures OffsetOf(segs, 0) == 4096 && OffsetOf(segs, i + 1) - OffsetOf(segs, i) == |segs[i].data|
  {
  }

  /** The ELF header as the file holds it, byte by byte, around the entry address and the count of segments. */
  lemma ElfHeaderBytes(segs: seq<Segment>, board: Option<seq<byte>>)
    requires Fits(segs)
    ensures |Image(segs, board)| >= 52
    ensures Image(segs, board)[..52] ==
      [0x7f, 0x45, 0x4c, 0x46, 1, 1, 1, 0x61, 0, 0, 0, 0, 0, 0, 0, 0, 2, 0, 40, 0, 1, 0, 0, 0] + U32(segs[0].addr)
      + [52, 0, 0, 0, 0, 0, 0, 0, 0, 0, 0, 0, 52, 0, 32, 0] + U16(|segs|) + [0, 0, 0, 0, 0, 0]
  {
    hide Image, U32, U16;
    var b, h := Image(segs, board), ElfHeader(segs[0].addr, |segs|);
    HeadersKept(segs, board, EHDR - 1);
    forall j | 0 <= j < EHDR
      ensures b[j] == h[j]
    {
      HeadersKept(segs, board, j);
    }
    PlainBytes(segs[0].addr, |segs|);
    assert b[..52] == h;
  }

  lemma PlainBytes(entry: nat, phnum: nat)
    requires entry < U32_RANGE && phnum < U16_RANGE
    ensures ElfHeader(entry, phnum) ==
      [0x7f, 0x45, 0x4c, 0x46, 1, 1, 1, 0x61, 0, 0, 0, 0, 0, 0, 0, 0, 2, 0, 40, 0, 1, 0, 0, 0] + U32(entry)
      + [52, 0, 0, 0, 0, 0, 0, 0, 0, 0, 0, 0, 52, 0, 32, 0] + U16(phnum) + [0, 0, 0, 0, 0, 0]
  {
    assert Halves([2, 40]) == [2, 0, 40, 0];
    WordsOf5(1, entry, 52, 0, 0);
    HalvesOf6(52, 32, phnum, 0, 0, 0);
    Assembled(U32(entry), U16(phnum));
  }

  lemma Assembled(e: seq<byte>, n: seq<byte>)
    requires |e| == 4 && |n| == 2
    ensures Ident() + [2, 0, 40, 0] + ([1, 0, 0, 0] + (e + [52, 0, 0, 0, 0, 0, 0, 0, 0, 0, 0, 0])) + ([52, 0, 32, 0] + (n + [0, 0, 0, 0, 0, 0])) ==
      [0x7f, 0x45, 0x4c, 0x46, 1, 1, 1, 0x61, 0, 0, 0, 0, 0, 0, 0, 0, 2, 0, 40, 0, 1, 0, 0, 0] + e
      + [52, 0, 0, 0, 0, 0, 0, 0, 0, 0, 0, 0, 52, 0, 32, 0] + n + [0, 0, 0, 0, 0, 0]
  {
  }

  lemma WordsOf5(a: nat, b: nat, c: nat, d: nat, e: nat)
    requires a < 256 && b < U32_RANGE && c < 256 && d == e == 0
    ensures Words([a, b, c, d, e]) == [a, 0, 0, 0] + (U32(b) + [c, 0, 0, 0, 0, 0, 0, 0, 0, 0, 0, 0])
  {
    assert [a, b, c, d, e][1..] == [b, c, d, e] && [b, c, d, e][1..] == [c, d, e] && [c, d, e][1..] == [d, e];
    assert Words([d, e]) == [0, 0, 0, 0, 0, 0, 0, 0];
    assert Words([c, d, e]) == [c, 0, 0, 0] + Words([d, e]);
    assert Words([b, c, d, e]) == U32(b) + Words([c, d, e]);
  }

  lemma HalvesOf6(a: nat, b: nat, c: nat, d: nat, e: nat, f: nat)
    requires a < 256 && b < 256 && c < U16_RANGE && d == e == f == 0
    ensures Halves([a, b, c, d, e, f]) == [a, 0, b, 0] + (U16(c) + [0, 0, 0, 0, 0, 0])
  {
    assert [a, b, c, d, e, f][1..] == [b, c, d, e, f] && [b, c, d, e, f][1..] == [c, d, e, f];
    assert [c, d, e, f][1..] == [d, e, f] && [d, e, f][1..] == [e, f];
    assert Halves([d, e, f]) == [0, 0] + Halves([e, f]) == [0, 0, 0, 0, 0, 0];
    assert Halves([c, d, e, f]) == U16(c) + Halves([d, e, f]);
    assert Halves([b, c, d, e, f]) == [b, 0] + Halves([c, d, e, f]);
  }

  lemma SegmentReads(segs: seq<Segment>, board: Option<seq<byte>>, i: nat)
    requires Fits(segs) && i < |segs| && i <= 125
    ensures ReadEntry(Image(segs, board), EHDR + PHDR * i) == Some(Given(segs[i], OffsetOf(segs, i)))
  {
    hide Image;
    EntryKept(segs, board, i);
    HeadersFit(segs, board, i);
    if segs[i].data != [] {
      DataInFile(segs, board, i);
    }
    EntryReads(Image(segs, board), EHDR + PHDR * i, segs[i], OffsetOf(segs, i));
  }

  lemma DataInFile(segs: seq<Segment>, board: Option<seq<byte>>, i: nat)
    requires Fits(segs) && i < |segs| && segs[i].data != []
    ensures var from, to := OffsetOf(segs, i), OffsetOf(segs, i) + |segs[i].data|;
      to <= |Image(segs, board)| && Image(segs, board)[from..to] == segs[i].data
  {
    ContentsInFile(segs, board, i);
    ContentsInPlace(segs, |segs|, i);
  }

  /** Up to 126 segments, with or without a board name: the file gives everything back. */
  lemma RoundTrip(segs: seq<Segment>, board: Option<seq<byte>>)
    requires Fits(segs) && |segs| <= 126
    ensures ReadsBack(Image(segs, board), segs)
  {
    ElfHeaderKept(segs, board);
    forall i | 0 <= i < |segs|
      ensures ReadSegment(Image(segs, board), i) == Some(Given(segs[i], OffsetOf(segs, i)))
    {
      EntryFound(Image(segs, board), segs[0].addr, |segs|, i);
      SegmentReads(segs, board, i);
    }
  }

  lemma EntryFound(b: seq<byte>, entry: nat, phnum: nat, i: nat)
    requires IsElfFile(b, entry, phnum)
    ensures ReadSegment(b, i) == ReadEntry(b, EHDR + PHDR * i)
  {
  }

  lemma HeadersFit(segs: seq<Segment>, board: Option<seq<byte>>, i: nat)
    requires Fits(segs) && i < |segs|
    ensures EHDR + PHDR * i + PHDR <= |Image(segs, board)|
  {
    var h, d := Headers(segs), Data(segs, |segs|);
    if board.Some? {
      Written(h, PAGE - BOARD, Name16(board.value));
    }
    if d != [] {
      Written(Named(h, board), PAGE, d);
    }
  }

  /** One byte of contents, in the first of `n` segments. */
  function OneByte(n: nat): (segs: seq<Segment>)
    ensures |segs| == n
  {
    seq(n, i => Segment(Plain, 0, if i == 0 then [0xFF] else []))
  }

  lemma {:induction false} OneByteData(n: nat, k: nat)
    requires 0 < k <= n
    ensures Data(OneByte(n), k) == [0xFF] && OffsetOf(OneByte(n), k) == PAGE + 1
  {
    if k <= 1 {
    } else {
      OneByteData(n, k - 1);
    }
  }

  lemma OneByteFits(n: nat)
    requires 0 < n < U16_RANGE
    ensures Fits(OneByte(n))
  {
    forall i | 0 <= i < n
      ensures FitsHeader(OneByte(n)[i], OffsetOf(OneByte(n), i))
    {
      if i > 0 {
        OneByteData(n, i);
      }
    }
  }

  lemma FourthWord(b: seq<byte>, at: nat)
    requires at + PHDR <= |b|
    ensures WordsAt(b, at, 8)[3] == U32At(b, at + 12)
  {
    assert WordsAt(b, at, 8)[..7] == WordsAt(b, at, 7) && WordsAt(b, at, 7)[..6] == WordsAt(b, at, 6);
    assert WordsAt(b, at, 6)[..5] == WordsAt(b, at, 5) && WordsAt(b, at, 5)[..4] == WordsAt(b, at, 4);
  }

  /** Entry 126 straddles the end of the first page: the contents overwrite its address. */
  lemma OneByteIsLost(n: nat)
    requires 126 < n < U16_RANGE && Fits(OneByte(n))
    ensures !ReadsBack(Image(OneByte(n), None), OneByte(n))
  {
    var segs := OneByte(n);
    var b := Image(segs, None);
    OneByteData(n, n);
    ElfHeaderKept(segs, None);
    HeadersFit(segs, None, 126);
    Written(Headers(segs), PAGE, [0xFF]);
    assert b[PAGE] == 0xFF;
    FourthWord(b, PAGE - 12);
    EntryFound(b, 0, n, 126);
    assert ReadSegment(b, 126) != Some(Given(segs[126], OffsetOf(segs, 126)));
  }

  /** 126 is the limit: that many segments always read back, and one more may not. */
  lemma ReadsBackIffAtMost126(n: nat)
    requires 0 < n < U16_RANGE
    ensures (forall segs: seq<Segment>, board: Option<seq<byte>> | |segs| == n && Fits(segs) ::
               ReadsBack(Image(segs, board), segs))
            <==> n <= 126
  {
    if n <= 126 {
      forall segs: seq<Segment>, board: Option<seq<byte>> | |segs| == n && Fits(segs)
        ensures ReadsBack(Image(segs, board), segs)
      {
        RoundTrip(segs, board);
      }
    } else {
      OneByteFits(n);
      OneByteIsLost(n);
    }
  }

  // ---------- The board name ----------

  lemma Overlaps(h: seq<byte>, at: nat, x: seq<byte>)
    requires x != []
    ensures h <= WriteAt(h, at, x) <==> forall j :: at <= j < |h| && j < at + |x| ==> h[j] == x[j - at]
  {
    Written(h, at, x);
  }

  lemma AlignmentIsZero(s: Segment, offset: nat)
    requires FitsHeader(s, offset)
    ensures ProgramHeader(s, offset)[PHDR - 4..PHDR] == [0, 0, 0, 0]
  {
    WordInPlace(PhdrFields(s, offset), 7);
  }

  /** The board name starts on the alignment of entry 125. */
  lemma UnderTheName(segs: seq<Segment>)
    requires Fits(segs) && |segs| >= 126
    ensures Headers(segs)[PAGE - BOARD..PAGE - BOARD + 4] == [0, 0, 0, 0]
  {
    EntryInHeaders(segs, 125);
    AlignmentIsZero(segs[125], OffsetOf(segs, 125));
    PieceReads(Headers(segs), EHDR + PHDR * 125, ProgramHeader(segs[125], OffsetOf(segs, 125)),
               PAGE - BOARD, PAGE - BOARD + 4, [0, 0, 0, 0]);
  }

  /** It ends in the middle of entry 126. */
  lemma UnderTheNamesEnd(segs: seq<Segment>)
    requires Fits(segs) && |segs| >= 127
    ensures Headers(segs)[PAGE - BOARD + 4..PAGE] == ProgramHeader(segs[126], OffsetOf(segs, 126))[..BOARD - 4]
  {
    EntryInHeaders(segs, 126);
    PieceReads(Headers(segs), EHDR + PHDR * 126, ProgramHeader(segs[126], OffsetOf(segs, 126)),
               PAGE - BOARD + 4, PAGE, ProgramHeader(segs[126], OffsetOf(segs, 126))[..BOARD - 4]);
  }

  lemma PieceReads(b: seq<byte>, at: nat, s: seq<byte>, lo: nat, hi: nat, piece: seq<byte>)
    requires at <= lo <= hi <= at + |s| && Holds(b, at, s, 0, |s|) && piece == s[lo - at..hi - at]
    ensures b[lo..hi] == piece
  {
    forall j | 0 <= j < hi - lo
      ensures b[lo..hi][j] == piece[j]
    {
      assert b[at + (lo - at + j)] == s[lo - at + j];
    }
  }

  /** A name `x` over the headers `h` of `n` segments; `b` is the start of entry 126. */
  lemma NameOverHeaders(h: seq<byte>, n: nat, x: seq<byte>, b: seq<byte>)
    requires |h| == EHDR + PHDR * n && |x| == BOARD
    requires n >= 126 ==> h[PAGE - BOARD..PAGE - BOARD + 4] == [0, 0, 0, 0]
    requires n >= 127 ==> |b| == BOARD - 4 && h[PAGE - BOARD + 4..PAGE] == b
    ensures h <= WriteAt(h, PAGE - BOARD, x) <==>
      n <= 125 || (n == 126 && x[..4] == [0, 0, 0, 0]) || (n >= 127 && x == [0, 0, 0, 0] + b)
  {
    hide WriteAt;
    Overlaps(h, PAGE - BOARD, x);
    if n >= 126 {
      Agreement(h, PAGE - BOARD, x, 4);
    }
    if n >= 127 {
      TwoParts(h, PAGE - BOARD, x, [0, 0, 0, 0], b);
    }
  }

  /** Any number of segments: the name spares the headers iff they end before it, or it happens to repeat what
      they hold there: the alignment of entry 125 and, behind it, the start of entry 126. */
  lemma HeadersIntactIff(segs: seq<Segment>, board: Option<seq<byte>>)
    requires Fits(segs)
    ensures Headers(segs) <= Named(Headers(segs), board) <==>
      || board.None? || |segs| <= 125
      || (|segs| == 126 && Name16(board.value)[..4] == [0, 0, 0, 0])
      || (|segs| >= 127 &&
          Name16(board.value) == [0, 0, 0, 0] + ProgramHeader(segs[126], OffsetOf(segs, 126))[..BOARD - 4])
  {
    hide WriteAt, ProgramHeader, OffsetOf, Name16, Headers;
    if board.Some? {
      if |segs| >= 126 {
        UnderTheName(segs);
      }
      if |segs| >= 127 {
        UnderTheNamesEnd(segs);
      }
      NameOverHeaders(Headers(segs), |segs|, Name16(board.value),
                      if |segs| >= 127 then ProgramHeader(segs[126], OffsetOf(segs, 126))[..BOARD - 4] else []);
    }
  }

  /** With 126 segments every name that does not start with a zero damages the headers. */
  lemma NameDamagesHeaders(segs: seq<Segment>, name: seq<byte>)
    requires Fits(segs) && |segs| == 126 && name != [] && name[0] != 0
    ensures !(Headers(segs) <= Named(Headers(segs), Some(name)))
  {
    HeadersIntactIff(segs, Some(name));
    assert Name16(name)[..4][0] == name[0];
  }

  lemma Agreement(h: seq<byte>, at: nat, x: seq<byte>, n: nat)
    requires at + n <= |h| && n <= |x|
    ensures h[at..at + n] == x[..n] <==> forall j :: at <= j < at + n ==> h[j] == x[j - at]
  {
    assert forall j :: at <= j < at + n ==> h[j] == h[at..at + n][j - at] && x[j - at] == x[..n][j - at];
  }

  lemma TwoParts(h: seq<byte>, at: nat, x: seq<byte>, a: seq<byte>, b: seq<byte>)
    requires |x| == |a| + |b| && at + |x| <= |h| && h[at..at + |a|] == a && h[at + |a|..at + |x|] == b
    ensures x == a + b <==> forall j :: at <= j < at + |x| ==> h[j] == x[j - at]
  {
    assert h[at..at + |x|] == a + b;
    Agreement(h, at, x, |x|);
    assert x[..|x|] == x;
  }

  lemma BehindThePage(h: seq<byte>, b: seq<byte>, d: seq<byte>)
    requires |h| <= |b| && forall j :: PAGE <= j < |h| ==> b[j] == h[j]
    ensures h <= WriteAt(b, PAGE, d) <==>
      h <= b && forall j :: PAGE <= j < |h| && j < PAGE + |d| ==> h[j] == d[j - PAGE]
  {
    if d != [] {
      Written(b, PAGE, d);
    }
  }

  /** In the finished file the contents must spare the headers as well, which they do up to 126 segments. */
  lemma HeadersInImageIff(segs: seq<Segment>, board: Option<seq<byte>>)
    requires Fits(segs)
    ensures Headers(segs) <= Image(segs, board) <==>
      && Headers(segs) <= Named(Headers(segs), board)
      && (forall j :: PAGE <= j < |Headers(segs)| && j < PAGE + |Data(segs, |segs|)| ==>
            Headers(segs)[j] == Data(segs, |segs|)[j - PAGE])
  {
    hide WriteAt, Headers, Name16;
    var h := Headers(segs);
    if board.Some? {
      Written(h, PAGE - BOARD, Name16(board.value));
    }
    BehindThePage(h, Named(h, board), Data(segs, |segs|));
  }

  // ---------- Which images read back ----------

  /** What the file holds where the headers were: contents, board name or header. */
  lemma ImageByte(segs: seq<Segment>, board: Option<seq<byte>>, p: nat)
    requires Fits(segs) && p < |Headers(segs)|
    ensures p < |Image(segs, board)|
    ensures var d := Data(segs, |segs|);
      Image(segs, board)[p] ==
        if PAGE <= p < PAGE + |d| then d[p - PAGE]
        else if board.Some? && PAGE - BOARD <= p < PAGE then Name16(board.value)[p - (PAGE - BOARD)]
        else Headers(segs)[p]
  {
    hide Headers, Name16, Data;
    var h, d := Headers(segs), Data(segs, |segs|);
    if board.Some? {
      Written(h, PAGE - BOARD, Name16(board.value));
    }
    if d != [] {
      Written(Named(h, board), PAGE, d);
    }
  }

  /** Board name and contents leave the byte `e` at `p` alone, or repeat it. */
  ghost predicate ByteSpared(segs: seq<Segment>, board: Option<seq<byte>>, p: nat, e: byte) {
    var d := Data(segs, |segs|);
    && (board.Some? && PAGE - BOARD <= p < PAGE ==> Name16(board.value)[p - (PAGE - BOARD)] == e)
    && (PAGE <= p < PAGE + |d| ==> d[p - PAGE] == e)
  }

  lemma SparedByteIsHeld(segs: seq<Segment>, board: Option<seq<byte>>, p: nat)
    requires Fits(segs) && p < |Headers(segs)|
    ensures p < |Image(segs, board)|
    ensures ByteSpared(segs, board, p, Headers(segs)[p]) <==> Image(segs, board)[p] == Headers(segs)[p]
  {
    hide Image, Headers, Name16, Data;
    ImageByte(segs, board, p);
  }

  /** Board name and contents repeat what they cover of entry `i`, its alignment aside. */
  ghost predicate EntrySpared(segs: seq<Segment>, board: Option<seq<byte>>, i: nat)
    requires Fits(segs) && i < |segs|
  {
    var e := ProgramHeader(segs[i], OffsetOf(segs, i));
    forall j :: 0 <= j < PHDR - 4 ==> ByteSpared(segs, board, EHDR + PHDR * i + j, e[j])
  }

  lemma SparedIsHeld(segs: seq<Segment>, board: Option<seq<byte>>, i: nat)
    requires Fits(segs) && i < |segs|
    ensures EntrySpared(segs, board, i) <==>
      Holds(Image(segs, board), EHDR + PHDR * i, ProgramHeader(segs[i], OffsetOf(segs, i)), 0, PHDR - 4)
  {
    hide Image, Headers, ByteSpared, ProgramHeader, OffsetOf;
    var b, at, e := Image(segs, board), EHDR + PHDR * i, ProgramHeader(segs[i], OffsetOf(segs, i));
    EntryInHeaders(segs, i);
    HeadersFit(segs, board, i);
    forall j | 0 <= j < PHDR - 4 ensures ByteSpared(segs, board, at + j, e[j]) <==> b[at + j] == e[j] {
      SparedByteIsHeld(segs, board, at + j);
    }
  }

  /** Two words with the same value have the same bytes. */
  lemma SameWord(a: seq<byte>, i: nat, b: seq<byte>, j: nat)
    requires i + 4 <= |a| && j + 4 <= |b| && U32At(a, i) == U32At(b, j)
    ensures a[i] == b[j] && a[i + 1] == b[j + 1] && a[i + 2] == b[j + 2] && a[i + 3] == b[j + 3]
  {
    SameDigits(a[i], a[i + 1], a[i + 2], a[i + 3], b[j], b[j + 1], b[j + 2], b[j + 3]);
  }

  lemma SameDigits(a0: byte, a1: byte, a2: byte, a3: byte, b0: byte, b1: byte, b2: byte, b3: byte)
    requires a0 + 0x100 * a1 + 0x1_0000 * a2 + 0x100_0000 * a3 == b0 + 0x100 * b1 + 0x1_0000 * b2 + 0x100_0000 * b3
    ensures a0 == b0 && a1 == b1 && a2 == b2 && a3 == b3
  {
    LastDigit(a0, a1 + 0x100 * a2 + 0x1_0000 * a3, b0, b1 + 0x100 * b2 + 0x1_0000 * b3);
    LastDigit(a1, a2 + 0x100 * a3, b1, b2 + 0x100 * b3);
    LastDigit(a2, a3, b2, b3);
  }

  lemma LastDigit(a: byte, m: nat, b: byte, n: nat)
    requires a + 0x100 * m == b + 0x100 * n
    ensures a == b && m == n
  {
  }

  /** An entry that reads back is there, byte for byte. */
  lemma EntryIsHeld(b: seq<byte>, at: nat, s: Segment, offset: nat)
    requires FitsHeader(s, offset) && at + PHDR <= |b| && ReadEntry(b, at) == Some(Given(s, offset))
    ensures Holds(b, at, ProgramHeader(s, offset), 0, PHDR - 4)
  {
    hide U32At, Words, WordsAt;
    var xs, w := PhdrFields(s, offset), ProgramHeader(s, offset);
    forall k | 0 <= k < 7 ensures U32At(b, at + 4 * k) == U32At(w, 4 * k) {
      WordAt(b, at, 8, k);
      WordReads(xs, k);
    }
    forall j | 0 <= j < PHDR - 4 ensures b[at + j] == w[j] {
      var k := j / 4;
      SameWord(b, at + 4 * k, w, 4 * k);
      assert j == 4 * k || j == 4 * k + 1 || j == 4 * k + 2 || j == 4 * k + 3;
    }
  }

  lemma {:induction false} WordAt(b: seq<byte>, at: nat, n: nat, k: nat)
    requires k < n && at + 4 * n <= |b|
    ensures WordsAt(b, at, n)[k] == U32At(b, at + 4 * k)
  {
    if k == n - 1 {
    } else {
      WordAt(b, at, n - 1, k);
    }
  }

  /** Any one image reads back, offsets included, iff board name and contents happen to repeat all that they cover of
      the program headers, alignments aside. */
  lemma ReadsBackIff(segs: seq<Segment>, board: Option<seq<byte>>)
    requires Fits(segs)
    ensures ReadsBack(Image(segs, board), segs) <==> forall i :: 0 <= i < |segs| ==> EntrySpared(segs, board, i)
  {
    var b := Image(segs, board);
    ElfHeaderKept(segs, board);
    forall i | 0 <= i < |segs|
      ensures ReadSegment(b, i) == Some(Given(segs[i], OffsetOf(segs, i))) <==> EntrySpared(segs, board, i)
    {
      OneEntryIff(segs, board, i);
      EntryFound(b, segs[0].addr, |segs|, i);
    }
  }

  lemma OneEntryIff(segs: seq<Segment>, board: Option<seq<byte>>, i: nat)
    requires Fits(segs) && i < |segs|
    ensures ReadEntry(Image(segs, board), EHDR + PHDR * i) == Some(Given(segs[i], OffsetOf(segs, i)))
       <==> EntrySpared(segs, board, i)
  {
    hide Image, EntrySpared, Holds, ReadEntry;
    var b, at, o := Image(segs, board), EHDR + PHDR * i, OffsetOf(segs, i);
    HeadersFit(segs, board, i);
    SparedIsHeld(segs, board, i);
    if ReadEntry(b, at) == Some(Given(segs[i], o)) {
      EntryIsHeld(b, at, segs[i], o);
    }
    if EntrySpared(segs, board, i) {
      if segs[i].data != [] {
        DataInFile(segs, board, i);
      }
      EntryReads(b, at, segs[i], o);
    }
  }
}
