// Request preparation in libril/ril_service.cpp: strings are copied to the C heap one by one, and whichever
// copy or allocation fails, everything allocated so far is freed and the client gets one error.

module Dispatch {
  import opened Options

  /** A string from the client: the length it reports, and what its characters up to the NUL are. */
  datatype HidlString = HidlString(size: nat, text: string)

  datatype RilError = NoMemory | InternalErr | InvalidArguments

  /** What the outside world sees of a request: the strings that the vendor call receives (None for a null
      pointer), an error response, or the made-up completion of a manual network selection. */
  datatype Event =
    | VendorCall(strings: seq<Option<string>>)
    | VendorProfiles(profiles: seq<seq<Option<string>>>, mvnoTypes: seq<Option<string>>)
    | VendorApn(strings: seq<Option<string>>, mvnoType: Option<string>)
    | ErrorResponse(error: RilError)
    | FakeCompletion

  /** A copy that would cut the string off is refused. */
  predicate Truncated(s: HidlString) { |s.text| > s.size }

  /** No copy is made of an empty string unless it may be empty. */
  predicate Skipped(s: HidlString, allowEmpty: bool) { s.size == 0 && !allowEmpty }

  /** What the vendor sees of a string. */
  function Passed(s: HidlString, allowEmpty: bool): Option<string> {
    if Skipped(s, allowEmpty) then None else Some(s.text)
  }

  /** The C heap and the outside world. `allocates(k)` is the verdict for the k-th allocation. */
  class Process {
    const allocates: nat -> bool
    var memory: map<nat, string>  // the allocated blocks by address, with their contents
    var attempts: nat
    var events: seq<Event>

    ghost predicate Valid()
      reads this
    {
      forall p :: p in memory ==> 0 < p <= attempts
    }

    constructor (allocates: nat -> bool)
      ensures Valid() && memory == map[] && events == []
    {
      this.allocates := allocates;
      memory, attempts, events := map[], 0, [];
    }

    /** calloc: a new address, or 0. */
    method Calloc() returns (p: nat)
      requires Valid()
      modifies this`memory, this`attempts
      ensures Valid() && attempts == old(attempts) + 1
      ensures p != 0 <==> allocates(old(attempts))
      ensures p != 0 ==> p !in old(memory)
      ensures memory == if p == 0 then old(memory) else old(memory)[p := ""]
    {
      attempts := attempts + 1;
      p := 0;
      if allocates(attempts - 1) {
        p := attempts;
        memory := memory[p := ""];
      }
    }

    /** free: only ever of a block that is allocated. */
    method Free(p: nat)
      requires Valid() && p in memory
      modifies this`memory
      ensures Valid() && memory == old(memory) - {p}
    {
      memory := memory - {p};
    }

    /** memsetAndFreeStrings of one pointer. */
    method FreeString(p: nat)
      requires Valid() && (p != 0 ==> p in memory)
      modifies this`memory
      ensures Valid() && memory == if p == 0 then old(memory) else old(memory) - {p}
    {
      if p != 0 {
        Free(p);
      }
    }

    /** copyHidlStringToRil. On failure one error has been sent and nothing is left allocated. */
    method CopyString(s: HidlString, allowEmpty: bool) returns (ok: bool, dest: nat)
      requires Valid()
      modifies this`memory, this`attempts, this`events
      ensures Valid()
      ensures ok <==> (s.size == 0 && !allowEmpty) || (allocates(old(attempts)) && |s.text| <= s.size)
      ensures attempts == old(attempts) + if s.size == 0 && !allowEmpty then 0 else 1
      ensures dest == 0 <==> !ok || (s.size == 0 && !allowEmpty)
      ensures dest != 0 ==> dest !in old(memory)
      ensures memory == if dest == 0 then old(memory) else old(memory)[dest := s.text]
      ensures events == old(events) + if ok then []
        else [ErrorResponse(if allocates(old(attempts)) then InternalErr else NoMemory)]
    {
      var len := s.size;
      if len == 0 && !allowEmpty { return true, 0; }
      dest := Calloc();
      if dest == 0 {
        events := events + [ErrorResponse(NoMemory)];
        return false, 0;
      }
      if |s.text| >= len + 1 {
        Free(dest);
        events := events + [ErrorResponse(InternalErr)];
        return false, 0;
      }
      assert dest in memory;
      memory := memory[dest := s.text];
      return true, dest;
    }
  }

  /** A string with its permission to be empty. */
  type Field = (HidlString, bool)

  /** The first thing that goes wrong when the fields are copied in order, starting with allocation `k`. */
  function FirstFailure(ss: seq<Field>, allocates: nat -> bool, k: nat): Option<RilError> {
    if ss == [] then None
    else if Skipped(ss[0].0, ss[0].1) then FirstFailure(ss[1..], allocates, k)
    else if !allocates(k) then Some(NoMemory)
    else if Truncated(ss[0].0) then Some(InternalErr)
    else FirstFailure(ss[1..], allocates, k + 1)
  }

  /** How many allocations a successful copy of the fields makes. */
  function Copies(ss: seq<Field>): nat {
    if ss == [] then 0 else (if Skipped(ss[0].0, ss[0].1) then 0 else 1) + Copies(ss[1..])
  }

  /** With enough memory the only thing that can go wrong is a string that lies about its length. */
  lemma {:induction false} OnlyTruncationFails(ss: seq<Field>, allocates: nat -> bool, k: nat)
    requires forall j :: j >= k ==> allocates(j)
    ensures FirstFailure(ss, allocates, k).None? <==>
      forall i :: 0 <= i < |ss| ==> (ss[i].0.size == 0 && !ss[i].1) || |ss[i].0.text| <= ss[i].0.size
    ensures FirstFailure(ss, allocates, k) in {None, Some(InternalErr)}
  {
    if ss == [] {
    } else {
      OnlyTruncationFails(ss[1..], allocates, if Skipped(ss[0].0, ss[0].1) then k else k + 1);
      assert forall i :: 0 < i < |ss| ==> ss[i] == ss[1..][i - 1];
    }
  }

  /** What the vendor sees of the fields. */
  function PassedTo(ss: seq<Field>): seq<Option<string>> {
    seq(|ss|, i requires 0 <= i < |ss| => Passed(ss[i].0, ss[i].1))
  }

  ghost function Blocks(ptrs: seq<nat>): set<nat> { set p | p in ptrs && p != 0 }

  /** Apart from the null ones, the pointers are distinct blocks that were added to `base`. */
  ghost predicate Holding(memory: map<nat, string>, base: map<nat, string>, ptrs: seq<nat>) {
    && (forall i, j :: 0 <= i < j < |ptrs| && ptrs[i] != 0 ==> ptrs[i] != ptrs[j])
    && memory.Keys == base.Keys + Blocks(ptrs) && base.Keys !! Blocks(ptrs)
    && forall p :: p in base ==> memory[p] == base[p]
  }

  /** What the vendor finds behind the pointers. */
  function Contents(memory: map<nat, string>, ptrs: seq<nat>): seq<Option<string>> {
    seq(|ptrs|, i requires 0 <= i < |ptrs| => if ptrs[i] in memory then Some(memory[ptrs[i]]) else None)
  }

  lemma HoldingOneMore(memory: map<nat, string>, base: map<nat, string>, ptrs: seq<nat>, p: nat, text: string)
    requires Holding(memory, base, ptrs) && p !in memory && 0 !in memory
    ensures Holding(if p == 0 then memory else memory[p := text], base, ptrs + [p])
    ensures Contents(if p == 0 then memory else memory[p := text], ptrs + [p])
      == Contents(memory, ptrs) + [if p == 0 then None else Some(text)]
  {
    assert Blocks(ptrs + [p]) == Blocks(ptrs) + if p == 0 then {} else {p};
    forall i | 0 <= i < |ptrs| ensures ptrs[i] != 0 ==> ptrs[i] != p {
      assert ptrs[i] != 0 ==> ptrs[i] in Blocks(ptrs);
    }
  }

  /** Frees the strings of an array one by one. */
  method FreeStrings(c: Process, ptrs: array<nat>, n: nat, ghost base: map<nat, string>)
    requires c.Valid() && n <= ptrs.Length && Holding(c.memory, base, ptrs[..n])
    modifies c`memory
    ensures c.Valid() && c.memory == base
  {
    ghost var held := c.memory;
    for j := 0 to n
      invariant c.Valid() && c.memory == held - Blocks(ptrs[..j])
    {
      assert ptrs[j] != 0 ==> ptrs[j] in Blocks(ptrs[..n]);
      c.FreeString(ptrs[j]);
      assert Blocks(ptrs[..j + 1]) == Blocks(ptrs[..j]) + if ptrs[j] == 0 then {} else {ptrs[j]};
    }
  }

  // ---------- dispatchStrings ----------

  function Uniform(ss: seq<HidlString>, allowEmpty: bool): seq<Field> {
    seq(|ss|, i requires 0 <= i < |ss| => (ss[i], allowEmpty))
  }

  /** The events of a preparation: the vendor call, or one error response, and never both. */
  function Outcome(failure: Option<RilError>, passed: seq<Option<string>>): seq<Event> {
    if failure.None? then [VendorCall(passed)] else [ErrorResponse(failure.value)]
  }

  lemma UniformFails(ss: seq<HidlString>, allowEmpty: bool, allocates: nat -> bool, k: nat)
    requires forall j :: j >= k ==> allocates(j)
    ensures FirstFailure(Uniform(ss, allowEmpty), allocates, k) ==
      if forall s :: s in ss ==> (s.size == 0 && !allowEmpty) || |s.text| <= s.size then None else Some(InternalErr)
  {
    hide FirstFailure;
    var fields := Uniform(ss, allowEmpty);
    OnlyTruncationFails(fields, allocates, k);
    if s :| s in ss && !((s.size == 0 && !allowEmpty) || |s.text| <= s.size) {
      var i :| 0 <= i < |ss| && ss[i] == s;
      assert fields[i].0 == s;
    } else {
      assert forall i :: 0 <= i < |ss| ==> ss[i] in ss && fields[i].0 == ss[i];
    }
  }

  /** With enough memory: an array of strings that keep within their lengths reaches the vendor as it is, empty ones
      as null pointers unless they may be empty; any other array is answered with an internal error. */
  lemma HonestStringsPass(ss: seq<HidlString>, allowEmpty: bool, allocates: nat -> bool, k: nat)
    requires forall j :: j >= k ==> allocates(j)
    ensures Outcome(FirstFailure(Uniform(ss, allowEmpty), allocates, k), PassedTo(Uniform(ss, allowEmpty))) ==
      if forall s :: s in ss ==> (s.size == 0 && !allowEmpty) || |s.text| <= s.size
      then [VendorCall(seq(|ss|, i requires 0 <= i < |ss| =>
              if ss[i].size == 0 && !allowEmpty then None else Some(ss[i].text)))]
      else [ErrorResponse(InternalErr)]
  {
    hide FirstFailure;
    UniformFails(ss, allowEmpty, allocates, k);
    assert PassedTo(Uniform(ss, allowEmpty)) == seq(|ss|, i requires 0 <= i < |ss| =>
      if ss[i].size == 0 && !allowEmpty then None else Some(ss[i].text));
  }

  /** The copy loop: fills `ptrs` until a copy fails; then the copies made so far are freed. */
  method CopyAll(c: Process, ss: seq<Field>, ptrs: array<nat>) returns (ok: bool)
    requires c.Valid() && ptrs.Length == |ss|
    modifies c`memory, c`attempts, c`events, ptrs
    ensures c.Valid()
    ensures var f := FirstFailure(ss, c.allocates, old(c.attempts));
      ok == f.None? && c.events == old(c.events) + if ok then [] else [ErrorResponse(f.value)]
    ensures ok ==> c.attempts == old(c.attempts) + Copies(ss)
    ensures if ok then Holding(c.memory, old(c.memory), ptrs[..]) && Contents(c.memory, ptrs[..]) == PassedTo(ss)
            else c.memory == old(c.memory)
  {
    ghost var base := c.memory;
    for i := 0 to |ss|
      invariant c.Valid() && c.events == old(c.events)
      invariant Holding(c.memory, base, ptrs[..i]) && Contents(c.memory, ptrs[..i]) == PassedTo(ss[..i])
      invariant FirstFailure(ss, c.allocates, old(c.attempts)) == FirstFailure(ss[i..], c.allocates, c.attempts)
      invariant old(c.attempts) + Copies(ss) == c.attempts + Copies(ss[i..])
    {
      assert ss[i..][1..] == ss[i + 1..] && ss[..i + 1] == ss[..i] + [ss[i]];
      ghost var m := c.memory;
      var copied, dest := c.CopyString(ss[i].0, ss[i].1);
      if !copied {
        FreeStrings(c, ptrs, i, base);
        return false;
      }
      HoldingOneMore(m, base, ptrs[..i], dest, ss[i].0.text);
      ptrs[i] := dest;
      assert ptrs[..i + 1] == ptrs[..i] + [dest];
      assert PassedTo(ss[..i + 1]) == PassedTo(ss[..i]) + [Passed(ss[i].0, ss[i].1)];
    }
    assert ss[..|ss|] == ss && ptrs[..|ss|] == ptrs[..];
    ok := true;
  }

  /** The copies, the vendor call and the release of the copies. */
  method CopyAndCall(c: Process, ss: seq<Field>) returns (ok: bool)
    requires c.Valid()
    modifies c`memory, c`attempts, c`events
    ensures c.Valid() && c.memory == old(c.memory)
    ensures var failure := FirstFailure(ss, c.allocates, old(c.attempts));
      ok == failure.None? && c.events == old(c.events) + Outcome(failure, PassedTo(ss))
  {
    hide Holding, FirstFailure, Passed, Copies;
    ghost var base := c.memory;
    var pStrings := new nat[|ss|](_ => 0);
    ok := CopyAll(c, ss, pStrings);
    if ok {
      c.events := c.events + [VendorCall(Contents(c.memory, pStrings[..]))];
      assert pStrings[..|ss|] == pStrings[..];
      FreeStrings(c, pStrings, |ss|, base);
    }
  }

  /** dispatchStrings, in both versions. `manual` stands for a manual network selection in the version that
      answers it on the spot. */
  method DispatchStrings(c: Process, ss: seq<HidlString>, allowEmpty: bool, manual: bool) returns (ok: bool)
    requires c.Valid()
    modifies c`memory, c`attempts, c`events
    ensures c.Valid() && c.memory == old(c.memory)
    ensures var fields := Uniform(ss, allowEmpty);
      var failure := if !c.allocates(old(c.attempts)) then Some(NoMemory)
                     else FirstFailure(fields, c.allocates, old(c.attempts) + 1);
      ok == failure.None?
      && c.events == old(c.events) + Outcome(failure, PassedTo(fields)) + if ok && manual then [FakeCompletion] else []
    ensures (forall j :: j >= old(c.attempts) ==> c.allocates(j)) ==>
      && (ok <==> forall s :: s in ss ==> (s.size == 0 && !allowEmpty) || |s.text| <= s.size)
      && c.events == old(c.events) +
           (if !ok then [ErrorResponse(InternalErr)]
            else [VendorCall(seq(|ss|, i requires 0 <= i < |ss| =>
                    if ss[i].size == 0 && !allowEmpty then None else Some(ss[i].text)))])
           + if ok && manual then [FakeCompletion] else []
  {
    hide FirstFailure, Passed;
    ghost var base := c.memory;
    var block := c.Calloc();
    if block == 0 {
      c.events := c.events + [ErrorResponse(NoMemory)];
      return false;
    }
    if forall j :: j >= c.attempts ==> c.allocates(j) {
      HonestStringsPass(ss, allowEmpty, c.allocates, c.attempts);
      UniformFails(ss, allowEmpty, c.allocates, c.attempts);
    }
    ok := CopyAndCall(c, Uniform(ss, allowEmpty));
    c.Free(block);
    assert c.memory == base;
    if ok && manual {
      c.events := c.events + [FakeCompletion];
    }
  }
}
