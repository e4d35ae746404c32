// setDataProfile and setInitialAttachApn of libril/ril_service.cpp: structures of strings, in the layouts
// of the two vendor versions.

module DataProfiles {
  import opened Options
  import opened Dispatch

  datatype MvnoType = Imsi | Gid | Spn | NoMvno | OtherMvno(value: int)

  /** convertMvnoTypeToString: a constant string, or a refusal. */
  function MvnoName(t: MvnoType): Option<string> {
    match t
    case Imsi => Some("imsi")
    case Gid => Some("gid")
    case Spn => Some("spn")
    case NoMvno => Some("")
    case OtherMvno(_) => None
  }

  /** The names that the vendor receives; other types have none. */
  lemma MvnoNamesAre(t: MvnoType)
    ensures MvnoName(t) == Some("imsi") <==> t == Imsi
    ensures MvnoName(t) == Some("gid") <==> t == Gid
    ensures MvnoName(t) == Some("spn") <==> t == Spn
    ensures MvnoName(t) == Some("") <==> t == NoMvno
    ensures MvnoName(t) == None <==> t.OtherMvno?
  {
    assert |"imsi"| == 4 && |"gid"| == 3 && |"spn"| == 3 && "gid"[0] == 'g' && "spn"[0] == 's';
  }

  /** DataProfileInfo, as far as strings are concerned. */
  datatype Profile = Profile(apn: HidlString, protocol: HidlString, roamingProtocol: HidlString,
    user: HidlString, password: HidlString, mvnoMatchData: HidlString, mvnoType: MvnoType)

  /** The string members that setDataProfile copies, in order. */
  function Fields(p: Profile, version: int, isRoaming: bool): seq<Field> {
    if version <= 14 then
      [(p.apn, true), (if isRoaming then p.roamingProtocol else p.protocol, true), (p.user, true), (p.password, true)]
    else
      [(p.apn, true), (p.protocol, false), (p.roamingProtocol, true), (p.user, true), (p.password, true),
       (p.mvnoMatchData, true)]
  }

  function Width(version: int): nat { if version <= 14 then 4 else 6 }

  function ProfileFailure(p: Profile, version: int, isRoaming: bool, allocates: nat -> bool, k: nat): Option<RilError> {
    var f := FirstFailure(Fields(p, version, isRoaming), allocates, k);
    if f.Some? then f else if version > 14 && MvnoName(p.mvnoType).None? then Some(InvalidArguments) else None
  }

  /** The first thing that goes wrong with the profiles from `i` on, one after the other. */
  function ProfilesFailure(ps: seq<Profile>, i: nat, version: int, isRoaming: bool, allocates: nat -> bool, k: nat): Option<RilError>
    requires i <= |ps|
    decreases |ps| - i
  {
    if i == |ps| then None
    else
      var f := ProfileFailure(ps[i], version, isRoaming, allocates, k);
      if f.Some? then f
      else ProfilesFailure(ps, i + 1, version, isRoaming, allocates, k + Copies(Fields(ps[i], version, isRoaming)))
  }

  function PassedProfiles(ps: seq<Profile>, version: int, isRoaming: bool): seq<seq<Option<string>>> {
    seq(|ps|, i requires 0 <= i < |ps| => PassedTo(Fields(ps[i], version, isRoaming)))
  }

  /** The names of the MVNO types, which the later layout carries. */
  function MvnoNames(ps: seq<Profile>, version: int): seq<Option<string>> {
    if version <= 14 then [] else seq(|ps|, i requires 0 <= i < |ps| => MvnoName(ps[i].mvnoType))
  }

  /** The vendor is never passed a profile whose MVNO type has no name. */
  lemma {:induction false} PassableAreNamed(ps: seq<Profile>, i: nat, version: int, isRoaming: bool,
      allocates: nat -> bool, k: nat)
    requires i <= |ps| && version > 14 && ProfilesFailure(ps, i, version, isRoaming, allocates, k).None?
    ensures forall j :: i <= j < |ps| ==> MvnoName(ps[j].mvnoType).Some?
    decreases |ps| - i
  {
    if i == |ps| {
    } else {
      PassableAreNamed(ps, i + 1, version, isRoaming, allocates, k + Copies(Fields(ps[i], version, isRoaming)));
    }
  }

  /** The array of structures: one row of string pointers per profile. `at` says where each block is. */
  class ProfileArray {
    const cells: array2<nat>
    ghost var at: map<nat, (nat, nat)>

    constructor (rows: nat, width: nat)
      ensures fresh(cells) && cells.Length0 == rows && cells.Length1 == width && at == map[]
      ensures forall i, j :: 0 <= i < rows && 0 <= j < width ==> cells[i, j] == 0
    {
      cells := new nat[rows, width]((i, j) => 0);
      at := map[];
    }

    /** Every pointer is null or a block of its own that was added to `base`. */
    ghost predicate Holding(memory: map<nat, string>, base: map<nat, string>)
      reads this, cells
    {
      && (forall i, j :: 0 <= i < cells.Length0 && 0 <= j < cells.Length1 && cells[i, j] != 0 ==>
            cells[i, j] in at && at[cells[i, j]] == (i, j))
      && (forall p :: p in at ==>
            p != 0 && at[p].0 < cells.Length0 && at[p].1 < cells.Length1 && cells[at[p].0, at[p].1] == p)
      && memory.Keys == base.Keys + at.Keys && base.Keys !! at.Keys
      && forall p :: p in base ==> memory[p] == base[p]
    }

    function Row(memory: map<nat, string>, i: nat): seq<Option<string>>
      requires i < cells.Length0
      reads cells
    {
      seq(cells.Length1, j requires 0 <= j < cells.Length1 reads cells =>
        if cells[i, j] in memory then Some(memory[cells[i, j]]) else None)
    }

    /** The blocks that freeSetDataProfileData has freed before it gets to member `f` of profile `j`. */
    ghost function Freed(f: nat, j: nat): set<nat>
      reads this
    {
      set p | p in at && (at[p].1 < f || (at[p].1 == f && at[p].0 < j))
    }

    lemma FreedStep(memory: map<nat, string>, base: map<nat, string>, f: nat, j: nat)
      requires Holding(memory, base) && f < cells.Length1 && j < cells.Length0
      ensures Freed(f, j + 1) == Freed(f, j) + (if cells[j, f] == 0 then {} else {cells[j, f]})
      ensures cells[j, f] != 0 ==> cells[j, f] in memory && cells[j, f] !in Freed(f, j)
    {
    }

    lemma FreedColumn(memory: map<nat, string>, base: map<nat, string>, f: nat)
      requires Holding(memory, base) && f < cells.Length1
      ensures Freed(f, cells.Length0) == Freed(f + 1, 0)
    {
    }

    lemma FreedEnds(memory: map<nat, string>, base: map<nat, string>)
      requires Holding(memory, base)
      ensures Freed(0, 0) == {} && Freed(cells.Length1, 0) == at.Keys
      ensures memory - at.Keys == base
    {
    }

    method FreeMember(c: Process, f: nat, j: nat, ghost held: map<nat, string>, ghost base: map<nat, string>)
      requires c.Valid() && Holding(held, base) && f < cells.Length1 && j < cells.Length0
      requires c.memory == held - Freed(f, j)
      modifies c`memory
      ensures c.Valid() && c.memory == held - Freed(f, j + 1)
    {
      FreedStep(held, base, f, j);
      c.FreeString(cells[j, f]);
    }

    method FreeColumn(c: Process, f: nat, ghost held: map<nat, string>, ghost base: map<nat, string>)
      requires c.Valid() && Holding(held, base) && f < cells.Length1
      requires c.memory == held - Freed(f, 0)
      modifies c`memory
      ensures c.Valid() && c.memory == held - Freed(f, cells.Length0)
    {
      for j := 0 to cells.Length0
        invariant c.Valid() && c.memory == held - Freed(f, j)
      {
        FreeMember(c, f, j, held, base);
      }
    }

    /** freeSetDataProfileData without the two arrays: member by member, profile by profile. */
    method FreeMembers(c: Process, ghost base: map<nat, string>)
      requires c.Valid() && Holding(c.memory, base)
      modifies c`memory
      ensures c.Valid() && c.memory == base
    {
      ghost var held := c.memory;
      FreedEnds(held, base);
      for f := 0 to cells.Length1
        invariant c.Valid() && c.memory == held - Freed(f, 0)
      {
        FreeColumn(c, f, held, base);
        FreedColumn(held, base, f);
      }
    }

    /** The blocks of row `i` hold what is passed of the first `n` fields; the rest of the row is null. */
    ghost predicate RowHolds(memory: map<nat, string>, i: nat, ss: seq<Field>, n: nat)
      requires i < cells.Length0
      reads cells
    {
      && n <= |ss| == cells.Length1
      && (forall y :: 0 <= y < n ==> CellHolds(memory, i, y, ss[y]))
      && (forall y :: n <= y < cells.Length1 ==> cells[i, y] == 0)
    }

    ghost predicate CellHolds(memory: map<nat, string>, i: nat, y: nat, s: Field)
      requires i < cells.Length0 && y < cells.Length1
      reads cells
    {
      Passed(s.0, s.1) == if cells[i, y] in memory then Some(memory[cells[i, y]]) else None
    }

    /** Only row `i` has changed. */
    twostate predicate OnlyRow(i: nat)
      reads cells
    {
      forall x, y :: 0 <= x < cells.Length0 && 0 <= y < cells.Length1 && x != i ==> cells[x, y] == old(cells[x, y])
    }

    /** A new block, or none, goes into an empty cell. */
    method SetCell(i: nat, j: nat, dest: nat, ghost memory: map<nat, string>, ghost text: string,
        ghost base: map<nat, string>)
      requires Holding(memory, base) && dest !in memory
      requires i < cells.Length0 && j < cells.Length1 && cells[i, j] == 0
      modifies this`at, cells
      ensures Holding(if dest == 0 then memory else memory[dest := text], base) && OnlyRow(i) && cells[i, j] == dest
      ensures forall y :: 0 <= y < cells.Length1 && y != j ==> cells[i, y] == old(cells[i, y])
    {
      cells[i, j] := dest;
      if dest != 0 {
        at := at[dest := (i, j)];
      }
    }

    /** One guarded copy into member `j` of profile `i`. */
    method CopyMember(c: Process, i: nat, j: nat, s: Field, ghost base: map<nat, string>) returns (ok: bool)
      requires c.Valid() && Holding(c.memory, base) && i < cells.Length0 && j < cells.Length1 && cells[i, j] == 0
      modifies c`memory, c`attempts, c`events, this`at, cells
      ensures c.Valid() && Holding(c.memory, base) && OnlyRow(i) && Extends(old(c.memory), c.memory)
      ensures ok == FirstFailure([s], c.allocates, old(c.attempts)).None?
      ensures c.attempts == old(c.attempts) + Copies([s])
      ensures c.events == old(c.events) + if ok then []
        else [ErrorResponse(FirstFailure([s], c.allocates, old(c.attempts)).value)]
      ensures forall y :: 0 <= y < cells.Length1 && y != j ==> cells[i, y] == old(cells[i, y])
      ensures ok ==> CellHolds(c.memory, i, j, s)
    {
      hide FirstFailure, Copies, Holding;
      OneField(s, c.allocates, c.attempts);
      ghost var m := c.memory;
      var dest;
      ok, dest := c.CopyString(s.0, s.1);
      SetCell(i, j, dest, m, s.0.text, base);
    }

    /** The same, as a step from `j` to `j + 1` copied members. */
    method CopyNext(c: Process, i: nat, ss: seq<Field>, j: nat, ghost base: map<nat, string>) returns (ok: bool)
      requires c.Valid() && Holding(c.memory, base) && i < cells.Length0 && j < |ss| && RowHolds(c.memory, i, ss, j)
      modifies c`memory, c`attempts, c`events, this`at, cells
      ensures c.Valid() && Holding(c.memory, base) && OnlyRow(i) && Extends(old(c.memory), c.memory)
      ensures var f := FirstFailure(ss[j..], c.allocates, old(c.attempts));
        if ok then
          && f == FirstFailure(ss[j + 1..], c.allocates, c.attempts) && c.events == old(c.events)
          && c.attempts + Copies(ss[j + 1..]) == old(c.attempts) + Copies(ss[j..])
          && RowHolds(c.memory, i, ss, j + 1)
        else f.Some? && c.events == old(c.events) + [ErrorResponse(f.value)]
    {
      FailureStep(ss, j, c.allocates, c.attempts);
      ghost var m := c.memory;
      assert forall y :: 0 <= y < j ==> cells[i, y] != 0 ==> cells[i, y] in m;
      ok := CopyMember(c, i, j, ss[j], base);
    }

    /** The copies of one profile, each guarded by the success of those before it. */
    method CopyRow(c: Process, i: nat, ss: seq<Field>, ghost base: map<nat, string>) returns (ok: bool)
      requires c.Valid() && Holding(c.memory, base) && i < cells.Length0 && RowHolds(c.memory, i, ss, 0)
      modifies c`memory, c`attempts, c`events, this`at, cells
      ensures c.Valid() && Holding(c.memory, base) && OnlyRow(i) && Extends(old(c.memory), c.memory)
      ensures var f := FirstFailure(ss, c.allocates, old(c.attempts));
        ok == f.None? && c.events == old(c.events) + if ok then [] else [ErrorResponse(f.value)]
      ensures ok ==> RowHolds(c.memory, i, ss, |ss|) && c.attempts == old(c.attempts) + Copies(ss)
    {
      ok := true;
      var j := 0;
      while j < |ss| && ok
        invariant 0 <= j <= |ss| && c.Valid() && Holding(c.memory, base) && OnlyRow(i) && Extends(old(c.memory), c.memory)
        invariant var f := FirstFailure(ss, c.allocates, old(c.attempts));
          if ok then
            && f == FirstFailure(ss[j..], c.allocates, c.attempts) && c.events == old(c.events)
            && c.attempts + Copies(ss[j..]) == old(c.attempts) + Copies(ss)
            && RowHolds(c.memory, i, ss, j)
          else f.Some? && c.events == old(c.events) + [ErrorResponse(f.value)]
      {
        ok := CopyNext(c, i, ss, j, base);
        j := j + 1;
      }
    }
  }

  predicate Extends(m: map<nat, string>, n: map<nat, string>) {
    forall p :: p in m ==> p in n && n[p] == m[p]
  }

  lemma OneField(s: Field, allocates: nat -> bool, k: nat)
    ensures Copies([s]) == if Skipped(s.0, s.1) then 0 else 1
    ensures FirstFailure([s], allocates, k) ==
      if Skipped(s.0, s.1) then None
      else if !allocates(k) then Some(NoMemory)
      else if Truncated(s.0) then Some(InternalErr)
      else None
  {
    assert [s][1..] == [];
  }

  lemma FailureStep(ss: seq<Field>, j: nat, allocates: nat -> bool, k: nat)
    requires j < |ss|
    ensures Copies(ss[j..]) == Copies([ss[j]]) + Copies(ss[j + 1..])
    ensures FirstFailure(ss[j..], allocates, k) ==
      var f := FirstFailure([ss[j]], allocates, k);
      if f.Some? then f else FirstFailure(ss[j + 1..], allocates, k + Copies([ss[j]]))
  {
    assert ss[j..][1..] == ss[j + 1..] && [ss[j]][1..] == [];
  }

  // ---------- setDataProfile ----------

  /** All strings of the first `n` profiles are copied; the rest of the array is null. */
  ghost predicate RowsHold(a: ProfileArray, memory: map<nat, string>, ps: seq<Profile>, version: int, isRoaming: bool, n: nat)
    reads a.cells
  {
    && n <= |ps| == a.cells.Length0 && a.cells.Length1 == Width(version)
    && (forall i :: 0 <= i < n ==> a.RowHolds(memory, i, Fields(ps[i], version, isRoaming), Width(version)))
    && (forall i :: n <= i < |ps| ==> a.RowHolds(memory, i, Fields(ps[i], version, isRoaming), 0))
  }

  /** One round of the profile loop: the strings, and from version 15 on the name of the MVNO type. */
  method CopyProfile(c: Process, a: ProfileArray, ps: seq<Profile>, version: int, isRoaming: bool, i: nat,
      ghost base: map<nat, string>) returns (success: bool)
    requires c.Valid() && a.Holding(c.memory, base) && i < |ps| && RowsHold(a, c.memory, ps, version, isRoaming, i)
    modifies c`memory, c`attempts, c`events, a`at, a.cells
    ensures c.Valid() && a.Holding(c.memory, base)
    ensures var f := ProfileFailure(ps[i], version, isRoaming, c.allocates, old(c.attempts));
      success == f.None? && c.events == old(c.events) + if success then [] else [ErrorResponse(f.value)]
    ensures success ==> RowsHold(a, c.memory, ps, version, isRoaming, i + 1)
    ensures success ==> c.attempts == old(c.attempts) + Copies(Fields(ps[i], version, isRoaming))
  {
    hide Fields, Passed, FirstFailure, Skipped, Truncated, Copies, Width, MvnoName;
    ghost var m := c.memory;
    success := a.CopyRow(c, i, Fields(ps[i], version, isRoaming), base);
    if success && version > 14 && MvnoName(ps[i].mvnoType).None? {
      c.events := c.events + [ErrorResponse(InvalidArguments)];
      success := false;
    }
    forall x | 0 <= x < |ps| && x != i
      ensures a.RowHolds(c.memory, x, Fields(ps[x], version, isRoaming), if x < i then Width(version) else 0)
    {
      assert a.RowHolds(m, x, Fields(ps[x], version, isRoaming), if x < i then Width(version) else 0);
    }
  }

  /** The same, when `f` is what the profiles from `i` on come to. */
  method CopyNextProfile(c: Process, a: ProfileArray, ps: seq<Profile>, version: int, isRoaming: bool, i: nat,
      ghost base: map<nat, string>, ghost f: Option<RilError>) returns (success: bool)
    requires c.Valid() && a.Holding(c.memory, base) && i < |ps| && RowsHold(a, c.memory, ps, version, isRoaming, i)
    requires f == ProfilesFailure(ps, i, version, isRoaming, c.allocates, c.attempts)
    modifies c`memory, c`attempts, c`events, a`at, a.cells
    ensures c.Valid() && a.Holding(c.memory, base)
    ensures success ==> RowsHold(a, c.memory, ps, version, isRoaming, i + 1)
    ensures success ==> f == ProfilesFailure(ps, i + 1, version, isRoaming, c.allocates, c.attempts)
    ensures !success ==> f.Some?
    ensures c.events == old(c.events) + if success then [] else [ErrorResponse(f.value)]
  {
    success := CopyProfile(c, a, ps, version, isRoaming, i, base);
  }

  /** The profile loop. */
  method CopyProfiles(c: Process, a: ProfileArray, ps: seq<Profile>, version: int, isRoaming: bool,
      ghost base: map<nat, string>) returns (success: bool, mvnoTypes: seq<Option<string>>)
    requires c.Valid() && a.Holding(c.memory, base) && RowsHold(a, c.memory, ps, version, isRoaming, 0)
    modifies c`memory, c`attempts, c`events, a`at, a.cells
    ensures c.Valid() && a.Holding(c.memory, base)
    ensures var f := ProfilesFailure(ps, 0, version, isRoaming, c.allocates, old(c.attempts));
      success == f.None? && c.events == old(c.events) + if success then [] else [ErrorResponse(f.value)]
    ensures success ==> RowsHold(a, c.memory, ps, version, isRoaming, |ps|)
    ensures success ==> mvnoTypes == MvnoNames(ps, version)
  {
    hide RowsHold, Process.Valid, ProfileArray.Holding;
    success, mvnoTypes := true, [];
    ghost var f := ProfilesFailure(ps, 0, version, isRoaming, c.allocates, c.attempts);
    var i := 0;
    while i < |ps| && success
      invariant 0 <= i <= |ps| && c.Valid() && a.Holding(c.memory, base)
      invariant success ==> RowsHold(a, c.memory, ps, version, isRoaming, i) && c.events == old(c.events)
      invariant success ==> f == ProfilesFailure(ps, i, version, isRoaming, c.allocates, c.attempts)
      invariant !success ==> f.Some? && c.events == old(c.events) + [ErrorResponse(f.value)]
      invariant |mvnoTypes| == (if version <= 14 then 0 else i)
      invariant forall j :: 0 <= j < |mvnoTypes| ==> mvnoTypes[j] == MvnoName(ps[j].mvnoType)
    {
      success := CopyNextProfile(c, a, ps, version, isRoaming, i, base, f);
      if version > 14 {
        mvnoTypes := mvnoTypes + [MvnoName(ps[i].mvnoType)];
      }
      i := i + 1;
    }
  }

  function Rows(memory: map<nat, string>, a: ProfileArray): seq<seq<Option<string>>>
    reads a.cells
  {
    seq(a.cells.Length0, i requires 0 <= i < a.cells.Length0 reads a.cells => a.Row(memory, i))
  }

  lemma RowsArePassed(a: ProfileArray, memory: map<nat, string>, ps: seq<Profile>, version: int, isRoaming: bool)
    requires RowsHold(a, memory, ps, version, isRoaming, |ps|)
    ensures Rows(memory, a) == PassedProfiles(ps, version, isRoaming)
  {
    forall i | 0 <= i < |ps| ensures a.Row(memory, i) == PassedTo(Fields(ps[i], version, isRoaming)) {
      assert a.RowHolds(memory, i, Fields(ps[i], version, isRoaming), Width(version));
      forall y | 0 <= y < Width(version) ensures a.Row(memory, i)[y] == PassedTo(Fields(ps[i], version, isRoaming))[y] {
        assert a.CellHolds(memory, i, y, Fields(ps[i], version, isRoaming)[y]);
      }
    }
  }

  /** The events of setDataProfile: the vendor call with all profiles, or one error response. */
  function ProfilesOutcome(failure: Option<RilError>, ps: seq<Profile>, version: int, isRoaming: bool): seq<Event> {
    if failure.None? then [VendorProfiles(PassedProfiles(ps, version, isRoaming), MvnoNames(ps, version))]
    else [ErrorResponse(failure.value)]
  }

  /** The same, for copies that start with allocation `k`. */
  function Preparation(ps: seq<Profile>, version: int, isRoaming: bool, allocates: nat -> bool, k: nat): seq<Event> {
    ProfilesOutcome(ProfilesFailure(ps, 0, version, isRoaming, allocates, k), ps, version, isRoaming)
  }

  /** setDataProfile, in both vendor versions. */
  method SetDataProfile(c: Process, ps: seq<Profile>, version: int, isRoaming: bool)
    requires c.Valid()
    modifies c`memory, c`attempts, c`events
    ensures c.Valid() && c.memory == old(c.memory)
    ensures var k := old(c.attempts);
      c.events == old(c.events) +
        if !c.allocates(k) || !c.allocates(k + 1) then [ErrorResponse(NoMemory)]
        else Preparation(ps, version, isRoaming, c.allocates, k + 2)
  {
    hide Preparation;
    ghost var base := c.memory;
    var dataProfiles := c.Calloc();
    if dataProfiles == 0 {
      c.events := c.events + [ErrorResponse(NoMemory)];
      return;
    }
    var dataProfilePtrs := c.Calloc();
    if dataProfilePtrs == 0 {
      c.Free(dataProfiles);
      c.events := c.events + [ErrorResponse(NoMemory)];
      assert c.memory == base;
      return;
    }
    PrepareAndCall(c, ps, version, isRoaming);
    c.Free(dataProfiles);
    c.Free(dataProfilePtrs);
    assert c.memory == base;
  }

  /** Everything between the allocation of the two arrays and their release. */
  method PrepareAndCall(c: Process, ps: seq<Profile>, version: int, isRoaming: bool)
    requires c.Valid()
    modifies c`memory, c`attempts, c`events
    ensures c.Valid() && c.memory == old(c.memory)
    ensures c.events == old(c.events) + Preparation(ps, version, isRoaming, c.allocates, old(c.attempts))
  {
    hide ProfilesFailure, PassedProfiles, MvnoNames, Rows;
    ghost var base := c.memory;
    var a := new ProfileArray(|ps|, Width(version));
    var success, mvnoTypes := CopyProfiles(c, a, ps, version, isRoaming, base);
    if success {
      RowsArePassed(a, c.memory, ps, version, isRoaming);
      c.events := c.events + [VendorProfiles(Rows(c.memory, a), mvnoTypes)];
    }
    a.FreeMembers(c, base);
  }

  /** With enough memory the first profile that fails, number `n`, decides. */
  lemma {:induction false} FirstBadProfile(ps: seq<Profile>, i: nat, version: int, isRoaming: bool,
      allocates: nat -> bool, k: nat) returns (n: nat)
    requires i <= |ps| && forall j :: j >= k ==> allocates(j)
    ensures i <= n <= |ps|
    ensures forall j :: i <= j < n ==> ProfileFailure(ps[j], version, isRoaming, allocates, k).None?
    ensures var f := ProfilesFailure(ps, i, version, isRoaming, allocates, k);
      if n == |ps| then f.None? else f.Some? && f == ProfileFailure(ps[n], version, isRoaming, allocates, k)
    decreases |ps| - i
  {
    hide Fields, FirstFailure, Copies, MvnoName;
    n := i;
    if i < |ps| && ProfileFailure(ps[i], version, isRoaming, allocates, k).None? {
      var l := k + Copies(Fields(ps[i], version, isRoaming));
      n := FirstBadProfile(ps, i + 1, version, isRoaming, allocates, l);
      forall j | i <= j < |ps|
        ensures ProfileFailure(ps[j], version, isRoaming, allocates, l) == ProfileFailure(ps[j], version, isRoaming, allocates, k)
      {
        MemoryIsMemory(Fields(ps[j], version, isRoaming), allocates, k, l);
      }
    }
  }

  lemma MemoryIsMemory(ss: seq<Field>, allocates: nat -> bool, k: nat, n: nat)
    requires k <= n && forall j :: j >= k ==> allocates(j)
    ensures FirstFailure(ss, allocates, k) == FirstFailure(ss, allocates, n)
  {
    OnlyTruncationFails(ss, allocates, k);
    OnlyTruncationFails(ss, allocates, n);
  }

  /** Which member of the vendor's structure carries which string of the profile, up to version 14. */
  lemma EarlyLayout(ps: seq<Profile>, version: int, isRoaming: bool)
    requires version <= 14
    ensures PassedProfiles(ps, version, isRoaming) == seq(|ps|, i requires 0 <= i < |ps| =>
      [Some(ps[i].apn.text), Some(if isRoaming then ps[i].roamingProtocol.text else ps[i].protocol.text),
       Some(ps[i].user.text), Some(ps[i].password.text)])
  {
    forall i | 0 <= i < |ps|
      ensures PassedTo(Fields(ps[i], version, isRoaming)) ==
        [Some(ps[i].apn.text), Some(if isRoaming then ps[i].roamingProtocol.text else ps[i].protocol.text),
         Some(ps[i].user.text), Some(ps[i].password.text)]
    {
      var ss := Fields(ps[i], version, isRoaming);
      assert ss[0].0 == ps[i].apn && ss[2].0 == ps[i].user && ss[3].0 == ps[i].password;
      assert ss[1].0 == if isRoaming then ps[i].roamingProtocol else ps[i].protocol;
    }
  }

  /** The same from version 15 on, with the names of the MVNO types. */
  lemma LateLayout(ps: seq<Profile>, version: int, isRoaming: bool)
    requires version > 14
    ensures PassedProfiles(ps, version, isRoaming) == seq(|ps|, i requires 0 <= i < |ps| =>
      [Some(ps[i].apn.text), if ps[i].protocol.size == 0 then None else Some(ps[i].protocol.text),
       Some(ps[i].roamingProtocol.text), Some(ps[i].user.text), Some(ps[i].password.text),
       Some(ps[i].mvnoMatchData.text)])
    ensures MvnoNames(ps, version) == seq(|ps|, i requires 0 <= i < |ps| =>
      match ps[i].mvnoType
      case Imsi => Some("imsi")
      case Gid => Some("gid")
      case Spn => Some("spn")
      case NoMvno => Some("")
      case OtherMvno(_) => None)
  {
    forall i | 0 <= i < |ps|
      ensures PassedTo(Fields(ps[i], version, isRoaming)) ==
        [Some(ps[i].apn.text), if ps[i].protocol.size == 0 then None else Some(ps[i].protocol.text),
         Some(ps[i].roamingProtocol.text), Some(ps[i].user.text), Some(ps[i].password.text),
         Some(ps[i].mvnoMatchData.text)]
    {
      var ss := Fields(ps[i], version, isRoaming);
      assert ss[0].0 == ps[i].apn && ss[1].0 == ps[i].protocol && ss[2].0 == ps[i].roamingProtocol;
      assert ss[3].0 == ps[i].user && ss[4].0 == ps[i].password && ss[5].0 == ps[i].mvnoMatchData;
    }
  }

  lemma EarlyProfile(p: Profile, version: int, isRoaming: bool, allocates: nat -> bool, k: nat)
    requires version <= 14 && forall j :: j >= k ==> allocates(j)
    ensures ProfileFailure(p, version, isRoaming, allocates, k) ==
      if |p.apn.text| <= p.apn.size && |p.user.text| <= p.user.size && |p.password.text| <= p.password.size
         && (isRoaming ==> |p.roamingProtocol.text| <= p.roamingProtocol.size)
         && (!isRoaming ==> |p.protocol.text| <= p.protocol.size)
      then None else Some(InternalErr)
  {
    hide FirstFailure;
    var ss := Fields(p, version, isRoaming);
    OnlyTruncationFails(ss, allocates, k);
    assert ss[0].0 == p.apn && ss[2].0 == p.user && ss[3].0 == p.password;
    assert ss[1].0 == if isRoaming then p.roamingProtocol else p.protocol;
  }

  lemma LateProfile(p: Profile, version: int, isRoaming: bool, allocates: nat -> bool, k: nat)
    requires version > 14 && forall j :: j >= k ==> allocates(j)
    ensures ProfileFailure(p, version, isRoaming, allocates, k) ==
      if !Honest(p) then Some(InternalErr) else if p.mvnoType.OtherMvno? then Some(InvalidArguments) else None
  {
    hide FirstFailure;
    var ss := Fields(p, version, isRoaming);
    OnlyTruncationFails(ss, allocates, k);
    assert ss[0].0 == p.apn && ss[1].0 == p.protocol && ss[2].0 == p.roamingProtocol;
    assert ss[3].0 == p.user && ss[4].0 == p.password && ss[5].0 == p.mvnoMatchData;
  }

  /** Up to version 14, with enough memory: every structure carries APN, protocol (the roaming one when roaming),
      user and password, empty strings included; one string beyond its length costs the whole request. */
  lemma EarlyProfilesPass(ps: seq<Profile>, version: int, isRoaming: bool, allocates: nat -> bool, k: nat)
    requires version <= 14 && forall j :: j >= k ==> allocates(j)
    ensures Preparation(ps, version, isRoaming, allocates, k) ==
      if forall i :: 0 <= i < |ps| ==>
           && |ps[i].apn.text| <= ps[i].apn.size && |ps[i].user.text| <= ps[i].user.size
           && |ps[i].password.text| <= ps[i].password.size
           && (isRoaming ==> |ps[i].roamingProtocol.text| <= ps[i].roamingProtocol.size)
           && (!isRoaming ==> |ps[i].protocol.text| <= ps[i].protocol.size)
      then [VendorProfiles(seq(|ps|, i requires 0 <= i < |ps| =>
              [Some(ps[i].apn.text), Some(if isRoaming then ps[i].roamingProtocol.text else ps[i].protocol.text),
               Some(ps[i].user.text), Some(ps[i].password.text)]), [])]
      else [ErrorResponse(InternalErr)]
  {
    hide ProfilesFailure, ProfileFailure, PassedProfiles;
    var _ := FirstBadProfile(ps, 0, version, isRoaming, allocates, k);
    EarlyLayout(ps, version, isRoaming);
    forall i | 0 <= i < |ps| {
      EarlyProfile(ps[i], version, isRoaming, allocates, k);
    }
  }

  /** The member strings of the later layout keep within their lengths, which an empty protocol need not. */
  predicate Honest(p: Profile) {
    && |p.apn.text| <= p.apn.size && (p.protocol.size == 0 || |p.protocol.text| <= p.protocol.size)
    && |p.roamingProtocol.text| <= p.roamingProtocol.size && |p.user.text| <= p.user.size
    && |p.password.text| <= p.password.size && |p.mvnoMatchData.text| <= p.mvnoMatchData.size
  }

  /** From version 15 on, with enough memory: every structure carries six strings and the name of its MVNO type, an
      empty protocol as a null pointer; the first bad profile, number `n`, costs the whole request, with an error of
      its kind. */
  lemma LateProfilesPass(ps: seq<Profile>, version: int, isRoaming: bool, allocates: nat -> bool, k: nat) returns (n: nat)
    requires version > 14 && forall j :: j >= k ==> allocates(j)
    ensures n <= |ps| && forall i :: 0 <= i < n ==> Honest(ps[i]) && !ps[i].mvnoType.OtherMvno?
    ensures n < |ps| ==> !Honest(ps[n]) || ps[n].mvnoType.OtherMvno?
    ensures Preparation(ps, version, isRoaming, allocates, k) ==
      if n < |ps| then [ErrorResponse(if Honest(ps[n]) then InvalidArguments else InternalErr)]
      else [VendorProfiles(
        seq(|ps|, i requires 0 <= i < |ps| =>
          [Some(ps[i].apn.text), if ps[i].protocol.size == 0 then None else Some(ps[i].protocol.text),
           Some(ps[i].roamingProtocol.text), Some(ps[i].user.text), Some(ps[i].password.text),
           Some(ps[i].mvnoMatchData.text)]),
        seq(|ps|, i requires 0 <= i < |ps| =>
          match ps[i].mvnoType
          case Imsi => Some("imsi")
          case Gid => Some("gid")
          case Spn => Some("spn")
          case NoMvno => Some("")
          case OtherMvno(_) => None))]
  {
    hide ProfilesFailure, ProfileFailure, PassedProfiles, MvnoNames, Honest;
    n := FirstBadProfile(ps, 0, version, isRoaming, allocates, k);
    LateLayout(ps, version, isRoaming);
    forall i | 0 <= i < |ps|
      ensures ProfileFailure(ps[i], version, isRoaming, allocates, k) ==
        if !Honest(ps[i]) then Some(InternalErr) else if ps[i].mvnoType.OtherMvno? then Some(InvalidArguments) else None
    {
      LateProfile(ps[i], version, isRoaming, allocates, k);
    }
  }

  // ---------- setInitialAttachApn ----------

  /** The string members that are copied before the MVNO type is looked at. */
  function ApnFields(p: Profile, version: int, isRoaming: bool): seq<Field> {
    if version <= 14 then
      [(p.apn, true), (if isRoaming then p.roamingProtocol else p.protocol, false), (p.user, false), (p.password, false)]
    else
      [(p.apn, true), (p.protocol, false), (p.roamingProtocol, false), (p.user, false), (p.password, false)]
  }

  /** The one that is copied after it. */
  function MatchField(p: Profile, version: int): seq<Field> {
    if version <= 14 then [] else [(p.mvnoMatchData, false)]
  }

  function ApnFailure(p: Profile, version: int, isRoaming: bool, allocates: nat -> bool, k: nat): Option<RilError> {
    var ss := ApnFields(p, version, isRoaming);
    var f := FirstFailure(ss, allocates, k);
    if f.Some? then f
    else if version > 14 && MvnoName(p.mvnoType).None? then Some(InvalidArguments)
    else FirstFailure(MatchField(p, version), allocates, k + Copies(ss))
  }

  function ApnOutcome(failure: Option<RilError>, passed: seq<Option<string>>, mvnoType: Option<string>): seq<Event> {
    if failure.None? then [VendorApn(passed, mvnoType)] else [ErrorResponse(failure.value)]
  }

  /** What the vendor is told, apart from the MVNO type: an empty string that may not be empty is a null pointer. */
  lemma ApnLayout(p: Profile, version: int, isRoaming: bool)
    ensures PassedTo(ApnFields(p, version, isRoaming)) + PassedTo(MatchField(p, version)) ==
      if version <= 14 then
        [Some(p.apn.text), OrNull(if isRoaming then p.roamingProtocol else p.protocol), OrNull(p.user), OrNull(p.password)]
      else
        [Some(p.apn.text), OrNull(p.protocol), OrNull(p.roamingProtocol), OrNull(p.user), OrNull(p.password),
         OrNull(p.mvnoMatchData)]
  {
    var ss := ApnFields(p, version, isRoaming);
    assert ss[0].0 == p.apn && ss[|ss| - 2].0 == p.user && ss[|ss| - 1].0 == p.password;
    if version <= 14 {
      assert ss[1].0 == if isRoaming then p.roamingProtocol else p.protocol;
    } else {
      assert ss[1].0 == p.protocol && ss[2].0 == p.roamingProtocol && MatchField(p, version)[0].0 == p.mvnoMatchData;
    }
  }

  function OrNull(s: HidlString): Option<string> { if s.size == 0 then None else Some(s.text) }

  /** With enough memory an APN is passed on iff its strings keep within their lengths (which an empty one need not,
      except for the name) and, from version 15 on, its MVNO type has a name. */
  lemma ApnPasses(p: Profile, version: int, isRoaming: bool, allocates: nat -> bool, k: nat,
      passed: seq<Option<string>>, name: Option<string>)
    requires forall j :: j >= k ==> allocates(j)
    ensures ApnOutcome(ApnFailure(p, version, isRoaming, allocates, k), passed, name) ==
      if |p.apn.text| > p.apn.size
         || ((version > 14 || !isRoaming) && p.protocol.size > 0 && |p.protocol.text| > p.protocol.size)
         || ((version > 14 || isRoaming) && p.roamingProtocol.size > 0 && |p.roamingProtocol.text| > p.roamingProtocol.size)
         || (p.user.size > 0 && |p.user.text| > p.user.size)
         || (p.password.size > 0 && |p.password.text| > p.password.size)
      then [ErrorResponse(InternalErr)]
      else if version > 14 && p.mvnoType.OtherMvno? then [ErrorResponse(InvalidArguments)]
      else if version > 14 && p.mvnoMatchData.size > 0 && |p.mvnoMatchData.text| > p.mvnoMatchData.size
      then [ErrorResponse(InternalErr)]
      else [VendorApn(passed, name)]
  {
    hide FirstFailure;
    var ss, m := ApnFields(p, version, isRoaming), MatchField(p, version);
    OnlyTruncationFails(ss, allocates, k);
    OnlyTruncationFails(m, allocates, k + Copies(ss));
    assert ss[0].0 == p.apn && ss[|ss| - 2].0 == p.user && ss[|ss| - 1].0 == p.password;
    if version <= 14 {
      assert ss[1].0 == if isRoaming then p.roamingProtocol else p.protocol;
    } else {
      assert ss[1].0 == p.protocol && ss[2].0 == p.roamingProtocol && m[0].0 == p.mvnoMatchData;
    }
  }

  /** setInitialAttachApn, in both vendor versions. */
  method SetInitialAttachApn(c: Process, p: Profile, version: int, isRoaming: bool)
    requires c.Valid()
    modifies c`memory, c`attempts, c`events
    ensures c.Valid() && c.memory == old(c.memory)
    ensures c.events == old(c.events) +
      ApnOutcome(ApnFailure(p, version, isRoaming, c.allocates, old(c.attempts)),
                 PassedTo(ApnFields(p, version, isRoaming)) + PassedTo(MatchField(p, version)),
                 if version <= 14 then None else MvnoName(p.mvnoType))
  {
    ghost var base := c.memory;
    var ss := ApnFields(p, version, isRoaming);
    var iaa := new nat[|ss|](_ => 0);
    var ok := CopyAll(c, ss, iaa);
    if !ok { return; }
    assert iaa[..|ss|] == iaa[..];
    if version <= 14 {
      assert PassedTo(ss) + PassedTo([]) == PassedTo(ss);
      c.events := c.events + [VendorApn(Contents(c.memory, iaa[..]), None)];
      FreeStrings(c, iaa, |ss|, base);
      return;
    }
    if MvnoName(p.mvnoType).None? {
      c.events := c.events + [ErrorResponse(InvalidArguments)];
      FreeStrings(c, iaa, |ss|, base);
      return;
    }
    MatchAndCall(c, p.mvnoMatchData, MvnoName(p.mvnoType), iaa, base);
  }

  /** The last copy, the vendor call, and the release of all six strings. */
  method MatchAndCall(c: Process, s: HidlString, mvnoType: Option<string>, iaa: array<nat>, ghost base: map<nat, string>)
    requires c.Valid() && Holding(c.memory, base, iaa[..])
    modifies c`memory, c`attempts, c`events
    ensures c.Valid() && c.memory == base
    ensures c.events == old(c.events) +
      ApnOutcome(FirstFailure([(s, false)], c.allocates, old(c.attempts)),
                 old(Contents(c.memory, iaa[..])) + PassedTo([(s, false)]), mvnoType)
  {
    hide Holding;
    ghost var m := c.memory;
    ghost var ss: seq<Field> := [(s, false)];
    assert iaa[..iaa.Length] == iaa[..] && ss[1..] == [] && PassedTo(ss) == [Passed(s, false)];
    var ok, dest := c.CopyString(s, false);
    if ok {
      HoldingOneMore(m, base, iaa[..], dest, s.text);
      c.events := c.events + [VendorApn(Contents(c.memory, iaa[..] + [dest]), mvnoType)];
      c.FreeString(dest);
      assert c.memory == m;
    }
    FreeStrings(c, iaa, iaa.Length, base);
  }
}
