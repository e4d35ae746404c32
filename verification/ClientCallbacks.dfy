// The client callbacks of libril/ril_service.cpp: a caller whose call failed drops the read lock, takes the
// write lock and resets the callbacks, unless a counter tells it that they changed in the meantime. Any
// number of threads interleave; one step is what a thread does between two points of interference.

module ClientCallbacks {
  import opened Options

  const COUNTER_RANGE: int := 0x1_0000_0000  // the counters are 32 bits wide and wrap around

  datatype Kind = Radio | OemHook

  /** The callbacks of one service and its counter; `changes` counts how often they were overwritten. */
  datatype Service = Service(client: Option<nat>, counter: int, changes: nat)

  datatype Pc =
    | Idle
    | Reading                                                     // holds the read lock
    | Failed(kind: Kind, client: Option<nat>, at: nat)            // the call failed, read lock held
    | Noted(kind: Kind, client: Option<nat>, at: nat, counter: int)    // counter noted, read lock held
    | Upgrading(kind: Kind, client: Option<nat>, at: nat, counter: int) // read lock dropped
    | Writing(kind: Kind, client: Option<nat>, at: nat, counter: int)  // holds the write lock
    | Compared                                                    // holds the write lock
    | Downgrading                                                 // write lock dropped
    | Installing(kind: Kind)                                      // setResponseFunctions with the write lock
    | Installed                                                   // holds the write lock

  datatype State = State(radio: Service, oemHook: Service, pcs: map<nat, Pc>)

  datatype Step =
    | ReadLock(t: nat)
    | Call(t: nat, kind: Kind, ok: bool)  // a call of a response or indication function
    | Note(t: nat)
    | DropReadLock(t: nat)
    | TakeWriteLock(t: nat)
    | Compare(t: nat)
    | DropWriteLock(t: nat)
    | RetakeReadLock(t: nat)
    | ReadUnlock(t: nat)
    | InstallLock(t: nat, kind: Kind)
    | Install(t: nat, client: nat)
    | InstallUnlock(t: nat)

  predicate HoldsRead(pc: Pc) { pc.Reading? || pc.Failed? || pc.Noted? }

  predicate HoldsWrite(pc: Pc) { pc.Writing? || pc.Compared? || pc.Installing? || pc.Installed? }

  function PcOf(s: State, t: nat): Pc { if t in s.pcs then s.pcs[t] else Idle }

  /** The read-write lock is free for a reader, or for a writer. */
  predicate ReadFree(s: State) { forall u :: u in s.pcs ==> !HoldsWrite(s.pcs[u]) }

  predicate WriteFree(s: State) { ReadFree(s) && forall u :: u in s.pcs ==> !HoldsRead(s.pcs[u]) }

  function Of(s: State, k: Kind): Service { if k.Radio? then s.radio else s.oemHook }

  function Put(s: State, k: Kind, v: Service): State { if k.Radio? then s.(radio := v) else s.(oemHook := v) }

  function Bumped(counter: int): int { (counter + 1) % COUNTER_RANGE }

  /** setResponseFunctions under the write lock. */
  function Overwritten(v: Service, client: Option<nat>): Service {
    Service(client, Bumped(v.counter), v.changes + 1)
  }

  /** checkReturnStatus under the write lock. */
  function Reset(v: Service, counter: int): Service {
    if counter == v.counter then Overwritten(v, None) else v
  }

  predicate Enabled(s: State, a: Step) {
    match a
    case ReadLock(t) => PcOf(s, t).Idle? && ReadFree(s)
    case Call(t, _, _) => PcOf(s, t).Reading?
    case Note(t) => PcOf(s, t).Failed?
    case DropReadLock(t) => PcOf(s, t).Noted?
    case TakeWriteLock(t) => PcOf(s, t).Upgrading? && WriteFree(s)
    case Compare(t) => PcOf(s, t).Writing?
    case DropWriteLock(t) => PcOf(s, t).Compared?
    case RetakeReadLock(t) => PcOf(s, t).Downgrading? && ReadFree(s)
    case ReadUnlock(t) => PcOf(s, t).Reading?
    case InstallLock(t, _) => PcOf(s, t).Idle? && WriteFree(s)
    case Install(t, _) => PcOf(s, t).Installing?
    case InstallUnlock(t) => PcOf(s, t).Installed?
  }

  function Apply(s: State, a: Step): State
    requires Enabled(s, a)
  {
    var pc := PcOf(s, a.t);
    match a
    case ReadLock(t) => s.(pcs := s.pcs[t := Reading])
    case Call(t, kind, ok) =>
      var v := Of(s, kind);
      s.(pcs := s.pcs[t := if ok || v.client.None? then Reading else Failed(kind, v.client, v.changes)])
    case Note(t) => s.(pcs := s.pcs[t := Noted(pc.kind, pc.client, pc.at, Of(s, pc.kind).counter)])
    case DropReadLock(t) => s.(pcs := s.pcs[t := Upgrading(pc.kind, pc.client, pc.at, pc.counter)])
    case TakeWriteLock(t) => s.(pcs := s.pcs[t := Writing(pc.kind, pc.client, pc.at, pc.counter)])
    case Compare(t) =>
      Put(s.(pcs := s.pcs[t := Compared]), pc.kind, Reset(Of(s, pc.kind), pc.counter))
    case DropWriteLock(t) => s.(pcs := s.pcs[t := Downgrading])
    case RetakeReadLock(t) => s.(pcs := s.pcs[t := Reading])
    case ReadUnlock(t) => s.(pcs := s.pcs[t := Idle])
    case InstallLock(t, kind) => s.(pcs := s.pcs[t := Installing(kind)])
    case Install(t, client) =>
      Put(s.(pcs := s.pcs[t := Installed]), pc.kind, Overwritten(Of(s, pc.kind), Some(client)))
    case InstallUnlock(t) => s.(pcs := s.pcs[t := Idle])
  }

  // ---------- The service object ----------

  class ServiceState {
    var client: Option<nat>
    var counter: int
    ghost var changes: nat

    ghost function Value(): Service
      reads this
    {
      Service(client, counter, changes)
    }

    constructor ()
      ensures Value() == Service(None, 0, 0)
    {
      client, counter, changes := None, 0, 0;
    }

    /** setResponseFunctions while it holds the write lock. */
    method SetResponseFunctions(client: nat)
      modifies this
      ensures Value() == Overwritten(old(Value()), Some(client))
    {
      this.client := Some(client);
      counter, changes := Bumped(counter), changes + 1;
    }

    /** checkReturnStatus while it holds the write lock. */
    method ResetUnlessChanged(noted: int)
      modifies this
      ensures Value() == Reset(old(Value()), noted)
    {
      if noted == counter {
        client := None;
        counter, changes := Bumped(counter), changes + 1;
      }
    }
  }

  // ---------- The invariant ----------

  predicate Sound(v: Service) { v.counter == v.changes % COUNTER_RANGE }

  /** What a thread remembers of a failed call: when it was made, and to whom. */
  ghost predicate Remembers(s: State, pc: Pc) {
    (pc.Failed? || pc.Noted? || pc.Upgrading? || pc.Writing?) ==>
      var v := Of(s, pc.kind);
      && pc.at <= v.changes
      && pc.client.Some?
      && (v.changes == pc.at ==> v.client == pc.client)
      && (!pc.Failed? ==> pc.counter == pc.at % COUNTER_RANGE)
      && (pc.Failed? || pc.Noted? ==> v.changes == pc.at)
  }

  /** The lock works: whoever writes is alone. */
  ghost predicate Exclusive(s: State) {
    forall t, u :: t in s.pcs && u in s.pcs && t != u && HoldsWrite(s.pcs[t]) ==>
      !HoldsWrite(s.pcs[u]) && !HoldsRead(s.pcs[u])
  }

  ghost predicate Inv(s: State) {
    && Sound(s.radio) && Sound(s.oemHook) && Exclusive(s)
    && forall t :: t in s.pcs ==> Remembers(s, s.pcs[t])
  }

  lemma BumpIsSound(v: Service, client: Option<nat>)
    requires Sound(v)
    ensures Sound(Overwritten(v, client))
  {
  }

  lemma StepKeepsExclusion(s: State, a: Step)
    requires Exclusive(s) && Enabled(s, a)
    ensures Exclusive(Apply(s, a))
  {
  }

  /** Only the holder of the write lock overwrites anything, so nobody else's memory is spoilt. */
  lemma StepKeepsMemory(s: State, a: Step, t: nat)
    requires Inv(s) && Enabled(s, a) && t in Apply(s, a).pcs
    ensures Remembers(Apply(s, a), Apply(s, a).pcs[t])
  {
    if t != a.t {
      assert Apply(s, a).pcs[t] == s.pcs[t] && Remembers(s, s.pcs[t]);
    }
  }

  lemma StepKeepsInv(s: State, a: Step)
    requires Inv(s) && Enabled(s, a)
    ensures Inv(Apply(s, a))
  {
    StepKeepsExclusion(s, a);
    forall t | t in Apply(s, a).pcs { StepKeepsMemory(s, a, t); }
    match a
    case Compare(t) => BumpIsSound(Of(s, s.pcs[t].kind), None);
    case Install(t, client) => BumpIsSound(Of(s, s.pcs[t].kind), Some(client));
    case _ =>
  }

  ghost predicate IsRun(trace: seq<State>, steps: seq<Step>) {
    && |trace| == |steps| + 1
    && trace[0] == State(Service(None, 0, 0), Service(None, 0, 0), map[])
    && forall k :: 0 <= k < |steps| ==> Enabled(trace[k], steps[k]) && trace[k + 1] == Apply(trace[k], steps[k])
  }

  lemma {:induction false} RunKeepsInv(trace: seq<State>, steps: seq<Step>, k: nat)
    requires IsRun(trace, steps) && k < |trace|
    ensures Inv(trace[k])
  {
    if k == 0 {
    } else {
      RunKeepsInv(trace, steps, k - 1);
      StepKeepsInv(trace[k - 1], steps[k - 1]);
    }
  }

  /** Thread `t` has not compared counters since step `c`. */
  ghost predicate NotCompared(steps: seq<Step>, c: nat, k: nat, t: nat)
    requires c < k <= |steps|
  {
    forall j :: c < j < k ==> steps[j] != Compare(t)
  }

  lemma {:induction false} KeepsMemory(trace: seq<State>, steps: seq<Step>, c: nat, k: nat, t: nat, kind: Kind)
    requires IsRun(trace, steps) && c < k < |trace|
    requires steps[c] == Call(t, kind, false) && Of(trace[c], kind).client.Some? && NotCompared(steps, c, k, t)
    ensures var pc, v := PcOf(trace[k], t), Of(trace[c], kind);
      && (pc.Failed? || pc.Noted? || pc.Upgrading? || pc.Writing?)
      && pc.kind == kind && pc.client == v.client && pc.at == v.changes
  {
    if k > c + 1 {
      KeepsMemory(trace, steps, c, k - 1, t, kind);
    }
    assert trace[k] == Apply(trace[k - 1], steps[k - 1]);
  }

  /** In every run a late reset clears the callbacks exactly when the number of changes since the failed call
      is a multiple of the counter's range. So unless 2^32 changes happen while the thread waits for the
      write lock, it clears only callbacks that are still the ones that failed, and callbacks installed
      after the failed call stay. */
  lemma LateResetSparesNewClients(trace: seq<State>, steps: seq<Step>, c: nat, k: nat, t: nat, kind: Kind)
    requires IsRun(trace, steps) && c < k < |steps| && steps[c] == Call(t, kind, false) && steps[k] == Compare(t)
    requires Of(trace[c], kind).client.Some? && NotCompared(steps, c, k, t)
    ensures var called, before, after := Of(trace[c], kind), Of(trace[k], kind), Of(trace[k + 1], kind);
      var changes := before.changes - called.changes;
      && changes >= 0
      && (if changes % 0x1_0000_0000 == 0 then after.client == None && after.changes == before.changes + 1
          else after == before)
      && (changes < COUNTER_RANGE && after != before ==> changes == 0 && before.client == called.client)
  {
    RunKeepsInv(trace, steps, k);
    KeepsMemory(trace, steps, c, k, t, kind);
    assert trace[k + 1] == Apply(trace[k], steps[k]);
    SameRemainder(Of(trace[k], kind).changes, PcOf(trace[k], t).at);
  }

  lemma SameRemainder(a: nat, b: nat)
    requires b <= a
    ensures a % COUNTER_RANGE == b % COUNTER_RANGE <==> (a - b) % COUNTER_RANGE == 0
  {
  }

  /** Nobody writes while a thread still holds the read lock under which its call failed. */
  lemma NoChangeUnderReadLock(trace: seq<State>, steps: seq<Step>, k: nat, t: nat)
    requires IsRun(trace, steps) && k < |trace| && HoldsRead(PcOf(trace[k], t))
    ensures ReadFree(trace[k])
  {
    RunKeepsInv(trace, steps, k);
  }

  /** The callbacks of a service change only when a thread that holds the write lock for this service installs a
      client, which is then the one that is called, or resets a client that failed; each change is counted. */
  lemma OnlyWritersChange(trace: seq<State>, steps: seq<Step>, k: nat, kind: Kind)
    requires IsRun(trace, steps) && k < |steps|
    ensures var before, after, pc := Of(trace[k], kind), Of(trace[k + 1], kind), PcOf(trace[k], steps[k].t);
      && (steps[k].Install? && pc == Installing(kind) ==>
            after.client == Some(steps[k].client) && after.changes == before.changes + 1)
      && (after != before ==>
            || (steps[k].Install? && pc == Installing(kind))
            || (steps[k].Compare? && pc.kind == kind && after.client == None && after.changes == before.changes + 1))
      && after.counter == after.changes % 0x1_0000_0000
  {
    RunKeepsInv(trace, steps, k + 1);
    assert trace[k + 1] == Apply(trace[k], steps[k]);
  }

  /** A call that succeeds, or that has nobody to go to, leaves everything as it is. */
  lemma SuccessfulCallChangesNothing(trace: seq<State>, steps: seq<Step>, k: nat, t: nat, kind: Kind, ok: bool)
    requires IsRun(trace, steps) && k < |steps| && steps[k] == Call(t, kind, ok)
    requires ok || Of(trace[k], kind).client.None?
    ensures trace[k + 1] == trace[k]
  {
    assert trace[k + 1] == Apply(trace[k], steps[k]);
  }

  /** The lock never blocks everybody: while a thread is busy, some thread can go on. */
  lemma NeverDeadlocked(trace: seq<State>, steps: seq<Step>, k: nat, t: nat) returns (a: Step)
    requires IsRun(trace, steps) && k < |trace| && !PcOf(trace[k], t).Idle?
    ensures Enabled(trace[k], a) && !PcOf(trace[k], a.t).Idle?
  {
    var s := trace[k];
    var u := t;
    if v :| v in s.pcs && (HoldsRead(s.pcs[v]) || HoldsWrite(s.pcs[v])) {
      u := v;
    }
    match PcOf(s, u)
    case Reading => a := ReadUnlock(u);
    case Failed(_, _, _) => a := Note(u);
    case Noted(_, _, _, _) => a := DropReadLock(u);
    case Upgrading(_, _, _, _) => a := TakeWriteLock(u);
    case Writing(_, _, _, _) => a := Compare(u);
    case Compared => a := DropWriteLock(u);
    case Downgrading => a := RetakeReadLock(u);
    case Installing(_) => a := Install(u, 0);
    case Installed => a := InstallUnlock(u);
  }

  // ---------- A new client that is cleared ----------

  /** A state in which thread 1 is idle and nobody holds the lock; `v` is the radio service. */
  ghost predicate Open(s: State) { WriteFree(s) && PcOf(s, 1) == Idle }

  /** Extends a run by one step. */
  lemma Extend(trace: seq<State>, steps: seq<Step>, a: Step) returns (longer: seq<State>, more: seq<Step>)
    requires IsRun(trace, steps) && Enabled(trace[|steps|], a)
    ensures more == steps + [a] && longer == trace + [Apply(trace[|steps|], a)] && IsRun(longer, more)
  {
    more, longer := steps + [a], trace + [Apply(trace[|steps|], a)];
  }

  /** Thread 1 installs a client in the radio service. */
  lemma Reinstall(trace: seq<State>, steps: seq<Step>, client: nat) returns (longer: seq<State>, more: seq<Step>)
    requires IsRun(trace, steps) && Open(trace[|steps|])
    ensures IsRun(longer, more) && |more| == |steps| + 3 && steps <= more && trace <= longer
    ensures forall j :: |steps| <= j < |more| ==> more[j].InstallLock? || more[j].Install? || more[j].InstallUnlock?
    ensures var s, r := trace[|steps|], longer[|more|];
      && Open(r) && r.radio == Overwritten(s.radio, Some(client))
      && (forall t :: t != 1 ==> PcOf(r, t) == PcOf(s, t))
  {
    hide IsRun;
    longer, more := Extend(trace, steps, InstallLock(1, Radio));
    longer, more := Extend(longer, more, Install(1, client));
    longer, more := Extend(longer, more, InstallUnlock(1));
  }

  lemma {:induction false} Reinstalls(trace: seq<State>, steps: seq<Step>, n: nat)
    returns (longer: seq<State>, more: seq<Step>)
    requires IsRun(trace, steps) && Open(trace[|steps|])
    ensures IsRun(longer, more) && steps <= more && trace <= longer
    ensures forall j :: |steps| <= j < |more| ==> more[j].InstallLock? || more[j].Install? || more[j].InstallUnlock?
    ensures var s, r := trace[|steps|], longer[|more|];
      && Open(r) && r.radio.changes == s.radio.changes + n && (n > 0 ==> r.radio.client == Some(1))
      && (forall t :: t != 1 ==> PcOf(r, t) == PcOf(s, t))
  {
    hide IsRun, Open;
    if n == 0 {
      longer, more := trace, steps;
    } else {
      longer, more := Reinstalls(trace, steps, n - 1);
      longer, more := Reinstall(longer, more, 1);
    }
  }

  lemma Start() returns (trace: seq<State>, steps: seq<Step>)
    ensures IsRun(trace, steps) && steps == [] && Open(trace[0]) && PcOf(trace[0], 0) == Idle
  {
    steps, trace := [], [State(Service(None, 0, 0), Service(None, 0, 0), map[])];
  }

  /** Thread 0 calls the client, which fails, and drops its read lock. */
  lemma CallFails(trace: seq<State>, steps: seq<Step>) returns (longer: seq<State>, more: seq<Step>)
    requires IsRun(trace, steps) && Open(trace[|steps|]) && PcOf(trace[|steps|], 0) == Idle
    requires trace[|steps|].radio.client.Some?
    ensures IsRun(longer, more) && Open(longer[|more|]) && steps <= more && trace <= longer
    ensures more[|steps|..] == [ReadLock(0), Call(0, Radio, false), Note(0), DropReadLock(0)]
    ensures longer[|steps| + 1].radio == longer[|more|].radio == trace[|steps|].radio
    ensures var pc := PcOf(longer[|more|], 0); pc.Upgrading? && pc.kind == Radio && pc.counter == trace[|steps|].radio.counter
  {
    hide IsRun;
    longer, more := Extend(trace, steps, ReadLock(0));
    longer, more := Extend(longer, more, Call(0, Radio, false));
    longer, more := Extend(longer, more, Note(0));
    longer, more := Extend(longer, more, DropReadLock(0));
  }

  /** A run in which client 0 is installed and then called, which fails. */
  lemma FailedCall() returns (trace: seq<State>, steps: seq<Step>, c: nat)
    ensures IsRun(trace, steps) && c < |steps| && steps[c] == Call(0, Radio, false)
    ensures trace[c].radio.client == Some(0) && Open(trace[|steps|])
    ensures forall j :: c < j < |steps| ==> steps[j] != Compare(0)
    ensures PcOf(trace[|steps|], 0).Upgrading? && trace[|steps|].radio == trace[c].radio
  {
    trace, steps := Start();
    trace, steps := Reinstall(trace, steps, 0);
    var n := |steps|;
    trace, steps := CallFails(trace, steps);
    c := n + 1;
  }

  /** A run in which the callbacks change 2^32 times between the failed call and the comparison: the counter is
      back where it was, and the new client's callbacks are cleared. */
  lemma LateResetClearsANewClient() returns (trace: seq<State>, steps: seq<Step>, c: nat, k: nat)
    ensures IsRun(trace, steps) && c < k < |steps| && steps[c] == Call(0, Radio, false) && steps[k] == Compare(0)
    ensures NotCompared(steps, c, k, 0)
    ensures trace[k].radio.changes == trace[c].radio.changes + COUNTER_RANGE
    ensures trace[c].radio.client == Some(0) && trace[k].radio.client == Some(1) && trace[k + 1].radio.client == None
  {
    var t, s;
    t, s, c := FailedCall();
    var n := |s|;
    trace, steps := Reinstalls(t, s, COUNTER_RANGE);
    assert trace[c] == t[c] && trace[n] == t[n] && steps[c] == s[c];
    assert forall j :: c < j < n ==> steps[j] == s[j];
    trace, steps := Extend(trace, steps, TakeWriteLock(0));
    k := |steps|;
    trace, steps := Extend(trace, steps, Compare(0));
    LateResetSparesNewClients(trace, steps, c, k, 0, Radio);
  }

  /** Thread 0, which noted the current counter, takes the write lock, clears the client, and goes back. */
  lemma ClearsAndGoesBack(trace: seq<State>, steps: seq<Step>) returns (longer: seq<State>, more: seq<Step>)
    requires IsRun(trace, steps) && Open(trace[|steps|])
    requires var pc := PcOf(trace[|steps|], 0); pc.Upgrading? && pc.kind == Radio && pc.counter == trace[|steps|].radio.counter
    ensures IsRun(longer, more) && steps <= more && trace <= longer
    ensures more[|steps|..] == [TakeWriteLock(0), Compare(0), DropWriteLock(0), RetakeReadLock(0)]
    ensures PcOf(longer[|more|], 0) == Reading && longer[|steps| + 2].radio == longer[|more|].radio
    ensures longer[|more|].radio.client == None
  {
    hide IsRun;
    longer, more := Extend(trace, steps, TakeWriteLock(0));
    longer, more := Extend(longer, more, Compare(0));
    longer, more := Extend(longer, more, DropWriteLock(0));
    longer, more := Extend(longer, more, RetakeReadLock(0));
  }

  /** The other way round: with no change in between, the client that failed is cleared, and the thread that found
      out is back under the read lock. */
  lemma FailedClientIsCleared() returns (trace: seq<State>, steps: seq<Step>, c: nat)
    ensures IsRun(trace, steps) && c + 7 == |steps|
    ensures steps[c..] == [Call(0, Radio, false), Note(0), DropReadLock(0), TakeWriteLock(0), Compare(0), DropWriteLock(0),
                           RetakeReadLock(0)]
    ensures trace[c].radio.client == Some(0) && trace[c + 4].radio.client == Some(0) && trace[c + 5].radio.client == None
    ensures PcOf(trace[|steps|], 0) == Reading && trace[|steps|].radio.client == None
  {
    hide Apply, Open, Enabled;
    var t, s := Start();
    t, s := Reinstall(t, s, 0);
    c := |s| + 1;
    var u, r := CallFails(t, s);
    trace, steps := ClearsAndGoesBack(u, r);
    assert r[c..] == r[|s|..][1..];
    assert steps[c..] == r[c..] + steps[|r|..];
    assert trace[c] == u[c] && trace[|r|] == u[|r|];
    assert steps[|r|] == steps[|r|..][0];
    Taken(trace, steps, |r|);
  }

  /** Taking the write lock changes no service. */
  lemma Taken(trace: seq<State>, steps: seq<Step>, k: nat)
    requires IsRun(trace, steps) && k < |steps| && steps[k].TakeWriteLock?
    ensures trace[k + 1].radio == trace[k].radio && trace[k + 1].oemHook == trace[k].oemHook
  {
    assert trace[k + 1] == Apply(trace[k], steps[k]);
  }
}
