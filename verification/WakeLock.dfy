// The counted wake lock of libril/ril.cpp with its cancellable timeouts. Grabbing and releasing are atomic
// (s_wakeLockCountMutex); a timer callback and the clean-up that follows it count as one step.

module WakeLock {
  import opened Options

  /** `armed` maps each armed timer to whether it is cancelled; `last` is s_last_wake_timeout_info. */
  datatype State = State(version: int, held: bool, count: nat, last: Option<nat>, armed: map<nat, bool>, next: nat)

  datatype Step =
    | Grab(alloc: bool)      // grabPartialWakeLock; `alloc` tells whether the timer could be allocated
    | Release                // releaseWakeLock
    | Fire(timer: nat)       // userTimerCallback with wakeTimeoutCallback
    | Schedule(alloc: bool)  // the timeout of an unsolicited response, version < 13

  function Cancelled(armed: map<nat, bool>, t: Option<nat>): map<nat, bool> {
    if t.Some? && t.value in armed then armed[t.value := true] else armed
  }

  /** A new uncancelled timer becomes the last one; the one before it is cancelled. */
  function Armed(s: State): State {
    s.(armed := Cancelled(s.armed, s.last)[s.next := false], last := Some(s.next), next := s.next + 1)
  }

  predicate Enabled(s: State, a: Step) {
    match a
    case Fire(t) => t in s.armed
    case Schedule(_) => s.version < 13
    case _ => true
  }

  function Apply(s: State, a: Step): State
    requires Enabled(s, a)
  {
    match a
    case Grab(alloc) =>
      if s.version < 13 then s.(held := true)
      else if alloc then Armed(s.(held := true, count := s.count + 1))
      else s.(held := false)
    case Release =>
      if s.version < 13 then s.(held := false)
      else if s.count > 1 then s.(count := s.count - 1)
      else s.(count := 0, held := false, armed := Cancelled(s.armed, s.last))
    case Fire(t) =>
      var s' := if s.armed[t] then s else if s.version < 13 then s.(held := false) else s.(count := 0, held := false);
      s'.(last := if s.last == Some(t) then None else s.last, armed := s.armed - {t})
    case Schedule(alloc) =>
      if alloc then Armed(s) else s.(held := false)
  }

  // ---------- The object ----------

  class WakeLockState {
    const version: int
    var held: bool
    var count: nat
    var last: Option<nat>
    var armed: map<nat, bool>
    var next: nat

    constructor (version: int)
      ensures this.version == version && Value() == State(version, false, 0, None, map[], 0)
    {
      this.version := version;
      held, count, last, armed, next := false, 0, None, map[], 0;
    }

    function Value(): State
      reads this
    {
      State(version, held, count, last, armed, next)
    }

    /** internalRequestTimedCallback with a fresh, uncancelled timer. */
    method RequestTimeout(alloc: bool) returns (p: Option<nat>)
      modifies this`armed, this`next
      ensures p == if alloc then Some(old(next)) else None
      ensures armed == if alloc then old(armed)[old(next) := false] else old(armed)
      ensures next == old(next) + if alloc then 1 else 0
    {
      if !alloc { return None; }
      p := Some(next);
      armed, next := armed[next := false], next + 1;
    }

    method CancelLast()
      modifies this`armed
      ensures armed == Cancelled(old(armed), last)
    {
      if last.Some? && last.value in armed {
        armed := armed[last.value := true];
      }
    }

    method GrabPartialWakeLock(alloc: bool)
      requires Inv(Value())
      modifies this
      ensures Value() == Apply(old(Value()), Grab(alloc)) && Inv(Value())
    {
      if version >= 13 {
        held := true;
        var p := RequestTimeout(alloc);
        if p.None? {
          held := false;
        } else {
          count := count + 1;
          CancelLast();
          last := p;
        }
      } else {
        held := true;
      }
    }

    method ReleaseWakeLock()
      requires Inv(Value())
      modifies this
      ensures Value() == Apply(old(Value()), Release) && Inv(Value())
    {
      if version >= 13 {
        if count > 1 {
          count := count - 1;
        } else {
          count := 0;
          held := false;
          CancelLast();
        }
      } else {
        held := false;
      }
    }

    method WakeTimeoutCallback(cancelled: bool)
      modifies this`count, this`held
      ensures held == (cancelled && old(held))
      ensures count == if version >= 13 && !cancelled then 0 else old(count)
    {
      if version >= 13 {
        if !cancelled {
          count := 0;
          held := false;
        }
      } else if !cancelled {
        held := false;
      }
    }

    method UserTimerCallback(t: nat)
      requires t in armed && Inv(Value())
      modifies this
      ensures Value() == Apply(old(Value()), Fire(t)) && Inv(Value())
    {
      WakeTimeoutCallback(armed[t]);
      if last.Some? && last.value == t {
        last := None;
      }
      armed := armed - {t};
    }
  }

  // ---------- Safety ----------

  /** Timers are handed out once; the last pointer names an armed timer, which is the only one that may be
      uncancelled; and from version 13 on the lock is held only under a counted grab and a live timeout. */
  ghost predicate Inv(s: State) {
    && (forall t :: t in s.armed ==> t < s.next)
    && (s.last.Some? ==> s.last.value in s.armed)
    && (forall t :: t in s.armed && !s.armed[t] ==> s.last == Some(t))
    && (s.version >= 13 && s.held ==> s.count > 0 && s.last.Some? && !s.armed[s.last.value])
  }

  lemma StepKeepsInv(s: State, a: Step)
    requires Inv(s) && Enabled(s, a)
    ensures Inv(Apply(s, a)) && Apply(s, a).version == s.version
  {
  }

  ghost predicate IsRun(version: int, trace: seq<State>, steps: seq<Step>) {
    && |trace| == |steps| + 1 && trace[0] == State(version, false, 0, None, map[], 0)
    && forall k :: 0 <= k < |steps| ==> Enabled(trace[k], steps[k]) && trace[k + 1] == Apply(trace[k], steps[k])
  }

  lemma {:induction false} RunKeepsInv(version: int, trace: seq<State>, steps: seq<Step>, k: nat)
    requires IsRun(version, trace, steps) && k < |trace|
    ensures Inv(trace[k]) && trace[k].version == version
  {
    if k == 0 {
    } else {
      RunKeepsInv(version, trace, steps, k - 1);
      StepKeepsInv(trace[k - 1], steps[k - 1]);
    }
  }

  /** In every run the lock is held only while a timer is armed that will release it when it fires. */
  lemma HeldOnlyUnderTimeout(trace: seq<State>, steps: seq<Step>, k: nat, version: int)
    requires version >= 13 && IsRun(version, trace, steps) && k < |trace| && trace[k].held
    ensures var s := trace[k];
      s.count > 0 && s.last.Some? && Enabled(s, Fire(s.last.value)) && !Apply(s, Fire(s.last.value)).held
  {
    RunKeepsInv(version, trace, steps, k);
  }

  /** At most one armed timer is uncancelled, and the last pointer never dangles, in either version. */
  lemma OneLiveTimeout(version: int, trace: seq<State>, steps: seq<Step>, k: nat, t: nat, u: nat)
    requires IsRun(version, trace, steps) && k < |trace|
    ensures var s := trace[k];
      && (t in s.armed && u in s.armed && !s.armed[t] && !s.armed[u] ==> t == u)
      && (s.last == Some(t) ==> t in s.armed)
  {
    RunKeepsInv(version, trace, steps, k);
  }

  /** How many of the steps from `i` up to `k` are firings. */
  function Fires(steps: seq<Step>, i: nat, k: nat): nat
    requires i <= k <= |steps|
  {
    if i == k then 0 else Fires(steps, i, k - 1) + if steps[k - 1].Fire? then 1 else 0
  }

  lemma {:induction false} FiringUsesUpTimers(trace: seq<State>, steps: seq<Step>, i: nat, k: nat)
    requires |trace| == |steps| + 1 && i <= k <= |steps|
    requires forall j :: i <= j < k ==>
      (steps[j].Fire? || steps[j].Release?) && Enabled(trace[j], steps[j]) && trace[j + 1] == Apply(trace[j], steps[j])
    ensures |trace[k].armed| == |trace[i].armed| - Fires(steps, i, k)
  {
    hide Apply;
    if i == k {
    } else {
      FiringUsesUpTimers(trace, steps, i, k - 1);
      FiringUsesUpOne(trace[k - 1], steps[k - 1]);
    }
  }

  lemma FiringUsesUpOne(s: State, a: Step)
    requires (a.Fire? || a.Release?) && Enabled(s, a)
    ensures |Apply(s, a).armed| == |s.armed| - if a.Fire? then 1 else 0
  {
    match a
    case Fire(t) =>
      assert (s.armed - {t}).Keys == s.armed.Keys - {t};
      assert |s.armed - {t}| == |s.armed.Keys - {t}|;
    case Release => assert Cancelled(s.armed, s.last).Keys == s.armed.Keys;
  }

  /** Once grabs stop, firing the armed timers, in any order and with any releases in between, ends with
      the lock released. */
  lemma TimeoutsReleaseTheLock(version: int, trace: seq<State>, steps: seq<Step>, i: nat, k: nat)
    requires version >= 13 && IsRun(version, trace, steps) && i <= k <= |steps|
    requires forall j :: i <= j < k ==> steps[j].Fire? || steps[j].Release?
    requires Fires(steps, i, k) == |trace[i].armed|
    ensures !trace[k].held
  {
    FiringUsesUpTimers(trace, steps, i, k);
    RunKeepsInv(version, trace, steps, k);
    assert |trace[k].armed| == 0;
  }

  /** The lock is held exactly while grabs are counted iff no timer allocation fails under a counted grab:
      such a failure releases the lock that earlier grabs still rely on. */
  lemma HeldIffCounted(version: int, trace: seq<State>, steps: seq<Step>)
    requires version >= 13 && IsRun(version, trace, steps)
    ensures (forall k :: 0 <= k < |trace| ==> (trace[k].held <==> trace[k].count > 0))
       <==> (forall k :: 0 <= k < |steps| && steps[k] == Grab(false) ==> trace[k].count == 0)
  {
    if forall k :: 0 <= k < |steps| && steps[k] == Grab(false) ==> trace[k].count == 0 {
      forall k | 0 <= k < |trace| ensures trace[k].held <==> trace[k].count > 0 {
        CountedWhileNoFailure(version, trace, steps, k);
      }
    }
    if k :| 0 <= k < |steps| && steps[k] == Grab(false) && trace[k].count > 0 {
      RunKeepsInv(version, trace, steps, k);
      var s := trace[k + 1];
      assert s == Apply(trace[k], Grab(false)) && !s.held && s.count > 0;
    }
  }

  /** Two grabs, and no memory for the timer of the second: the first grab is counted without the lock. */
  lemma FailedGrabReleasesTheLock(version: int) returns (trace: seq<State>, steps: seq<Step>)
    requires version >= 13
    ensures steps == [Grab(true), Grab(false)] && IsRun(version, trace, steps)
    ensures trace[1].held && trace[1].count == 1 && !trace[2].held && trace[2].count == 1
  {
    steps := [Grab(true), Grab(false)];
    var s := State(version, false, 0, None, map[], 0);
    trace := [s, Apply(s, Grab(true)), Apply(Apply(s, Grab(true)), Grab(false))];
  }

  lemma {:induction false} CountedWhileNoFailure(version: int, trace: seq<State>, steps: seq<Step>, k: nat)
    requires version >= 13 && IsRun(version, trace, steps) && k < |trace|
    requires forall j :: 0 <= j < k && steps[j] == Grab(false) ==> trace[j].count == 0
    ensures trace[k].held <==> trace[k].count > 0
  {
    if k == 0 {
    } else {
      CountedWhileNoFailure(version, trace, steps, k - 1);
      RunKeepsInv(version, trace, steps, k - 1);
      assert trace[k] == Apply(trace[k - 1], steps[k - 1]);
    }
  }

  // ---------- The count ----------

  /** How many of the steps from `i` up to `k` are grabs, and how many are releases. */
  function Grabs(steps: seq<Step>, i: nat, k: nat): nat
    requires i <= k <= |steps|
  {
    if i == k then 0 else Grabs(steps, i, k - 1) + if steps[k - 1].Grab? then 1 else 0
  }

  function Releases(steps: seq<Step>, i: nat, k: nat): nat
    requires i <= k <= |steps|
  {
    if i == k then 0 else Releases(steps, i, k - 1) + if steps[k - 1].Release? then 1 else 0
  }

  /** No grab fails, no live timeout fires and nobody releases what is not grabbed. */
  predicate Orderly(s: State, a: Step) {
    match a
    case Grab(alloc) => alloc
    case Release => s.count > 0
    case Fire(t) => t in s.armed && s.armed[t]
    case Schedule(_) => false
  }

  /** In an orderly stretch of a run the count goes up with every grab and down with every release, and the
      lock is held exactly while it is positive, if it was so at the start. */
  lemma {:induction false} CountsGrabsMinusReleases(version: int, trace: seq<State>, steps: seq<Step>, i: nat, k: nat)
    requires version >= 13 && IsRun(version, trace, steps) && i <= k <= |steps|
    requires forall j :: i <= j < k ==> Orderly(trace[j], steps[j])
    ensures trace[k].count == trace[i].count + Grabs(steps, i, k) - Releases(steps, i, k)
    ensures (trace[i].held <==> trace[i].count > 0) ==> (trace[k].held <==> trace[k].count > 0)
  {
    if i < k {
      CountsGrabsMinusReleases(version, trace, steps, i, k - 1);
      RunKeepsInv(version, trace, steps, k - 1);
      assert trace[k] == Apply(trace[k - 1], steps[k - 1]);
    }
  }

  /** From the start: the lock is held iff there were more grabs than releases. */
  lemma HeldIffMoreGrabs(version: int, trace: seq<State>, steps: seq<Step>, k: nat)
    requires version >= 13 && IsRun(version, trace, steps) && k <= |steps|
    requires forall j :: 0 <= j < k ==> Orderly(trace[j], steps[j])
    ensures trace[k].held <==> Grabs(steps, 0, k) > Releases(steps, 0, k)
  {
    CountsGrabsMinusReleases(version, trace, steps, 0, k);
  }

  /** Nested users give back what they found: after as many releases as grabs, count and lock are as before. */
  lemma MatchedGrabsGiveBack(version: int, trace: seq<State>, steps: seq<Step>, i: nat, k: nat)
    requires version >= 13 && IsRun(version, trace, steps) && i <= k <= |steps|
    requires forall j :: i <= j < k ==> Orderly(trace[j], steps[j])
    requires Grabs(steps, i, k) == Releases(steps, i, k) && (trace[i].held <==> trace[i].count > 0)
    ensures trace[k].count == trace[i].count && trace[k].held == trace[i].held
  {
    CountsGrabsMinusReleases(version, trace, steps, i, k);
  }

  /** All other steps: a live timeout and a release of nothing end with the lock released and nothing counted;
      a failed grab releases the lock and leaves the count. */
  lemma DisorderReleases(version: int, trace: seq<State>, steps: seq<Step>, k: nat)
    requires version >= 13 && IsRun(version, trace, steps) && k < |steps| && !Orderly(trace[k], steps[k])
    ensures !trace[k + 1].held
    ensures trace[k + 1].count == if steps[k].Grab? then trace[k].count else 0
  {
    RunKeepsInv(version, trace, steps, k);
    assert trace[k + 1] == Apply(trace[k], steps[k]);
  }

  /** A timeout that could be had is a new live timer, and the only one: every older timer is cancelled. */
  lemma NewTimeoutIsTheOnlyLiveOne(version: int, trace: seq<State>, steps: seq<Step>, k: nat)
    requires IsRun(version, trace, steps) && k < |steps|
    requires (steps[k] == Grab(true) && version >= 13) || steps[k] == Schedule(true)
    ensures var old_, new_, t := trace[k].armed, trace[k + 1].armed, trace[k].next;
      && t !in old_ && new_.Keys == old_.Keys + {t} && trace[k + 1].last == Some(t)
      && !new_[t] && forall u :: u in old_ ==> new_[u]
  {
    RunKeepsInv(version, trace, steps, k);
    assert trace[k + 1] == Apply(trace[k], steps[k]);
  }

  /** The release that gives up the lock leaves no live timeout behind. */
  lemma LastReleaseCancels(version: int, trace: seq<State>, steps: seq<Step>, k: nat)
    requires version >= 13 && IsRun(version, trace, steps) && k < |steps| && steps[k] == Release && trace[k].count <= 1
    ensures !trace[k + 1].held && trace[k + 1].count == 0
    ensures var armed := trace[k + 1].armed;
      armed.Keys == trace[k].armed.Keys && forall t :: t in armed ==> armed[t]
  {
    RunKeepsInv(version, trace, steps, k);
    assert trace[k + 1] == Apply(trace[k], steps[k]);
  }

  /** Two grabs and one release: the lock is still held, for the grab that is left. */
  lemma SecondGrabKeepsTheLock(version: int) returns (trace: seq<State>, steps: seq<Step>)
    requires version >= 13
    ensures steps == [Grab(true), Grab(true), Release] && IsRun(version, trace, steps)
    ensures trace[3].held && trace[3].count == 1 && trace[3].last == Some(1) && trace[3].armed == map[0 := true, 1 := false]
  {
    steps := [Grab(true), Grab(true), Release];
    var s := State(version, false, 0, None, map[], 0);
    var t := Apply(s, Grab(true));
    var u := Apply(t, Grab(true));
    trace := [s, t, u, Apply(u, Release)];
  }

  // ---------- Before version 13 ----------

  /** What takes the uncounted lock away: a release, a live timeout, or a timeout that cannot be had. */
  predicate TakesAway(s: State, a: Step) {
    a == Release || a == Schedule(false) || (a.Fire? && a.timer in s.armed && !s.armed[a.timer])
  }

  /** The uncounted lock is held iff it was grabbed and nothing has taken it away since. */
  lemma {:induction false} UncountedHeldIff(version: int, trace: seq<State>, steps: seq<Step>, k: nat)
    requires version < 13 && IsRun(version, trace, steps) && k < |trace|
    ensures trace[k].held <==>
      exists i :: 0 <= i < k && steps[i].Grab? && forall j :: i < j < k ==> !TakesAway(trace[j], steps[j])
  {
    if k > 0 {
      UncountedHeldIff(version, trace, steps, k - 1);
      RunKeepsInv(version, trace, steps, k - 1);
      UncountedStep(trace[k - 1], steps[k - 1]);
      if trace[k].held {
        if !steps[k - 1].Grab? {
          var i :| 0 <= i < k - 1 && steps[i].Grab? && forall j :: i < j < k - 1 ==> !TakesAway(trace[j], steps[j]);
          assert forall j :: i < j < k ==> !TakesAway(trace[j], steps[j]);
        }
      }
    }
  }

  lemma UncountedStep(s: State, a: Step)
    requires s.version < 13 && Enabled(s, a)
    ensures Apply(s, a).held <==> a.Grab? || (s.held && !TakesAway(s, a))
  {
  }
}
