// What rounds of the event loop of libril/ril_event.cpp amount to, on values: which events fire, what their
// callbacks do to the timers and to the watch table, and what holds in every run.

module RilRounds {
  import opened Options
  import opened RilLists
  import opened RilEvents

  /** What a callback does to the watch table: it watches a new event, watches its own event again, or stops
      watching the event in a slot. */
  datatype WatchOp = WatchNew(fd: int, persist: bool) | WatchAgain | StopWatching(slot: nat)

  datatype Callback = Callback(watches: seq<WatchOp>, reaction: Reaction)

  /** An event as its callback finds it. */
  datatype Fired = Fired(ev: RilEvent, fd: int, persist: bool)

  /** A slot of the watch table. `who` is the event in it, or None for one that has joined since. */
  datatype Slot = Free | Taken(fd: int, persist: bool, who: Option<RilEvent>)

  // ---------- The watch table ----------

  /** The first free slot is taken, if there is one. */
  function Filled(s: seq<Slot>, x: Slot): seq<Slot> {
    if s == [] then [] else if s[0].Free? then [x] + s[1..] else [s[0]] + Filled(s[1..], x)
  }

  predicate Watching(s: seq<Slot>, ev: RilEvent) {
    exists i :: 0 <= i < |s| && s[i].Taken? && s[i].who == Some(ev)
  }

  /** The table after one operation of the callback of `f`. */
  function AfterWatch(s: seq<Slot>, op: WatchOp, f: Fired): seq<Slot> {
    match op
    case WatchNew(fd, persist) => if fd >= 0 then Filled(s, Taken(fd, persist, None)) else s
    case WatchAgain => if f.fd >= 0 && !Watching(s, f.ev) then Filled(s, Taken(f.fd, f.persist, Some(f.ev))) else s
    case StopWatching(slot) => if slot < |s| then s[slot := Free] else s
  }

  function AfterWatches(s: seq<Slot>, ops: seq<WatchOp>, f: Fired): seq<Slot> {
    if ops == [] then s else AfterWatch(AfterWatches(s, ops[..|ops| - 1], f), ops[|ops| - 1], f)
  }

  lemma OneMoreWatch(s: seq<Slot>, ops: seq<WatchOp>, i: nat, f: Fired)
    requires i < |ops|
    ensures AfterWatches(s, ops[..i + 1], f) == AfterWatch(AfterWatches(s, ops[..i], f), ops[i], f)
  {
    assert ops[..i + 1][..i] == ops[..i];
  }

  lemma {:induction false} FilledIs(s: seq<Slot>, x: Slot, i: nat)
    requires i <= |s| && (forall j :: 0 <= j < i ==> s[j].Taken?) && (i < |s| ==> s[i].Free?)
    ensures Filled(s, x) == if i < |s| then s[i := x] else s
  {
    if i == 0 {
    } else {
      FilledIs(s[1..], x, i - 1);
    }
  }

  /** Each operation in plain words: a new event, or the callback's own one if it is not watched, gets the first free
      slot, if there is one and its descriptor is valid; a slot that is not watched any more is free. */
  lemma AfterWatchIs(s: seq<Slot>, op: WatchOp, f: Fired, i: nat)
    requires i <= |s| && (forall j :: 0 <= j < i ==> s[j].Taken?) && (i < |s| ==> s[i].Free?)
    ensures op.WatchNew? ==>
      AfterWatch(s, op, f) == if op.fd >= 0 && i < |s| then s[i := Taken(op.fd, op.persist, None)] else s
    ensures op.WatchAgain? ==>
      AfterWatch(s, op, f) ==
        if i < |s| && f.fd >= 0 && (forall j :: 0 <= j < |s| ==> s[j].Free? || s[j].who != Some(f.ev))
        then s[i := Taken(f.fd, f.persist, Some(f.ev))] else s
    ensures op.StopWatching? ==> AfterWatch(s, op, f) == if op.slot < |s| then s[op.slot := Free] else s
  {
    match op
    case WatchNew(fd, persist) => FilledIs(s, Taken(fd, persist, None), i);
    case WatchAgain => FilledIs(s, Taken(f.fd, f.persist, Some(f.ev)), i);
    case StopWatching(_) =>
  }

  /** The operations of a callback take effect one after the other. */
  lemma {:induction false} WatchesInTurn(s: seq<Slot>, a: seq<WatchOp>, b: seq<WatchOp>, f: Fired)
    ensures AfterWatches(s, a + b, f) == AfterWatches(AfterWatches(s, a, f), b, f)
  {
    if b == [] {
      assert a + b == a;
    } else {
      WatchesInTurn(s, a, b[..|b| - 1], f);
      assert (a + b)[..|a + b| - 1] == a + b[..|b| - 1];
    }
  }

  // ---------- The callbacks of a round ----------

  /** What its callback may do to an event: free it or use it as a timer only while it is not watched. */
  function Permitted(r: Reaction, watched: bool): Reaction {
    if watched then r.(fate := Kept) else r
  }

  /** The watch table after the first `n` callbacks. */
  function Table(s: seq<Slot>, fs: seq<Fired>, callbacks: nat -> Callback, n: nat): seq<Slot>
    requires n <= |fs|
  {
    if n == 0 then s else AfterWatches(Table(s, fs, callbacks, n - 1), callbacks(n - 1).watches, fs[n - 1])
  }

  /** What the first `n` callbacks do to the timers and to their own events. */
  function Reactions(s: seq<Slot>, fs: seq<Fired>, callbacks: nat -> Callback, n: nat): (rs: seq<Reaction>)
    requires n <= |fs|
    ensures |rs| == n
  {
    if n == 0 then []
    else
      Reactions(s, fs, callbacks, n - 1) +
      [Permitted(callbacks(n - 1).reaction, Watching(Table(s, fs, callbacks, n), fs[n - 1].ev))]
  }

  /** A callback gets what it asks for, except that an event that it leaves in the table is kept. */
  lemma {:induction false} ReactionIs(s: seq<Slot>, fs: seq<Fired>, callbacks: nat -> Callback, n: nat, m: nat)
    requires m < n <= |fs|
    ensures var r, t := Reactions(s, fs, callbacks, n)[m], Table(s, fs, callbacks, m + 1);
      && r.newTimers == callbacks(m).reaction.newTimers
      && r.fate == if Watching(t, fs[m].ev) then Kept else callbacks(m).reaction.fate
  {
    hide Table, Watching;
    if m < n - 1 {
      ReactionIs(s, fs, callbacks, n - 1, m);
    }
  }

  /** The calls that are made, each with its descriptor. */
  function Calls(fs: seq<Fired>): (c: seq<(RilEvent, int)>)
    ensures |c| == |fs| && forall i :: 0 <= i < |fs| ==> c[i] == (fs[i].ev, fs[i].fd)
  {
    seq(|fs|, i requires 0 <= i < |fs| => (fs[i].ev, fs[i].fd))
  }

  predicate ArmedAgain(rs: seq<Reaction>, fs: seq<Fired>, ev: RilEvent)
    requires |rs| <= |fs|
  {
    exists j :: 0 <= j < |rs| && rs[j].fate.Rearmed? && fs[j].ev == ev
  }

  // ---------- Rounds ----------

  /** What happens in one round of the loop: the time read, what select reports, and what callbacks do. */
  datatype Round = Round(now: Timeval, rfds: set<int>, n: nat, callbacks: nat -> Callback)

  /** The loop between two rounds. `known` are all events that it has had to do with so far. */
  datatype Snapshot = Snapshot(known: set<RilEvent>, timers: seq<Fired>, times: seq<Timeval>, slots: seq<Slot>,
    calls: seq<(RilEvent, int)>)

  /** The events in the first `i` slots that are ready. */
  function Signalled(s: seq<Slot>, rfds: set<int>, i: nat): seq<Fired>
    requires i <= |s|
  {
    if i == 0 then []
    else
      var x := s[i - 1];
      Signalled(s, rfds, i - 1) +
      if x.Taken? && x.fd in rfds && x.who.Some? then [Fired(x.who.value, x.fd, x.persist)] else []
  }

  /** The slots after the pass over the first `i` of them: one-shot events that were ready have left. */
  function Swept(s: seq<Slot>, rfds: set<int>, i: nat): (r: seq<Slot>)
    ensures |r| == |s|
  {
    seq(|s|, j requires 0 <= j < |s| => if j < i && s[j].Taken? && s[j].fd in rfds && !s[j].persist then Free else s[j])
  }

  /** What fires: the timers that are due, then the ready events. */
  function Fires(b: Snapshot, now: Timeval, rfds: set<int>, i: nat): seq<Fired>
    requires |b.timers| == |b.times| && i <= |b.slots|
  {
    b.timers[..Earlier(b.times, now)] + Signalled(b.slots, rfds, i)
  }

  /** The slots with every event forgotten that is not in `known`. */
  function Erased(s: seq<Slot>, known: set<RilEvent>): (r: seq<Slot>)
    ensures |r| == |s|
  {
    seq(|s|, j requires 0 <= j < |s| =>
      if s[j].Taken? && s[j].who.Some? && s[j].who.value !in known then s[j].(who := None) else s[j])
  }

  /** The timers after a round: those that were not due, those that their callbacks armed again, at the deadlines
      they asked for, and new ones. */
  ghost predicate TimersFollow(b: Snapshot, k: nat, fs: seq<Fired>, rs: seq<Reaction>, a: Snapshot)
    requires k <= |b.timers| && |rs| == |fs|
  {
    && |a.timers| == |a.times|
    && (forall f :: f in b.timers[k..] ==> f in a.timers)
    && (forall f :: f in a.timers ==> f in b.timers[k..] || ArmedAgain(rs, fs, f.ev) || f.ev !in b.known)
    && (forall j :: 0 <= j < |rs| && rs[j].fate.Rearmed? ==>
          ArmedAt(a, fs[j].ev, TimerAdd(rs[j].fate.now, rs[j].fate.tv)))
  }

  predicate ArmedAt(a: Snapshot, ev: RilEvent, t: Timeval)
    requires |a.timers| == |a.times|
  {
    exists m :: 0 <= m < |a.timers| && a.timers[m].ev == ev && a.times[m] == t
  }

  /** The deadlines are in order, one for each timer, and it is known who is in the table. */
  ghost predicate InOrder(b: Snapshot) {
    && |b.timers| == |b.times| && Ascend(b.times)
    && forall j :: 0 <= j < |b.slots| && b.slots[j].Taken? ==> b.slots[j].who.Some?
  }

  /** One round, in which the pass visits `i` slots. */
  ghost predicate Follows(b: Snapshot, round: Round, i: nat, a: Snapshot) {
    && |b.timers| == |b.times| && i <= |b.slots|
    && |Signalled(b.slots, round.rfds, i)| <= round.n
    && (i < |b.slots| ==> |Signalled(b.slots, round.rfds, i)| == round.n)
    && var fs := Fires(b, round.now, round.rfds, i);
       var s := Swept(b.slots, round.rfds, i);
       var rs := Reactions(s, fs, round.callbacks, |fs|);
       var k := Earlier(b.times, round.now);
       && a.calls == b.calls + Calls(fs)
       && a.times == AfterReactions(b.times[k..], rs)
       && Erased(a.slots, b.known) == Table(s, fs, round.callbacks, |fs|)
       && TimersFollow(b, k, fs, rs, a)
       && b.known <= a.known
  }

  /** `trace` lists the states between the rounds, `visits` how many slots each round visits. */
  ghost predicate IsRun(trace: seq<Snapshot>, rounds: seq<Round>, visits: seq<nat>) {
    && |trace| == |rounds| + 1 && |visits| == |rounds|
    && forall k :: 0 <= k < |rounds| ==> Follows(trace[k], rounds[k], visits[k], trace[k + 1])
  }

  // ---------- Every run ----------

  /** What fires in round `k` of a run. */
  ghost function FiredIn(trace: seq<Snapshot>, rounds: seq<Round>, visits: seq<nat>, k: nat): seq<Fired>
    requires IsRun(trace, rounds, visits) && k < |rounds|
  {
    assert Follows(trace[k], rounds[k], visits[k], trace[k + 1]);
    Fires(trace[k], rounds[k].now, rounds[k].rfds, visits[k])
  }

  /** Everything that fires in the first `k` rounds. */
  ghost function Logged(trace: seq<Snapshot>, rounds: seq<Round>, visits: seq<nat>, k: nat): seq<Fired>
    requires IsRun(trace, rounds, visits) && k <= |rounds|
  {
    if k == 0 then [] else Logged(trace, rounds, visits, k - 1) + FiredIn(trace, rounds, visits, k - 1)
  }

  /** In every run the calls that are made are exactly those of what fires, round by round. */
  lemma {:induction false} CallsOfRun(trace: seq<Snapshot>, rounds: seq<Round>, visits: seq<nat>, k: nat)
    requires IsRun(trace, rounds, visits) && k <= |rounds|
    ensures trace[k].calls == trace[0].calls + Calls(Logged(trace, rounds, visits, k))
  {
    hide Follows, Calls, Fires;
    if k == 0 {
      NoCalls();
    } else {
      CallsOfRun(trace, rounds, visits, k - 1);
      RoundCalls(trace[k - 1], rounds[k - 1], visits[k - 1], trace[k]);
      CallsJoined(Logged(trace, rounds, visits, k - 1), FiredIn(trace, rounds, visits, k - 1));
    }
  }

  lemma NoCalls()
    ensures Calls([]) == []
  {
  }

  lemma RoundCalls(b: Snapshot, round: Round, i: nat, a: Snapshot)
    requires Follows(b, round, i, a)
    ensures |b.timers| == |b.times| && i <= |b.slots| && a.calls == b.calls + Calls(Fires(b, round.now, round.rfds, i))
    ensures b.known <= a.known
  {
  }

  lemma CallsJoined(x: seq<Fired>, y: seq<Fired>)
    ensures Calls(x + y) == Calls(x) + Calls(y)
  {
  }

  // ---------- Timers ----------

  predicate Armed(b: Snapshot, ev: RilEvent) {
    exists f :: f in b.timers && f.ev == ev
  }

  predicate FiresIn(fs: seq<Fired>, ev: RilEvent) {
    exists f :: f in fs && f.ev == ev
  }

  /** In a round a timer disappears only by its callback, and appears only by its callback or as a new event. */
  lemma RoundTimers(b: Snapshot, round: Round, i: nat, a: Snapshot, ev: RilEvent)
    requires Follows(b, round, i, a)
    ensures Armed(b, ev) ==> Armed(a, ev) || FiresIn(Fires(b, round.now, round.rfds, i), ev)
    ensures Armed(a, ev) ==> Armed(b, ev) || ev !in b.known || FiresIn(Fires(b, round.now, round.rfds, i), ev)
  {
    var k, fs := Earlier(b.times, round.now), Fires(b, round.now, round.rfds, i);
    if Armed(b, ev) {
      var f :| f in b.timers && f.ev == ev;
      if f in b.timers[..k] {
        assert f in fs;
      } else {
        assert f in b.timers[k..] && f in a.timers;
      }
    }
    if Armed(a, ev) {
      var f :| f in a.timers && f.ev == ev;
      assert f in b.timers[k..] ==> f in b.timers;
    }
  }

  /** In every run no timer is lost: one that was armed still is, or has been called; and one that is armed was so at
      the start, or is new, or has been called and was armed again. */
  lemma {:induction false} NoTimerLost(trace: seq<Snapshot>, rounds: seq<Round>, visits: seq<nat>, k: nat, ev: RilEvent)
    requires IsRun(trace, rounds, visits) && k <= |rounds|
    ensures trace[0].known <= trace[k].known
    ensures Armed(trace[0], ev) ==> Armed(trace[k], ev) || FiresIn(Logged(trace, rounds, visits, k), ev)
    ensures Armed(trace[k], ev) ==>
      Armed(trace[0], ev) || ev !in trace[0].known || FiresIn(Logged(trace, rounds, visits, k), ev)
  {
    hide Follows, Fires, Armed, FiresIn;
    if k == 0 {
    } else {
      NoTimerLost(trace, rounds, visits, k - 1, ev);
      RoundCalls(trace[k - 1], rounds[k - 1], visits[k - 1], trace[k]);
      RoundTimers(trace[k - 1], rounds[k - 1], visits[k - 1], trace[k], ev);
      FiresJoined(Logged(trace, rounds, visits, k - 1), FiredIn(trace, rounds, visits, k - 1), ev);
    }
  }

  lemma FiresJoined(x: seq<Fired>, y: seq<Fired>, ev: RilEvent)
    ensures FiresIn(x + y, ev) <==> FiresIn(x, ev) || FiresIn(y, ev)
  {
  }

  /** Nothing fires early or unasked: what fires in a round is a timer whose deadline lies before the time that was
      read, or sits in a slot whose descriptor select reported. */
  lemma NothingFiresEarly(b: Snapshot, now: Timeval, rfds: set<int>, i: nat, f: Fired)
    requires |b.timers| == |b.times| && i <= |b.slots| && f in Fires(b, now, rfds, i)
    ensures (exists m :: 0 <= m < |b.timers| && b.timers[m] == f && Less(b.times[m], now)) ||
            (f.fd in rfds && exists j :: 0 <= j < i && b.slots[j] == Taken(f.fd, f.persist, Some(f.ev)))
  {
    var k := Earlier(b.times, now);
    if f in b.timers[..k] {
      var m :| 0 <= m < k && b.timers[m] == f;
      EarlierThan(b.times, now, m);
    } else {
      var j := SignalledFrom(b.slots, rfds, i, f);
    }
  }

  lemma {:induction false} EarlierThan(ts: seq<Timeval>, t: Timeval, m: nat)
    requires m < Earlier(ts, t)
    ensures m < |ts| && Less(ts[m], t)
  {
    if m == 0 {
    } else {
      EarlierThan(ts[1..], t, m - 1);
    }
  }

  lemma {:induction false} SignalledFrom(s: seq<Slot>, rfds: set<int>, i: nat, f: Fired) returns (j: nat)
    requires i <= |s| && f in Signalled(s, rfds, i)
    ensures j < i && s[j] == Taken(f.fd, f.persist, Some(f.ev)) && f.fd in rfds
  {
    if f in Signalled(s, rfds, i - 1) {
      j := SignalledFrom(s, rfds, i - 1, f);
    } else {
      j := i - 1;
    }
  }

  /** In every run the deadlines stay in order. */
  lemma {:induction false} DeadlinesStayInOrder(trace: seq<Snapshot>, rounds: seq<Round>, visits: seq<nat>, k: nat)
    requires IsRun(trace, rounds, visits) && k <= |rounds| && Ascend(trace[0].times)
    ensures Ascend(trace[k].times)
  {
    hide Follows, Ascend;
    if k > 0 {
      DeadlinesStayInOrder(trace, rounds, visits, k - 1);
      RoundDeadlines(trace[k - 1], rounds[k - 1], visits[k - 1], trace[k]);
    }
  }

  lemma RoundDeadlines(b: Snapshot, round: Round, i: nat, a: Snapshot)
    requires Follows(b, round, i, a)
    ensures Ascend(b.times) ==> Ascend(a.times)
  {
    hide TimersFollow, AfterReactions, Reactions, Fires, Table;
    var k := Earlier(b.times, round.now);
    ReactionsArm(b.times[k..], Reactions(Swept(b.slots, round.rfds, i), Fires(b, round.now, round.rfds, i), round.callbacks,
      |Fires(b, round.now, round.rfds, i)|));
  }

  /** Nothing that is due is left out: in every round of every run each timer whose deadline lies before the time that
      was read fires, and its call is made. */
  lemma EveryDueTimerFires(trace: seq<Snapshot>, rounds: seq<Round>, visits: seq<nat>, k: nat, m: nat)
    requires IsRun(trace, rounds, visits) && k < |rounds| && Ascend(trace[0].times)
    requires m < |trace[k].timers| && m < |trace[k].times| && Less(trace[k].times[m], rounds[k].now)
    ensures m < |FiredIn(trace, rounds, visits, k)| && FiredIn(trace, rounds, visits, k)[m] == trace[k].timers[m]
    ensures (trace[k].timers[m].ev, trace[k].timers[m].fd) in trace[k + 1].calls
  {
    hide Follows, Calls, Ascend;
    DeadlinesStayInOrder(trace, rounds, visits, k);
    EarlierSplits(trace[k].times, rounds[k].now, m);
    RoundCalls(trace[k], rounds[k], visits[k], trace[k + 1]);
    var fs := FiredIn(trace, rounds, visits, k);
    assert Calls(fs)[m] == (fs[m].ev, fs[m].fd);
  }

  /** Nor is anything left out that is ready: each visited slot whose descriptor select reported fires once, behind the
      timers and behind the slots before it. */
  lemma EveryReadySlotFires(b: Snapshot, now: Timeval, rfds: set<int>, i: nat, j: nat)
    requires |b.timers| == |b.times| && j < i <= |b.slots|
    ensures var x, p := b.slots[j], Earlier(b.times, now) + |Signalled(b.slots, rfds, j)|;
      var next := Earlier(b.times, now) + |Signalled(b.slots, rfds, j + 1)|;
      if x.Taken? && x.fd in rfds && x.who.Some?
      then p < |Fires(b, now, rfds, i)| && Fires(b, now, rfds, i)[p] == Fired(x.who.value, x.fd, x.persist) && next == p + 1
      else next == p
  {
    SignalledAt(b.slots, rfds, i, j);
  }

  lemma {:induction false} SignalledAt(s: seq<Slot>, rfds: set<int>, i: nat, j: nat)
    requires j < i <= |s|
    ensures Signalled(s, rfds, j + 1) <= Signalled(s, rfds, i)
  {
    if j + 1 < i {
      SignalledAt(s, rfds, i - 1, j);
    }
  }

  /** When select counts right, the pass may stop early and still miss nothing: every ready event of the table fires. */
  lemma AllReadyFire(b: Snapshot, round: Round, i: nat, a: Snapshot, j: nat)
    requires Follows(b, round, i, a) && round.n >= |Signalled(b.slots, round.rfds, |b.slots|)|
    requires j < |b.slots| && b.slots[j].Taken? && b.slots[j].who.Some? && b.slots[j].fd in round.rfds
    ensures (b.slots[j].who.value, b.slots[j].fd) in a.calls
  {
    hide Follows, Calls;
    RoundCalls(b, round, i, a);
    var s, rfds := b.slots, round.rfds;
    if i < |s| {
      FollowsCount(b, round, i, a);
      if i > 0 { SignalledAt(s, rfds, |s|, i - 1); }
      assert Signalled(s, rfds, i) <= Signalled(s, rfds, |s|);
      assert Signalled(s, rfds, i) == Signalled(s, rfds, |s|);
    }
    EveryReadySlotFires(b, round.now, rfds, |s|, j);
    var fs := Fires(b, round.now, rfds, i);
    var p := Earlier(b.times, round.now) + |Signalled(s, rfds, j)|;
    assert Calls(fs)[p] == (fs[p].ev, fs[p].fd);
  }

  lemma FollowsCount(b: Snapshot, round: Round, i: nat, a: Snapshot)
    requires Follows(b, round, i, a) && i < |b.slots|
    ensures |Signalled(b.slots, round.rfds, i)| == round.n
  {
  }

  /** Every deadline that a callback asked for is among those after its round. */
  lemma WhatWasAskedForIsArmed(b: Snapshot, round: Round, i: nat, a: Snapshot, m: nat, j: nat)
    requires Follows(b, round, i, a) && m < |Fires(b, round.now, round.rfds, i)|
    requires j < |round.callbacks(m).reaction.newTimers|
    ensures var t := round.callbacks(m).reaction.newTimers[j]; TimerAdd(t.1, t.0) in a.times
  {
    hide TimersFollow, AfterReactions, Reactions, Table, Fires;
    var k, s, fs := Earlier(b.times, round.now), Swept(b.slots, round.rfds, i), Fires(b, round.now, round.rfds, i);
    var rs := Reactions(s, fs, round.callbacks, |fs|);
    ReactionsArm(b.times[k..], rs);
    ReactionIs(s, fs, round.callbacks, |fs|, m);
    WantedByOne(rs, m, j);
    var t := round.callbacks(m).reaction.newTimers[j];
    assert TimerAdd(t.1, t.0) in multiset(a.times);
  }

  // ---------- Persistent events ----------

  /** No callback of the run stops watching slot `j`. */
  ghost predicate NobodyStops(rounds: seq<Round>, j: nat) {
    forall k, n: nat :: 0 <= k < |rounds| ==> StopWatching(j) !in rounds[k].callbacks(n).watches
  }

  lemma {:induction false} FilledKeeps(s: seq<Slot>, x: Slot, j: nat)
    requires j < |s| && s[j].Taken?
    ensures j < |Filled(s, x)| && Filled(s, x)[j] == s[j]
  {
    if j == 0 || s[0].Free? {
    } else {
      FilledKeeps(s[1..], x, j - 1);
    }
  }

  lemma {:induction false} WatchesKeep(s: seq<Slot>, ops: seq<WatchOp>, f: Fired, j: nat)
    requires j < |s| && s[j].Taken? && StopWatching(j) !in ops
    ensures j < |AfterWatches(s, ops, f)| && AfterWatches(s, ops, f)[j] == s[j]
  {
    if ops == [] {
    } else {
      var n := |ops| - 1;
      WatchesKeep(s, ops[..n], f, j);
      var t := AfterWatches(s, ops[..n], f);
      assert ops[n] != StopWatching(j);
      match ops[n]
      case WatchNew(fd, persist) => FilledKeeps(t, Taken(fd, persist, None), j);
      case WatchAgain => FilledKeeps(t, Taken(f.fd, f.persist, Some(f.ev)), j);
      case StopWatching(_) =>
    }
  }

  lemma {:induction false} CallbacksKeep(s: seq<Slot>, fs: seq<Fired>, callbacks: nat -> Callback, n: nat, j: nat)
    requires n <= |fs| && j < |s| && s[j].Taken?
    requires forall m: nat :: StopWatching(j) !in callbacks(m).watches
    ensures j < |Table(s, fs, callbacks, n)| && Table(s, fs, callbacks, n)[j] == s[j]
  {
    if n == 0 {
    } else {
      CallbacksKeep(s, fs, callbacks, n - 1, j);
      WatchesKeep(Table(s, fs, callbacks, n - 1), callbacks(n - 1).watches, fs[n - 1], j);
    }
  }

  /** A persistent event stays where it is for as long as nobody stops watching its slot, however often it fires. */
  lemma {:induction false} PersistentStays(trace: seq<Snapshot>, rounds: seq<Round>, visits: seq<nat>, k: nat, j: nat)
    requires IsRun(trace, rounds, visits) && k <= |rounds| && NobodyStops(rounds, j)
    requires j < |trace[0].slots| && trace[0].slots[j].Taken? && trace[0].slots[j].persist
    requires trace[0].slots[j].who.Some?
    ensures j < |trace[k].slots| && trace[k].slots[j] == trace[0].slots[j]
  {
    hide Follows;
    if k == 0 {
    } else {
      PersistentStays(trace, rounds, visits, k - 1, j);
      RoundSlots(trace[k - 1], rounds[k - 1], visits[k - 1], trace[k], j);
    }
  }

  lemma RoundSlots(b: Snapshot, round: Round, i: nat, a: Snapshot, j: nat)
    requires Follows(b, round, i, a) && forall m: nat :: StopWatching(j) !in round.callbacks(m).watches
    requires j < |b.slots| && b.slots[j].Taken? && b.slots[j].who.Some?
    requires b.slots[j].persist || b.slots[j].fd !in round.rfds
    ensures j < |a.slots| && a.slots[j] == b.slots[j]
  {
    hide AfterReactions, Reactions, TimersFollow;
    var s, fs := Swept(b.slots, round.rfds, i), Fires(b, round.now, round.rfds, i);
    CallbacksKeep(s, fs, round.callbacks, |fs|, j);
    assert Erased(a.slots, b.known)[j] == b.slots[j];
  }

  /** An event that is not persistent stays as well, as long as select does not report it. */
  lemma {:induction false} QuietStays(trace: seq<Snapshot>, rounds: seq<Round>, visits: seq<nat>, k: nat, j: nat)
    requires IsRun(trace, rounds, visits) && k <= |rounds| && NobodyStops(rounds, j)
    requires j < |trace[0].slots| && trace[0].slots[j].Taken? && trace[0].slots[j].who.Some?
    requires forall m :: 0 <= m < k ==> trace[0].slots[j].fd !in rounds[m].rfds
    ensures j < |trace[k].slots| && trace[k].slots[j] == trace[0].slots[j]
  {
    hide Follows;
    if k == 0 {
    } else {
      QuietStays(trace, rounds, visits, k - 1, j);
      RoundSlots(trace[k - 1], rounds[k - 1], visits[k - 1], trace[k], j);
    }
  }

  // ---------- One-shot events ----------

  lemma {:induction false} StopsKeepFree(s: seq<Slot>, ops: seq<WatchOp>, f: Fired, j: nat)
    requires j < |s| && s[j].Free? && forall op :: op in ops ==> op.StopWatching?
    ensures j < |AfterWatches(s, ops, f)| && AfterWatches(s, ops, f)[j].Free?
  {
    if ops == [] {
    } else {
      var n := |ops| - 1;
      StopsKeepFree(s, ops[..n], f, j);
      assert ops[n].StopWatching?;
    }
  }

  lemma {:induction false} StopsKeepTableFree(s: seq<Slot>, fs: seq<Fired>, callbacks: nat -> Callback, n: nat, j: nat)
    requires n <= |fs| && j < |s| && s[j].Free?
    requires forall m: nat :: m < n ==> forall op :: op in callbacks(m).watches ==> op.StopWatching?
    ensures j < |Table(s, fs, callbacks, n)| && Table(s, fs, callbacks, n)[j].Free?
  {
    if n > 0 {
      StopsKeepTableFree(s, fs, callbacks, n - 1, j);
      StopsKeepFree(Table(s, fs, callbacks, n - 1), callbacks(n - 1).watches, fs[n - 1], j);
    }
  }

  /** A one-shot event that is taken leaves its slot, which is free after the round unless a callback watches
      something. */
  lemma OneShotLeaves(b: Snapshot, round: Round, i: nat, a: Snapshot, j: nat)
    requires Follows(b, round, i, a) && j < i
    requires b.slots[j].Taken? && !b.slots[j].persist && b.slots[j].fd in round.rfds
    requires forall m: nat :: forall op :: op in round.callbacks(m).watches ==> op.StopWatching?
    ensures j < |a.slots| && a.slots[j].Free?
  {
    hide AfterReactions, Reactions, TimersFollow;
    var s, fs := Swept(b.slots, round.rfds, i), Fires(b, round.now, round.rfds, i);
    StopsKeepTableFree(s, fs, round.callbacks, |fs|, j);
    assert Erased(a.slots, b.known)[j].Free?;
  }
}
