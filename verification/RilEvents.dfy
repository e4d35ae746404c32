// The event loop of libril/ril_event.cpp: a sorted timer list, a list of pending events, and a table of
// watched descriptors.

module RilEvents {
  import opened Options
  import opened RilLists

  // ---------- Time ----------

  const MICROS: int := 1_000_000

  /** timercmp(a, b, <). */
  predicate Less(a: Timeval, b: Timeval) {
    if a.sec == b.sec then a.usec < b.usec else a.sec < b.sec
  }

  /** timeradd: carries at most one second. */
  function TimerAdd(a: Timeval, b: Timeval): Timeval {
    if a.usec + b.usec >= MICROS then Timeval(a.sec + b.sec + 1, a.usec + b.usec - MICROS)
    else Timeval(a.sec + b.sec, a.usec + b.usec)
  }

  /** timersub: borrows at most one second. */
  function TimerSub(a: Timeval, b: Timeval): Timeval {
    if a.usec - b.usec < 0 then Timeval(a.sec - b.sec - 1, a.usec - b.usec + MICROS)
    else Timeval(a.sec - b.sec, a.usec - b.usec)
  }

  predicate Normal(t: Timeval) { 0 <= t.usec < MICROS }

  function Micros(t: Timeval): int { t.sec * MICROS + t.usec }

  /** Sums and differences are exact; a deadline is normalised iff one carry is enough, which holds for
      every normalised interval. */
  lemma TimeArithmetic(now: Timeval, tv: Timeval)
    requires Normal(now)
    ensures Micros(TimerAdd(now, tv)) == Micros(now) + Micros(tv)
    ensures Micros(TimerSub(tv, now)) == Micros(tv) - Micros(now)
    ensures Normal(TimerAdd(now, tv)) <==> 0 <= now.usec + tv.usec < 2 * MICROS
    ensures Normal(tv) ==> Normal(TimerAdd(now, tv)) && Normal(TimerSub(tv, now))
  {
  }

  /** On normalised times the comparison is that of the instants. */
  lemma LessIsEarlier(a: Timeval, b: Timeval)
    requires Normal(a) && Normal(b)
    ensures Less(a, b) <==> Micros(a) < Micros(b)
  {
  }

  lemma NotLessTransitive(a: Timeval, b: Timeval, c: Timeval)
    requires !Less(b, a) && !Less(c, b)
    ensures !Less(c, a)
  {
  }

  ghost predicate Ascending(s: seq<RilEvent>)
    reads (set e | e in s)`timeout
  {
    forall i, j :: 0 <= i < j < |s| ==> !Less(s[j].timeout, s[i].timeout)
  }

  /** How many leading timers are due strictly before `t`. */
  ghost function Due(s: seq<RilEvent>, t: Timeval): (k: nat)
    reads (set e | e in s)`timeout
    ensures k <= |s|
    ensures forall i :: 0 <= i < k ==> Less(s[i].timeout, t)
    ensures k < |s| ==> !Less(s[k].timeout, t)
  {
    if s == [] || !Less(s[0].timeout, t) then 0 else 1 + Due(s[1..], t)
  }

  lemma {:induction false} DueIs(s: seq<RilEvent>, t: Timeval, k: nat)
    requires k <= |s| && forall i :: 0 <= i < k ==> Less(s[i].timeout, t)
    requires k < |s| ==> !Less(s[k].timeout, t)
    ensures Due(s, t) == k
  {
    if k == 0 {
    } else {
      DueIs(s[1..], t, k - 1);
    }
  }

  /** In an ascending list the timers that are due form exactly the leading part. */
  lemma DueSplits(s: seq<RilEvent>, t: Timeval)
    requires Ascending(s)
    ensures forall i :: 0 <= i < |s| ==> (i < Due(s, t) <==> Less(s[i].timeout, t))
  {
    var k := Due(s, t);
    forall i | k <= i < |s| ensures !Less(s[i].timeout, t) {
      if k < i { NotLessTransitive(t, s[k].timeout, s[i].timeout); }
    }
  }

  lemma AscendingInsert(s: seq<RilEvent>, ev: RilEvent)
    requires Ascending(s)
    ensures var k := Due(s, ev.timeout); Ascending(s[..k] + [ev] + s[k..])
  {
    DueSplits(s, ev.timeout);
    var k := Due(s, ev.timeout);
    var t := s[..k] + [ev] + s[k..];
    forall i, j | 0 <= i < j < |t| ensures !Less(t[j].timeout, t[i].timeout) {
      var i', j' := if i < k then i else i - 1, if j < k then j else j - 1;
      if i != k && j != k { assert t[i] == s[i'] && t[j] == s[j']; }
      else if i == k { assert t[j] == s[j']; }
      else { assert t[i] == s[i] && Less(s[i].timeout, ev.timeout); }
    }
  }

  // ---------- Deadlines ----------

  ghost function Times(s: seq<RilEvent>): (ts: seq<Timeval>)
    reads (set e | e in s)`timeout
    ensures |ts| == |s| && forall i :: 0 <= i < |s| ==> ts[i] == s[i].timeout
  {
    if s == [] then [] else Times(s[..|s| - 1]) + [s[|s| - 1].timeout]
  }

  /** How many leading deadlines are strictly before `t`. */
  function Earlier(ts: seq<Timeval>, t: Timeval): (k: nat)
    ensures k <= |ts|
  {
    if ts == [] || !Less(ts[0], t) then 0 else 1 + Earlier(ts[1..], t)
  }

  lemma {:induction false} EarlierIs(ts: seq<Timeval>, t: Timeval, k: nat)
    requires k <= |ts| && forall i :: 0 <= i < k ==> Less(ts[i], t)
    requires k < |ts| ==> !Less(ts[k], t)
    ensures Earlier(ts, t) == k
  {
    if k == 0 {
    } else {
      EarlierIs(ts[1..], t, k - 1);
    }
  }

  /** The deadlines after one more timer was armed: it goes before those that are not earlier. */
  function Armed(ts: seq<Timeval>, t: Timeval): seq<Timeval> {
    var k := Earlier(ts, t);
    ts[..k] + [t] + ts[k..]
  }

  lemma TimesInsert(s: seq<RilEvent>, ev: RilEvent)
    ensures var k := Due(s, ev.timeout); Times(s[..k] + [ev] + s[k..]) == Armed(Times(s), ev.timeout)
  {
    var k := Due(s, ev.timeout);
    EarlierIs(Times(s), ev.timeout, k);
    var t := s[..k] + [ev] + s[k..];
    assert |Times(t)| == |Armed(Times(s), ev.timeout)|;
    assert forall i :: 0 <= i < |t| ==> Times(t)[i] == Armed(Times(s), ev.timeout)[i];
  }

  // ---------- Callbacks ----------

  /** What becomes of a fired event: nothing, armed as a timer again, or freed and overwritten with junk. */
  datatype Fate = Kept | Rearmed(tv: Timeval, now: Timeval) | Freed(junk: RilEvent?, number: int)

  /** What a callback does to the timers: it arms new ones (interval and current time each), and settles its
      event. */
  datatype Reaction = Reaction(newTimers: seq<(Timeval, Timeval)>, fate: Fate)

  function ArmedAll(ts: seq<Timeval>, newTimers: seq<(Timeval, Timeval)>): seq<Timeval> {
    if newTimers == [] then ts
    else
      var t := newTimers[|newTimers| - 1];
      Armed(ArmedAll(ts, newTimers[..|newTimers| - 1]), TimerAdd(t.1, t.0))
  }

  function AfterReaction(ts: seq<Timeval>, r: Reaction): seq<Timeval> {
    var q := ArmedAll(ts, r.newTimers);
    if r.fate.Rearmed? then Armed(q, TimerAdd(r.fate.now, r.fate.tv)) else q
  }

  /** The deadlines after several callbacks. */
  function AfterReactions(ts: seq<Timeval>, rs: seq<Reaction>): seq<Timeval> {
    if rs == [] then ts else AfterReaction(AfterReactions(ts, rs[..|rs| - 1]), rs[|rs| - 1])
  }

  lemma OneMoreReaction(ts: seq<Timeval>, rs: seq<Reaction>, r: Reaction)
    ensures AfterReactions(ts, rs + [r]) == AfterReaction(AfterReactions(ts, rs), r)
  {
    assert (rs + [r])[..|rs|] == rs;
  }

  lemma OneMoreArmed(ts: seq<Timeval>, newTimers: seq<(Timeval, Timeval)>, i: nat)
    requires i < |newTimers|
    ensures ArmedAll(ts, newTimers[..i + 1]) ==
      Armed(ArmedAll(ts, newTimers[..i]), TimerAdd(newTimers[i].1, newTimers[i].0))
  {
    assert newTimers[..i + 1][..i] == newTimers[..i];
  }

  predicate Ascend(ts: seq<Timeval>) { forall i, j :: 0 <= i < j < |ts| ==> !Less(ts[j], ts[i]) }

  /** In ascending deadlines those before `t` are the leading ones. */
  lemma {:induction false} EarlierSplits(ts: seq<Timeval>, t: Timeval, i: nat)
    requires Ascend(ts) && i < |ts|
    ensures i < Earlier(ts, t) <==> Less(ts[i], t)
  {
    if Less(ts[0], t) {
      if i > 0 { EarlierSplits(ts[1..], t, i - 1); }
    } else if i > 0 {
      NotLessTransitive(t, ts[0], ts[i]);
    }
  }

  lemma ArmedAddsOne(ts: seq<Timeval>, t: Timeval)
    ensures multiset(Armed(ts, t)) == multiset(ts) + multiset{t}
  {
    var k := Earlier(ts, t);
    assert ts == ts[..k] + ts[k..];
  }

  lemma ArmedAscends(ts: seq<Timeval>, t: Timeval)
    requires Ascend(ts)
    ensures Ascend(Armed(ts, t))
  {
    hide Earlier, Less;
    var k, q := Earlier(ts, t), Armed(ts, t);
    forall i | 0 <= i < |ts| ensures i < k <==> Less(ts[i], t) { EarlierSplits(ts, t, i); }
    forall i | 0 <= i < k ensures !Less(t, ts[i]) { NotBoth(ts[i], t); }
    assert q[k] == t;
    forall i, j | 0 <= i < j < |q| ensures !Less(q[j], q[i]) {
      if i == k {
        assert q[j] == ts[j - 1];
      } else if j == k {
        assert q[i] == ts[i];
      } else {
        assert q[i] == ts[if i < k then i else i - 1] && q[j] == ts[if j < k then j else j - 1];
      }
    }
  }

  lemma NotBoth(a: Timeval, b: Timeval)
    requires Less(a, b)
    ensures !Less(b, a)
  {
  }

  /** Current time plus interval. */
  function Deadlines(new_: seq<(Timeval, Timeval)>): (ts: seq<Timeval>)
    ensures |ts| == |new_| && forall i :: 0 <= i < |new_| ==> ts[i] == TimerAdd(new_[i].1, new_[i].0)
  {
    seq(|new_|, i requires 0 <= i < |new_| => TimerAdd(new_[i].1, new_[i].0))
  }

  /** The deadlines that a reaction asks for, for new timers and for its own event. */
  function Wanted(r: Reaction): seq<Timeval> {
    Deadlines(r.newTimers) + if r.fate.Rearmed? then [TimerAdd(r.fate.now, r.fate.tv)] else []
  }

  function AllWanted(rs: seq<Reaction>): seq<Timeval> {
    if rs == [] then [] else AllWanted(rs[..|rs| - 1]) + Wanted(rs[|rs| - 1])
  }

  lemma {:induction false} AllAreArmed(ts: seq<Timeval>, new_: seq<(Timeval, Timeval)>)
    ensures multiset(ArmedAll(ts, new_)) == multiset(ts) + multiset(Deadlines(new_))
    ensures Ascend(ts) ==> Ascend(ArmedAll(ts, new_))
  {
    hide Armed, Ascend;
    if new_ == [] {
    } else {
      var n, q := |new_| - 1, ArmedAll(ts, new_[..|new_| - 1]);
      var d := Deadlines(new_);
      AllAreArmed(ts, new_[..n]);
      ArmedAddsOne(q, d[n]);
      if Ascend(q) {
        ArmedAscends(q, d[n]);
      }
      assert d == Deadlines(new_[..n]) + [d[n]];
    }
  }

  lemma ReactionArms(ts: seq<Timeval>, r: Reaction)
    ensures multiset(AfterReaction(ts, r)) == multiset(ts) + multiset(Wanted(r))
    ensures Ascend(ts) ==> Ascend(AfterReaction(ts, r))
  {
    hide ArmedAll, Armed, Ascend;
    AllAreArmed(ts, r.newTimers);
    var q := ArmedAll(ts, r.newTimers);
    var d := Deadlines(r.newTimers);
    if r.fate.Rearmed? {
      var t := TimerAdd(r.fate.now, r.fate.tv);
      ArmedAddsOne(q, t);
      if Ascend(q) {
        ArmedAscends(q, t);
      }
      assert Wanted(r) == d + [t] && multiset(d + [t]) == multiset(d) + multiset{t};
    } else {
      assert Wanted(r) == d;
    }
  }

  /** After several callbacks exactly the deadlines that they asked for have joined, in order. */
  lemma {:induction false} ReactionsArm(ts: seq<Timeval>, rs: seq<Reaction>)
    ensures multiset(AfterReactions(ts, rs)) == multiset(ts) + multiset(AllWanted(rs))
    ensures Ascend(ts) ==> Ascend(AfterReactions(ts, rs))
  {
    hide AfterReaction, Ascend, Wanted;
    if rs == [] {
    } else {
      var n := |rs| - 1;
      ReactionsArm(ts, rs[..n]);
      ReactionArms(AfterReactions(ts, rs[..n]), rs[n]);
      assert multiset(AllWanted(rs)) == multiset(AllWanted(rs[..n])) + multiset(Wanted(rs[n]));
    }
  }

  lemma {:induction false} WantedByOne(rs: seq<Reaction>, m: nat, j: nat)
    requires m < |rs| && j < |rs[m].newTimers|
    ensures TimerAdd(rs[m].newTimers[j].1, rs[m].newTimers[j].0) in AllWanted(rs)
  {
    hide TimerAdd;
    if m == |rs| - 1 {
      assert Wanted(rs[m])[j] in Wanted(rs[m]);
    } else {
      WantedByOne(rs[..|rs| - 1], m, j);
    }
  }

  // ---------- The loop's state ----------

  const MAX_FD_EVENTS: nat := 8

  class EventLoop {
    const timerList: RilEvent
    const pendingList: RilEvent
    ghost var timers: seq<RilEvent>
    ghost var pending: seq<RilEvent>
    var calls: seq<(RilEvent, int)>  // every callback that was called, with the descriptor passed to it

    /** Two separate rings. */
    ghost predicate Lists()
      reads this`timers, this`pending
      reads TimerRing()`next, TimerRing()`prev, PendingRing()`next, PendingRing()`prev
    {
      && Linked(timerList, timers) && Linked(pendingList, pending)
      && timerList != pendingList && timerList !in pending && pendingList !in timers
      && (forall e :: e in timers ==> e !in pending)
    }

    ghost predicate Valid()
      reads this`timers, this`pending
      reads TimerRing()`next, TimerRing()`prev, PendingRing()`next, PendingRing()`prev, TimerRing()`timeout
    {
      && Lists()
      && timerList.timeout == Timeval(0, 0)
      && Ascending(timers)
    }

    ghost function TimerRing(): set<RilEvent>
      reads this`timers
    {
      set e | e in [timerList] + timers
    }

    ghost function PendingRing(): set<RilEvent>
      reads this`pending
    {
      set e | e in [pendingList] + pending
    }

    /** ril_event_init. */
    constructor ()
      ensures Valid() && timers == [] && pending == [] && calls == []
    {
      timerList := new RilEvent.Sentinel();
      pendingList := new RilEvent.Sentinel();
      timers, pending, calls := [], [], [];
    }

    ghost predicate Unlinked(ev: RilEvent)
      reads this`timers, this`pending
    {
      ev != timerList && ev != pendingList && ev !in timers && ev !in pending
    }

    /** ril_timer_add: the new timer goes before the first one that is not earlier. */
    method AddTimer(ev: RilEvent, tv: Option<Timeval>, now: Timeval)
      requires Valid() && Unlinked(ev)
      modifies this`timers, ev, TimerRing()`next, TimerRing()`prev
      ensures Valid() && ev.index == old(ev.index)
      ensures tv.None? ==> timers == old(timers) && unchanged(ev)
      ensures forall e :: e in old(timers) ==> e in timers
      ensures forall e :: e in timers ==> e in old(timers) || e == ev
      ensures tv.Some? ==>
        && ev.fd == -1 && ev.timeout == TimerAdd(now, tv.value)
        && var k := old(Due(timers, TimerAdd(now, tv.value)));
           timers == old(timers)[..k] + [ev] + old(timers)[k..]
      ensures tv.Some? ==> Times(timers) == Armed(old(Times(timers)), TimerAdd(now, tv.value))
    {
      hide Lists, Armed, TimerAdd, Times;
      if tv.Some? {
        ev.fd := -1;
        ev.timeout := TimerAdd(now, tv.value);
        assert Due(timers, ev.timeout) == old(Due(timers, TimerAdd(now, tv.value)));
        assert Times(timers) == old(Times(timers));
        TimesInsert(timers, ev);
        InsertSorted(ev);
      }
    }

    /** The walk along the timer list. The sentinel's own time is compared too, but never decides. */
    method FirstNotBefore(t: Timeval) returns (list: RilEvent)
      requires Valid()
      ensures list == At(timerList, timers, Due(timers, t))
    {
      list := timerList.next;
      ghost var k := 0;
      while Less(list.timeout, t) && list != timerList
        invariant k <= |timers| && list == At(timerList, timers, k)
        invariant forall i :: 0 <= i < k ==> Less(timers[i].timeout, t)
        decreases |timers| - k
      {
        assert timers[k].next == At(timerList, timers, k + 1);
        list := list.next;
        k := k + 1;
      }
      DueIs(timers, t, k);
    }

    method InsertSorted(ev: RilEvent)
      requires Valid() && Unlinked(ev)
      modifies this`timers, ev`next, ev`prev, TimerRing()`next, TimerRing()`prev
      ensures Valid()
      ensures forall e :: e in timers <==> e in old(timers) || e == ev
      ensures var k := old(Due(timers, ev.timeout)); timers == old(timers)[..k] + [ev] + old(timers)[k..]
    {
      var list := FirstNotBefore(ev.timeout);
      AscendingInsert(timers, ev);
      LinkTimer(ev, list, Due(timers, ev.timeout));
    }

    method LinkTimer(ev: RilEvent, list: RilEvent, ghost k: nat)
      requires Valid() && Unlinked(ev) && k <= |timers| && list == At(timerList, timers, k)
      requires Ascending(timers[..k] + [ev] + timers[k..])
      modifies this`timers, ev`next, ev`prev, TimerRing()`next, TimerRing()`prev
      ensures Valid() && timers == old(timers)[..k] + [ev] + old(timers)[k..]
      ensures forall e :: e in timers <==> e in old(timers) || e == ev
    {
      hide Linked, Ascending;
      ghost var t := timers[..k] + [ev] + timers[k..];
      InsertMembers(timers, k, ev);
      AddToList(ev, list, timerList, timers, k);
      timers := t;
    }

    /** One expired timer: off the timer list, to the end of the pending list. */
    method Expire(tev: RilEvent)
      requires Valid() && timers != [] && tev == timers[0]
      modifies this`timers, this`pending
      modifies TimerRing()`next, TimerRing()`prev, PendingRing()`next, PendingRing()`prev
      ensures Valid() && timers == old(timers)[1..] && pending == old(pending) + [tev]
    {
      UnlinkTimer(tev);
      AppendPending(tev);
    }

    /** Expires timer `k` of those in `all`, when `was` were pending at first; `next` is the one behind it. */
    method ExpireNext(tev: RilEvent, ghost all: seq<RilEvent>, ghost was: seq<RilEvent>, ghost k: nat)
      returns (next: RilEvent)
      requires Valid() && k < |all| && timers == all[k..] && pending == was + all[..k] && tev == all[k]
      modifies this`timers, this`pending
      modifies TimerRing()`next, TimerRing()`prev, PendingRing()`next, PendingRing()`prev
      ensures Valid() && timers == all[k + 1..] && pending == was + all[..k + 1]
      ensures next == At(timerList, all, k + 1)
    {
      TakeOne(all, was, k);
      assert timers[0].next == At(timerList, timers, 1);
      next := tev.next;
      Expire(tev);
    }

    method UnlinkTimer(tev: RilEvent)
      requires Valid() && timers != [] && tev == timers[0]
      modifies this`timers, TimerRing()`next, TimerRing()`prev
      ensures Valid() && timers == old(timers)[1..] && Unlinked(tev)
    {
      hide Links;
      AscendingTail(timers);
      RemoveFirst(tev, timerList, timers);
      timers := timers[1..];
    }

    method AppendPending(ev: RilEvent)
      requires Valid() && Unlinked(ev)
      modifies this`pending, ev`next, ev`prev, PendingRing()`next, PendingRing()`prev
      ensures Valid() && pending == old(pending) + [ev] && PendingRing() == old(PendingRing()) + {ev}
    {
      hide Linked;
      InsertAtEnd(pending, ev);
      AddToList(ev, pendingList, pendingList, pending, |pending|);
      pending := pending + [ev];
    }

    /** processTimeouts: exactly the timers due strictly before `now` become pending, in their order. */
    method ProcessTimeouts(now: Timeval)
      requires Valid()
      modifies this`timers, this`pending
      modifies TimerRing()`next, TimerRing()`prev, PendingRing()`next, PendingRing()`prev
      ensures Valid()
      ensures var k := old(Due(timers, now));
        timers == old(timers)[k..] && pending == old(pending) + old(timers)[..k]
      ensures forall e :: e in old(timers) ==> (e in timers <==> !Less(e.timeout, now))
    {
      DueMembers(timers, now);
      ghost var due := Due(timers, now);
      MoveDue(now, due);
    }

    /** The loop of processTimeouts, which stops at the first timer that is not due. */
    method MoveDue(now: Timeval, ghost due: nat)
      requires Valid() && due <= |timers|
      requires forall i :: 0 <= i < due ==> Less(timers[i].timeout, now)
      requires due < |timers| ==> !Less(timers[due].timeout, now)
      modifies this`timers, this`pending
      modifies TimerRing()`next, TimerRing()`prev, PendingRing()`next, PendingRing()`prev
      ensures Valid() && timers == old(timers)[due..] && pending == old(pending) + old(timers)[..due]
    {
      hide Ascending;
      ghost var all, was, k := timers, pending, 0;
      var tev := timerList.next;
      while tev != timerList && Less(tev.timeout, now)
        invariant Valid() && k <= due
        invariant timers == all[k..] && pending == was + all[..k]
        invariant tev == At(timerList, all, k)
        decreases |all| - k
      {
        tev := ExpireNext(tev, all, was, k);
        k := k + 1;
      }
    }

    /** calcNextTimeout: how long select may block. */
    method CalcNextTimeout(now: Timeval) returns (tv: Option<Timeval>)
      requires Valid() && Normal(now)
      ensures tv.None? <==> timers == []
      ensures tv.Some? && (forall e :: e in timers ==> Normal(e.timeout)) ==>
        && Normal(tv.value)
        && (forall e :: e in timers ==> Micros(now) + Micros(tv.value) <= Micros(e.timeout) || tv.value == Timeval(0, 0))
        && (exists e :: e in timers && Micros(e.timeout) <= Micros(now) + Micros(tv.value))
    {
      var tev := timerList.next;
      if tev == timerList { return None; }
      assert tev == timers[0];
      if forall e :: e in timers ==> Normal(e.timeout) {
        forall e | e in timers ensures Micros(tev.timeout) <= Micros(e.timeout) {
          var i :| 0 <= i < |timers| && timers[i] == e;
          if i > 0 { LessIsEarlier(e.timeout, tev.timeout); }
        }
        LessIsEarlier(now, tev.timeout);
        TimeArithmetic(now, tev.timeout);
      }
      return Some(if Less(now, tev.timeout) then TimerSub(tev.timeout, now) else Timeval(0, 0));
    }

    /** Only timers that were there, `ev`, and newly allocated ones; none of the old ones is lost. */
    twostate predicate TimersGrew(ev: RilEvent)
      reads this`timers, (set e | e in timers)`index
    {
      && (forall e :: e in old(timers) ==> e in timers)
      && (forall e :: e in timers ==> e in old(timers) || e == ev || (fresh(e) && e.index == -1))
    }

    method UnlinkPending(ev: RilEvent)
      requires Valid() && pending != [] && ev == pending[0]
      modifies this`pending, PendingRing()`next, PendingRing()`prev
      ensures Valid() && pending == old(pending)[1..] && Unlinked(ev)
    {
      hide Links;
      RemoveFirst(ev, pendingList, pending);
      pending := pending[1..];
    }

    method ArmAll(newTimers: seq<(Timeval, Timeval)>, ghost ev: RilEvent)
      requires Valid() && Unlinked(ev)
      modifies this`timers, TimerRing()`next, TimerRing()`prev
      ensures Valid() && Unlinked(ev) && TimersGrew(ev)
      ensures Times(timers) == ArmedAll(old(Times(timers)), newTimers)
    {
      for i := 0 to |newTimers|
        invariant Valid() && Unlinked(ev) && TimersGrew(ev)
        invariant Times(timers) == ArmedAll(old(Times(timers)), newTimers[..i])
      {
        OneMoreArmed(old(Times(timers)), newTimers, i);
        ArmNew(newTimers[i].0, newTimers[i].1, ev);
      }
      assert newTimers[..|newTimers|] == newTimers;
    }

    method ArmNew(tv: Timeval, now: Timeval, ghost ev: RilEvent)
      requires Valid() && Unlinked(ev)
      modifies this`timers, TimerRing()`next, TimerRing()`prev
      ensures Valid() && Unlinked(ev) && TimersGrew(ev)
      ensures Times(timers) == Armed(old(Times(timers)), TimerAdd(now, tv))
    {
      var t := new RilEvent(-1, false);
      AddTimer(t, Some(tv), now);
    }

    /** The callback of an event that was unlinked before, so it may do with it what it likes. */
    method Callback(ev: RilEvent, r: Reaction)
      requires Valid() && Unlinked(ev)
      modifies this`timers, this`calls, ev, TimerRing()`next, TimerRing()`prev
      ensures Valid() && TimersGrew(ev) && Times(timers) == AfterReaction(old(Times(timers)), r)
      ensures calls == old(calls) + [(ev, old(ev.fd))]
      ensures if r.fate.Rearmed? then ev in timers && ev.timeout == TimerAdd(r.fate.now, r.fate.tv) && ev.fd == -1
              else ev !in timers
      ensures r.fate.Rearmed? ==> ev.index == old(ev.index)
      ensures r.fate.Kept? ==> unchanged(ev)
    {
      hide Lists, Ascending, Times, Armed, ArmedAll;
      calls := calls + [(ev, ev.fd)];
      ArmAll(r.newTimers, ev);
      Settle(ev, r.fate);
    }

    method Settle(ev: RilEvent, fate: Fate)
      requires Valid() && Unlinked(ev)
      modifies this`timers, ev, TimerRing()`next, TimerRing()`prev
      ensures Valid() && TimersGrew(ev)
      ensures if fate.Rearmed? then ev in timers && ev.timeout == TimerAdd(fate.now, fate.tv) && ev.fd == -1
              else timers == old(timers)
      ensures Times(timers) ==
        if fate.Rearmed? then Armed(old(Times(timers)), TimerAdd(fate.now, fate.tv)) else old(Times(timers))
      ensures fate.Rearmed? ==> ev.index == old(ev.index)
      ensures fate.Kept? ==> unchanged(ev)
    {
      match fate
      case Kept =>
      case Rearmed(tv, now) => AddTimer(ev, Some(tv), now);
      case Freed(junk, number) =>
        ev.next, ev.prev, ev.fd, ev.index := junk, junk, number, number;
        ev.timeout := Timeval(number, number);
    }
  }

  lemma TakeOne(all: seq<RilEvent>, was: seq<RilEvent>, k: nat)
    ensures k < |all| ==> all[k..][1..] == all[k + 1..] && was + all[..k] + [all[k]] == was + all[..k + 1]
  {
  }

  lemma DueMembers(s: seq<RilEvent>, t: Timeval)
    requires Ascending(s)
    ensures forall e :: e in s[Due(s, t)..] ==> !Less(e.timeout, t)
    ensures forall e :: e in s && !Less(e.timeout, t) ==> e in s[Due(s, t)..]
  {
    DueSplits(s, t);
    forall e | e in s && !Less(e.timeout, t) ensures e in s[Due(s, t)..] {
      var i :| 0 <= i < |s| && s[i] == e;
      assert s[Due(s, t)..][i - Due(s, t)] == e;
    }
  }

  lemma InsertAtEnd<T>(s: seq<T>, x: T)
    ensures s[..|s|] + [x] + s[|s|..] == s + [x]
  {
  }

  lemma InsertMembers(s: seq<RilEvent>, k: nat, ev: RilEvent)
    requires k <= |s|
    ensures forall e :: e in s[..k] + [ev] + s[k..] <==> e == ev || e in s
  {
    assert s == s[..k] + s[k..];
  }

  lemma AscendingTail(s: seq<RilEvent>)
    requires Ascending(s) && s != []
    ensures Ascending(s[1..])
  {
  }
}
