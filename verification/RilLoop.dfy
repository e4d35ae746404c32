// The event loop of libril/ril_event.cpp as a whole: rounds of timeouts, ready descriptors and callbacks, where
// callbacks may watch and stop watching descriptors, arm timers, and free, reuse or rearm their own event. Its
// methods take the rounds of RilRounds.

module RilLoop {
  import opened Options
  import opened RilLists
  import opened RilEvents
  import opened RilRounds
  import opened RilWatch

  // ---------- The objects as values ----------

  ghost function SlotOf(e: RilEvent?, known: set<RilEvent>): Slot
    reads (if e == null then {} else {e})`fd, (if e == null then {} else {e})`persist
  {
    if e == null then Free
    else
      var x: RilEvent := e;
      Taken(x.fd, x.persist, if x in known then Some(x) else None)
  }

  ghost function Slots(t: seq<RilEvent?>, known: set<RilEvent>): (s: seq<Slot>)
    reads (set e: RilEvent | e in t)`fd, (set e: RilEvent | e in t)`persist
    ensures |s| == |t| && forall i :: 0 <= i < |t| ==> s[i] == SlotOf(t[i], known)
  {
    if t == [] then [] else Slots(t[..|t| - 1], known) + [SlotOf(t[|t| - 1], known)]
  }

  ghost function Now(e: RilEvent): Fired
    reads e`fd, e`persist
  {
    Fired(e, e.fd, e.persist)
  }

  ghost function Told(s: seq<RilEvent>): (fs: seq<Fired>)
    reads (set e | e in s)`fd, (set e | e in s)`persist
    ensures |fs| == |s| && forall i :: 0 <= i < |s| ==> fs[i] == Now(s[i])
  {
    if s == [] then [] else Told(s[..|s| - 1]) + [Now(s[|s| - 1])]
  }

  /** An event was added to the table `t`, which is now `u`. */
  lemma AddedSlot(t: seq<RilEvent?>, u: seq<RilEvent?>, e: RilEvent, known: set<RilEvent>)
    requires if null in t then 0 <= e.index < |t| && t[e.index] == null && null !in t[..e.index] && u == t[e.index := e]
             else u == t
    ensures Slots(u, known) == Filled(Slots(t, known), SlotOf(e, known))
  {
    var i := if null in t then e.index else |t|;
    forall j | 0 <= j < i ensures Slots(t, known)[j].Taken? {
      assert i < |t| ==> t[j] == t[..i][j];
    }
    FilledIs(Slots(t, known), SlotOf(e, known), i);
  }

  /** An event that the loop knows has a slot of its own iff it has an index. */
  lemma OwnSlot(w: WatchTable, ev: RilEvent, known: set<RilEvent>)
    requires w.Valid() && (ev.index == -1 || ev in w.events) && ev in known
    ensures ev.index >= -1 && (ev.index == -1 <==> !Watching(Slots(w.table[..], known), ev))
    ensures ev.index == -1 ==> ev !in w.table[..]
  {
    var s := Slots(w.table[..], known);
    if ev.index != -1 {
      assert s[ev.index] == SlotOf(ev, known);
    }
    if ev in w.table[..] {
      var i :| 0 <= i < |s| && w.table[..][i] == ev;
      assert w.table[i] == ev;
    }
    if Watching(s, ev) {
      var i :| 0 <= i < |s| && s[i].Taken? && s[i].who == Some(ev);
      assert w.table[i] == w.table[..][i] == ev;
    }
  }

  // ---------- The state ----------

  /** The events that are linked or watched. */
  ghost function Nodes(loop: EventLoop, w: WatchTable): set<RilEvent>
    reads loop`timers, loop`pending, w`events
  {
    loop.TimerRing() + loop.PendingRing() + w.events
  }

  /** Lists and table are in order, no armed timer is watched, and a pending event is watched only if the table
      says so. */
  ghost predicate Sound(loop: EventLoop, w: WatchTable)
    reads loop`timers, loop`pending, Nodes(loop, w)`next, Nodes(loop, w)`prev, Nodes(loop, w)`timeout
    reads w, w.table, Nodes(loop, w)`index, w.events`fd, (set e: RilEvent | e in w.table[..])`fd
  {
    && loop.Valid() && w.Valid()
    && loop.timerList !in w.events && loop.pendingList !in w.events
    && (forall e :: e in loop.timers ==> e.index == -1)
    && (forall e :: e in loop.pending ==> e.index == -1 || e in w.events)
  }

  /** No event is forgotten, and only `ev` itself and new ones have joined. */
  twostate predicate WatchesChanged(w: WatchTable, ev: RilEvent)
    reads w`events
  {
    && (forall e :: e in w.events ==> e in old(w.events) || e == ev || fresh(e))
    && (forall e :: e in old(w.events) ==> e in w.events)
  }

  /** Whatever happens to the watch table, the lists stay as they are. */
  twostate lemma ListsKept(loop: EventLoop)
    requires old(loop.Valid()) && loop.timers == old(loop.timers) && loop.pending == old(loop.pending)
    requires forall e :: e in loop.TimerRing() + loop.PendingRing() ==>
      e.next == old(e.next) && e.prev == old(e.prev) && e.timeout == old(e.timeout)
    ensures loop.Valid()
  {
  }

  method AddNew(loop: EventLoop, w: WatchTable, fd: int, persist: bool, ev: RilEvent, ghost known: set<RilEvent>)
    requires Sound(loop, w) && loop.Unlinked(ev) && fd >= 0
    modifies w, w.table
    ensures Sound(loop, w) && WatchesChanged(w, ev) && unchanged(ev)
    ensures Slots(w.table[..], known) == Filled(old(Slots(w.table[..], known)), Taken(fd, persist, None))
  {
    hide EventLoop.Valid, WatchTable.Valid, WatchTable.Cached, WatchTable.Exact, Slots, Filled;
    ghost var t := w.table[..];
    var e := new RilEvent(fd, persist);
    w.Add(e);
    ListsKept(loop);
    AddedSlot(t, w.table[..], e, known);
  }

  method AddAgain(loop: EventLoop, w: WatchTable, ev: RilEvent, ghost known: set<RilEvent>)
    requires Sound(loop, w) && loop.Unlinked(ev) && ev.index == -1 && ev.fd >= 0 && ev in known
    modifies w, w.table, ev`index
    ensures Sound(loop, w) && WatchesChanged(w, ev) && ev in w.events
    ensures Slots(w.table[..], known) == Filled(old(Slots(w.table[..], known)), Taken(ev.fd, ev.persist, Some(ev)))
  {
    hide EventLoop.Valid, WatchTable.Valid, WatchTable.Cached, WatchTable.Exact, Slots, Filled;
    ghost var t := w.table[..];
    w.Add(ev);
    ListsKept(loop);
    AddedSlot(t, w.table[..], ev, known);
  }

  method DeleteAt(loop: EventLoop, w: WatchTable, slot: nat, ev: RilEvent, ghost known: set<RilEvent>)
    requires Sound(loop, w) && loop.Unlinked(ev) && slot < MAX_FD_EVENTS && w.table.Length == MAX_FD_EVENTS
    modifies w, w.table, w.events`index
    ensures Sound(loop, w) && WatchesChanged(w, ev) && w.events == old(w.events)
    ensures Slots(w.table[..], known) == old(Slots(w.table[..], known))[slot := Free]
  {
    hide EventLoop.Valid, WatchTable.Valid;
    InItsSlot(w, slot);
    var e := w.table[slot];
    if e != null {
      w.Delete(e);
      ListsKept(loop);
    }
  }

  lemma InItsSlot(w: WatchTable, slot: nat)
    requires w.Valid() && slot < MAX_FD_EVENTS
    ensures w.table[slot] != null ==> w.table[slot] in w.events && w.table[slot].index == slot
  {
  }

  /** One operation on the watch table by the callback of `ev`. */
  method DoWatch(loop: EventLoop, w: WatchTable, op: WatchOp, ev: RilEvent, ghost known: set<RilEvent>)
    requires Sound(loop, w) && loop.Unlinked(ev) && (ev.index == -1 || ev in w.events) && ev in known
    modifies w, w.table, w.events`index, ev`index
    ensures Sound(loop, w) && WatchesChanged(w, ev) && (ev.index == -1 || ev in w.events)
    ensures Slots(w.table[..], known) == AfterWatch(old(Slots(w.table[..], known)), op, Now(ev))
  {
    hide Sound, Slots, Filled, Watching;
    OfSize(loop, w);
    OwnSlot(w, ev, known);
    match op
    case WatchNew(fd, persist) =>
      if fd >= 0 { AddNew(loop, w, fd, persist, ev, known); }
    case WatchAgain =>
      if ev.index == -1 && ev.fd >= 0 { AddAgain(loop, w, ev, known); }
    case StopWatching(slot) =>
      if slot < MAX_FD_EVENTS { DeleteAt(loop, w, slot, ev, known); }
  }

  lemma OfSize(loop: EventLoop, w: WatchTable)
    requires Sound(loop, w)
    ensures w.Valid() && w.table.Length == MAX_FD_EVENTS
  {
  }

  method DoWatches(loop: EventLoop, w: WatchTable, ops: seq<WatchOp>, ev: RilEvent, ghost known: set<RilEvent>)
    requires Sound(loop, w) && loop.Unlinked(ev) && (ev.index == -1 || ev in w.events) && ev in known
    modifies w, w.table, w.events`index, ev`index
    ensures Sound(loop, w) && WatchesChanged(w, ev) && (ev.index == -1 || ev in w.events)
    ensures Slots(w.table[..], known) == AfterWatches(old(Slots(w.table[..], known)), ops, Now(ev))
  {
    hide Sound, EventLoop.Unlinked, Slots, AfterWatch;
    for i := 0 to |ops|
      invariant Sound(loop, w) && loop.Unlinked(ev) && WatchesChanged(w, ev)
      invariant ev.index == -1 || ev in w.events
      invariant Slots(w.table[..], known) == AfterWatches(old(Slots(w.table[..], known)), ops[..i], Now(ev))
    {
      OneMoreWatch(old(Slots(w.table[..], known)), ops, i, Now(ev));
      DoWatch(loop, w, ops[i], ev, known);
    }
    assert ops[..|ops|] == ops;
  }

  method Unlink(loop: EventLoop, w: WatchTable, ev: RilEvent)
    requires Sound(loop, w) && loop.pending != [] && ev == loop.pending[0]
    modifies loop`pending, loop.PendingRing()`next, loop.PendingRing()`prev
    ensures Sound(loop, w) && loop.Unlinked(ev) && loop.pending == old(loop.pending)[1..]
    ensures ev.index == -1 || ev in w.events
  {
    hide EventLoop.Valid, WatchTable.Valid;
    loop.UnlinkPending(ev);
    TableKept(w);
  }

  /** Whatever happens to the lists, the watch table stays as it is. */
  twostate lemma TableKept(w: WatchTable)
    requires old(w.Valid()) && unchanged(w) && unchanged(w.table)
    requires forall e :: e in w.events ==> e.index == old(e.index) && (e.index >= 0 ==> e.fd == old(e.fd))
    ensures w.Valid() && (old(w.Exact()) ==> w.Exact())
  {
    assert w.table[..] == old(w.table[..]);
  }

  /** The callback of an unlinked event, as far as timers and the event itself are concerned. */
  method React(loop: EventLoop, w: WatchTable, ev: RilEvent, reaction: Reaction, ghost known: set<RilEvent>)
    returns (r: Reaction)
    requires Sound(loop, w) && loop.Unlinked(ev) && (ev.index == -1 || ev in w.events) && ev in known
    modifies loop`timers, loop`calls, ev, loop.TimerRing()`next, loop.TimerRing()`prev, w`events
    ensures Sound(loop, w) && TimersChanged(loop, ev, r)
    ensures r == Permitted(reaction, Watching(Slots(w.table[..], known), ev))
    ensures forall e :: e in w.events ==> e in old(w.events)
    ensures Slots(w.table[..], known) == old(Slots(w.table[..], known))
  {
    hide EventLoop.Valid, WatchTable.Valid, WatchTable.Exact, Times, TimerAdd, AfterReaction, Slots, SlotOf, Watching;
    OwnSlot(w, ev, known);
    r := Permitted(reaction, ev.index >= 0);
    if r.fate.Freed? {
      Release(w, ev);
    }
    label L:
    loop.Callback(ev, r);
    TableKept@L(w);
  }

  ghost method Release(w: WatchTable, ev: RilEvent)
    requires w.Valid() && ev.index < 0
    modifies w`events
    ensures w.Valid() && w.events == old(w.events) - {ev}
  {
    if ev in w.events {
      w.Forget(ev);
    }
  }

  /** The timers after the callback of `ev` reacted with `r`. */
  twostate predicate TimersChanged(loop: EventLoop, ev: RilEvent, new r: Reaction)
    reads loop`timers, loop`calls, (set e | e in loop.timers)`timeout, ev
  {
    && Times(loop.timers) == AfterReaction(old(Times(loop.timers)), r)
    && loop.calls == old(loop.calls) + [(ev, old(ev.fd))]
    && (forall e :: e in old(loop.timers) ==> e in loop.timers)
    && (forall e :: e in loop.timers ==> e in old(loop.timers) || (e == ev && r.fate.Rearmed?) || fresh(e))
    && (r.fate.Rearmed? ==> ev in loop.timers && ev.timeout == TimerAdd(r.fate.now, r.fate.tv))
  }

  /** The whole callback of an unlinked event. */
  method CallBack(loop: EventLoop, w: WatchTable, ev: RilEvent, c: Callback, ghost known: set<RilEvent>)
    returns (r: Reaction)
    requires Sound(loop, w) && loop.Unlinked(ev) && (ev.index == -1 || ev in w.events) && ev in known
    modifies loop`timers, loop`calls, w, w.table, w.events`index, ev, loop.TimerRing()`next, loop.TimerRing()`prev
    ensures Sound(loop, w) && TimersChanged(loop, ev, r)
    ensures Slots(w.table[..], known) == AfterWatches(old(Slots(w.table[..], known)), c.watches, old(Now(ev)))
    ensures r == Permitted(c.reaction, Watching(Slots(w.table[..], known), ev))
    ensures forall e :: e in w.events ==> e in old(w.events) || e == ev || fresh(e)
  {
    hide Sound, Times, AfterReaction, Slots, SlotOf, AfterWatches, Watching, EventLoop.Unlinked;
    DoWatches(loop, w, c.watches, ev, known);
    r := React(loop, w, ev, c.reaction, known);
  }

  /** The first pending event fires: it is unlinked before its callback. */
  method Fire(loop: EventLoop, w: WatchTable, ev: RilEvent, c: Callback, ghost known: set<RilEvent>)
    returns (r: Reaction)
    requires Sound(loop, w) && loop.pending != [] && ev == loop.pending[0] && ev in known
    modifies loop`timers, loop`pending, loop`calls, w, w.table, w.events`index, ev
    modifies loop.TimerRing()`next, loop.TimerRing()`prev, loop.PendingRing()`next, loop.PendingRing()`prev
    ensures Sound(loop, w) && loop.pending == old(loop.pending)[1..] && TimersChanged(loop, ev, r)
    ensures Slots(w.table[..], known) == AfterWatches(old(Slots(w.table[..], known)), c.watches, old(Now(ev)))
    ensures r == Permitted(c.reaction, Watching(Slots(w.table[..], known), ev))
    ensures forall e :: e in w.events ==> e in old(w.events) || e == ev || fresh(e)
  {
    hide Sound, Times, AfterReaction, Slots, SlotOf, AfterWatches, Watching, EventLoop.Unlinked;
    Unlink(loop, w, ev);
    r := CallBack(loop, w, ev, c, known);
  }

  /** Events that a callback armed again are timers with the deadlines it asked for. */
  ghost predicate RearmedAll(loop: EventLoop, fs: seq<Fired>, rs: seq<Reaction>)
    requires |rs| <= |fs|
    reads loop`timers, (set f | f in fs :: f.ev)`timeout
  {
    forall j: nat :: j < |rs| && rs[j].fate.Rearmed? ==>
      fs[j].ev in loop.timers && fs[j].ev.timeout == TimerAdd(rs[j].fate.now, rs[j].fate.tv)
  }

  /** The events from `n` on are still as they were when they became pending. */
  ghost predicate Waiting(was: seq<RilEvent>, fs: seq<Fired>, n: nat)
    reads (set e | e in was)`fd, (set e | e in was)`persist
  {
    |fs| == |was| && (forall j :: 0 <= j < |was| ==> fs[j].ev == was[j])
    && forall j :: n <= j < |was| ==> fs[j] == Now(was[j])
  }

  lemma ApartFrom(head: RilEvent, was: seq<RilEvent>, n: nat)
    requires Distinct(head, was) && n < |was|
    ensures forall j :: 0 <= j < |was| && j != n ==> was[j] != was[n]
  {
  }

  lemma NextPending(loop: EventLoop, w: WatchTable, was: seq<RilEvent>, n: nat)
    requires Sound(loop, w) && n < |was| && loop.pending == was[n..]
    ensures was[n].next == At(loop.pendingList, was, n + 1) && was[n..][0] == was[n] && was[n..][1..] == was[n + 1..]
  {
    assert loop.pending[0].next == At(loop.pendingList, loop.pending, 1);
  }

  /** What has come of the first `n` callbacks, where `s` was the table and `ts` were the deadlines at the start. */
  ghost predicate Done(loop: EventLoop, w: WatchTable, known: set<RilEvent>, fs: seq<Fired>, s: seq<Slot>,
      ts: seq<Timeval>, callbacks: nat -> Callback, n: nat)
    requires n <= |fs|
    reads loop`timers, (set e | e in loop.timers)`timeout, (set f | f in fs :: f.ev)`timeout
    reads w.table, (set e: RilEvent | e in w.table[..])`fd, (set e: RilEvent | e in w.table[..])`persist
  {
    && Slots(w.table[..], known) == Table(s, fs, callbacks, n)
    && Times(loop.timers) == AfterReactions(ts, Reactions(s, fs, callbacks, n))
    && RearmedAll(loop, fs, Reactions(s, fs, callbacks, n))
  }

  /** One round of firePending. */
  method FireNext(loop: EventLoop, w: WatchTable, ev: RilEvent, n: nat, c: Callback, ghost was: seq<RilEvent>,
      ghost known: set<RilEvent>, ghost fs: seq<Fired>, ghost s: seq<Slot>, ghost ts: seq<Timeval>,
      ghost callbacks: nat -> Callback)
    returns (next: RilEvent)
    requires Sound(loop, w) && n < |was| == |fs| && loop.pending == was[n..] && ev == was[n] && ev in known
    requires Distinct(loop.pendingList, was) && c == callbacks(n) && Done(loop, w, known, fs, s, ts, callbacks, n)
    requires Waiting(was, fs, n)
    modifies loop`timers, loop`pending, loop`calls, w, w.table, w.events`index, ev
    modifies loop.TimerRing()`next, loop.TimerRing()`prev, loop.PendingRing()`next, loop.PendingRing()`prev
    ensures Sound(loop, w) && loop.pending == was[n + 1..] && next == At(loop.pendingList, was, n + 1)
    ensures Done(loop, w, known, fs, s, ts, callbacks, n + 1)
    ensures loop.calls == old(loop.calls) + [(fs[n].ev, fs[n].fd)]
    ensures Waiting(was, fs, n + 1)
    ensures forall e :: e in old(loop.timers) ==> e in loop.timers
    ensures forall e :: e in loop.timers ==>
      e in old(loop.timers) || fresh(e) || ArmedAgain(Reactions(s, fs, callbacks, n + 1), fs, e)
    ensures forall e :: e in w.events ==> e in old(w.events) || e == ev || fresh(e)
  {
    hide Sound, Nodes, Times, AfterReaction, AfterReactions, EventLoop.Valid, EventLoop.Lists, Distinct, Linked, At,
      WatchTable.Valid, Slots, AfterWatches, Watching;
    NextPending(loop, w, was, n);
    ApartFrom(loop.pendingList, was, n);
    next := ev.next;
    var r := Fire(loop, w, ev, c, known);
    ghost var rs := Reactions(s, fs, callbacks, n);
    assert Reactions(s, fs, callbacks, n + 1) == rs + [r];
    OneMoreReaction(ts, rs, r);
    if r.fate.Rearmed? { assert (rs + [r])[n] == r; }
  }

  lemma OnTheRings(loop: EventLoop)
    ensures forall e :: e in loop.TimerRing() ==> e == loop.timerList || e in loop.timers
    ensures loop.timerList in loop.TimerRing() && forall e :: e in loop.timers ==> e in loop.TimerRing()
    ensures forall e :: e in loop.PendingRing() ==> e == loop.pendingList || e in loop.pending
    ensures loop.pendingList in loop.PendingRing() && forall e :: e in loop.pending ==> e in loop.PendingRing()
  {
  }

  lemma OnNodes(loop: EventLoop, w: WatchTable)
    ensures forall e :: e in Nodes(loop, w) ==>
      e == loop.timerList || e in loop.timers || e == loop.pendingList || e in loop.pending || e in w.events
    ensures loop.timerList in Nodes(loop, w) && loop.pendingList in Nodes(loop, w)
    ensures forall e :: e in loop.timers || e in loop.pending || e in w.events ==> e in Nodes(loop, w)
  {
  }

  lemma AtEnd(head: RilEvent, was: seq<RilEvent>, n: nat)
    requires Distinct(head, was) && n <= |was|
    ensures At(head, was, n) == if n < |was| then was[n] else head
    ensures At(head, was, n) == head <==> n == |was|
  {
  }

  lemma PendingStarts(loop: EventLoop, w: WatchTable, known: set<RilEvent>, callbacks: nat -> Callback)
    requires Sound(loop, w)
    ensures Distinct(loop.pendingList, loop.pending)
    ensures loop.pendingList.next == At(loop.pendingList, loop.pending, 0)
    ensures Done(loop, w, known, Told(loop.pending), Slots(w.table[..], known), Times(loop.timers), callbacks, 0)
    ensures Waiting(loop.pending, Told(loop.pending), 0)
  {
  }

  lemma OneMoreCall(fs: seq<Fired>, n: nat)
    requires n < |fs|
    ensures Calls(fs)[..n] + [(fs[n].ev, fs[n].fd)] == Calls(fs)[..n + 1]
  {
  }

  /** With every callback the list of those that were armed again grows. */
  lemma ArmedAgainGrows(s: seq<Slot>, fs: seq<Fired>, callbacks: nat -> Callback, n: nat)
    requires n < |fs|
    ensures forall e :: ArmedAgain(Reactions(s, fs, callbacks, n), fs, e) ==>
      ArmedAgain(Reactions(s, fs, callbacks, n + 1), fs, e)
  {
    var rs, more := Reactions(s, fs, callbacks, n), Reactions(s, fs, callbacks, n + 1);
    forall e | ArmedAgain(rs, fs, e) ensures ArmedAgain(more, fs, e) {
      var j :| 0 <= j < |rs| && rs[j].fate.Rearmed? && fs[j].ev == e;
      assert more[j] == rs[j];
    }
  }

  lemma ArmedWerePending(was: seq<RilEvent>, fs: seq<Fired>, rs: seq<Reaction>, n: nat)
    requires Waiting(was, fs, n) && |rs| <= |fs|
    ensures forall e :: ArmedAgain(rs, fs, e) ==> e in was
  {
  }

  /** firePending: each pending event fires once, in order, as it was at the start. Timers, events and watch table
      are afterwards what the callbacks, one after the other, make of them. */
  method FirePending(loop: EventLoop, w: WatchTable, callbacks: nat -> Callback, ghost known: set<RilEvent>)
    requires Sound(loop, w) && forall e :: e in loop.pending ==> e in known
    modifies loop`timers, loop`pending, loop`calls, w, w.table, w.events`index, loop.pending
    modifies loop.TimerRing()`next, loop.TimerRing()`prev, loop.PendingRing()`next, loop.PendingRing()`prev
    ensures Sound(loop, w) && loop.pending == []
    ensures var fs, s := old(Told(loop.pending)), old(Slots(w.table[..], known));
      && loop.calls == old(loop.calls) + Calls(fs)
      && Done(loop, w, known, fs, s, old(Times(loop.timers)), callbacks, |fs|)
      && (forall e :: e in loop.timers ==>
            e in old(loop.timers) || fresh(e) || ArmedAgain(Reactions(s, fs, callbacks, |fs|), fs, e))
    ensures forall e :: e in old(loop.timers) ==> e in loop.timers
    ensures forall e :: e in loop.timers ==> e in old(loop.timers) || e in old(loop.pending) || fresh(e)
    ensures forall e :: e in w.events ==> e in old(w.events) || e in old(loop.pending) || fresh(e)
  {
    hide *;
    PendingStarts(loop, w, known, callbacks);
    OnTheRings(loop);
    ghost var was, fs, ts, s := loop.pending, Told(loop.pending), Times(loop.timers), Slots(w.table[..], known);
    var n := 0;
    var ev := loop.pendingList.next;
    AtEnd(loop.pendingList, was, 0);
    while ev != loop.pendingList
      invariant Sound(loop, w) && n <= |was| == |fs| && loop.pending == was[n..]
      invariant Done(loop, w, known, fs, s, ts, callbacks, n) && loop.calls == old(loop.calls) + Calls(fs)[..n]
      invariant Waiting(was, fs, n)
      invariant forall e :: e in old(loop.timers) ==> e in loop.timers
      invariant forall e :: e in loop.timers ==>
        e in old(loop.timers) || fresh(e) || ArmedAgain(Reactions(s, fs, callbacks, n), fs, e)
      invariant forall e :: e in w.events ==> e in old(w.events) || e in was || fresh(e)
      invariant ev == At(loop.pendingList, was, n)
      decreases |was| - n
    {
      AtEnd(loop.pendingList, was, n);
      OnTheRings(loop);
      OneMoreCall(fs, n);
      ArmedAgainGrows(s, fs, callbacks, n);
      ArmedWerePending(was, fs, Reactions(s, fs, callbacks, n), n);
      ev := FireNext(loop, w, ev, n, callbacks(n), was, known, fs, s, ts, callbacks);
      n := n + 1;
    }
    AtEnd(loop.pendingList, was, n);
    ArmedWerePending(was, fs, Reactions(s, fs, callbacks, n), n);
  }

  /** processTimeouts in the loop: with nothing pending before, exactly the due timers become pending. */
  method Timeouts(loop: EventLoop, w: WatchTable, now: Timeval)
    requires Sound(loop, w) && loop.pending == []
    modifies loop`timers, loop`pending
    modifies loop.TimerRing()`next, loop.TimerRing()`prev, loop.PendingRing()`next, loop.PendingRing()`prev
    ensures Sound(loop, w)
    ensures var k := old(Due(loop.timers, now));
      loop.timers == old(loop.timers)[k..] && loop.pending == old(loop.timers)[..k]
    ensures forall e :: e in loop.pending ==> e.index == -1
  {
    hide EventLoop.Valid, WatchTable.Valid, WatchTable.Exact, Due, Less;
    loop.ProcessTimeouts(now);
    TableKept(w);
  }

  lemma {:induction false} ReadyFrom(t: seq<RilEvent?>, rfds: set<int>, i: nat, e: RilEvent) returns (j: nat)
    requires i <= |t| && e in Ready(t, rfds, i)
    ensures j < i && t[j] == e && e.fd in rfds
  {
    if e in Ready(t, rfds, i - 1) {
      j := ReadyFrom(t, rfds, i - 1, e);
    } else {
      j := i - 1;
    }
  }

  /** What a pass leaves: an event that is still watched is where it was, and is persistent if it was taken. */
  lemma AfterPass(loop: EventLoop, w: WatchTable, rfds: set<int>, t: seq<RilEvent?>, was: seq<RilEvent>,
      events: set<RilEvent>, nodes: set<RilEvent>, exact: bool, i: nat, known: set<RilEvent>)
    requires Passing(loop, w, rfds, t, was, events, nodes, exact, i)
    requires forall j :: 0 <= j < |t| && t[j] != null ==> t[j] in events
    requires forall j, k :: 0 <= j < k < |t| && t[j] != null ==> t[j] != t[k]
    ensures i <= |t| && loop.Valid() && w.Valid() && w.events == events && loop.pending == was + Ready(t, rfds, i)
    ensures forall e :: e in Ready(t, rfds, i) ==> e in events && (e.index >= 0 ==> e.persist)
    ensures forall e :: e in events ==> e.index == -1 || e in t
    ensures Slots(w.table[..], known) == Swept(Slots(t, known), rfds, i)
  {
    assert forall j :: 0 <= j < |t| ==> w.table[..][j] == w.table[j];
    forall e | e in events && e.index != -1 ensures e in t {
      assert w.table[e.index] == e && t[e.index] == e;
    }
    forall e | e in Ready(t, rfds, i) ensures e in events && (e.index >= 0 ==> e.persist) {
      var j := ReadyFrom(t, rfds, i, e);
      if e.index >= 0 { assert w.table[e.index] == e; }
    }
  }

  /** The ready events of a table are those that its slots signal. */
  lemma {:induction false} ReadyTold(t: seq<RilEvent?>, rfds: set<int>, i: nat, known: set<RilEvent>)
    requires i <= |t| && forall e: RilEvent :: e in t ==> e in known
    ensures Told(Ready(t, rfds, i)) == Signalled(Slots(t, known), rfds, i)
  {
    if i == 0 {
    } else {
      ReadyTold(t, rfds, i - 1, known);
      var e := t[i - 1];
      assert e != null ==> e in t;
      ToldJoined(Ready(t, rfds, i - 1), if e != null && e.fd in rfds then [e] else []);
    }
  }

  lemma ToldJoined(a: seq<RilEvent>, b: seq<RilEvent>)
    ensures Told(a + b) == Told(a) + Told(b)
  {
  }

  /** processReadReadies in the loop: the ready events of the first `i` slots join the pending ones, and one-shot
      events among them leave the table. */
  method Readies(loop: EventLoop, w: WatchTable, rfds: set<int>, n: nat, ghost known: set<RilEvent>) returns (i: nat)
    requires Sound(loop, w) && (forall e :: e in loop.pending ==> e.index == -1) && w.events <= known
    modifies loop`pending, w`readFds, w`nfds, w.table, w.events`index
    modifies loop.PendingRing()`next, loop.PendingRing()`prev, w.events`next, w.events`prev
    ensures Sound(loop, w) && w.events == old(w.events)
    ensures var s := old(Slots(w.table[..], known));
      && i <= |s| && Told(loop.pending) == old(Told(loop.pending)) + Signalled(s, rfds, i)
      && |Signalled(s, rfds, i)| <= n && (i < |s| ==> |Signalled(s, rfds, i)| == n)
      && Slots(w.table[..], known) == Swept(s, rfds, i)
    ensures forall e :: e in loop.pending ==> e in old(loop.pending) || e in w.events
  {
    hide Sound, Passing, Ready, WatchTable.Valid, EventLoop.Valid, WatchTable.Exact, EventLoop.Unlinked, Told, Slots,
      Signalled, Swept;
    InTheirSlots(loop, w);
    PassStarts(loop, w, rfds);
    ghost var t, was, events, exact := w.table[..], loop.pending, w.events, w.Exact();
    ghost var nodes := loop.PendingRing() + w.events;
    i := ProcessReadReadies(loop, w, rfds, n, t, was, events, nodes, exact);
    AfterPass(loop, w, rfds, t, was, events, nodes, exact, i, known);
    ReadyTold(t, rfds, i, known);
    ToldJoined(was, Ready(t, rfds, i));
    SoundAgain(loop, w);
  }

  lemma SoundAgain(loop: EventLoop, w: WatchTable)
    requires loop.Valid() && w.Valid() && loop.timerList !in w.events && loop.pendingList !in w.events
    requires forall e :: e in loop.timers ==> e.index == -1
    requires forall e :: e in loop.pending ==> e.index == -1 || e in w.events
    ensures Sound(loop, w)
  {
  }

  lemma InTheirSlots(loop: EventLoop, w: WatchTable)
    requires Sound(loop, w) && forall e :: e in loop.pending ==> e.index == -1
    ensures forall e :: e in w.events && e.index >= 0 ==> loop.Unlinked(e)
    ensures w.Valid() && loop.Valid() && loop.timerList !in w.events && loop.pendingList !in w.events
    ensures forall e :: e in loop.timers ==> e.index == -1
    ensures |w.table[..]| == MAX_FD_EVENTS == w.table.Length
    ensures forall j :: 0 <= j < |w.table[..]| && w.table[..][j] != null ==>
      w.table[..][j] in w.events && w.table[..][j].index == j
  {
    forall j | 0 <= j < |w.table[..]| && w.table[..][j] != null
      ensures w.table[..][j] in w.events && w.table[..][j].index == j
    {
      assert w.table[j] == w.table[..][j];
    }
  }

  // ---------- Rounds ----------

  /** The loop as a value. */
  ghost function Snap(loop: EventLoop, w: WatchTable, known: set<RilEvent>): Snapshot
    reads loop`timers, loop`calls, (set e | e in loop.timers)`timeout
    reads (set e | e in loop.timers)`fd, (set e | e in loop.timers)`persist
    reads w.table, (set e: RilEvent | e in w.table[..])`fd, (set e: RilEvent | e in w.table[..])`persist
  {
    Snapshot(known, Told(loop.timers), Times(loop.timers), Slots(w.table[..], known), loop.calls)
  }

  lemma DueIsEarlier(s: seq<RilEvent>, t: Timeval)
    ensures Due(s, t) == Earlier(Times(s), t)
  {
    EarlierIs(Times(s), t, Due(s, t));
  }

  lemma TakenTold(s: seq<RilEvent>, k: nat)
    requires k <= |s|
    ensures Told(s[..k]) == Told(s)[..k]
  {
    hide *;
    var t := s[..k];
    forall j | 0 <= j < k ensures Told(t)[j] == Told(s)[..k][j] {
      assert Told(t)[j] == Now(t[j]) && Told(s)[j] == Now(s[j]) && t[j] == s[j];
    }
  }

  lemma LeftTold(s: seq<RilEvent>, k: nat)
    requires k <= |s|
    ensures Told(s[k..]) == Told(s)[k..]
  {
    hide *;
    var t := s[k..];
    forall j | 0 <= j < |t| ensures Told(t)[j] == Told(s)[k..][j] {
      assert Told(t)[j] == Now(t[j]) && Told(s)[k + j] == Now(s[k + j]) && t[j] == s[k + j];
    }
  }

  lemma LeftTimes(s: seq<RilEvent>, k: nat)
    requires k <= |s|
    ensures Times(s[k..]) == Times(s)[k..]
  {
    hide *;
    var t := s[k..];
    forall j | 0 <= j < |t| ensures Times(t)[j] == Times(s)[k..][j] {
      assert Times(t)[j] == t[j].timeout && Times(s)[k + j] == s[k + j].timeout && t[j] == s[k + j];
    }
  }

  lemma FiresAre(b: Snapshot, now: Timeval, rfds: set<int>, i: nat, due: seq<Fired>)
    requires |b.timers| == |b.times| && i <= |b.slots| && due == b.timers[..Earlier(b.times, now)]
    ensures Fires(b, now, rfds, i) == due + Signalled(b.slots, rfds, i)
  {
  }

  /** The two steps that decide what fires. */
  method Gather(loop: EventLoop, w: WatchTable, now: Timeval, rfds: set<int>, n: nat, ghost known: set<RilEvent>)
    returns (i: nat)
    requires Sound(loop, w) && loop.pending == [] && Nodes(loop, w) <= known
    modifies loop`timers, loop`pending, w`readFds, w`nfds, w.table
    modifies Nodes(loop, w)`next, Nodes(loop, w)`prev, Nodes(loop, w)`index
    ensures Sound(loop, w) && w.events == old(w.events)
    ensures var b := old(Snap(loop, w, known));
      && |b.timers| == |b.times| && i <= |b.slots|
      && |Signalled(b.slots, rfds, i)| <= n && (i < |b.slots| ==> |Signalled(b.slots, rfds, i)| == n)
      && var k := Earlier(b.times, now);
         && Told(loop.pending) == Fires(b, now, rfds, i)
         && Told(loop.timers) == b.timers[k..] && Times(loop.timers) == b.times[k..]
         && Slots(w.table[..], known) == Swept(b.slots, rfds, i)
    ensures forall e :: e in Nodes(loop, w) ==> e in old(Nodes(loop, w))
  {
    hide *;
    OnNodes(loop, w);
    OnTheRings(loop);
    SnapIs(loop, w, known);
    ghost var b, k := Snap(loop, w, known), Due(loop.timers, now);
    DueIsEarlier(loop.timers, now);
    TakenTold(loop.timers, k);
    LeftTold(loop.timers, k);
    LeftTimes(loop.timers, k);
    Timeouts(loop, w, now);
    OnTheRings(loop);
    i := Readies(loop, w, rfds, n, known);
    FiresAre(b, now, rfds, i, b.timers[..k]);
    OnNodes(loop, w);
  }

  lemma TimersApart(loop: EventLoop, w: WatchTable)
    requires Sound(loop, w)
    ensures forall e :: e in loop.timers ==> e !in loop.pending
  {
  }

  lemma ErasedSlots(t: seq<RilEvent?>, known: set<RilEvent>, more: set<RilEvent>)
    requires known <= more
    ensures Erased(Slots(t, more), known) == Slots(t, known)
  {
  }

  /** What the timers after firePending amount to. */
  lemma TimersAre(b: Snapshot, k: nat, fs: seq<Fired>, rs: seq<Reaction>, loop: EventLoop, w: WatchTable,
      left: seq<RilEvent>, more: set<RilEvent>)
    requires k <= |b.timers| && |rs| == |fs| && b.timers[k..] == Told(left)
    requires forall e :: e in left ==> e in loop.timers
    requires forall e :: e in loop.timers ==> e in left || e !in b.known || ArmedAgain(rs, fs, e)
    requires RearmedAll(loop, fs, rs)
    ensures TimersFollow(b, k, fs, rs, Snap(loop, w, more))
  {
    var a := Snap(loop, w, more);
    forall f | f in b.timers[k..] ensures f in a.timers {
      var m :| 0 <= m < |left| && Told(left)[m] == f;
      assert left[m] in loop.timers;
      var j :| 0 <= j < |loop.timers| && loop.timers[j] == left[m];
      assert a.timers[j] == f;
    }
    forall f | f in a.timers ensures f in b.timers[k..] || ArmedAgain(rs, fs, f.ev) || f.ev !in b.known {
      var m :| 0 <= m < |a.timers| && a.timers[m] == f;
      var e := loop.timers[m];
      assert e in loop.timers;
      if e in left {
        var j :| 0 <= j < |left| && left[j] == e;
        assert Told(left)[j] == f;
      }
    }
    forall j | 0 <= j < |rs| && rs[j].fate.Rearmed?
      ensures ArmedAt(a, fs[j].ev, TimerAdd(rs[j].fate.now, rs[j].fate.tv))
    {
      var m :| 0 <= m < |loop.timers| && loop.timers[m] == fs[j].ev;
      assert a.timers[m].ev == fs[j].ev;
    }
  }

  /** One round of ril_event_loop. Its timers, its watch table and its callbacks are those that follow. */
  method Iterate(loop: EventLoop, w: WatchTable, round: Round, ghost known: set<RilEvent>) returns (i: nat)
    requires Sound(loop, w) && loop.pending == [] && Nodes(loop, w) <= known
    modifies loop`timers, loop`pending, loop`calls, w, w.table, Nodes(loop, w)
    ensures Sound(loop, w) && loop.pending == []
    ensures Follows(old(Snap(loop, w, known)), round, i, Snap(loop, w, known + Nodes(loop, w)))
    ensures forall e :: e in Nodes(loop, w) ==> e in old(Nodes(loop, w)) || fresh(e)
  {
    hide *;
    ghost var b := Snap(loop, w, known);
    SnapIs(loop, w, known);
    i := Gather(loop, w, round.now, round.rfds, round.n, known);
    OnNodes(loop, w);
    OnTheRings(loop);
    TimersApart(loop, w);
    ghost var left, k := loop.timers, Earlier(b.times, round.now);
    ghost var fs, s := Told(loop.pending), Slots(w.table[..], known);
    FirePending(loop, w, round.callbacks, known);
    OnNodes(loop, w);
    ghost var rs, more := Reactions(s, fs, round.callbacks, |fs|), known + Nodes(loop, w);
    ErasedSlots(w.table[..], known, more);
    DoneIs(loop, w, known, fs, s, b.times[k..], round.callbacks, |fs|);
    SnapIs(loop, w, more);
    TimersAre(b, k, fs, rs, loop, w, left, more);
    RoundFollows(b, round, i, Snap(loop, w, more));
  }

  lemma DoneIs(loop: EventLoop, w: WatchTable, known: set<RilEvent>, fs: seq<Fired>, s: seq<Slot>,
      ts: seq<Timeval>, callbacks: nat -> Callback, n: nat)
    requires n <= |fs| && Done(loop, w, known, fs, s, ts, callbacks, n)
    ensures Slots(w.table[..], known) == Table(s, fs, callbacks, n)
    ensures Times(loop.timers) == AfterReactions(ts, Reactions(s, fs, callbacks, n))
    ensures RearmedAll(loop, fs, Reactions(s, fs, callbacks, n))
  {
  }

  lemma SnapIs(loop: EventLoop, w: WatchTable, known: set<RilEvent>)
    ensures Snap(loop, w, known) ==
      Snapshot(known, Told(loop.timers), Times(loop.timers), Slots(w.table[..], known), loop.calls)
  {
  }

  lemma RoundFollows(b: Snapshot, round: Round, i: nat, a: Snapshot)
    requires |b.timers| == |b.times| && i <= |b.slots|
    requires |Signalled(b.slots, round.rfds, i)| <= round.n
    requires i < |b.slots| ==> |Signalled(b.slots, round.rfds, i)| == round.n
    requires var fs, s := Fires(b, round.now, round.rfds, i), Swept(b.slots, round.rfds, i);
      var rs, k := Reactions(s, fs, round.callbacks, |fs|), Earlier(b.times, round.now);
      && a.calls == b.calls + Calls(fs) && a.times == AfterReactions(b.times[k..], rs)
      && Erased(a.slots, b.known) == Table(s, fs, round.callbacks, |fs|)
      && TimersFollow(b, k, fs, rs, a) && b.known <= a.known
    ensures Follows(b, round, i, a)
  {
  }

  lemma SnapInOrder(loop: EventLoop, w: WatchTable, known: set<RilEvent>)
    requires Sound(loop, w) && Nodes(loop, w) <= known
    ensures InOrder(Snap(loop, w, known))
  {
    forall i | 0 <= i < w.table.Length && w.table[i] != null ensures w.table[i] in known {
    }
  }

  /** ril_event_loop over any number of rounds: the rounds follow one another. */
  method Run(loop: EventLoop, w: WatchTable, rounds: seq<Round>)
    returns (ghost trace: seq<Snapshot>, ghost visits: seq<nat>)
    requires Sound(loop, w) && loop.pending == []
    modifies loop`timers, loop`pending, loop`calls, w, w.table, Nodes(loop, w)
    ensures Sound(loop, w) && loop.pending == []
    ensures IsRun(trace, rounds, visits) && forall b :: b in trace ==> InOrder(b)
    ensures trace[0] == old(Snap(loop, w, Nodes(loop, w)))
    ensures Nodes(loop, w) <= trace[|rounds|].known && trace[|rounds|] == Snap(loop, w, trace[|rounds|].known)
  {
    hide Sound, Nodes, Snap, Follows, InOrder;
    ghost var known := Nodes(loop, w);
    trace, visits := [Snap(loop, w, known)], [];
    SnapInOrder(loop, w, known);
    for r := 0 to |rounds|
      invariant Sound(loop, w) && loop.pending == [] && Nodes(loop, w) <= known
      invariant |trace| == r + 1 && |visits| == r && trace[r] == Snap(loop, w, known)
      invariant trace[0] == old(Snap(loop, w, Nodes(loop, w)))
      invariant forall b :: b in trace ==> InOrder(b)
      invariant forall k :: 0 <= k < r ==> Follows(trace[k], rounds[k], visits[k], trace[k + 1])
      invariant forall e :: e in Nodes(loop, w) ==> e in old(Nodes(loop, w)) || fresh(e)
    {
      var i := Iterate(loop, w, rounds[r], known);
      known := known + Nodes(loop, w);
      SnapInOrder(loop, w, known);
      trace, visits := trace + [Snap(loop, w, known)], visits + [i];
    }
    SnapIs(loop, w, known);
  }
}
