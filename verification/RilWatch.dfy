// The watch table of libril/ril_event.cpp with its two caches, readFds and nfds.

module RilWatch {
  import opened RilLists
  import opened RilEvents

  /** The events in the first `n` slots of the table `t` that are ready, in table order. */
  ghost function Ready(t: seq<RilEvent?>, rfds: set<int>, n: nat): seq<RilEvent>
    requires n <= |t|
    reads (set e: RilEvent | e in t)`fd
  {
    if n == 0 then []
    else
      var e := t[n - 1];
      Ready(t, rfds, n - 1) + if e != null && e.fd in rfds then [e] else []
  }

  /** The descriptors of the events in a table. */
  ghost function Fds(t: seq<RilEvent?>): set<int>
    reads (set e: RilEvent | e in t)`fd
  {
    set e: RilEvent | e in t :: e.fd
  }

  class WatchTable {
    const table: array<RilEvent?>
    var readFds: set<int>
    var nfds: int
    ghost var events: set<RilEvent>  // every event the loop has been told about

    /** The table and the events agree on who is where. */
    ghost predicate Agrees()
      reads this`events, table, events`index, events`fd
    {
      && table.Length == MAX_FD_EVENTS
      && (forall i :: 0 <= i < MAX_FD_EVENTS && table[i] != null ==>
            table[i] in events && table[i].index == i && table[i].fd >= 0)
      && (forall e :: e in events ==> e.index == -1 || (0 <= e.index < MAX_FD_EVENTS && table[e.index] == e))
    }

    ghost function Watched(): set<int>
      reads table, (set e: RilEvent | e in table[..])`fd
    {
      Fds(table[..])
    }

    /** nfds is one more than the largest watched descriptor, and select is asked about watched ones only. */
    ghost predicate Cached()
      reads this`readFds, this`nfds, table, (set e: RilEvent | e in table[..])`fd
    {
      && readFds <= Watched()
      && (forall fd :: fd in Watched() ==> fd < nfds)
      && if Watched() == {} then 0 <= nfds <= 1 else nfds - 1 in Watched()
    }

    ghost predicate Valid()
      reads this, table, (set e: RilEvent | e in table[..])`fd, events`index, events`fd
    {
      Agrees() && Cached()
    }

    /** Select is asked about every watched descriptor. */
    ghost predicate Exact()
      reads this`readFds, table, (set e: RilEvent | e in table[..])`fd
    {
      readFds == Watched()
    }

    constructor ()
      ensures Valid() && Exact() && readFds == {} && events == {} && fresh(table)
      ensures forall i :: 0 <= i < table.Length ==> table[i] == null
    {
      table := new RilEvent?[MAX_FD_EVENTS](_ => null);
      readFds, nfds, events := {}, 0, {};
    }

    /** ril_event_add: the first free slot, or nothing at all when the table is full. An event that is in the table
        already gets a second slot, and table and event no longer agree. */
    method Add(ev: RilEvent)
      requires Valid() && (ev.index == -1 || ev in events) && ev.fd >= 0
      modifies this, table, ev`index
      ensures Cached() && events == old(events) + {ev} && (old(Exact()) ==> Exact())
      ensures Valid() <==> old(ev.index) == -1 || null !in old(table[..])
      ensures var t := old(table[..]);
        if null in t then
          0 <= ev.index < MAX_FD_EVENTS && t[ev.index] == null && null !in t[..ev.index]
          && table[..] == t[ev.index := ev] && readFds == old(readFds) + {ev.fd}
        else
          ev.index == old(ev.index) && table[..] == t && readFds == old(readFds) && nfds == old(nfds)
    {
      var i := 0;
      while i < MAX_FD_EVENTS && table[i] != null
        invariant 0 <= i <= MAX_FD_EVENTS && null !in table[..i]
      {
        i := i + 1;
      }
      if i < MAX_FD_EVENTS {
        Occupy(ev, i);
      } else {
        assert table[..MAX_FD_EVENTS] == table[..];
        events := events + {ev};
      }
    }

    method Occupy(ev: RilEvent, i: nat)
      requires Valid() && (ev.index == -1 || ev in events) && ev.fd >= 0 && i < MAX_FD_EVENTS && table[i] == null
      modifies this, table, ev`index
      ensures Cached() && events == old(events) + {ev} && (old(Exact()) ==> Exact())
      ensures Valid() <==> old(ev.index) == -1
      ensures ev.index == i && table[..] == old(table[..])[i := ev] && readFds == old(readFds) + {ev.fd}
    {
      hide Fds;
      FdsAdded(table[..], i, ev);
      EnterTable(ev, i);
      Cache(ev.fd);
    }

    method Cache(fd: int)
      requires table.Length == MAX_FD_EVENTS && fd >= 0 && fd in Watched() && readFds <= Watched()
      requires forall g :: g in Watched() && g != fd ==> g < nfds
      requires Watched() == {fd} ==> 0 <= nfds
      requires nfds - 1 in Watched() || nfds <= fd + 1
      modifies this`readFds, this`nfds
      ensures Cached() && readFds == old(readFds) + {fd}
    {
      readFds := readFds + {fd};
      if fd >= nfds { nfds := fd + 1; }
    }

    method EnterTable(ev: RilEvent, i: nat)
      requires Agrees() && (ev.index == -1 || ev in events) && ev.fd >= 0 && i < MAX_FD_EVENTS && table[i] == null
      modifies this`events, table, ev`index
      ensures (Agrees() <==> old(ev.index) == -1) && events == old(events) + {ev}
      ensures ev.index == i && table[..] == old(table[..])[i := ev]
    {
      ghost var j := ev.index;
      table[i] := ev;
      ev.index := i;
      events := events + {ev};
      assert j != -1 ==> table[j] == ev && j != i;
    }

    method LeaveTable(ev: RilEvent, index: nat)
      requires Agrees() && index < MAX_FD_EVENTS && table[index] == ev
      modifies table, ev`index
      ensures Agrees()
      ensures ev.index == -1 && table[..] == old(table[..])[index := null]
    {
      table[index] := null;
      ev.index := -1;
    }

    /** removeWatch: frees the slot, and recomputes nfds when the largest descriptor leaves. The descriptor is
        forgotten even if another slot watches it as well: that is when select is asked too little. */
    method RemoveWatch(ev: RilEvent, index: nat)
      requires Valid() && index < MAX_FD_EVENTS && table[index] == ev
      modifies this`readFds, this`nfds, table, ev`index
      ensures Valid() && events == old(events)
      ensures ev.index == -1 && table[..] == old(table[..])[index := null] && readFds == old(readFds) - {ev.fd}
      ensures old(Exact()) ==> (Exact() <==> ev.fd !in Watched())
    {
      hide Fds;
      FdsRemoved(table[..], index, ev);
      LeaveTable(ev, index);
      Uncache(ev.fd);
    }

    method Uncache(fd: int)
      requires Agrees() && fd >= 0 && readFds <= Watched() + {fd}
      requires (forall g :: g in Watched() ==> g < nfds) && fd < nfds && nfds - 1 in Watched() + {fd}
      modifies this`readFds, this`nfds
      ensures Cached() && readFds == old(readFds) - {fd}
    {
      hide WatchTable.Watched;
      readFds := readFds - {fd};
      if fd + 1 == nfds {
        var n := LargestFd();
        nfds := n + 1;
      }
    }

    /** The loop that recomputes the largest watched descriptor; 0 stands for none as well. */
    method LargestFd() returns (n: int)
      requires Agrees()
      ensures forall fd :: fd in Watched() ==> fd <= n
      ensures n in Watched() || (n == 0 && Watched() == {})
    {
      n := 0;
      for i := 0 to MAX_FD_EVENTS
        invariant n >= 0 && forall j :: 0 <= j < i && table[j] != null ==> table[j].fd <= n
        invariant n == 0 || n in Watched()
      {
        var rev := table[i];
        if rev != null && rev.fd > n {
          assert table[..][i] == rev;
          n := rev.fd;
        }
      }
      assert n == 0 ==> forall fd :: fd in Watched() ==> fd == 0;
    }

    /** ril_event_del: nothing for an event that is not watched, whether the loop knows it or not. */
    method Delete(ev: RilEvent)
      requires Valid() && (ev in events || ev.index < 0 || ev.index >= MAX_FD_EVENTS)
      modifies this`readFds, this`nfds, table, ev`index
      ensures Valid() && events == old(events)
      ensures if 0 <= old(ev.index) < MAX_FD_EVENTS
        then ev.index == -1 && table[..] == old(table[..])[old(ev.index) := null] && readFds == old(readFds) - {ev.fd}
        else unchanged(table) && unchanged(this) && ev.index == old(ev.index)
    {
      if ev.index < 0 || ev.index >= MAX_FD_EVENTS { return; }
      RemoveWatch(ev, ev.index);
    }

    /** The client frees or reuses an event that is not watched. */
    ghost method Forget(ev: RilEvent)
      requires Valid() && ev.index == -1
      modifies this`events
      ensures Valid() && events == old(events) - {ev}
    {
      assert forall i :: 0 <= i < MAX_FD_EVENTS && table[i] != null ==> table[i] != ev;
      events := events - {ev};
    }

    /** nfds is what select needs: one more than the largest watched descriptor. */
    lemma NfdsCoversWatched(i: nat)
      requires Valid() && i < MAX_FD_EVENTS && table[i] != null
      ensures table[i].fd < nfds && (Exact() ==> table[i].fd in readFds)
      ensures exists j :: 0 <= j < MAX_FD_EVENTS && table[j] != null && table[j].fd == nfds - 1
    {
      assert table[..][i].fd in Watched();
      var e: RilEvent :| e in table[..] && e.fd == nfds - 1;
      var j :| 0 <= j < MAX_FD_EVENTS && table[..][j] == e;
      assert table[j] == e;
    }

    /** Select is asked about everything that is watched as long as no two slots watch the same descriptor. */
    lemma DistinctStaysExact(index: nat, fd: int)
      requires Agrees() && index < MAX_FD_EVENTS && table[index] != null && table[index].fd == fd
      ensures fd in Fds(table[..][index := null]) <==>
        exists j :: 0 <= j < MAX_FD_EVENTS && j != index && table[j] != null && table[j].fd == fd
    {
      var t := table[..][index := null];
      if fd in Fds(t) {
        var e: RilEvent :| e in t && e.fd == fd;
        var j :| 0 <= j < |t| && t[j] == e;
        assert table[j] == e;
      }
      if j :| 0 <= j < MAX_FD_EVENTS && j != index && table[j] != null && table[j].fd == fd {
        assert t[j] == table[j];
      }
    }
  }

  lemma FirstFree(t: seq<RilEvent?>, k: nat, i: int)
    requires k < |t| && t[k] == null && null !in t[..k]
    requires 0 <= i < |t| && t[i] == null && null !in t[..i]
    ensures i == k
  {
  }

  lemma WatchedAt(w: WatchTable, i: nat)
    requires i < w.table.Length && w.table[i] != null
    ensures w.table[i].fd in w.Watched()
  {
    assert w.table[..][i] == w.table[i];
  }

  method TwoOnOneDescriptor(persist: bool) returns (w: WatchTable, first: RilEvent, e: RilEvent)
    ensures w.Valid() && e.fd == first.fd == 3 && first.index != e.index
    ensures 0 <= e.index < w.table.Length && w.table[e.index] == e && first in w.events
    ensures 0 <= first.index < w.table.Length && fresh(w) && fresh(w.table) && fresh(first)
  {
    hide WatchTable.Cached, WatchTable.Exact, Fds;
    w := new WatchTable();
    first := new RilEvent(3, persist);
    assert w.table[..][0] == null;
    w.Add(first);
    e := new RilEvent(3, persist);
    ghost var t := w.table[..];
    assert t[if first.index == 0 then 1 else 0] == null;
    w.Add(e);
    assert w.table[..][e.index] == e;
  }

  /** Two events watch one descriptor, and one of them is deleted: the other is watched, but select is not asked. */
  method ForgottenDescriptor(persist: bool) returns (w: WatchTable, e: RilEvent)
    ensures w.Valid() && !w.Exact() && e in w.table[..] && e.fd == 3 && 3 !in w.readFds
  {
    hide WatchTable.Cached, Fds;
    var first;
    w, first, e := TwoOnOneDescriptor(persist);
    w.Delete(first);
    assert w.table[..][e.index] == e;
    WatchedAt(w, e.index);
  }

  /** The table is filled with new events on descriptor `fd`. */
  method FillUp(w: WatchTable, fd: int)
    requires w.Valid() && (forall i :: 0 <= i < w.table.Length ==> w.table[i] == null) && fd >= 0
    modifies w, w.table
    ensures w.Valid() && null !in w.table[..]
  {
    hide WatchTable.Cached;
    for i := 0 to MAX_FD_EVENTS
      invariant w.Valid() && w.table.Length == MAX_FD_EVENTS
      invariant null !in w.table[..i] && forall j :: i <= j < MAX_FD_EVENTS ==> w.table[j] == null
    {
      var e := new RilEvent(fd, false);
      ghost var t := w.table[..];
      assert t[i] == null && t[..i] == w.table[..i];
      w.Add(e);
      FirstFree(t, i, e.index);
      assert w.table[..] == t[i := e] && w.table[..i + 1] == t[..i] + [e];
      assert forall j :: i < j < MAX_FD_EVENTS ==> w.table[j] == w.table[..][j];
    }
    assert w.table[..MAX_FD_EVENTS] == w.table[..];
  }

  /** A ninth event is ignored without notice. */
  method NinthIsIgnored(fd: int) returns (w: WatchTable, e: RilEvent)
    requires fd >= 0
    ensures w.Valid() && e.fd == fd && e.index == -1 && e !in w.table[..] && e in w.events
  {
    hide WatchTable.Cached;
    w := new WatchTable();
    FillUp(w, fd);
    e := new RilEvent(fd, false);
    w.Add(e);
  }

  lemma FdsAdded(t: seq<RilEvent?>, i: nat, ev: RilEvent)
    requires i < |t| && t[i] == null
    ensures Fds(t[i := ev]) == Fds(t) + {ev.fd}
  {
    var u := t[i := ev];
    assert u[i] == ev;
    forall e: RilEvent | e in t ensures e in u {
      var j :| 0 <= j < |t| && t[j] == e;
      assert u[j] == e;
    }
  }

  lemma FdsRemoved(t: seq<RilEvent?>, i: nat, ev: RilEvent)
    requires i < |t| && t[i] == ev
    ensures Fds(t) == Fds(t[i := null]) + {ev.fd}
  {
    var u := t[i := null];
    forall e: RilEvent | e in t && e != ev ensures e in u {
      var j :| 0 <= j < |t| && t[j] == e;
      assert u[j] == e;
    }
  }

  lemma {:induction false} ReadyPrefix(t: seq<RilEvent?>, rfds: set<int>, i: nat, n: nat)
    requires i <= n <= |t|
    ensures Ready(t, rfds, i) <= Ready(t, rfds, n)
  {
    if i == n {
    } else {
      ReadyPrefix(t, rfds, i, n - 1);
    }
  }

  method UnwatchOneShot(loop: EventLoop, w: WatchTable, rev: RilEvent, i: nat)
    requires loop.Valid() && w.Valid() && i < MAX_FD_EVENTS && w.table[i] == rev
    modifies w`readFds, w`nfds, w.table, rev`index
    ensures loop.Valid() && w.Valid()
    ensures if rev.persist then w.table[..] == old(w.table[..]) && rev.index == i && w.readFds == old(w.readFds)
            else w.table[..] == old(w.table[..])[i := null] && rev.index == -1 && w.readFds == old(w.readFds) - {rev.fd}
    ensures old(w.Exact()) && (rev.persist || rev.fd !in w.Watched()) ==> w.Exact()
  {
    hide WatchTable.Watched;
    if rev.persist == false {
      w.RemoveWatch(rev, i);
    }
  }

  /** One ready event: it becomes pending, and stays watched only if it is persistent. */
  method TakeReady(loop: EventLoop, w: WatchTable, rev: RilEvent, i: nat)
    requires loop.Valid() && w.Valid() && i < MAX_FD_EVENTS && w.table[i] == rev && loop.Unlinked(rev)
    modifies loop`pending, loop.PendingRing()`next, loop.PendingRing()`prev, rev`next, rev`prev
    modifies w`readFds, w`nfds, w.table, rev`index
    ensures loop.Valid() && w.Valid()
    ensures loop.pending == old(loop.pending) + [rev] && loop.PendingRing() == old(loop.PendingRing()) + {rev}
    ensures if rev.persist then w.table[..] == old(w.table[..]) && rev.index == i && w.readFds == old(w.readFds)
            else w.table[..] == old(w.table[..])[i := null] && rev.index == -1 && w.readFds == old(w.readFds) - {rev.fd}
    ensures old(w.Exact()) && (rev.persist || rev.fd !in w.Watched()) ==> w.Exact()
  {
    loop.AppendPending(rev);
    UnwatchOneShot(loop, w, rev, i);
  }

  /** What a ready pass leaves in a slot that it has visited. */
  ghost function Left(e: RilEvent?, rfds: set<int>): RilEvent?
    reads (if e == null then {} else {e})`fd, (if e == null then {} else {e})`persist
  {
    if e != null && e.fd in rfds && !e.persist then null else e
  }

  /** One round of the pass. */
  method Visit(loop: EventLoop, w: WatchTable, rfds: set<int>, i: nat) returns (took: bool)
    requires loop.Valid() && w.Valid() && i < MAX_FD_EVENTS
    requires forall e :: e in w.events && e.index >= i ==> loop.Unlinked(e)
    modifies loop`pending, loop.PendingRing()`next, loop.PendingRing()`prev, w.events`next, w.events`prev
    modifies w`readFds, w`nfds, w.table, w.events`index
    ensures loop.Valid() && w.Valid()
    ensures var e := old(w.table[i]);
      && took == (e != null && e.fd in rfds)
      && loop.pending == old(loop.pending) + (if e != null && e.fd in rfds then [e] else [])
      && loop.PendingRing() <= old(loop.PendingRing()) + w.events
      && w.table[..] == old(w.table[..])[i := Left(e, rfds)]
      && (old(w.Exact()) && (Left(e, rfds) == e || e.fd !in w.Watched()) ==> w.Exact())
    ensures forall e :: e in w.events && e.index >= i + 1 ==> loop.Unlinked(e)
  {
    hide Fds;
    var rev := w.table[i];
    took := rev != null && rev.fd in rfds;
    if took {
      TakeReady(loop, w, rev, i);
    }
  }

  /** No two slots watch the same descriptor. */
  ghost predicate DistinctFds(t: seq<RilEvent?>)
    reads (set e: RilEvent | e in t)`fd
  {
    forall i, j :: 0 <= i < j < |t| && t[i] != null && t[j] != null ==> t[i].fd != t[j].fd
  }

  /** The state of the pass after `i` slots, for a table that was `t` and a pending list that was `was`. If no two
      slots watch the same descriptor, then (`exact`) select goes on being asked about all that is watched. */
  ghost predicate Passing(loop: EventLoop, w: WatchTable, rfds: set<int>, t: seq<RilEvent?>, was: seq<RilEvent>,
      events: set<RilEvent>, nodes: set<RilEvent>, exact: bool, i: nat)
    reads loop, loop.TimerRing()`next, loop.TimerRing()`prev, loop.PendingRing()`next, loop.PendingRing()`prev
    reads loop.TimerRing()`timeout, w, w.table, w.events`index, w.events`fd, w.events`persist
    reads (set e: RilEvent | e in t)`fd, (set e: RilEvent | e in t)`persist
    reads (set e: RilEvent | e in w.table[..])`fd
  {
    && loop.Valid() && w.Valid() && i <= |t| == MAX_FD_EVENTS
    && (forall j :: 0 <= j < MAX_FD_EVENTS ==> w.table[j] == if j < i then Left(t[j], rfds) else t[j])
    && loop.pending == was + Ready(t, rfds, i)
    && (forall e :: e in w.events && e.index >= i ==> loop.Unlinked(e))
    && loop.PendingRing() <= nodes && w.events == events <= nodes
    && (exact && DistinctFds(t) ==> w.Exact())
  }

  method Round(loop: EventLoop, w: WatchTable, rfds: set<int>, i: nat, ghost t: seq<RilEvent?>,
      ghost was: seq<RilEvent>, ghost events: set<RilEvent>, ghost nodes: set<RilEvent>, ghost exact: bool) returns (took: bool)
    requires i < |t| && Passing(loop, w, rfds, t, was, events, nodes, exact, i)
    modifies loop`pending, w`readFds, w`nfds, w.table, nodes`next, nodes`prev, events`index
    ensures Passing(loop, w, rfds, t, was, events, nodes, exact, i + 1)
    ensures |Ready(t, rfds, i + 1)| == |Ready(t, rfds, i)| + if took then 1 else 0
  {
    hide Fds, EventLoop.Valid, Links, DistinctFds, EventLoop.TimerRing, EventLoop.PendingRing;
    assert w.table[i] == t[i];
    took := Visit(loop, w, rfds, i);
    forall j | 0 <= j < MAX_FD_EVENTS ensures w.table[j] == if j < i + 1 then Left(t[j], rfds) else t[j] {
      assert w.table[j] == w.table[..][j];
    }
    if DistinctFds(t) && t[i] != null && Left(t[i], rfds) != t[i] {
      NobodyElse(w.table[..], t, i);
    }
  }

  /** What is left of a table without double descriptors, with slot `i` empty, does not watch its descriptor. */
  lemma NobodyElse(left: seq<RilEvent?>, t: seq<RilEvent?>, i: nat)
    requires DistinctFds(t) && i < |t| == |left| && t[i] != null && left[i] == null
    requires forall j :: 0 <= j < |t| ==> left[j] == null || left[j] == t[j]
    ensures t[i].fd !in Fds(left)
  {
    forall e: RilEvent | e in left ensures e.fd != t[i].fd {
      var j :| 0 <= j < |left| && left[j] == e;
    }
  }

  lemma NoneReadyYet(t: seq<RilEvent?>, rfds: set<int>)
    ensures Ready(t, rfds, 0) == []
  {
  }

  /** processReadReadies: visits the slots in order until `n` ready events have become pending. The events
      it takes are those that are ready in the `i` slots it visits. `nodes` are the events involved, `t` the
      table and `was` the pending events at the start. */
  method ProcessReadReadies(loop: EventLoop, w: WatchTable, rfds: set<int>, n: nat,
      ghost t: seq<RilEvent?>, ghost was: seq<RilEvent>, ghost events: set<RilEvent>, ghost nodes: set<RilEvent>, ghost exact: bool)
    returns (i: nat)
    requires |t| == MAX_FD_EVENTS && Passing(loop, w, rfds, t, was, events, nodes, exact, 0)
    modifies loop`pending, w`readFds, w`nfds, w.table, nodes`next, nodes`prev, events`index
    ensures Passing(loop, w, rfds, t, was, events, nodes, exact, i)
    ensures |Ready(t, rfds, i)| <= n && (i < MAX_FD_EVENTS ==> |Ready(t, rfds, i)| == n)
  {
    hide *;
    NoneReadyYet(t, rfds);
    i := 0;
    var left := n;
    while i < MAX_FD_EVENTS && left > 0
      invariant i <= MAX_FD_EVENTS == |t| && 0 <= left == n - |Ready(t, rfds, i)|
      invariant Passing(loop, w, rfds, t, was, events, nodes, exact, i)
    {
      var took := Round(loop, w, rfds, i, t, was, events, nodes, exact);
      if took {
        left := left - 1;
      }
      i := i + 1;
    }
  }

  /** A pass may start whenever no watched event is pending or armed. */
  lemma PassStarts(loop: EventLoop, w: WatchTable, rfds: set<int>)
    requires loop.Valid() && w.Valid()
    requires forall e :: e in w.events && e.index >= 0 ==> loop.Unlinked(e)
    ensures Passing(loop, w, rfds, w.table[..], loop.pending, w.events, loop.PendingRing() + w.events, w.Exact(), 0)
  {
  }

  /** Afterwards a persistent event that was taken is still watched and a one-shot event is not. */
  lemma PassEnds(loop: EventLoop, w: WatchTable, rfds: set<int>, t: seq<RilEvent?>, was: seq<RilEvent>,
      events: set<RilEvent>, nodes: set<RilEvent>, exact: bool, i: nat, j: nat)
    requires Passing(loop, w, rfds, t, was, events, nodes, exact, i) && j < i && t[j] != null && t[j].fd in rfds
    ensures t[j] in loop.pending
    ensures t[j].persist ==> w.table[j] == t[j] && t[j].index == j
    ensures t[j].persist && exact && DistinctFds(t) ==> t[j].fd in w.readFds
    ensures !t[j].persist ==> w.table[j] == null
  {
    ReadyPrefix(t, rfds, j + 1, i);
    assert w.table[..][j] == w.table[j];
    assert t[j] in Ready(t, rfds, j + 1);
  }

  /** Select reports how many descriptors are ready; with that count the pass takes every ready event. */
  lemma CountOfReadySuffices(t: seq<RilEvent?>, rfds: set<int>, n: nat, i: nat)
    requires i <= |t| && (i < |t| ==> |Ready(t, rfds, i)| == n) && n >= |Ready(t, rfds, |t|)|
    ensures Ready(t, rfds, i) == Ready(t, rfds, |t|)
  {
    ReadyPrefix(t, rfds, i, |t|);
  }
}
