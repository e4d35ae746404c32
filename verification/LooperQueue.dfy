// The message queue of libshims/utils/Looper.cpp and the sections that hold mLock.

module LooperQueue {
  import opened Options

  const LLONG_MAX: int := 0x7FFF_FFFF_FFFF_FFFF

  type Nsecs = t: int | -LLONG_MAX - 1 <= t <= LLONG_MAX

  /** A queued message; `order` counts the sends, so it tells messages of equal uptime apart. */
  datatype Envelope = Envelope(uptime: Nsecs, handler: nat, what: int, order: nat)

  /** Which messages removeMessages is after: those of a handler, or only those of one type. */
  datatype Pattern = Pattern(handler: nat, what: Option<int>) {
    predicate Matches(e: Envelope) {
      e.handler == handler && (what.None? || e.what == what.value)
    }
  }

  // ---------- The queue as a sequence ----------

  predicate Before(a: Envelope, b: Envelope) {
    a.uptime < b.uptime || (a.uptime == b.uptime && a.order < b.order)
  }

  ghost predicate Sorted(q: seq<Envelope>) {
    forall i, j :: 0 <= i < j < |q| ==> Before(q[i], q[j])
  }

  /** How many leading messages are due no later than `uptime`. */
  function Rank(q: seq<Envelope>, uptime: Nsecs): (i: nat)
    ensures i <= |q| && (forall k :: 0 <= k < i ==> q[k].uptime <= uptime)
    ensures i < |q| ==> q[i].uptime > uptime
  {
    if q == [] || q[0].uptime > uptime then 0 else 1 + Rank(q[1..], uptime)
  }

  function Inserted(q: seq<Envelope>, e: Envelope): seq<Envelope> {
    var i := Rank(q, e.uptime);
    q[..i] + [e] + q[i..]
  }

  function Kept(q: seq<Envelope>, p: Pattern): seq<Envelope> {
    if q == [] then [] else (if p.Matches(q[0]) then [] else [q[0]]) + Kept(q[1..], p)
  }

  function Dropped(q: seq<Envelope>, p: Pattern): seq<Envelope> {
    if q == [] then [] else (if p.Matches(q[0]) then [q[0]] else []) + Dropped(q[1..], p)
  }

  lemma {:induction false} RankUnique(q: seq<Envelope>, uptime: Nsecs, i: nat)
    requires i <= |q| && forall k :: 0 <= k < i ==> q[k].uptime <= uptime
    requires i < |q| ==> q[i].uptime > uptime
    ensures Rank(q, uptime) == i
  {
    if i == 0 {
    } else {
      RankUnique(q[1..], uptime, i - 1);
    }
  }

  /** A message that is sent later than all queued ones goes behind those of equal uptime. */
  lemma InsertedStaysSorted(q: seq<Envelope>, e: Envelope)
    requires Sorted(q) && forall f :: f in q ==> f.order < e.order
    ensures Sorted(Inserted(q, e))
  {
    hide Rank;
    var i := Rank(q, e.uptime);
    forall k | i <= k < |q| ensures Before(e, q[k]) {
      if k > i { assert Before(q[i], q[k]); }
    }
    forall k | 0 <= k < i ensures Before(q[k], e) {
      assert q[k] in q;
    }
  }

  lemma InsertedAddsOne(q: seq<Envelope>, e: Envelope)
    ensures multiset(Inserted(q, e)) == multiset(q) + multiset{e}
    ensures forall f :: f in Inserted(q, e) <==> f == e || f in q
  {
    var i := Rank(q, e.uptime);
    assert q == q[..i] + q[i..];
  }

  lemma {:induction false} KeptMembers(q: seq<Envelope>, p: Pattern)
    ensures forall e :: e in Kept(q, p) <==>
      e in q && !(e.handler == p.handler && (p.what == None || p.what == Some(e.what)))
    ensures forall e :: e in Dropped(q, p) <==>
      e in q && e.handler == p.handler && (p.what == None || p.what == Some(e.what))
  {
    if q == [] {
    } else {
      KeptMembers(q[1..], p);
      assert forall e :: e in q <==> e == q[0] || e in q[1..];
    }
  }

  lemma {:induction false} KeptPartitions(q: seq<Envelope>, p: Pattern)
    ensures multiset(Kept(q, p)) + multiset(Dropped(q, p)) == multiset(q)
  {
    if q == [] {
    } else {
      KeptPartitions(q[1..], p);
      assert q == [q[0]] + q[1..];
    }
  }

  /** Removal keeps the order, and the new head is not earlier than the old one. */
  lemma {:induction false} KeptStaysSorted(q: seq<Envelope>, p: Pattern)
    requires Sorted(q)
    ensures Sorted(Kept(q, p))
    ensures Kept(q, p) != [] ==> q[0].uptime <= Kept(q, p)[0].uptime
  {
    if q == [] {
    } else {
      KeptStaysSorted(q[1..], p);
      KeptMembers(q[1..], p);
      var r := Kept(q[1..], p);
      forall k | 0 <= k < |r| ensures Before(q[0], r[k]) {
        assert r[k] in q[1..];
      }
    }
  }

  // ---------- The sections that hold mLock ----------

  class Looper {
    var envelopes: seq<Envelope>
    var sendingMessage: bool
    var nextMessageUptime: Nsecs

    constructor ()
      ensures envelopes == [] && !sendingMessage && nextMessageUptime == LLONG_MAX
    {
      envelopes, sendingMessage, nextMessageUptime := [], false, LLONG_MAX;
    }

    /** sendMessageAtTime up to the release of the lock; `wakes` tells whether a call of wake() follows. */
    method SendMessageAtTime(e: Envelope) returns (wakes: bool)
      modifies this`envelopes
      ensures envelopes == Inserted(old(envelopes), e)
      ensures wakes <==> !sendingMessage && Rank(old(envelopes), e.uptime) == 0
    {
      var i := 0;
      while i < |envelopes| && e.uptime >= envelopes[i].uptime
        invariant 0 <= i <= |envelopes| && forall k :: 0 <= k < i ==> envelopes[k].uptime <= e.uptime
      {
        i := i + 1;
      }
      RankUnique(envelopes, e.uptime, i);
      envelopes := envelopes[..i] + [e] + envelopes[i..];
      return !sendingMessage && i == 0;
    }

    /** Both removeMessages methods: a scan from the end that removes by index. */
    method RemoveMessages(p: Pattern)
      modifies this`envelopes
      ensures envelopes == Kept(old(envelopes), p)
    {
      var i := |envelopes|;
      while i != 0
        invariant 0 <= i <= |old(envelopes)|
        invariant envelopes == old(envelopes)[..i] + Kept(old(envelopes)[i..], p)
      {
        i := i - 1;
        assert old(envelopes)[i..][1..] == old(envelopes)[i + 1..];
        if p.Matches(envelopes[i]) {
          envelopes := envelopes[..i] + envelopes[i + 1..];
        }
      }
    }

    /** The end of event handling, right before messages are delivered. */
    method StartDelivery()
      modifies this`nextMessageUptime
      ensures nextMessageUptime == LLONG_MAX
    {
      nextMessageUptime := LLONG_MAX;
    }

    /** One round of the delivery loop: takes a due message off, or settles the next wake-up time. */
    method TakeDue(now: int) returns (due: Option<Envelope>)
      requires nextMessageUptime == LLONG_MAX
      modifies this
      ensures due.Some? <==> old(envelopes) != [] && old(envelopes)[0].uptime <= now
      ensures due.Some? ==> old(envelopes) == [due.value] + envelopes && sendingMessage
      ensures due.None? ==> envelopes == old(envelopes) && sendingMessage == old(sendingMessage)
      ensures nextMessageUptime == if due.None? && envelopes != [] then envelopes[0].uptime else LLONG_MAX
    {
      if |envelopes| != 0 {
        var e := envelopes[0];
        if e.uptime <= now {
          envelopes := envelopes[1..];
          sendingMessage := true;
          return Some(e);
        }
        nextMessageUptime := e.uptime;
      }
      return None;
    }

    /** Back from the handler, with the lock reacquired. */
    method EndDispatch()
      modifies this`sendingMessage
      ensures !sendingMessage
    {
      sendingMessage := false;
    }
  }
}
