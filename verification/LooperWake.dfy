// The wake-up protocol of libshims/utils/Looper.cpp: any number of sending threads, one polling thread,
// a wake pipe and a lock that is given up while a message is dispatched. One step is what a thread does
// between two points at which another thread can interfere.

module LooperWake {
  import opened Options
  import opened LooperQueue

  const PIPE_CAPACITY: nat := 65536
  const READ_SIZE: nat := 16
  const NANOS_PER_MILLI: int := 1_000_000
  const INT_MAX: int := 0x7FFF_FFFF
  const LONGEST_DELAY: int := (INT_MAX - 1) * NANOS_PER_MILLI  // delays up to here fit an int of milliseconds

  datatype Pc =
    | Outside                                             // not inside pollInner's first part
    | Waiting(entered: int, deadline: Option<int>)        // in epoll_wait
    | Returned(awoken: bool)                              // epoll_wait has returned, lock not yet taken
    | Locked(awoken: bool)                                // lock taken, wake pipe not yet drained
    | Draining                                            // a full read, so the drain goes on
    | Delivering                                          // at the head of the delivery loop
    | Dispatching(message: Envelope)                      // in handleMessage, lock given up

  datatype State = State(
    queue: seq<Envelope>,
    next: Nsecs,              // mNextMessageUptime
    sending: bool,            // mSendingMessage
    pipe: nat,                // bytes in the wake pipe
    pc: Pc,
    wakers: set<nat>,         // senders that are about to call wake()
    now: int,
    log: seq<Envelope>,       // all messages ever sent
    delivered: seq<Envelope>,
    removed: seq<Envelope>
  )

  const INITIAL := State([], LLONG_MAX, false, 0, Outside, {}, 0, [], [], [])

  datatype Step =
    | Tick(to: int)
    | Send(sender: nat, uptime: Nsecs, handler: nat, what: int)
    | Write(sender: nat)                                  // the write in wake(), after the lock is released
    | Wake                                                // wake() called by anybody
    | Remove(pattern: Pattern)
    | Enter(timeoutMillis: int, messageMillis: int)
    | Return(awoken: bool)                                // epoll_wait returns: event, timeout or error
    | Acquire
    | Read                                                // one read of awoken()
    | SkipDrain                                           // no wake event: timeout, error or other descriptors
    | Deliver
    | EndDispatch
    | Leave                                               // nothing is due: settle the next wake-up, unlock

  /** May another thread take mLock? */
  predicate Unlocked(pc: Pc) { !pc.Locked? && !pc.Draining? && !pc.Delivering? }

  /** Between the drain of the pipe and the final release of the lock. */
  predicate InRegion(pc: Pc) { pc.Draining? || pc.Delivering? || pc.Dispatching? }

  function Min(a: nat, b: nat): nat { if a < b then a else b }

  /** What toMillisecondTimeoutDelay promises: -1 when the delay does not fit an int, otherwise the delay
      rounded up to milliseconds, and 0 for a time that has passed. */
  predicate DelayMillis(now: int, until: int, millis: int) {
    if until <= now then millis == 0
    else if until > now + LONGEST_DELAY then millis == -1
    else millis > 0 && until <= now + millis * NANOS_PER_MILLI < until + NANOS_PER_MILLI
  }

  /** The timeout that pollInner hands to epoll_wait. */
  function EffectiveTimeout(timeoutMillis: int, next: Nsecs, messageMillis: int): int {
    if timeoutMillis != 0 && next != LLONG_MAX && messageMillis >= 0
       && (timeoutMillis < 0 || messageMillis < timeoutMillis)
    then messageMillis else timeoutMillis
  }

  predicate Enabled(s: State, a: Step) {
    match a
    case Tick(to) => s.now <= to
    case Send(id, _, _, _) => Unlocked(s.pc) && id !in s.wakers
    case Write(id) => id in s.wakers
    case Wake => true
    case Remove(_) => Unlocked(s.pc)
    case Enter(_, m) => s.pc.Outside? && DelayMillis(s.now, s.next, m)
    case Return(awoken) => s.pc.Waiting? && (awoken ==> s.pipe > 0)
    case Acquire => s.pc.Returned?
    case Read => s.pc == Locked(true) || s.pc.Draining?
    case SkipDrain => s.pc == Locked(false)
    case Deliver => s.pc.Delivering? && s.queue != [] && s.queue[0].uptime <= s.now
    case EndDispatch => s.pc.Dispatching?
    case Leave => s.pc.Delivering? && (s.queue == [] || s.queue[0].uptime > s.now)
  }

  /** A write of one byte; a full pipe refuses it (EAGAIN). */
  function Poke(pipe: nat): nat { if pipe < PIPE_CAPACITY then pipe + 1 else pipe }

  function Apply(s: State, a: Step): State
    requires Enabled(s, a)
  {
    match a
    case Tick(to) => s.(now := to)
    case Send(id, uptime, handler, what) =>
      var e := Envelope(uptime, handler, what, |s.log|);
      s.(queue := Inserted(s.queue, e), log := s.log + [e],
         wakers := if !s.sending && Rank(s.queue, uptime) == 0 then s.wakers + {id} else s.wakers)
    case Write(id) => s.(pipe := Poke(s.pipe), wakers := s.wakers - {id})
    case Wake => s.(pipe := Poke(s.pipe))
    case Remove(p) => s.(queue := Kept(s.queue, p), removed := s.removed + Dropped(s.queue, p))
    case Enter(timeout, m) =>
      var t := EffectiveTimeout(timeout, s.next, m);
      s.(pc := Waiting(s.now, if t < 0 then None else Some(s.now + t * NANOS_PER_MILLI)))
    case Return(awoken) => s.(pc := Returned(awoken))
    case Acquire => s.(pc := Locked(s.pc.awoken))
    case Read =>
      s.(pipe := s.pipe - Min(s.pipe, READ_SIZE),
         pc := if s.pipe >= READ_SIZE then Draining else Delivering,
         next := if s.pipe >= READ_SIZE then s.next else LLONG_MAX)
    case SkipDrain => s.(pc := Delivering, next := LLONG_MAX)
    case Deliver =>
      s.(queue := s.queue[1..], delivered := s.delivered + [s.queue[0]],
         sending := true, pc := Dispatching(s.queue[0]))
    case EndDispatch => s.(sending := false, pc := Delivering)
    case Leave => s.(next := if s.queue == [] then LLONG_MAX else s.queue[0].uptime, pc := Outside)
  }

  // ---------- The invariant ----------

  /** A message that is due before the poller intends to look is covered: a byte is in the wake pipe, or
      a sender is about to write one. */
  predicate Covered(s: State) {
    s.queue != [] && s.queue[0].uptime < s.next ==> s.pipe > 0 || s.wakers != {}
  }

  /** All messages are accounted for: queued, delivered or removed, and each once. */
  ghost predicate Accounted(s: State) {
    && multiset(s.log) == multiset(s.queue) + multiset(s.delivered) + multiset(s.removed)
    && forall k :: 0 <= k < |s.log| ==> s.log[k].order == k
  }

  ghost predicate Inv(s: State) {
    && Sorted(s.queue)
    && (forall e :: e in s.queue ==> e.order < |s.log|)
    && (s.sending <==> s.pc.Dispatching?)
    && (s.pc.Delivering? || s.pc.Dispatching? ==> s.next == LLONG_MAX)
    && (!InRegion(s.pc) ==> Covered(s))
    && (s.pc.Waiting? ==> s.pc.entered <= s.now)
  }

  lemma StepKeepsInv(s: State, a: Step)
    requires Inv(s) && Enabled(s, a)
    ensures Inv(Apply(s, a))
  {
    match a
    case Send(id, uptime, handler, what) =>
      var e := Envelope(uptime, handler, what, |s.log|);
      InsertedStaysSorted(s.queue, e);
      InsertedAddsOne(s.queue, e);
    case Remove(p) =>
      KeptStaysSorted(s.queue, p);
      KeptMembers(s.queue, p);
    case _ =>
  }

  lemma SendIsAccounted(s: State, e: Envelope)
    requires Accounted(s) && e.order == |s.log|
    ensures multiset(s.log + [e]) == multiset(Inserted(s.queue, e)) + multiset(s.delivered) + multiset(s.removed)
    ensures forall k :: 0 <= k <= |s.log| ==> (s.log + [e])[k].order == k
  {
    InsertedAddsOne(s.queue, e);
    assert multiset(s.log + [e]) == multiset(s.log) + multiset{e};
  }

  lemma RemovalIsAccounted(s: State, p: Pattern)
    requires Accounted(s)
    ensures multiset(s.log) ==
      multiset(Kept(s.queue, p)) + multiset(s.delivered) + multiset(s.removed + Dropped(s.queue, p))
  {
    KeptPartitions(s.queue, p);
    assert multiset(s.removed + Dropped(s.queue, p)) == multiset(s.removed) + multiset(Dropped(s.queue, p));
  }

  lemma DeliveryIsAccounted(s: State)
    requires Accounted(s) && s.queue != []
    ensures multiset(s.log) == multiset(s.queue[1..]) + multiset(s.delivered + [s.queue[0]]) + multiset(s.removed)
  {
    var q, e := s.queue[1..], s.queue[0];
    assert s.queue == [e] + q;
    assert multiset(s.queue) == multiset{e} + multiset(q);
    assert multiset(s.delivered + [e]) == multiset(s.delivered) + multiset{e};
  }

  lemma StepKeepsAccounts(s: State, a: Step)
    requires Accounted(s) && Enabled(s, a)
    ensures Accounted(Apply(s, a))
  {
    match a
    case Send(id, uptime, handler, what) => SendIsAccounted(s, Envelope(uptime, handler, what, |s.log|));
    case Remove(p) => RemovalIsAccounted(s, p);
    case Deliver => DeliveryIsAccounted(s);
    case _ =>
  }

  // ---------- Every run ----------

  /** `trace` lists the states that the steps go through, from the initial one on. */
  ghost predicate IsRun(trace: seq<State>, steps: seq<Step>) {
    && |trace| == |steps| + 1 && trace[0] == INITIAL
    && forall k :: 0 <= k < |steps| ==> Enabled(trace[k], steps[k]) && trace[k + 1] == Apply(trace[k], steps[k])
  }

  lemma {:induction false} RunKeepsInv(trace: seq<State>, steps: seq<Step>, k: nat)
    requires IsRun(trace, steps) && k < |trace|
    ensures Inv(trace[k]) && Accounted(trace[k])
  {
    if k == 0 {
    } else {
      RunKeepsInv(trace, steps, k - 1);
      StepKeepsInv(trace[k - 1], steps[k - 1]);
      StepKeepsAccounts(trace[k - 1], steps[k - 1]);
    }
  }

  /** No lost wake-up, in every interleaving. */
  lemma NoLostWakeup(trace: seq<State>, steps: seq<Step>, k: nat)
    requires IsRun(trace, steps) && k < |trace|
    ensures var s := trace[k];
      !InRegion(s.pc) && s.queue != [] && s.queue[0].uptime < s.next ==> s.pipe > 0 || s.wakers != {}
  {
    RunKeepsInv(trace, steps, k);
  }

  /** What it is for: a poller that sleeps, with no wake-up under way, sleeps until at most a millisecond
      after the first message is due (or until it looked, if that was later). It has no deadline only if its
      caller gave it none and the message is so far away that its delay does not fit an int. */
  lemma SleepsNoLongerThanDue(trace: seq<State>, steps: seq<Step>, e: nat, k: nat)
    requires IsRun(trace, steps) && e < k < |trace| && steps[e].Enter? && steps[e].timeoutMillis <= INT_MAX
    requires forall j :: e < j <= k ==> trace[j].pc.Waiting?
    requires trace[k].queue != [] && trace[k].pipe == 0 && trace[k].wakers == {}
    requires trace[k].queue[0].uptime < LLONG_MAX
    ensures var w, due := trace[k].pc, trace[k].queue[0].uptime;
      if w.deadline.Some? then w.deadline.value < due + NANOS_PER_MILLI || w.deadline.value <= w.entered
      else steps[e].timeoutMillis < 0 && due > w.entered + LONGEST_DELAY
  {
    RunKeepsInv(trace, steps, k);
    StaysAsleep(trace, steps, e, k);
  }

  lemma {:induction false} StaysAsleep(trace: seq<State>, steps: seq<Step>, e: nat, k: nat)
    requires IsRun(trace, steps) && e < k < |trace| && steps[e].Enter?
    requires forall j :: e < j <= k ==> trace[j].pc.Waiting?
    ensures trace[k].next == trace[e].next && trace[k].pc == trace[e + 1].pc
  {
    if k > e + 1 {
      StaysAsleep(trace, steps, e, k - 1);
      assert trace[k] == Apply(trace[k - 1], steps[k - 1]);
    } else {
      assert trace[k] == Apply(trace[e], steps[e]);
    }
  }

  /** A delivered message is the first of the queue by uptime and then by order of sending, it is taken off
      the queue, and it is never early. */
  lemma DeliversTheFirst(trace: seq<State>, steps: seq<Step>, k: nat)
    requires IsRun(trace, steps) && k < |steps| && steps[k] == Step.Deliver
    ensures var q, e := trace[k].queue, trace[k + 1].pc.message;
      && trace[k + 1].delivered == trace[k].delivered + [e]
      && e.uptime <= trace[k].now
      && e in q && (forall f :: f in q && f != e ==> e.uptime < f.uptime || (e.uptime == f.uptime && e.order < f.order))
      && e !in trace[k + 1].queue
  {
    RunKeepsInv(trace, steps, k);
    assert trace[k + 1] == Apply(trace[k], Step.Deliver);
    var q := trace[k].queue;
    forall f | f in q && f != q[0] ensures Before(q[0], f) {
      var j :| 0 <= j < |q| && q[j] == f;
    }
  }

  /** At the unlock that ends pollInner's first part the next wake-up time is that of the first message. */
  lemma SettlesNextUptime(trace: seq<State>, steps: seq<Step>, k: nat)
    requires IsRun(trace, steps) && k < |steps| && steps[k] == Leave
    ensures trace[k + 1].next == if trace[k + 1].queue == [] then LLONG_MAX else trace[k + 1].queue[0].uptime
    ensures forall f :: f in trace[k + 1].queue ==> trace[k + 1].next <= f.uptime && f.uptime > trace[k].now
  {
    RunKeepsInv(trace, steps, k);
    assert trace[k + 1] == Apply(trace[k], Leave);
    var q := trace[k].queue;
    forall f | f in q ensures q[0].uptime <= f.uptime {
      var j :| 0 <= j < |q| && q[j] == f;
    }
  }

  /** Of the messages ever sent, each is queued, delivered or removed, exactly once. */
  lemma EachMessageOnce(trace: seq<State>, steps: seq<Step>, k: nat, i: nat)
    requires IsRun(trace, steps) && k < |trace| && i < |trace[k].log|
    ensures var s := trace[k]; var e := s.log[i];
      multiset(s.queue)[e] + multiset(s.delivered)[e] + multiset(s.removed)[e] == 1
  {
    RunKeepsInv(trace, steps, k);
    OnceInLog(trace[k].log, i);
  }

  lemma {:induction false} OnceInLog(log: seq<Envelope>, i: nat)
    requires i < |log| && forall k :: 0 <= k < |log| ==> log[k].order == k
    ensures multiset(log)[log[i]] == 1
  {
    assert log == log[..i] + [log[i]] + log[i + 1..];
    assert log[i] !in log[..i] && log[i] !in log[i + 1..];
  }

  // ---------- What the steps come to, on the states of a run ----------

  /** A poll honours its caller and the next message. It waits forever only if the caller allows that and no
      message is due within the longest delay. Otherwise it waits no longer than the caller allows, at most a
      millisecond (rounded up) beyond the next message, and it gives up early for no other reason. */
  lemma PollHonoursCallerAndMessage(trace: seq<State>, steps: seq<Step>, e: nat)
    requires IsRun(trace, steps) && e < |steps| && steps[e].Enter? && steps[e].timeoutMillis <= 0x7FFF_FFFF
    ensures var now, next, t := trace[e].now, trace[e].next, steps[e].timeoutMillis;
      && trace[e + 1].pc.Waiting? && trace[e + 1].pc.entered == now
      && var d := trace[e + 1].pc.deadline;
      && (d.None? <==> t < 0 && (next == LLONG_MAX || next > now + 0x7FFF_FFFE * 1_000_000))
      && (d.Some? ==>
            && d.value >= now
            && (t >= 0 ==> d.value <= now + t * 1_000_000)
            && (next < LLONG_MAX ==> d.value <= now || d.value < next + 1_000_000)
            && ((t >= 0 && d.value == now + t * 1_000_000) || (next < LLONG_MAX && d.value >= next)))
  {
    assert trace[e + 1] == Apply(trace[e], steps[e]);
  }

  /** A call that does not want to wait does not wait, whatever is queued. */
  lemma ZeroTimeoutDoesNotWait(trace: seq<State>, steps: seq<Step>, e: nat)
    requires IsRun(trace, steps) && e < |steps| && steps[e].Enter? && steps[e].timeoutMillis == 0
    ensures trace[e + 1].pc == Waiting(trace[e].now, Some(trace[e].now))
  {
    assert trace[e + 1] == Apply(trace[e], steps[e]);
  }

  /** A sender wakes the poller iff no message is being dispatched and all queued messages are due later than
      its own, and its message is queued with the time, the handler and the type it was sent with. */
  lemma WhoWakes(trace: seq<State>, steps: seq<Step>, k: nat)
    requires IsRun(trace, steps) && k < |steps| && steps[k].Send?
    ensures var a, s, t := steps[k], trace[k], trace[k + 1];
      && (a.sender in t.wakers <==> !s.pc.Dispatching? && forall f :: f in s.queue ==> a.uptime < f.uptime)
      && (forall id :: id != a.sender ==> (id in t.wakers <==> id in s.wakers))
      && t.log == s.log + [Envelope(a.uptime, a.handler, a.what, |s.log|)]
      && multiset(t.queue) == multiset(s.queue) + multiset{Envelope(a.uptime, a.handler, a.what, |s.log|)}
  {
    RunKeepsInv(trace, steps, k);
    var a, s := steps[k], trace[k];
    assert trace[k + 1] == Apply(s, a);
    InsertedAddsOne(s.queue, Envelope(a.uptime, a.handler, a.what, |s.log|));
    if s.queue != [] {
      assert s.queue[0] in s.queue;
      forall f | f in s.queue ensures s.queue[0].uptime <= f.uptime {
        var j :| 0 <= j < |s.queue| && s.queue[j] == f;
      }
    }
  }

  /** A wake-up leaves the pipe readable, and the pipe never holds more than its capacity. */
  lemma WakingFillsThePipe(trace: seq<State>, steps: seq<Step>, k: nat)
    requires IsRun(trace, steps) && k < |steps|
    ensures trace[k].pipe <= PIPE_CAPACITY
    ensures steps[k].Write? || steps[k].Wake? ==>
      trace[k + 1].pipe == (if trace[k].pipe == 65536 then 65536 else trace[k].pipe + 1) > 0
    ensures !steps[k].Write? && !steps[k].Wake? && !steps[k].Read? ==> trace[k + 1].pipe == trace[k].pipe
  {
    PipeHolds(trace, steps, k);
    assert trace[k + 1] == Apply(trace[k], steps[k]);
  }

  lemma {:induction false} PipeHolds(trace: seq<State>, steps: seq<Step>, k: nat)
    requires IsRun(trace, steps) && k < |trace|
    ensures trace[k].pipe <= PIPE_CAPACITY
  {
    if k > 0 {
      PipeHolds(trace, steps, k - 1);
      assert trace[k] == Apply(trace[k - 1], steps[k - 1]);
    }
  }

  /** The drain goes on while reads are full, so that it ends with an empty pipe: 16 bytes at a time. */
  lemma DrainEmptiesThePipe(trace: seq<State>, steps: seq<Step>, k: nat)
    requires IsRun(trace, steps) && k < |steps| && steps[k] == Read
    ensures trace[k + 1].pc.Delivering? <==> trace[k].pipe < 16
    ensures trace[k + 1].pc.Delivering? ==> trace[k + 1].pipe == 0 && trace[k + 1].next == LLONG_MAX
    ensures !trace[k + 1].pc.Delivering? ==> trace[k + 1].pc.Draining? && trace[k + 1].pipe == trace[k].pipe - 16
  {
    assert trace[k + 1] == Apply(trace[k], Read);
  }

  /** Nothing but the clock holds the poller up: inside pollInner, and outside its wait, it always has a step to
      take; and the lock is free while it waits and while it dispatches. */
  lemma PollerNeverStuck(trace: seq<State>, steps: seq<Step>, k: nat, sender: nat, uptime: Nsecs, handler: nat, what: int,
      p: Pattern)
    requires IsRun(trace, steps) && k < |trace|
    ensures var s := trace[k];
      && (s.pc.Outside? || Enabled(s, Return(false)) || Enabled(s, Acquire) || Enabled(s, Read) || Enabled(s, SkipDrain)
          || (Enabled(s, Step.Deliver) != Enabled(s, Leave)) || Enabled(s, Step.EndDispatch))
      && (s.pc.Outside? || s.pc.Waiting? || s.pc.Dispatching? ==>
            (sender in s.wakers || Enabled(s, Step.Send(sender, uptime, handler, what))) && Enabled(s, Step.Remove(p)))
  {
    RunKeepsInv(trace, steps, k);
  }

  /** A removal takes away exactly the messages of the handler, or only those of one type. */
  lemma RemovesWhatWasAskedFor(trace: seq<State>, steps: seq<Step>, k: nat, f: Envelope)
    requires IsRun(trace, steps) && k < |steps| && steps[k].Remove?
    ensures var p := steps[k].pattern;
      f in trace[k + 1].queue <==>
        f in trace[k].queue && (f.handler != p.handler || (p.what.Some? && f.what != p.what.value))
  {
    assert trace[k + 1] == Apply(trace[k], steps[k]);
    KeptMembers(trace[k].queue, steps[k].pattern);
  }

  predicate Leads(s: State, a: Step, t: State) { Enabled(s, a) && t == Apply(s, a) }

  /** The states of a whole round, in which the message `e` arrives. */
  function Round(sender: nat, e: Envelope): seq<State> {
    var sent := State([e], LLONG_MAX, false, 0, Waiting(0, None), {sender}, 0, [e], [], []);
    var back := State([], LLONG_MAX, false, 0, Delivering, {}, 0, [e], [e], []);
    [INITIAL, INITIAL.(pc := Waiting(0, None)), sent,
     sent.(pipe := 1, wakers := {}),
     sent.(pipe := 1, wakers := {}, pc := Returned(true)),
     sent.(pipe := 1, wakers := {}, pc := Locked(true)),
     sent.(wakers := {}, pc := Delivering),
     back.(sending := true, pc := Dispatching(e)),
     back, back.(pc := Outside)]
  }

  lemma RoundSends(sender: nat, e: Envelope)
    requires e.order == 0
    ensures var r := Round(sender, e);
      Leads(r[0], Enter(-1, -1), r[1]) && Leads(r[1], Step.Send(sender, e.uptime, e.handler, e.what), r[2])
      && Leads(r[2], Write(sender), r[3])
  {
  }

  lemma RoundWakes(sender: nat, e: Envelope)
    ensures var r := Round(sender, e);
      Leads(r[3], Return(true), r[4]) && Leads(r[4], Acquire, r[5]) && Leads(r[5], Read, r[6])
  {
  }

  lemma RoundDelivers(sender: nat, e: Envelope)
    requires e.uptime <= 0
    ensures var r := Round(sender, e);
      Leads(r[6], Step.Deliver, r[7]) && Leads(r[7], Step.EndDispatch, r[8]) && Leads(r[8], Leave, r[9])
  {
  }

  /** A whole round: the poller sleeps without end, a message wakes it, is delivered, and the poller is back. */
  lemma OneRound(sender: nat, e: Envelope) returns (trace: seq<State>, steps: seq<Step>)
    requires e.uptime <= 0 && e.order == 0
    ensures steps == [Enter(-1, -1), Step.Send(sender, e.uptime, e.handler, e.what), Write(sender), Return(true), Acquire,
                      Read, Step.Deliver, Step.EndDispatch, Leave]
    ensures IsRun(trace, steps)
    ensures trace[1].pc == Waiting(0, None) && trace[2].wakers == {sender} && trace[3].pipe == 1
    ensures trace[7].pc == Dispatching(e) && trace[7].sending
    ensures trace[9] == State([], LLONG_MAX, false, 0, Outside, {}, 0, [e], [e], [])
  {
    hide Apply, Enabled;
    steps := [Enter(-1, -1), Step.Send(sender, e.uptime, e.handler, e.what), Write(sender), Return(true), Acquire,
              Read, Step.Deliver, Step.EndDispatch, Leave];
    trace := Round(sender, e);
    RoundSends(sender, e);
    RoundWakes(sender, e);
    RoundDelivers(sender, e);
    forall k | 0 <= k < 9 ensures Leads(trace[k], steps[k], trace[k + 1]) {
    }
  }

  // ---------- The object takes these steps ----------

  /** The looper's fields are those of the state. */
  ghost predicate Represents(l: Looper, s: State)
    reads l
  {
    l.envelopes == s.queue && l.sendingMessage == s.sending && l.nextMessageUptime == s.next
  }

  /** sendMessageAtTime under the lock; the sender goes on to wake() exactly when the step says so. */
  method Send(l: Looper, ghost s: State, sender: nat, e: Envelope) returns (wakes: bool)
    requires Represents(l, s) && e.order == |s.log|
    requires Enabled(s, Step.Send(sender, e.uptime, e.handler, e.what))
    modifies l
    ensures Represents(l, Apply(s, Step.Send(sender, e.uptime, e.handler, e.what)))
    ensures wakes <==> sender in Apply(s, Step.Send(sender, e.uptime, e.handler, e.what)).wakers
  {
    wakes := l.SendMessageAtTime(e);
  }

  /** removeMessages. */
  method Remove(l: Looper, ghost s: State, p: Pattern)
    requires Represents(l, s) && Enabled(s, Step.Remove(p))
    modifies l
    ensures Represents(l, Apply(s, Step.Remove(p)))
  {
    l.RemoveMessages(p);
  }

  /** The end of event handling: the last read of the wake pipe, or none at all. */
  method StartDelivery(l: Looper, ghost s: State)
    requires Represents(l, s) && (Enabled(s, SkipDrain) || (Enabled(s, Read) && s.pipe < READ_SIZE))
    modifies l
    ensures Represents(l, Apply(s, if Enabled(s, SkipDrain) then SkipDrain else Read))
  {
    l.StartDelivery();
  }

  /** One round of the delivery loop: a delivery if a message is due, otherwise the end of the loop. */
  method Deliver(l: Looper, ghost s: State, now: int) returns (due: Option<Envelope>)
    requires Represents(l, s) && s.pc.Delivering? && s.next == LLONG_MAX && now == s.now
    modifies l
    ensures due.Some? ==> Enabled(s, Step.Deliver) && Represents(l, Apply(s, Step.Deliver))
    ensures due.Some? ==> Apply(s, Step.Deliver).pc == Dispatching(due.value)
    ensures due.None? ==> Enabled(s, Leave) && Represents(l, Apply(s, Leave))
  {
    due := l.TakeDue(now);
  }

  /** Back from the handler. */
  method EndDispatch(l: Looper, ghost s: State)
    requires Represents(l, s) && Enabled(s, Step.EndDispatch)
    modifies l
    ensures Represents(l, Apply(s, Step.EndDispatch))
  {
    l.EndDispatch();
  }
}
