// File-descriptor responses of libshims/utils/Looper.cpp: how pollInner collects them, and how the
// callback loop and pollOnce use them up.

module LooperResponses {
  import opened Options

  const POLL_WAKE := -1
  const POLL_CALLBACK := -2
  const POLL_TIMEOUT := -3
  const POLL_ERROR := -4

  /** The four flags that epoll reports and that pollInner passes on. */
  datatype Flags = Flags(input: bool, output: bool, error: bool, hangup: bool)

  datatype Request = Request(fd: int, ident: int, callback: Option<nat>, data: int)

  datatype Response = Response(events: Flags, request: Request)

  /** A descriptor that epoll_wait reports. */
  datatype Ready = WakePipe | Fd(fd: int, flags: Flags)

  /** What epoll_wait comes back with. */
  datatype Wakeup = Interrupted | Failed | TimedOut | Events(ready: seq<Ready>)

  /** What a callback does to the looper's descriptors; `ok` is the verdict of epoll_ctl. */
  datatype FdCall = Add(fd: int, ident: int, callback: Option<nat>, data: int, ok: bool) | Remove(fd: int, ok: bool)

  /** One invocation of a callback: its calls back into the looper, and whether it wants to stay. */
  datatype Reaction = Reaction(calls: seq<FdCall>, stays: bool, removed: bool)

  /** The outcome of pollOnce and its out-parameters. */
  datatype Polled = Polled(result: int, fd: int, events: Option<Flags>, data: int)

  predicate WellFormed(r: Request) {
    if r.callback.Some? then r.ident == POLL_CALLBACK else r.ident >= 0
  }

  /** The responses that go to callers of pollOnce, and those that go to callbacks. */
  function Returnable(rs: seq<Response>): seq<Response> {
    if rs == [] then []
    else (if rs[0].request.ident >= 0 then [rs[0]] else []) + Returnable(rs[1..])
  }

  function Callable(rs: seq<Response>): seq<Response> {
    if rs == [] then []
    else (if rs[0].request.ident == POLL_CALLBACK then [rs[0]] else []) + Callable(rs[1..])
  }

  /** The responses that the reported descriptors give rise to. */
  function Signalled(ready: seq<Ready>, requests: map<int, Request>): seq<Response> {
    if ready == [] then []
    else
      var e := ready[|ready| - 1];
      Signalled(ready[..|ready| - 1], requests) +
      if e.Fd? && e.fd in requests then [Response(e.flags, requests[e.fd])] else []
  }

  function Batch(wakeup: Wakeup, requests: map<int, Request>): seq<Response> {
    if wakeup.Events? then Signalled(wakeup.ready, requests) else []
  }

  // ---------- What callbacks do to the registrations ----------

  /** addFd and removeFd on the registrations. */
  function AfterCall(requests: map<int, Request>, allowNonCallbacks: bool, c: FdCall): map<int, Request> {
    match c
    case Add(fd, ident, callback, data, ok) =>
      if ok && (callback.Some? || (allowNonCallbacks && ident >= 0))
      then requests[fd := Request(fd, if callback.Some? then POLL_CALLBACK else ident, callback, data)]
      else requests
    case Remove(fd, ok) => if ok then requests - {fd} else requests
  }

  function AfterCalls(requests: map<int, Request>, allowNonCallbacks: bool, calls: seq<FdCall>): map<int, Request> {
    if calls == [] then requests
    else AfterCall(AfterCalls(requests, allowNonCallbacks, calls[..|calls| - 1]), allowNonCallbacks, calls[|calls| - 1])
  }

  /** A callback makes its calls; its own descriptor is removed when it does not want to stay. */
  function AfterReaction(requests: map<int, Request>, allowNonCallbacks: bool, fd: int, r: Reaction): map<int, Request> {
    var q := AfterCalls(requests, allowNonCallbacks, r.calls);
    if r.stays then q else AfterCall(q, allowNonCallbacks, Remove(fd, r.removed))
  }

  /** The callbacks of a batch, one after the other; `reactions(i)` is what the callback of response `i` does. */
  function AfterCallbacks(requests: map<int, Request>, allowNonCallbacks: bool, batch: seq<Response>,
      reactions: nat -> Reaction): map<int, Request>
  {
    if batch == [] then requests
    else
      var i := |batch| - 1;
      var q := AfterCallbacks(requests, allowNonCallbacks, batch[..i], reactions);
      if batch[i].request.ident == POLL_CALLBACK
      then AfterReaction(q, allowNonCallbacks, batch[i].request.fd, reactions(i)) else q
  }

  /** What a poll meets: the calls that other threads make while it waits, how the wait ends, whether a message
      is delivered, what the message handlers (and other threads meanwhile) call, and what the callbacks do. */
  datatype Poll = Poll(meanwhile: seq<FdCall>, wakeup: Wakeup, dispatched: bool, handlers: seq<FdCall>,
    reactions: nat -> Reaction)

  /** The responses of a poll come from the registrations at the end of its wait. */
  function Pushed(requests: map<int, Request>, allowNonCallbacks: bool, p: Poll): seq<Response> {
    Batch(p.wakeup, AfterCalls(requests, allowNonCallbacks, p.meanwhile))
  }

  /** The registrations after a poll: first the other threads, then the handlers, then the callbacks. */
  function AfterPoll(requests: map<int, Request>, allowNonCallbacks: bool, p: Poll): map<int, Request> {
    var q := AfterCalls(requests, allowNonCallbacks, p.meanwhile);
    AfterCallbacks(if p.dispatched then AfterCalls(q, allowNonCallbacks, p.handlers) else q,
                   allowNonCallbacks, Pushed(requests, allowNonCallbacks, p), p.reactions)
  }

  /** A response as its consumption leaves it: the reference to its callback is dropped. */
  function Spent(r: Response): (s: Response)
    ensures r.request.ident == POLL_CALLBACK ==> s.request.callback.None?
    ensures s.events == r.events && s.request.fd == r.request.fd && s.request.data == r.request.data
    ensures s.request.ident == r.request.ident && (s.request.callback.Some? ==> s == r)
  {
    if r.request.ident == POLL_CALLBACK then r.(request := r.request.(callback := None)) else r
  }

  lemma {:induction false} ReturnableConcat(a: seq<Response>, b: seq<Response>)
    ensures Returnable(a + b) == Returnable(a) + Returnable(b)
  {
    if a == [] {
      assert a + b == b;
    } else {
      ReturnableConcat(a[1..], b);
      assert (a + b)[0] == a[0] && (a + b)[1..] == a[1..] + b;
      var head := if a[0].request.ident >= 0 then [a[0]] else [];
      assert head + (Returnable(a[1..]) + Returnable(b)) == (head + Returnable(a[1..])) + Returnable(b);
    }
  }

  lemma {:induction false} CallableConcat(a: seq<Response>, b: seq<Response>)
    ensures Callable(a + b) == Callable(a) + Callable(b)
  {
    if a == [] {
      assert a + b == b;
    } else {
      CallableConcat(a[1..], b);
      assert (a + b)[0] == a[0] && (a + b)[1..] == a[1..] + b;
      var head := if a[0].request.ident == POLL_CALLBACK then [a[0]] else [];
      assert head + (Callable(a[1..]) + Callable(b)) == (head + Callable(a[1..])) + Callable(b);
    }
  }

  /** `b` is `a` with the first `n` responses consumed. */
  ghost predicate Cleared(a: seq<Response>, b: seq<Response>, n: nat) {
    |a| == |b| && forall k :: 0 <= k < |a| ==> b[k] == if k < n then Spent(a[k]) else a[k]
  }

  lemma {:induction false} ClearedStillReturnable(a: seq<Response>, b: seq<Response>)
    requires |a| == |b| && forall k :: 0 <= k < |a| ==> b[k] == a[k] || b[k] == Spent(a[k])
    ensures Returnable(b) == Returnable(a)
  {
    if a == [] {
    } else {
      ClearedStillReturnable(a[1..], b[1..]);
    }
  }

  /** A response is for a callback or for a caller of pollOnce, never for both and never for neither. */
  lemma {:induction false} EveryResponseHasOneTaker(rs: seq<Response>)
    requires forall r :: r in rs ==> WellFormed(r.request)
    ensures multiset(rs) == multiset(Returnable(rs)) + multiset(Callable(rs))
  {
    if rs == [] {
    } else {
      EveryResponseHasOneTaker(rs[1..]);
      assert rs == [rs[0]] + rs[1..];
      assert WellFormed(rs[0].request);
    }
  }

  /** A response whose request has a callback is for the callback, and one without is for a caller. */
  lemma {:induction false} CallbackTakes(rs: seq<Response>, r: Response)
    requires forall r :: r in rs ==> WellFormed(r.request)
    ensures r in Returnable(rs) <==> r in rs && r.request.callback.None?
    ensures r in Callable(rs) <==> r in rs && r.request.callback.Some?
  {
    if rs == [] {
    } else {
      CallbackTakes(rs[1..], r);
      assert WellFormed(rs[0].request);
      assert r in rs <==> r == rs[0] || r in rs[1..];
    }
  }

  /** Consumed responses hold no callback any more. */
  lemma SpentHoldNothing(a: seq<Response>, b: seq<Response>)
    requires Cleared(a, b, |a|) && forall r :: r in a ==> WellFormed(r.request)
    ensures forall r :: r in b ==> r.request.callback.None?
  {
    forall r | r in b ensures r.request.callback.None? {
      var k :| 0 <= k < |b| && b[k] == r;
      assert WellFormed(a[k].request);
    }
  }

  // ---------- What becomes of a descriptor ----------

  /** A call that is refused: by epoll, or for want of a callback and of a valid identifier. */
  predicate Refused(c: FdCall, allowNonCallbacks: bool) {
    !c.ok || (c.Add? && c.callback.None? && !(allowNonCallbacks && c.ident >= 0))
  }

  predicate Touches(calls: seq<FdCall>, fd: int) { exists i :: 0 <= i < |calls| && calls[i].fd == fd }

  /** Calls on other descriptors, and refused ones, do not change the registration of `fd`. */
  lemma {:induction false} OthersLeaveAlone(requests: map<int, Request>, allowNonCallbacks: bool, calls: seq<FdCall>, fd: int)
    requires forall i :: 0 <= i < |calls| ==> calls[i].fd != fd || Refused(calls[i], allowNonCallbacks)
    ensures var q := AfterCalls(requests, allowNonCallbacks, calls);
      (fd in q <==> fd in requests) && (fd in q ==> q[fd] == requests[fd])
  {
    if calls == [] {
    } else {
      OthersLeaveAlone(requests, allowNonCallbacks, calls[..|calls| - 1], fd);
    }
  }

  /** The last call on a descriptor that is not refused decides about it. */
  lemma {:induction false} LastCallDecides(requests: map<int, Request>, allowNonCallbacks: bool, calls: seq<FdCall>, i: nat)
    requires i < |calls| && !Refused(calls[i], allowNonCallbacks)
    requires forall j :: i < j < |calls| ==> calls[j].fd != calls[i].fd || Refused(calls[j], allowNonCallbacks)
    ensures var q, c := AfterCalls(requests, allowNonCallbacks, calls), calls[i];
      if c.Remove? then c.fd !in q
      else c.fd in q && q[c.fd].fd == c.fd && q[c.fd].callback == c.callback && q[c.fd].data == c.data
           && q[c.fd].ident == if c.callback.Some? then POLL_CALLBACK else c.ident
  {
    if i < |calls| - 1 {
      LastCallDecides(requests, allowNonCallbacks, calls[..|calls| - 1], i);
    }
  }

  /** A callback that returned zero is unregistered, unless epoll refuses, and its calls count in any case. */
  lemma ReactionDecides(requests: map<int, Request>, allowNonCallbacks: bool, fd: int, r: Reaction, other: int)
    ensures var q, c := AfterReaction(requests, allowNonCallbacks, fd, r), AfterCalls(requests, allowNonCallbacks, r.calls);
      && (!r.stays && r.removed ==> fd !in q)
      && (r.stays || !r.removed || other != fd ==>
            (other in q <==> other in c) && (other in q ==> q[other] == c[other]))
  {
  }

  /** A descriptor keeps its registration through the callbacks of a batch if none of them makes a call on it
      and its own want to stay. */
  lemma {:induction false} CallbacksKeep(requests: map<int, Request>, allowNonCallbacks: bool, batch: seq<Response>,
      reactions: nat -> Reaction, fd: int)
    requires forall i: nat :: i < |batch| && batch[i].request.ident == POLL_CALLBACK ==>
      !Touches(reactions(i).calls, fd) && (batch[i].request.fd == fd ==> reactions(i).stays)
    ensures var q := AfterCallbacks(requests, allowNonCallbacks, batch, reactions);
      (fd in q <==> fd in requests) && (fd in q ==> q[fd] == requests[fd])
  {
    hide AfterReaction, AfterCalls;
    if batch == [] {
    } else {
      var i := |batch| - 1;
      CallbacksKeep(requests, allowNonCallbacks, batch[..i], reactions, fd);
      var q := AfterCallbacks(requests, allowNonCallbacks, batch[..i], reactions);
      if batch[i].request.ident == POLL_CALLBACK {
        OthersLeaveAlone(q, allowNonCallbacks, reactions(i).calls, fd);
        ReactionDecides(q, allowNonCallbacks, batch[i].request.fd, reactions(i), fd);
      }
    }
  }

  /** A descriptor is gone after its callback returned zero, unless a later callback registers it again. */
  lemma {:induction false} CallbackUnregisters(requests: map<int, Request>, allowNonCallbacks: bool, batch: seq<Response>,
      reactions: nat -> Reaction, i: nat)
    requires i < |batch| && batch[i].request.ident == POLL_CALLBACK && !reactions(i).stays && reactions(i).removed
    requires forall j: nat :: i < j < |batch| && batch[j].request.ident == POLL_CALLBACK ==>
      !Touches(reactions(j).calls, batch[i].request.fd)
    ensures batch[i].request.fd !in AfterCallbacks(requests, allowNonCallbacks, batch, reactions)
  {
    hide AfterReaction, AfterCalls;
    var k, fd := |batch| - 1, batch[i].request.fd;
    var q := AfterCallbacks(requests, allowNonCallbacks, batch[..k], reactions);
    if i < k {
      CallbackUnregisters(requests, allowNonCallbacks, batch[..k], reactions, i);
      if batch[k].request.ident == POLL_CALLBACK {
        OthersLeaveAlone(q, allowNonCallbacks, reactions(k).calls, fd);
        ReactionDecides(q, allowNonCallbacks, batch[k].request.fd, reactions(k), fd);
      }
    }
    ReactionDecides(q, allowNonCallbacks, batch[k].request.fd, reactions(k), fd);
  }

  lemma {:induction false} SignalledMembers(ready: seq<Ready>, requests: map<int, Request>, r: Response)
    ensures r in Signalled(ready, requests) <==>
      exists i :: 0 <= i < |ready| && ready[i].Fd? && ready[i].fd in requests
        && r.events == ready[i].flags && r.request == requests[ready[i].fd]
  {
    if ready == [] {
    } else {
      var i := |ready| - 1;
      SignalledMembers(ready[..i], requests, r);
      assert forall k :: 0 <= k < i ==> ready[..i][k] == ready[k];
    }
  }

  /** The reported descriptors are answered one by one, in the order of the report. */
  lemma {:induction false} SignalledConcat(a: seq<Ready>, b: seq<Ready>, requests: map<int, Request>)
    ensures Signalled(a + b, requests) == Signalled(a, requests) + Signalled(b, requests)
  {
    if b == [] {
      assert a + b == a;
    } else {
      SignalledConcat(a, b[..|b| - 1], requests);
      assert (a + b)[..|a + b| - 1] == a + b[..|b| - 1];
    }
  }

  lemma {:induction false} OwnDescriptors(requests: map<int, Request>, allowNonCallbacks: bool, calls: seq<FdCall>, fd: int)
    requires fd in requests ==> requests[fd].fd == fd
    ensures var q := AfterCalls(requests, allowNonCallbacks, calls); fd in q ==> q[fd].fd == fd
  {
    if calls == [] {
    } else {
      OwnDescriptors(requests, allowNonCallbacks, calls[..|calls| - 1], fd);
    }
  }

  /** A poll pushes a response for `fd` with the reported flags and the request that stands at the end of the wait;
      there is none for descriptors that are not reported or not registered. */
  lemma PollPushes(requests: map<int, Request>, allowNonCallbacks: bool, p: Poll, fd: int, flags: Flags)
    requires !Touches(p.meanwhile, fd) && fd in requests && forall k :: k in requests ==> requests[k].fd == k
    ensures Response(flags, requests[fd]) in Pushed(requests, allowNonCallbacks, p) <==>
      p.wakeup.Events? && Ready.Fd(fd, flags) in p.wakeup.ready
  {
    OthersLeaveAlone(requests, allowNonCallbacks, p.meanwhile, fd);
    var q := AfterCalls(requests, allowNonCallbacks, p.meanwhile);
    forall k | k in q ensures q[k].fd == k {
      OwnDescriptors(requests, allowNonCallbacks, p.meanwhile, k);
    }
    if p.wakeup.Events? {
      SignalledMembers(p.wakeup.ready, q, Response(flags, requests[fd]));
    }
  }

  /** A poll leaves a registration alone unless a call is made on it or its callback returns zero. */
  lemma PollKeeps(requests: map<int, Request>, allowNonCallbacks: bool, p: Poll, fd: int)
    requires !Touches(p.meanwhile, fd) && (p.dispatched ==> !Touches(p.handlers, fd))
    requires var new_ := Pushed(requests, allowNonCallbacks, p);
      forall i: nat :: i < |new_| && new_[i].request.ident == POLL_CALLBACK ==>
        !Touches(p.reactions(i).calls, fd) && (new_[i].request.fd == fd ==> p.reactions(i).stays)
    ensures var q := AfterPoll(requests, allowNonCallbacks, p);
      (fd in q <==> fd in requests) && (fd in q ==> q[fd] == requests[fd])
  {
    hide AfterCalls, AfterCallbacks;
    var q := AfterCalls(requests, allowNonCallbacks, p.meanwhile);
    OthersLeaveAlone(requests, allowNonCallbacks, p.meanwhile, fd);
    var h := q;
    if p.dispatched {
      OthersLeaveAlone(q, allowNonCallbacks, p.handlers, fd);
      h := AfterCalls(q, allowNonCallbacks, p.handlers);
    }
    CallbacksKeep(h, allowNonCallbacks, Pushed(requests, allowNonCallbacks, p), p.reactions, fd);
  }

  /** What another thread registered last during the wait counts in the same poll: a report is answered with its
      request, and it stands at the end unless a handler or a callback does something about it. */
  lemma MeanwhileDecides(requests: map<int, Request>, allowNonCallbacks: bool, p: Poll, i: nat, flags: Flags)
    requires i < |p.meanwhile| && !Refused(p.meanwhile[i], allowNonCallbacks)
    requires forall j :: i < j < |p.meanwhile| ==>
      p.meanwhile[j].fd != p.meanwhile[i].fd || Refused(p.meanwhile[j], allowNonCallbacks)
    requires p.dispatched ==> !Touches(p.handlers, p.meanwhile[i].fd)
    requires var new_ := Pushed(requests, allowNonCallbacks, p);
      forall k: nat :: k < |new_| && new_[k].request.ident == POLL_CALLBACK ==>
        !Touches(p.reactions(k).calls, p.meanwhile[i].fd) && (new_[k].request.fd == p.meanwhile[i].fd ==> p.reactions(k).stays)
    ensures var q, c := AfterPoll(requests, allowNonCallbacks, p), p.meanwhile[i];
      if c.Remove? then c.fd !in q
      else
        && c.fd in q && q[c.fd].callback == c.callback && q[c.fd].data == c.data
        && (p.wakeup.Events? && Ready.Fd(c.fd, flags) in p.wakeup.ready ==>
              Response(flags, q[c.fd]) in Pushed(requests, allowNonCallbacks, p))
  {
    hide AfterCalls, AfterCallbacks;
    var q, fd := AfterCalls(requests, allowNonCallbacks, p.meanwhile), p.meanwhile[i].fd;
    LastCallDecides(requests, allowNonCallbacks, p.meanwhile, i);
    var h := q;
    if p.dispatched {
      OthersLeaveAlone(q, allowNonCallbacks, p.handlers, fd);
      h := AfterCalls(q, allowNonCallbacks, p.handlers);
    }
    CallbacksKeep(h, allowNonCallbacks, Pushed(requests, allowNonCallbacks, p), p.reactions, fd);
    if fd in q && p.wakeup.Events? {
      SignalledMembers(p.wakeup.ready, q, Response(flags, q[fd]));
    }
  }

  /** What the message handlers registered last stands at the end of the poll, whatever was done before. */
  lemma HandlersDecide(requests: map<int, Request>, allowNonCallbacks: bool, p: Poll, i: nat)
    requires p.dispatched && i < |p.handlers| && !Refused(p.handlers[i], allowNonCallbacks)
    requires forall j :: i < j < |p.handlers| ==>
      p.handlers[j].fd != p.handlers[i].fd || Refused(p.handlers[j], allowNonCallbacks)
    requires var new_ := Pushed(requests, allowNonCallbacks, p);
      forall k: nat :: k < |new_| && new_[k].request.ident == POLL_CALLBACK ==>
        !Touches(p.reactions(k).calls, p.handlers[i].fd) && (new_[k].request.fd == p.handlers[i].fd ==> p.reactions(k).stays)
    ensures var q, c := AfterPoll(requests, allowNonCallbacks, p), p.handlers[i];
      if c.Remove? then c.fd !in q else c.fd in q && q[c.fd].callback == c.callback && q[c.fd].data == c.data
  {
    hide AfterCalls, AfterCallbacks;
    var q := AfterCalls(requests, allowNonCallbacks, p.meanwhile);
    LastCallDecides(q, allowNonCallbacks, p.handlers, i);
    CallbacksKeep(AfterCalls(q, allowNonCallbacks, p.handlers), allowNonCallbacks,
                  Pushed(requests, allowNonCallbacks, p), p.reactions, p.handlers[i].fd);
  }

  class Looper {
    const allowNonCallbacks: bool
    var requests: map<int, Request>
    var responses: seq<Response>
    var responseIndex: nat
    // History: what was ever pushed, returned by pollOnce, and passed to a callback.
    ghost var pushed: seq<Response>
    ghost var returned: seq<Response>
    ghost var called: seq<Response>

    ghost predicate Registry()
      reads this`requests
    {
      forall fd :: fd in requests ==> requests[fd].fd == fd && WellFormed(requests[fd])
    }

    /** Whatever was pushed for a caller of pollOnce has been returned or is still to come, in order;
        whatever was pushed for a callback has been passed to it, in order. */
    ghost predicate Valid()
      reads this
    {
      && Registry()
      && responseIndex <= |responses|
      && (forall r :: r in pushed ==> WellFormed(r.request))
      && returned + Returnable(responses[responseIndex..]) == Returnable(pushed)
      && called == Callable(pushed)
    }

    constructor (allowNonCallbacks: bool)
      ensures Valid() && this.allowNonCallbacks == allowNonCallbacks && pushed == [] && requests == map[]
    {
      this.allowNonCallbacks := allowNonCallbacks;
      requests, responses, responseIndex := map[], [], 0;
      pushed, returned, called := [], [], [];
    }

    /** addFd: 1 on success, -1 when the registration is refused. */
    method AddFd(fd: int, ident: int, callback: Option<nat>, data: int, epollOk: bool) returns (result: int)
      requires Registry()
      modifies this`requests
      ensures Registry()
      ensures result == if epollOk && (callback.Some? || (allowNonCallbacks && ident >= 0)) then 1 else -1
      ensures requests == if result == 1
        then old(requests)[fd := Request(fd, if callback.Some? then POLL_CALLBACK else ident, callback, data)]
        else old(requests)
    {
      var id := ident;
      if callback.None? {
        if !allowNonCallbacks { return -1; }
        if ident < 0 { return -1; }
      } else {
        id := POLL_CALLBACK;
      }
      if !epollOk { return -1; }
      requests := requests[fd := Request(fd, id, callback, data)];
      return 1;
    }

    /** removeFd: 1 when removed, 0 when unknown, -1 when epoll refuses. */
    method RemoveFd(fd: int, epollOk: bool) returns (result: int)
      requires Registry()
      modifies this`requests
      ensures Registry()
      ensures result == if fd !in old(requests) then 0 else if epollOk then 1 else -1
      ensures requests == if epollOk then old(requests) - {fd} else old(requests)
    {
      if fd !in requests { return 0; }
      if !epollOk { return -1; }
      requests := requests - {fd};
      return 1;
    }

    /** The loop over the reported descriptors: wake events aside, each registered one gets a response. */
    method HandleEvents(ready: seq<Ready>)
      requires Registry() && responses == []
      modifies this`responses, this`pushed
      ensures responses == Signalled(ready, requests) && pushed == old(pushed) + responses
      ensures forall r :: r in responses ==> WellFormed(r.request)
    {
      for i := 0 to |ready|
        invariant responses == Signalled(ready[..i], requests) && pushed == old(pushed)
        invariant forall r :: r in responses ==> WellFormed(r.request)
      {
        assert ready[..i + 1][..i] == ready[..i];
        match ready[i]
        case WakePipe =>
        case Fd(fd, flags) =>
          if fd in requests {
            var events := Flags(flags.input, flags.output, flags.error, flags.hangup);
            responses := responses + [Response(events, requests[fd])];
          }
      }
      assert ready[..|ready|] == ready;
      pushed := pushed + responses;
    }

    method React(calls: seq<FdCall>)
      requires Registry()
      modifies this`requests
      ensures Registry() && requests == AfterCalls(old(requests), allowNonCallbacks, calls)
    {
      for i := 0 to |calls|
        invariant Registry() && requests == AfterCalls(old(requests), allowNonCallbacks, calls[..i])
      {
        assert calls[..i + 1][..i] == calls[..i];
        match calls[i]
        case Add(fd, ident, callback, data, ok) => var _ := AddFd(fd, ident, callback, data, ok);
        case Remove(fd, ok) => var _ := RemoveFd(fd, ok);
      }
      assert calls[..|calls|] == calls;
    }

    /** One callback is invoked, and removed if it says so. */
    method Invoke(fd: int, r: Reaction)
      requires Registry()
      modifies this`requests
      ensures Registry() && requests == AfterReaction(old(requests), allowNonCallbacks, fd, r)
    {
      React(r.calls);
      if !r.stays {
        var _ := RemoveFd(fd, r.removed);
      }
    }

    /** The loop that invokes response callbacks. */
    method InvokeCallbacks(reactions: nat -> Reaction) returns (any: bool)
      requires Registry()
      modifies this`requests, this`responses, this`called
      ensures Registry() && Cleared(old(responses), responses, |responses|)
      ensures requests == AfterCallbacks(old(requests), allowNonCallbacks, old(responses), reactions)
      ensures called == old(called) + Callable(old(responses))
      ensures any <==> Callable(old(responses)) != []
    {
      hide AfterReaction, WellFormed;
      ghost var batch := responses;
      any := false;
      for i := 0 to |responses|
        invariant Registry() && Cleared(batch, responses, i)
        invariant requests == AfterCallbacks(old(requests), allowNonCallbacks, batch[..i], reactions)
        invariant called == old(called) + Callable(batch[..i])
        invariant any <==> Callable(batch[..i]) != []
      {
        var r := responses[i];
        assert batch[..i + 1] == batch[..i] + [r] && batch[..i + 1][..i] == batch[..i];
        CallableConcat(batch[..i], [r]);
        if r.request.ident == POLL_CALLBACK {
          called := called + [r];
          Invoke(r.request.fd, reactions(i));
          responses := responses[i := r.(request := r.request.(callback := None))];
          any := true;
        }
      }
      assert batch[..|batch|] == batch;
    }

    /** The part of pollInner up to the messages. */
    method Wait(meanwhile: seq<FdCall>, wakeup: Wakeup) returns (result: int)
      requires Registry()
      modifies this`requests, this`responses, this`responseIndex, this`pushed
      ensures Registry() && requests == AfterCalls(old(requests), allowNonCallbacks, meanwhile)
      ensures responses == Batch(wakeup, requests) && responseIndex == 0 && pushed == old(pushed) + responses
      ensures forall r :: r in responses ==> WellFormed(r.request)
      ensures result == if wakeup.Failed? then POLL_ERROR else if wakeup.TimedOut? then POLL_TIMEOUT else POLL_WAKE
    {
      result := POLL_WAKE;
      responses, responseIndex := [], 0;
      React(meanwhile);
      match wakeup {
        case Interrupted =>
        case Failed => result := POLL_ERROR;
        case TimedOut => result := POLL_TIMEOUT;
        case Events(ready) => HandleEvents(ready);
      }
    }

    /** pollInner. */
    method PollInner(p: Poll) returns (result: int)
      requires Valid() && responseIndex == |responses|
      modifies this
      ensures Valid() && responseIndex == 0
      ensures requests == AfterPoll(old(requests), allowNonCallbacks, p)
      ensures var new_ := Pushed(old(requests), allowNonCallbacks, p);
        && pushed == old(pushed) + new_ && returned == old(returned)
        && called == old(called) + Callable(new_)
      ensures result == POLL_CALLBACK <==> p.dispatched || called != old(called)
      ensures result == POLL_ERROR <==> p.wakeup.Failed? && !p.dispatched && called == old(called)
      ensures result == POLL_TIMEOUT <==> p.wakeup.TimedOut? && !p.dispatched && called == old(called)
      ensures result in {POLL_WAKE, POLL_CALLBACK, POLL_TIMEOUT, POLL_ERROR}
      ensures forall r :: r in responses ==> r.request.callback.None?
    {
      hide WellFormed, AfterCallbacks;
      result := Wait(p.meanwhile, p.wakeup);
      ghost var batch := responses;
      if p.dispatched {
        React(p.handlers);
        result := POLL_CALLBACK;
      }
      var any := InvokeCallbacks(p.reactions);
      if any {
        result := POLL_CALLBACK;
      }
      ReturnableConcat(old(pushed), batch);
      CallableConcat(old(pushed), batch);
      ClearedStillReturnable(batch, responses);
      SpentHoldNothing(batch, responses);
    }

    /** The loop at the head of pollOnce: the next response that has an identifier to return. */
    method DrainNext() returns (next: Option<Response>)
      requires Valid()
      modifies this`responseIndex, this`returned
      ensures Valid()
      ensures var left := old(Returnable(responses[responseIndex..]));
        if left == [] then next == None && responseIndex == |responses| && returned == old(returned)
        else next == Some(left[0]) && left[0].request.ident >= 0 && returned == old(returned) + [left[0]]
    {
      hide Looper.Registry;
      ghost var left := Returnable(responses[responseIndex..]);
      while responseIndex < |responses|
        invariant Valid() && returned == old(returned)
        invariant Returnable(responses[responseIndex..]) == left
      {
        var r := responses[responseIndex];
        assert responses[responseIndex..][1..] == responses[responseIndex + 1..];
        responseIndex := responseIndex + 1;
        if r.request.ident >= 0 {
          returned := returned + [r];
          return Some(r);
        }
      }
      return None;
    }

    /** pollOnce. It returns the responses for its callers one by one, and polls at most once, only when
        none is left. */
    method PollOnce(poll: Poll)
      returns (p: Polled, ghost polls: nat)
      requires Valid()
      modifies this
      ensures Valid()
      ensures polls == if old(Returnable(responses[responseIndex..])) == [] then 1 else 0
      ensures requests == if polls == 0 then old(requests)
        else AfterPoll(old(requests), allowNonCallbacks, poll)
      ensures pushed == old(pushed) + if polls == 1 then Pushed(old(requests), allowNonCallbacks, poll) else []
      ensures called == old(called) + if polls == 1 then Callable(Pushed(old(requests), allowNonCallbacks, poll)) else []
      ensures p.result < 0 ==>
        returned == old(returned) == Returnable(pushed) && polls == 1
        && (p.result == POLL_CALLBACK <==> poll.dispatched || called != old(called))
        && (p.result == POLL_ERROR <==> poll.wakeup.Failed? && !poll.dispatched && called == old(called))
        && (p.result == POLL_TIMEOUT <==> poll.wakeup.TimedOut? && !poll.dispatched && called == old(called))
        && p.result in {POLL_WAKE, POLL_CALLBACK, POLL_TIMEOUT, POLL_ERROR}
        && p == Polled(p.result, 0, None, 0)
      ensures p.result >= 0 ==>
        |returned| > 0 && returned[..|returned| - 1] == old(returned)
        && var r := returned[|returned| - 1]; p == Polled(r.request.ident, r.request.fd, Some(r.events), r.request.data)
    {
      var result := 0;
      polls := 0;
      while true
        invariant Valid() && returned == old(returned) && result <= 0
        invariant if result == 0 then unchanged(this) && polls == 0
                  else polls == 1 && old(Returnable(responses[responseIndex..])) == []
                       && requests == AfterPoll(old(requests), allowNonCallbacks, poll)
                       && pushed == old(pushed) + Pushed(old(requests), allowNonCallbacks, poll)
                       && called == old(called) + Callable(Pushed(old(requests), allowNonCallbacks, poll))
                       && (result == POLL_CALLBACK <==> poll.dispatched || called != old(called))
                       && (result == POLL_ERROR <==> poll.wakeup.Failed? && !poll.dispatched && called == old(called))
                       && (result == POLL_TIMEOUT <==> poll.wakeup.TimedOut? && !poll.dispatched && called == old(called))
                       && result in {POLL_WAKE, POLL_CALLBACK, POLL_TIMEOUT, POLL_ERROR}
        decreases if result == 0 then 1 else 0
      {
        var next := DrainNext();
        if next.Some? {
          var r := next.value;
          return Polled(r.request.ident, r.request.fd, Some(r.events), r.request.data), polls;
        }
        if result != 0 {
          return Polled(result, 0, None, 0), polls;
        }
        result := PollInner(poll);
        polls := 1;
      }
    }
  }
}
