// The protocol of pending requests in libril/ril.cpp on values: what adding, acknowledging and completing
// do to the lists of the SIM slots and to the client.

module RequestBook {

  const RESPONSE_SOLICITED := 0
  const RESPONSE_SOLICITED_ACK_EXP := 3
  const MAX_SLOTS: nat := 4

  datatype Info = Info(token: int, slot: nat)

  /** A completion response that went to the client. */
  datatype Answer = Answer(id: nat, token: int, slot: nat, responseType: int)

  /** `requests` holds every request ever added; its index is the identity (the address) of a request. */
  datatype Book = Book(
    simCount: nat,
    version: int,
    requests: seq<Info>,
    lists: seq<seq<nat>>,
    acked: set<nat>,
    acknowledgements: seq<nat>,
    answers: seq<Answer>
  )

  datatype Step = Add(token: int, slot: nat) | Ack(id: nat) | Complete(id: nat)

  /** Slots without a list of their own use the first one. */
  function ListOf(simCount: nat, slot: nat): (l: nat)
    ensures l < MAX_SLOTS
  {
    if 1 <= slot < MAX_SLOTS && simCount > slot then slot else 0
  }

  /** Every SIM slot that is in use has a list of its own. */
  lemma OwnList(simCount: nat, slot: nat)
    ensures slot < 4 && slot < simCount ==> ListOf(simCount, slot) == slot
    ensures slot >= 4 || slot >= simCount ==> ListOf(simCount, slot) == 0
  {
  }

  function Without(s: seq<nat>, id: nat): seq<nat> {
    if s == [] then [] else if s[0] == id then s[1..] else [s[0]] + Without(s[1..], id)
  }

  predicate Pending(b: Book, id: nat) {
    && id < |b.requests| && |b.lists| == MAX_SLOTS
    && id in b.lists[ListOf(b.simCount, b.requests[id].slot)]
  }

  function ResponseType(b: Book, id: nat): int {
    if b.version >= 13 && id in b.acked then RESPONSE_SOLICITED_ACK_EXP else RESPONSE_SOLICITED
  }

  /** A token that is not pending is refused without any effect. */
  function Apply(b: Book, a: Step): Book {
    if |b.lists| != MAX_SLOTS then b
    else match a
      case Add(token, slot) =>
        var l := ListOf(b.simCount, slot);
        b.(requests := b.requests + [Info(token, slot)], lists := b.lists[l := [|b.requests|] + b.lists[l]])
      case Ack(id) =>
        if Pending(b, id) then b.(acked := b.acked + {id}, acknowledgements := b.acknowledgements + [id]) else b
      case Complete(id) =>
        if Pending(b, id) then
          var l := ListOf(b.simCount, b.requests[id].slot);
          b.(lists := b.lists[l := Without(b.lists[l], id)],
             answers := b.answers + [Answer(id, b.requests[id].token, b.requests[id].slot, ResponseType(b, id))])
        else b
  }

  // ---------- What the lists hold ----------

  predicate Answered(b: Book, id: nat) {
    exists k :: 0 <= k < |b.answers| && b.answers[k].id == id
  }

  /** The requests among the first `n` that belong to list `l` and are not answered, newest first. */
  function Outstanding(b: Book, l: nat, n: nat): seq<nat>
    requires n <= |b.requests|
  {
    if n == 0 then []
    else
      (if ListOf(b.simCount, b.requests[n - 1].slot) == l && !Answered(b, n - 1) then [n - 1] else [])
      + Outstanding(b, l, n - 1)
  }

  ghost predicate Inv(b: Book) {
    && |b.lists| == MAX_SLOTS
    && (forall l :: 0 <= l < MAX_SLOTS ==> b.lists[l] == Outstanding(b, l, |b.requests|))
    && (forall k :: 0 <= k < |b.answers| ==> b.answers[k].id < |b.requests|)
    && (forall j, k :: 0 <= j < k < |b.answers| ==> b.answers[j].id != b.answers[k].id)
    && (forall id :: id in b.acked ==> id < |b.requests|)
  }

  lemma {:induction false} OutstandingMembers(b: Book, l: nat, n: nat)
    requires n <= |b.requests|
    ensures forall id :: id in Outstanding(b, l, n) <==>
      0 <= id < n && ListOf(b.simCount, b.requests[id].slot) == l && !Answered(b, id)
  {
    if n == 0 {
    } else {
      OutstandingMembers(b, l, n - 1);
    }
  }

  lemma {:induction false} OutstandingDescends(b: Book, l: nat, n: nat)
    requires n <= |b.requests|
    ensures forall i, j :: 0 <= i < j < |Outstanding(b, l, n)| ==> Outstanding(b, l, n)[i] > Outstanding(b, l, n)[j]
    ensures forall i :: 0 <= i < |Outstanding(b, l, n)| ==> Outstanding(b, l, n)[i] < n
  {
    if n == 0 {
    } else {
      OutstandingDescends(b, l, n - 1);
    }
  }

  /** Only which requests there are and which are answered matters. */
  lemma {:induction false} OutstandingSame(b: Book, c: Book, l: nat, n: nat)
    requires n <= |b.requests| && n <= |c.requests| && b.simCount == c.simCount
    requires forall id :: 0 <= id < n ==> b.requests[id] == c.requests[id] && (Answered(b, id) <==> Answered(c, id))
    ensures Outstanding(b, l, n) == Outstanding(c, l, n)
  {
    if n == 0 {
    } else {
      OutstandingSame(b, c, l, n - 1);
    }
  }

  lemma OutstandingStep(b: Book, l: nat, n: nat)
    requires 0 < n <= |b.requests|
    ensures Outstanding(b, l, n) ==
      (if ListOf(b.simCount, b.requests[n - 1].slot) == l && !Answered(b, n - 1) then [n - 1] else [])
      + Outstanding(b, l, n - 1)
  {
  }

  lemma NothingOutstanding(b: Book, l: nat, id: nat)
    ensures Outstanding(b, l, 0) == [] == Without([], id)
  {
  }

  /** Answering one more request takes exactly it off the outstanding ones. */
  lemma {:induction false} OutstandingWithout(b: Book, c: Book, id: nat, l: nat, n: nat)
    requires n <= |b.requests| && b.requests == c.requests && b.simCount == c.simCount
    requires forall i :: 0 <= i < n ==> (Answered(c, i) <==> Answered(b, i) || i == id)
    ensures Outstanding(c, l, n) == Without(Outstanding(b, l, n), id)
  {
    hide *;
    if n == 0 {
      NothingOutstanding(b, l, id);
      NothingOutstanding(c, l, id);
    } else {
      OutstandingWithout(b, c, id, l, n - 1);
      OutstandingMembers(b, l, n - 1);
      OutstandingStep(b, l, n);
      OutstandingStep(c, l, n);
      WithoutFirst(n - 1, Outstanding(b, l, n - 1), Outstanding(c, l, n - 1), id);
    }
  }

  lemma WithoutFirst(i: nat, s: seq<nat>, t: seq<nat>, id: nat)
    requires t == Without(s, id) && i !in s
    ensures [] + s == s && [] + t == t
    ensures Without([i] + s, id) == if i == id then s else [i] + t
    ensures i == id ==> t == s
  {
    assert ([i] + s)[1..] == s;
    if i == id {
      WithoutAbsent(s, id);
    }
  }

  lemma {:induction false} WithoutAbsent(s: seq<nat>, id: nat)
    requires id !in s
    ensures Without(s, id) == s
  {
    if s == [] {
    } else {
      WithoutAbsent(s[1..], id);
    }
  }

  /** In a book that keeps its invariant a request is pending iff it was added and not answered. */
  lemma PendingIff(b: Book, id: nat)
    requires Inv(b)
    ensures Pending(b, id) <==> id < |b.requests| && !Answered(b, id)
  {
    if id < |b.requests| {
      var l := ListOf(b.simCount, b.requests[id].slot);
      OutstandingMembers(b, l, |b.requests|);
    }
  }

  lemma StepKeepsInv(b: Book, a: Step)
    requires Inv(b)
    ensures Inv(Apply(b, a))
  {
    var c := Apply(b, a);
    match a
    case Add(token, slot) =>
      assert forall id :: Answered(c, id) <==> Answered(b, id);
      forall l | 0 <= l < MAX_SLOTS ensures c.lists[l] == Outstanding(c, l, |c.requests|) {
        OutstandingSame(b, c, l, |b.requests|);
      }
    case Ack(id) =>
      assert forall i :: Answered(c, i) <==> Answered(b, i);
      forall l | 0 <= l < MAX_SLOTS ensures c.lists[l] == Outstanding(c, l, |c.requests|) {
        OutstandingSame(b, c, l, |b.requests|);
      }
    case Complete(id) =>
      if Pending(b, id) {
        PendingIff(b, id);
        CompleteKeepsInv(b, id);
      }
  }

  lemma CompleteKeepsInv(b: Book, id: nat)
    requires Inv(b) && Pending(b, id) && !Answered(b, id)
    ensures Inv(Apply(b, Complete(id)))
  {
    var c := Apply(b, Complete(id));
    var m := |b.answers|;
    assert c.answers[m].id == id;
    forall i ensures Answered(c, i) <==> Answered(b, i) || i == id {
      if Answered(b, i) {
        var k :| 0 <= k < m && b.answers[k].id == i;
        assert c.answers[k].id == i;
      }
    }
    forall l | 0 <= l < MAX_SLOTS ensures c.lists[l] == Outstanding(c, l, |c.requests|) {
      OutstandingWithout(b, c, id, l, |b.requests|);
      OutstandingMembers(b, l, |b.requests|);
      if l != ListOf(b.simCount, b.requests[id].slot) {
        WithoutAbsent(b.lists[l], id);
      }
    }
  }

  // ---------- Every run ----------

  ghost predicate IsRun(trace: seq<Book>, steps: seq<Step>) {
    && |trace| == |steps| + 1
    && trace[0].requests == [] && trace[0].lists == [[], [], [], []]
    && trace[0].acked == {} && trace[0].acknowledgements == [] && trace[0].answers == []
    && forall k :: 0 <= k < |steps| ==> trace[k + 1] == Apply(trace[k], steps[k])
  }

  lemma {:induction false} RunKeepsInv(trace: seq<Book>, steps: seq<Step>, k: nat)
    requires IsRun(trace, steps) && k < |trace|
    ensures Inv(trace[k]) && trace[k].simCount == trace[0].simCount && trace[k].version == trace[0].version
  {
    if k == 0 {
    } else {
      RunKeepsInv(trace, steps, k - 1);
      StepKeepsInv(trace[k - 1], steps[k - 1]);
    }
  }

  /** Each list is the added requests of its slots minus the completed ones, newest first. */
  lemma ListsAreOutstanding(trace: seq<Book>, steps: seq<Step>, k: nat, l: nat)
    requires IsRun(trace, steps) && k < |trace| && l < MAX_SLOTS
    ensures |trace[k].lists| == MAX_SLOTS && trace[k].lists[l] == Outstanding(trace[k], l, |trace[k].requests|)
    ensures forall id: nat :: id in trace[k].lists[l] <==>
      id < |trace[k].requests| && ListOf(trace[k].simCount, trace[k].requests[id].slot) == l && !Answered(trace[k], id)
    ensures forall i, j :: 0 <= i < j < |trace[k].lists[l]| ==> trace[k].lists[l][i] > trace[k].lists[l][j]
  {
    RunKeepsInv(trace, steps, k);
    OutstandingMembers(trace[k], l, |trace[k].requests|);
    OutstandingDescends(trace[k], l, |trace[k].requests|);
  }

  /** Adding a request always succeeds: it joins the front of the list of its slot, and nothing else changes. */
  lemma AddJoinsTheList(trace: seq<Book>, steps: seq<Step>, k: nat)
    requires IsRun(trace, steps) && k < |steps| && steps[k].Add?
    ensures var b, c, a := trace[k], trace[k + 1], steps[k];
      var l := if 1 <= a.slot < 4 && a.slot < b.simCount then a.slot else 0;
      && c.requests == b.requests + [Info(a.token, a.slot)]
      && |c.lists| == 4 && c.lists == b.lists[l := [|b.requests|] + b.lists[l]]
      && c.acked == b.acked && c.acknowledgements == b.acknowledgements && c.answers == b.answers
  {
    RunKeepsInv(trace, steps, k);
    assert trace[k + 1] == Apply(trace[k], steps[k]);
  }

  /** An acknowledgement of a request that is not answered yet goes on to the client, each time it comes. */
  lemma AckIsPassedOn(trace: seq<Book>, steps: seq<Step>, k: nat)
    requires IsRun(trace, steps) && k < |steps| && steps[k].Ack?
    ensures var b, c, id := trace[k], trace[k + 1], steps[k].id;
      && c.acknowledgements == b.acknowledgements + (if id < |b.requests| && !Answered(b, id) then [id] else [])
      && c.requests == b.requests && c.lists == b.lists && c.answers == b.answers
  {
    RunKeepsInv(trace, steps, k);
    PendingIff(trace[k], steps[k].id);
    assert trace[k + 1] == Apply(trace[k], steps[k]);
  }

  /** A request that is acknowledged before it is completed: one acknowledgement, one answer that expects one. */
  lemma AckedRequest(version: int, token: int) returns (trace: seq<Book>, steps: seq<Step>)
    requires version >= 13
    ensures steps == [Add(token, 1), Ack(0), Complete(0)] && IsRun(trace, steps)
    ensures trace[1].lists == [[], [0], [], []]
    ensures trace[3] == Book(2, version, [Info(token, 1)], [[], [], [], []], {0}, [0], [Answer(0, token, 1, 3)])
  {
    steps := [Add(token, 1), Ack(0), Complete(0)];
    var b := Book(2, version, [], [[], [], [], []], {}, [], []);
    var c := Apply(b, steps[0]);
    var d := Apply(c, steps[1]);
    assert [0] + b.lists[1] == [0] && c.lists == [[], [0], [], []];
    trace := [b, c, d, Apply(d, steps[2])];
  }

  /** A request is answered iff it was completed at least once after it was added; two completions, such as
      the fake and the real one of a manual network selection, still make one answer. */
  lemma {:induction false} AnsweredIffCompleted(trace: seq<Book>, steps: seq<Step>, k: nat, id: nat)
    requires IsRun(trace, steps) && k < |trace|
    ensures Answered(trace[k], id) <==>
      exists j :: 0 <= j < k && steps[j] == Complete(id) && id < |trace[j].requests|
    ensures forall x, y :: 0 <= x < y < |trace[k].answers| && trace[k].answers[x].id == id ==>
      trace[k].answers[y].id != id
  {
    RunKeepsInv(trace, steps, k);
    if k == 0 {
    } else {
      AnsweredIffCompleted(trace, steps, k - 1, id);
      RunKeepsInv(trace, steps, k - 1);
      var b, c := trace[k - 1], trace[k];
      assert c == Apply(b, steps[k - 1]);
      PendingIff(b, id);
      if steps[k - 1] == Complete(id) && id < |b.requests| {
        if Pending(b, id) {
          assert c.answers[|b.answers|].id == id;
        } else {
          assert c == b;
        }
      } else {
        AnswersOfOthers(b, steps[k - 1], id);
      }
    }
  }

  lemma AnswersOfOthers(b: Book, a: Step, id: nat)
    requires a != Complete(id) || id >= |b.requests|
    ensures Answered(Apply(b, a), id) <==> Answered(b, id)
  {
    var c := Apply(b, a);
    if Answered(b, id) {
      var k :| 0 <= k < |b.answers| && b.answers[k].id == id;
      assert c.answers[k].id == id;
    }
  }

  /** A request counts as acknowledged iff an acknowledgement arrived while it was pending. */
  lemma {:induction false} AckedIff(trace: seq<Book>, steps: seq<Step>, k: nat, id: nat)
    requires IsRun(trace, steps) && k < |trace|
    ensures id in trace[k].acked <==> exists j :: 0 <= j < k && steps[j] == Ack(id) && Pending(trace[j], id)
  {
    if k == 0 {
    } else {
      AckedIff(trace, steps, k - 1, id);
      assert trace[k] == Apply(trace[k - 1], steps[k - 1]);
    }
  }

  /** The answer of a completion carries the client's serial number and slot, and it asks for an
      acknowledgement iff the version is at least 13 and the request had been acknowledged. */
  lemma AnswerIsRight(trace: seq<Book>, steps: seq<Step>, k: nat, id: nat)
    requires IsRun(trace, steps) && k < |steps| && steps[k] == Complete(id) && Pending(trace[k], id)
    ensures var a := trace[k + 1].answers;
      && |a| == |trace[k].answers| + 1 && a[..|a| - 1] == trace[k].answers
      && a[|a| - 1].id == id
      && Info(a[|a| - 1].token, a[|a| - 1].slot) == trace[k].requests[id]
      && (a[|a| - 1].responseType == 3 <==>
            trace[0].version >= 13
            && exists j :: 0 <= j < k && steps[j] == Ack(id) && Pending(trace[j], id))
      && a[|a| - 1].responseType in {0, 3}
  {
    RunKeepsInv(trace, steps, k);
    AckedIff(trace, steps, k, id);
  }

  /** An acknowledgement or a completion for anything but a pending request does nothing. */
  lemma StaleTokensDoNothing(b: Book, id: nat)
    requires Inv(b) && (id >= |b.requests| || Answered(b, id))
    ensures Apply(b, Ack(id)) == b && Apply(b, Complete(id)) == b
  {
    PendingIff(b, id);
  }
}
