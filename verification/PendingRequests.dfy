// The linked lists behind the request protocol of libril/ril.cpp: addRequestToList,
// checkAndDequeueRequestInfoIfAck, RIL_onRequestAck and RIL_onRequestComplete.

module PendingRequests {
  import opened Options
  import opened RequestBook

  const NUM_COMMANDS: nat := 146  // entries of s_commands

  /** RequestInfo. `id` stands for its address, which serves as the RIL_Token. */
  class RequestInfo {
    const id: nat
    const token: int
    const slot: nat
    var next: RequestInfo?
    var wasAckSent: bool

    constructor (id: nat, token: int, slot: nat)
      ensures this.id == id && this.token == token && this.slot == slot && next == null && !wasAckSent
    {
      this.id, this.token, this.slot := id, token, slot;
      next, wasAckSent := null, false;
    }
  }

  function At(s: seq<RequestInfo>, k: nat): RequestInfo? { if k < |s| then s[k] else null }

  function Drop(s: seq<RequestInfo>, k: nat): seq<RequestInfo>
    requires k < |s|
  {
    s[..k] + s[k + 1..]
  }

  /** One list, as its head pointer. */
  class RequestList {
    var head: RequestInfo?
    ghost var nodes: seq<RequestInfo>

    ghost function Nodes(): set<RequestInfo>
      reads this
    {
      set n | n in nodes
    }

    ghost predicate Valid()
      reads this, Nodes()`next
    {
      && (forall i, j :: 0 <= i < j < |nodes| ==> nodes[i] != nodes[j])
      && head == At(nodes, 0)
      && forall i {:trigger nodes[i].next} :: 0 <= i < |nodes| ==> nodes[i].next == At(nodes, i + 1)
    }

    constructor ()
      ensures Valid() && nodes == [] && Nodes() == {}
    {
      head, nodes := null, [];
    }

    method Prepend(p: RequestInfo)
      requires Valid() && p !in nodes
      modifies this, p`next
      ensures Valid() && nodes == [p] + old(nodes)
    {
      ghost var s := nodes;
      p.next := head;
      head := p;
      nodes := [p] + nodes;
      forall i | 0 <= i < |nodes| ensures nodes[i].next == At(nodes, i + 1) {
        if i > 0 { assert nodes[i] == s[i - 1] && s[i - 1].next == At(s, i); }
      }
    }

    /** The loop over ppCur. An acknowledgement marks the request, anything else takes it off the list. */
    method CheckAndDequeueIfAck(p: RequestInfo, isAck: bool) returns (found: bool, ghost k: nat)
      requires Valid()
      modifies this, p`wasAckSent, Nodes()`next
      ensures Valid()
      ensures found <==> p in old(nodes)
      ensures found ==> k < |old(nodes)| && old(nodes)[k] == p
      ensures nodes == if found && !isAck then Drop(old(nodes), k) else old(nodes)
      ensures p.wasAckSent == ((found && isAck) || old(p.wasAckSent))
    {
      var prev: RequestInfo? := null;
      var cur := head;
      k := 0;
      while cur != null && cur != p
        invariant k <= |nodes| && cur == At(nodes, k) && unchanged(this)
        invariant prev == if k == 0 then null else nodes[k - 1]
        invariant p !in nodes[..k]
        decreases |nodes| - k
      {
        assert nodes[k].next == At(nodes, k + 1);
        prev, cur := cur, cur.next;
        k := k + 1;
      }
      found := cur != null;
      if found && isAck {
        p.wasAckSent := true;
      } else if found {
        Unlink(prev, p, k);
      } else {
        assert nodes[..k] == nodes;
      }
    }

    method Unlink(prev: RequestInfo?, p: RequestInfo, ghost k: nat)
      requires Valid() && k < |nodes| && nodes[k] == p && prev == if k == 0 then null else nodes[k - 1]
      modifies this, Nodes()`next
      ensures Valid() && nodes == Drop(old(nodes), k)
    {
      ghost var s := nodes;
      assert s[k].next == At(s, k + 1);
      if prev == null {
        head := p.next;
      } else {
        prev.next := p.next;
      }
      nodes := Drop(s, k);
      forall i | 0 <= i < |nodes| ensures nodes[i].next == At(nodes, i + 1) {
        var j := if i < k then i else i + 1;
        assert nodes[i] == s[j] && old(s[j].next) == At(s, j + 1);
      }
    }
  }

  lemma {:induction false} WithoutIsDrop(ids: seq<nat>, k: nat)
    requires k < |ids| && ids[k] !in ids[..k]
    ensures Without(ids, ids[k]) == ids[..k] + ids[k + 1..]
  {
    if k == 0 {
    } else {
      assert ids[0] in ids[..k] && ids[1..][..k - 1] == ids[..k][1..];
      WithoutIsDrop(ids[1..], k - 1);
      assert ids[..k] == [ids[0]] + ids[1..][..k - 1];
    }
  }

  /** All lists together, and the book they implement. */
  class RequestTable {
    const simCount: nat
    const version: int
    const lists: seq<RequestList>
    var nextId: nat
    ghost var all: seq<RequestInfo>  // every request ever added, by identity
    ghost var book: Book

    ghost function All(): set<RequestInfo>
      reads this`all
    {
      set n | n in all
    }

    ghost predicate Valid()
      reads this, lists, All()
    {
      && |lists| == MAX_SLOTS && (forall l, m :: 0 <= l < m < MAX_SLOTS ==> lists[l] != lists[m])
      && |book.lists| == MAX_SLOTS && book.simCount == simCount && book.version == version
      && nextId == |all| == |book.requests|
      && (forall id :: id in book.acked ==> id < |all|)
      && (forall i :: 0 <= i < |all| ==> Faithful(i, book.requests[i], i in book.acked))
      && (forall l :: 0 <= l < MAX_SLOTS ==> Holds(l, book.lists[l]))
    }

    /** Request `i` is what the book says. */
    ghost predicate Faithful(i: nat, info: Info, acked: bool)
      requires i < |all|
      reads this`all, All()
    {
      all[i].id == i && Info(all[i].token, all[i].slot) == info && (all[i].wasAckSent <==> acked)
    }

    /** List `l` holds the requests that the book lists. */
    ghost predicate Holds(l: nat, ids: seq<nat>)
      requires l < |lists|
      reads this`all, lists, All()
    {
      && lists[l].Nodes() <= All()
      && (forall n :: n in lists[l].nodes ==> ListOf(simCount, n.slot) == l)
      && lists[l].Valid()
      && |lists[l].nodes| == |ids|
      && forall i :: 0 <= i < |ids| ==> lists[l].nodes[i].id == ids[i]
    }

    constructor (simCount: nat, version: int)
      ensures Valid() && book == Book(simCount, version, [], [[], [], [], []], {}, [], [])
    {
      hide RequestList.Valid;
      this.simCount, this.version := simCount, version;
      var a := new RequestList();
      var b := new RequestList();
      var c := new RequestList();
      var d := new RequestList();
      lists := [a, b, c, d];
      nextId, all, book := 0, [], Book(simCount, version, [], [[], [], [], []], {}, [], []);
      new;
      forall l | 0 <= l < MAX_SLOTS ensures Holds(l, []) {
        assert lists[l] == if l == 0 then a else if l == 1 then b else if l == 2 then c else d;
      }
    }

    /** addRequestToList. */
    method AddRequestToList(token: int, slot: nat, request: int, alloc: bool) returns (p: RequestInfo?)
      requires Valid()
      modifies this`nextId, this`all, this`book, lists
      ensures Valid()
      ensures p == null <==> request >= NUM_COMMANDS || !alloc
      ensures p == null ==> book == old(book) && all == old(all)
      ensures p != null ==> fresh(p) && p.id == |old(all)| && all == old(all) + [p]
      ensures p != null ==> book == Apply(old(book), Add(token, slot))
    {
      hide RequestList.Valid, ListOf, ResponseType;
      if request >= NUM_COMMANDS { return null; }
      if !alloc { return null; }
      p := new RequestInfo(nextId, token, slot);
      var l := ListOf(simCount, slot);
      assert Holds(l, book.lists[l]);
      lists[l].Prepend(p);
      nextId, all, book := nextId + 1, all + [p], Apply(book, Add(token, slot));
      forall i | 0 <= i < |all| ensures Faithful(i, book.requests[i], i in book.acked) {
        if i < |old(all)| { assert old(Faithful(i, book.requests[i], i in book.acked)); }
      }
      assert old(All()) <= All();
      forall m | 0 <= m < MAX_SLOTS ensures Holds(m, book.lists[m]) {
        assert old(Holds(m, book.lists[m]));
        assert lists[m].Nodes() <= old(lists[m].Nodes()) + {p};
      }
    }

    /** Only pending requests are on a list, and only on the one of their slot. */
    lemma ListedIffPending(p: RequestInfo, l: nat)
      requires Valid() && p in all && l < MAX_SLOTS
      ensures p in lists[l].nodes <==> Pending(book, p.id) && l == ListOf(simCount, p.slot)
      ensures forall i, j :: 0 <= i < j < |book.lists[l]| ==> book.lists[l][i] != book.lists[l][j]
    {
      assert Holds(l, book.lists[l]);
      var ids, nodes := book.lists[l], lists[l].nodes;
      forall n | n in all ensures 0 <= n.id < |all| && all[n.id] == n && Info(n.token, n.slot) == book.requests[n.id] {
        var j :| 0 <= j < |all| && all[j] == n;
        assert Faithful(j, book.requests[j], j in book.acked);
      }
      forall i | 0 <= i < |nodes| ensures 0 <= ids[i] < |all| && nodes[i] == all[ids[i]] {
        assert nodes[i] in All();
      }
      if p.id in ids {
        var i :| 0 <= i < |ids| && ids[i] == p.id;
        assert nodes[i] == all[p.id] == p;
      }
    }

    /** The search through list `l` for request `id`, with what it leaves on every list. */
    method Search(p: RequestInfo, isAck: bool, l: nat, ghost id: nat) returns (found: bool)
      requires Valid() && id < |all| && all[id] == p && l < MAX_SLOTS
      modifies lists, All()
      ensures found <==> p in old(lists[l].nodes)
      ensures forall i :: 0 <= i < |all| ==>
        Faithful(i, book.requests[i], i in book.acked || (i == id && found && isAck))
      ensures forall m :: 0 <= m < MAX_SLOTS ==>
        Holds(m, if m == l && found && !isAck then Without(book.lists[m], id) else book.lists[m])
    {
      assert Holds(l, book.lists[l]) && Faithful(id, book.requests[id], id in book.acked);
      ghost var s, ids := lists[l].nodes, book.lists[l];
      ListedIffPending(p, l);
      ghost var k;
      found, k := lists[l].CheckAndDequeueIfAck(p, isAck);
      if found {
        assert s[k].id == ids[k] == id;
        WithoutIsDrop(ids, k);
      }
      forall i | 0 <= i < |all|
        ensures Faithful(i, book.requests[i], i in book.acked || (i == id && found && isAck))
      {
        assert old(Faithful(i, book.requests[i], i in book.acked));
        if i != id { assert all[i] != p; }
      }
      forall m | 0 <= m < MAX_SLOTS
        ensures Holds(m, if m == l && found && !isAck then Without(book.lists[m], id) else book.lists[m])
      {
        assert old(Holds(m, book.lists[m]));
      }
    }

    /** The search that both callbacks share. `socketId` is what the token's memory says: for a pending
        request that is its slot, for any other token it may be anything. */
    method CheckAndDequeue(p: RequestInfo, isAck: bool, socketId: nat) returns (found: bool)
      requires Valid() && p in all && (Pending(book, p.id) ==> socketId == p.slot)
      modifies this`book, lists, All()
      ensures Valid() && all == old(all)
      ensures found <==> old(Pending(book, p.id))
      ensures book == if !found then old(book) else if isAck then Marked(old(book), p.id) else Dequeued(old(book), p.id)
    {
      hide Pending;
      var l := ListOf(simCount, socketId);
      ListedIffPending(p, l);
      ghost var id :| 0 <= id < |all| && all[id] == p;
      assert Faithful(id, book.requests[id], id in book.acked);
      found := Search(p, isAck, l, id);
      if found {
        book := if isAck then Marked(book, id) else Dequeued(book, id);
      }
    }

    /** RIL_onRequestAck. */
    method OnRequestAck(p: RequestInfo?, socketId: nat) returns (acknowledges: bool)
      requires Valid() && (p != null ==> p in all && (Pending(book, p.id) ==> socketId == p.slot))
      modifies this`book, lists, All()
      ensures Valid() && all == old(all)
      ensures book == if p == null then old(book) else Apply(old(book), Ack(p.id))
      ensures acknowledges == (p != null && old(Pending(book, p.id)))
    {
      if p == null { return false; }
      acknowledges := CheckAndDequeue(p, true, socketId);
      if acknowledges {
        book := book.(acknowledgements := book.acknowledgements + [p.id]);
      }
    }

    /** RIL_onRequestComplete: the answer that goes to the client, if any. */
    method OnRequestComplete(p: RequestInfo?, socketId: nat) returns (answer: Option<Answer>)
      requires Valid() && (p != null ==> p in all && (Pending(book, p.id) ==> socketId == p.slot))
      modifies this`book, lists, All()
      ensures Valid() && all == old(all)
      ensures book == if p == null then old(book) else Apply(old(book), Complete(p.id))
      ensures answer == if p != null && old(Pending(book, p.id)) then Some(book.answers[|book.answers| - 1]) else None
    {
      if p == null { return None; }
      ghost var id :| 0 <= id < |all| && all[id] == p;
      assert Faithful(id, book.requests[id], id in book.acked);
      var found := CheckAndDequeue(p, false, socketId);
      if !found { return None; }
      assert Faithful(id, book.requests[id], id in book.acked);
      var responseType :=
        if version >= 13 && p.wasAckSent then RESPONSE_SOLICITED_ACK_EXP else RESPONSE_SOLICITED;
      var a := Answer(p.id, p.token, p.slot, responseType);
      book := book.(answers := book.answers + [a]);
      return Some(a);
    }
  }

  ghost function Marked(b: Book, id: nat): Book { b.(acked := b.acked + {id}) }

  ghost function Dequeued(b: Book, id: nat): Book
    requires id < |b.requests| && |b.lists| == MAX_SLOTS
  {
    var l := ListOf(b.simCount, b.requests[id].slot);
    b.(lists := b.lists[l := Without(b.lists[l], id)])
  }
}
