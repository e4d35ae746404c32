// The circular doubly linked lists of libril/ril_event.cpp, with their sentinels.

module RilLists {

  datatype Timeval = Timeval(sec: int, usec: int)

  /** struct ril_event. A sentinel is one too. */
  class RilEvent {
    var next: RilEvent?
    var prev: RilEvent?
    var fd: int
    var index: int
    var persist: bool
    var timeout: Timeval

    /** ril_event_set. */
    constructor (fd: int, persist: bool)
      ensures next == null && prev == null && this.fd == fd && index == -1 && this.persist == persist
    {
      next, prev := null, null;
      this.fd, index, this.persist, timeout := fd, -1, persist, Timeval(0, 0);
    }

    /** init_list. */
    constructor Sentinel()
      ensures next == this && prev == this && fd == -1 && timeout == Timeval(0, 0)
    {
      next, prev := this, this;
      fd, index, persist, timeout := -1, 0, false, Timeval(0, 0);
    }
  }

  /** Entry `k` of the ring that starts with the first item of `s` and ends with the sentinel. */
  function At(head: RilEvent, s: seq<RilEvent>, k: int): RilEvent {
    if 0 <= k < |s| then s[k] else head
  }

  /** No node occurs twice on the ring. */
  ghost predicate Distinct(head: RilEvent, s: seq<RilEvent>) {
    head !in s && forall i, j :: 0 <= i < j < |s| ==> s[i] != s[j]
  }

  /** The ring through `head` holds exactly the items of `s`, in both directions. */
  ghost predicate Linked(head: RilEvent, s: seq<RilEvent>)
    reads (set e | e in [head] + s)`next, (set e | e in [head] + s)`prev
  {
    Distinct(head, s) && Links(head, s)
  }

  ghost predicate Links(head: RilEvent, s: seq<RilEvent>)
    reads (set e | e in [head] + s)`next, (set e | e in [head] + s)`prev
  {
    && head.next == At(head, s, 0) && head.prev == At(head, s, |s| - 1)
    && (forall i {:trigger s[i].next} :: 0 <= i < |s| ==> s[i].next == At(head, s, i + 1))
    && (forall i {:trigger s[i].prev} :: 0 <= i < |s| ==> s[i].prev == At(head, s, i - 1))
  }

  lemma DistinctInsert(head: RilEvent, s: seq<RilEvent>, k: nat, ev: RilEvent)
    requires Distinct(head, s) && k <= |s| && ev != head && ev !in s
    ensures Distinct(head, s[..k] + [ev] + s[k..])
  {
    var t := s[..k] + [ev] + s[k..];
    forall i, j | 0 <= i < j < |t| ensures t[i] != t[j] {
      var i', j' := if i < k then i else i - 1, if j < k then j else j - 1;
      if i != k && j != k { assert t[i] == s[i'] && t[j] == s[j'] && s[i'] != s[j']; }
    }
  }

  function Removed<T>(s: seq<T>, k: nat): seq<T>
    requires k < |s|
  {
    s[..k] + s[k + 1..]
  }

  lemma DistinctRemove(head: RilEvent, s: seq<RilEvent>, k: nat)
    requires Distinct(head, s) && k < |s|
    ensures Distinct(head, Removed(s, k))
    ensures s[k] !in Removed(s, k)
  {
    var t := Removed(s, k);
    forall i | 0 <= i < |t| ensures t[i] == s[if i < k then i else i + 1] {}
  }

  /** addToList: links `ev` in before `list`, which is the sentinel or an item. */
  method AddToList(ev: RilEvent, list: RilEvent, ghost head: RilEvent, ghost s: seq<RilEvent>, ghost k: nat)
    requires Linked(head, s) && k <= |s| && list == At(head, s, k)
    requires ev != head && ev !in s
    modifies (set e | e in [head, ev] + s)`next, (set e | e in [head, ev] + s)`prev
    ensures Linked(head, s[..k] + [ev] + s[k..])
  {
    assert list.prev == At(head, s, k - 1);
    ev.next := list;
    ev.prev := list.prev;
    ev.prev.next := ev;
    list.prev := ev;
    DistinctInsert(head, s, k, ev);
    LinksInsert(ev, head, s, k);
  }

  lemma LinksInsert(ev: RilEvent, head: RilEvent, s: seq<RilEvent>, k: nat)
    requires k <= |s| && ev.next == At(head, s, k) && ev.prev == At(head, s, k - 1)
    requires head.next == if k == 0 then ev else At(head, s, 0)
    requires head.prev == if k == |s| then ev else At(head, s, |s| - 1)
    requires forall i {:trigger s[i].next} :: 0 <= i < |s| ==>
      s[i].next == if i == k - 1 then ev else At(head, s, i + 1)
    requires forall i {:trigger s[i].prev} :: 0 <= i < |s| ==>
      s[i].prev == if i == k then ev else At(head, s, i - 1)
    ensures Links(head, s[..k] + [ev] + s[k..])
  {
    var t := s[..k] + [ev] + s[k..];
    forall i | 0 <= i < |t| ensures t[i].next == At(head, t, i + 1) {
      if i < k { assert t[i] == s[i]; }
      if i > k { assert t[i] == s[i - 1]; }
    }
    forall i | 0 <= i < |t| ensures t[i].prev == At(head, t, i - 1) {
      if i < k { assert t[i] == s[i]; }
      if i > k { assert t[i] == s[i - 1]; }
    }
  }

  /** removeFromList. */
  method RemoveFromList(ev: RilEvent, ghost head: RilEvent, ghost s: seq<RilEvent>, ghost k: nat)
    requires Linked(head, s) && k < |s| && ev == s[k]
    modifies (set e | e in [head] + s)`next, (set e | e in [head] + s)`prev
    ensures Linked(head, Removed(s, k))
    ensures ev.next == null && ev.prev == null
  {
    assert s[k].next == At(head, s, k + 1) && s[k].prev == At(head, s, k - 1);
    ev.next.prev := ev.prev;
    ev.prev.next := ev.next;
    ev.next := null;
    ev.prev := null;
    DistinctRemove(head, s, k);
    LinksRemove(head, s, k, Removed(s, k));
  }

  lemma LinksRemove(head: RilEvent, s: seq<RilEvent>, k: nat, t: seq<RilEvent>)
    requires k < |s| && |t| == |s| - 1
    requires forall i :: 0 <= i < |t| ==> t[i] == s[if i < k then i else i + 1]
    requires head.next == At(head, s, if k == 0 then 1 else 0)
    requires head.prev == At(head, s, if k == |s| - 1 then k - 1 else |s| - 1)
    requires forall i {:trigger s[i].next} :: 0 <= i < |s| && i != k ==>
      s[i].next == At(head, s, if i == k - 1 then k + 1 else i + 1)
    requires forall i {:trigger s[i].prev} :: 0 <= i < |s| && i != k ==>
      s[i].prev == At(head, s, if i == k + 1 then k - 1 else i - 1)
    ensures Links(head, t)
  {
  }

  lemma Behind(head: RilEvent, s: seq<RilEvent>)
    requires Distinct(head, s) && s != []
    ensures Removed(s, 0) == s[1..] && s[0] !in s[1..]
  {
    DistinctRemove(head, s, 0);
    assert s[..0] + s[1..] == s[1..];
  }

  /** removeFromList on the first item. */
  method RemoveFirst(ev: RilEvent, ghost head: RilEvent, ghost s: seq<RilEvent>)
    requires Linked(head, s) && s != [] && ev == s[0]
    modifies (set e | e in [head] + s)`next, (set e | e in [head] + s)`prev
    ensures Linked(head, s[1..]) && ev !in s[1..]
    ensures ev.next == null && ev.prev == null
  {
    Behind(head, s);
    RemoveFromList(ev, head, s, 0);
  }
}
