/**
 The queue of posted events of bundle/nginx-1.11.2/src/event/ngx_event_posted.c, a ring through the events themselves,
 and what becomes of it when the allocator of semaphores clears an event that is still in it.
 */
module PostedEvents {

  /** An event, or the head of the ring. */
  class Event {
    var prev: Event?
    var next: Event?
    var posted: bool
  }

  /** The head, and then the events in order. */
  ghost function Nodes(head: Event, q: seq<Event>): (s: seq<Event>)
    ensures |s| == |q| + 1 && s[0] == head
  {
    [head] + q
  }

  ghost predicate Distinct(s: seq<Event>)
  {
    forall i, j :: 0 <= i < j < |s| ==> s[i] != s[j]
  }

  /** Node i and the one after it point at each other. */
  ghost predicate Tied(s: seq<Event>, i: nat)
    requires i + 1 < |s|
    reads s
  {
    s[i].next == s[i + 1] && s[i + 1].prev == s[i]
  }

  /** The first k events are linked both ways, and then comes the way back to the head, or an event that leads nowhere. */
  ghost predicate Linked(head: Event, q: seq<Event>, k: nat)
    requires k <= |q|
    reads head, q
  {
    var s := Nodes(head, q);
    && Distinct(s)
    && (forall i :: 0 <= i < k ==> Tied(s, i))
    && if k == |q| then s[k].next == head && head.prev == s[k]
       else s[k].next == s[k + 1] && s[k + 1].next == null && head.prev != head
  }

  ghost predicate Ring(head: Event, q: seq<Event>)
    reads head, q
  {
    Linked(head, q, |q|) && forall i :: 0 <= i < |q| ==> q[i].posted
  }

  /** ngx_post_event. */
  method Post(head: Event, ev: Event, ghost q: seq<Event>)
    requires Ring(head, q) && ev != head && (ev.posted <==> ev in q)
    modifies head, ev, q
    ensures Ring(head, if ev in q then q else q + [ev])
  {
    if !ev.posted {
      ghost var s, t := Nodes(head, q), Nodes(head, q + [ev]);
      assert t == s + [ev] && s[|q|] != ev;
      ev.posted := true;
      ev.prev := head.prev;
      ev.prev.next := ev;
      ev.next := head;
      head.prev := ev;
      forall i | 0 <= i < |q|
        ensures Tied(t, i)
      {
        assert old(Tied(s, i)) && s[i] != s[|q|];
      }
      assert Tied(t, |q|);
    }
  }

  /** The allocator's way with the event of a semaphore that is handed out again. */
  method Clear(ev: Event)
    modifies ev
    ensures ev.prev == null && ev.next == null && !ev.posted
  {
    ev.prev, ev.next, ev.posted := null, null, false;
  }

  /** Nothing posted; an event taken off the queue, to be handled next; or a link followed that is null. */
  datatype Delivery = Empty | Delivered(ev: Event) | Fault

  /** One turn of ngx_event_process_posted. */
  method Deliver(head: Event, ghost q: seq<Event>, ghost k: nat) returns (r: Delivery)
    requires k <= |q| && Linked(head, q, k)
    modifies head, q
    ensures if q == [] then r == Empty
            else if k == 0 then r == Fault
            else r == Delivered(q[0]) && Linked(head, q[1..], k - 1)
  {
    FirstOf(head, q, k);
    if head.prev == head {
      return Empty;
    }
    var ev := head.next;
    if ev == null {
      return Fault;
    }
    ev.posted := false;
    if ev.next == null {
      return Fault;
    }
    ev.next.prev := ev.prev;
    if ev.prev == null {
      return Fault;
    }
    ev.prev.next := ev.next;
    FirstOff(head, q);
    ghost var s, t := Nodes(head, q), Nodes(head, q[1..]);
    assert k == 1 || Tied(t, 0);
    forall i | 1 <= i < k - 1
      ensures Tied(t, i)
    {
      assert old(Tied(s, i + 1));
    }
    return Delivered(ev);
  }

  /** What the turn comes to see. */
  lemma FirstOf(head: Event, q: seq<Event>, k: nat)
    requires k <= |q| && Linked(head, q, k)
    ensures q == [] <==> head.prev == head
    ensures q != [] ==> head.next == q[0]
    ensures k > 0 ==> q[0].prev == head && q[0].next == if |q| == 1 then head else q[1]
    ensures q != [] && k == 0 ==> q[0].next == null
  {
    var s := Nodes(head, q);
    if q != [] {
      assert s[1] == q[0] && s[0] != s[|q|];
    }
    if k > 0 {
      assert Tied(s, 0);
      assert k > 1 ==> Tied(s, 1);
    }
  }

  /** The nodes without the first event. */
  lemma FirstOff(head: Event, q: seq<Event>)
    requires q != [] && Distinct(Nodes(head, q))
    ensures var s, t := Nodes(head, q), Nodes(head, q[1..]);
            Distinct(t) && forall i :: 1 <= i < |t| ==> t[i] == s[i + 1]
  {
    var s, t := Nodes(head, q), Nodes(head, q[1..]);
    assert forall i :: 0 <= i < |t| ==> t[i] == s[if i == 0 then 0 else i + 1];
  }

  /** An event cleared while it is not in the queue leaves the queue alone; one that is in it tears it. */
  method Reuse(head: Event, ev: Event, ghost q: seq<Event>) returns (ghost k: nat)
    requires Ring(head, q) && ev != head
    modifies ev
    ensures k <= |q| && (k < |q| ==> q[k] == ev) && (k == |q| <==> ev !in q)
    ensures Linked(head, q, k)
  {
    ghost var s := Nodes(head, q);
    k := |q|;
    if ev in q {
      k :| 0 <= k < |q| && q[k] == ev;
      assert s[k + 1] == ev && s[0] != s[|q|] && Tied(s, k);
    }
    Clear(ev);
    forall i | 0 <= i < k
      ensures Tied(s, i)
    {
      assert old(Tied(s, i));
      if k == |q| {
        assert i > 0 ==> s[i] == q[i - 1];
        assert s[i + 1] == q[i];
      }
    }
    assert k == |q| > 0 ==> s[k] == q[k - 1];
  }

  /** ngx_event_process_posted, the handlers posting nothing further. */
  method ProcessPosted(head: Event, ghost q: seq<Event>, ghost k: nat) returns (ok: bool, log: seq<Event>)
    requires k <= |q| && Linked(head, q, k)
    modifies head, q
    ensures ok <==> k == |q|
    ensures log == q[..k]
  {
    hide Linked;
    ghost var n := 0;
    log := [];
    assert q[0..] == q;
    while true
      invariant n <= k && log == q[..n] && Linked(head, q[n..], k - n)
      decreases k - n
    {
      var r := Deliver(head, q[n..], k - n);
      match r
      case Empty => return true, log;
      case Fault => return false, log;
      case Delivered(ev) =>
        log := log + [ev];
        assert q[n..][1..] == q[n + 1..];
        n := n + 1;
    }
  }

  /**
   A semaphore handed out again: the events posted before are all delivered, in order, exactly if its event is not
   among them; else those in front of it are, and then a null link is followed.
   */
  method ReuseThenProcess(head: Event, ev: Event, ghost q: seq<Event>) returns (ok: bool, log: seq<Event>)
    requires Ring(head, q) && ev != head
    modifies head, ev, q
    ensures ok <==> ev !in q
    ensures ok ==> log == q
    ensures !ok ==> |log| < |q| && log == q[..|log|] && q[|log|] == ev
  {
    ghost var k := Reuse(head, ev, q);
    hide Linked, Ring;
    ok, log := ProcessPosted(head, q, k);
    assert q[..|q|] == q;
  }
}
