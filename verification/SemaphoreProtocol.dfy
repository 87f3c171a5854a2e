/**
 One semaphore of stream-lua-nginx-module/src/ngx_stream_lua_semaphore.c, as a state machine over the steps
 that Lua code, timers and the posted event can take in any order, and the object whose methods take them.
 A waiter is known by its ticket, the number of waits that were queued before it.
 */
module SemaphoreProtocol {
  import opened Basics

  datatype Outcome = Granted | TimedOut | Cancelled

  datatype State = State(
    resources: int,                // resource_count; see PostFits for the int that holds it
    waitCount: nat,                // wait_count, an unsigned of 32 bits
    queue: seq<nat>,               // wait_queue, head first
    timers: set<nat>,              // waiters whose sleep timer is set
    cleanups: set<nat>,            // waiters whose cleanup handler is set
    posted: bool,                  // the semaphore's event is in the posted queue
    running: bool,                 // its handler has been entered and has not returned
    tickets: nat,                  // waits queued so far
    past: Past)

  /** What has happened so far. */
  datatype Past = Past(
    initial: int,                  // resources at creation
    added: int,                    // resources posted since
    immediate: nat,                // waits that took a resource at once
    grants: seq<nat>,              // waiters woken with a resource, in order
    outcomes: map<nat, Outcome>)

  datatype Step =
    | Post(n: int)
    | Wait(timeout: int)
    | Timeout(w: nat)              // the timer of w fires
    | Cancel(w: nat)               // the thread of w is killed and its cleanup handler called
    | EnterHandler                 // the posted event is taken off its queue and delivered
    | Grant                        // one turn of the handler's loop, up to the resumption
    | LeaveHandler

  function New(n: int): State
  {
    State(n, 0, [], {}, {}, false, false, 0, Past(n, 0, 0, [], map[]))
  }

  predicate Ready(s: State)
  {
    s.queue != [] && s.resources > 0
  }

  /** When a step can be taken.  Resumed threads take steps while the handler runs. */
  predicate Enabled(s: State, step: Step)
  {
    match step
    case Post(_) => true
    case Wait(_) => true
    case Timeout(w) => w in s.timers
    case Cancel(w) => w in s.cleanups
    case EnterHandler => s.posted && !s.running
    case Grant => s.running && Ready(s)
    case LeaveHandler => s.running && !Ready(s)
  }

  function Remove(q: seq<nat>, w: nat): seq<nat>
  {
    if q == [] then [] else if q[0] == w then q[1..] else [q[0]] + Remove(q[1..], w)
  }

  const UNSIGNED: int := 0x1_0000_0000

  function Leave(s: State, w: nat, o: Outcome): State
  {
    s.(waitCount := (s.waitCount - 1) % UNSIGNED,
       queue := Remove(s.queue, w),
       timers := s.timers - {w},
       cleanups := s.cleanups - {w},
       past := s.past.(outcomes := s.past.outcomes[w := o]))
  }

  function Enter(s: State): State
  {
    var w := s.tickets;
    s.(waitCount := (s.waitCount + 1) % UNSIGNED,
       queue := s.queue + [w],
       timers := s.timers + {w},
       cleanups := s.cleanups + {w},
       tickets := w + 1)
  }

  function Next(s: State, step: Step): State
    requires Enabled(s, step)
  {
    match step
    case Post(n) =>
      s.(resources := s.resources + n,
         posted := s.posted || s.queue != [],
         past := s.past.(added := s.past.added + n))
    case Wait(timeout) =>
      if s.queue == [] && s.resources > 0 then
        s.(resources := s.resources - 1, past := s.past.(immediate := s.past.immediate + 1))
      else if timeout == 0 then s
      else Enter(s)
    case Timeout(w) => Leave(s, w, TimedOut)
    case Cancel(w) => Leave(s, w, Cancelled)
    case EnterHandler => s.(posted := false, running := true)
    case Grant =>
      var w := s.queue[0];
      var left := Leave(s, w, Granted);
      left.(resources := s.resources - 1, past := left.past.(grants := s.past.grants + [w]))
    case LeaveHandler => s.(running := false)
  }

  /** Tickets in order of arrival, none of them twice. */
  ghost predicate Ascending(q: seq<nat>)
  {
    forall i, j :: 0 <= i < j < |q| ==> q[i] < q[j]
  }

  /** A waiter is in the queue with its timer and its cleanup handler set, or it has its one outcome. */
  ghost predicate WaitersOk(s: State)
  {
    && Ascending(s.queue)
    && s.waitCount == |s.queue| % UNSIGNED
    && (forall w :: w in s.queue <==> w in s.timers)
    && (forall w :: w in s.queue <==> w in s.cleanups)
    && (forall w :: w in s.queue ==> w < s.tickets && w !in s.past.outcomes)
    && (forall w: nat :: w < s.tickets ==> w in s.queue || w in s.past.outcomes)
    && (forall w :: w in s.past.outcomes ==> w < s.tickets)
  }

  /** Grants follow arrival, and nobody still waiting came before somebody who was granted. */
  ghost predicate Fifo(s: State)
  {
    && Ascending(s.past.grants)
    && (forall g, w :: g in s.past.grants && w in s.queue ==> g < w)
    && (forall g :: g in s.past.grants <==> g in s.past.outcomes && s.past.outcomes[g] == Granted)
  }

  ghost predicate Inv(s: State)
  {
    && WaitersOk(s)
    && Fifo(s)
    && s.past.initial + s.past.added == s.resources + s.past.immediate + |s.past.grants|
    && (Ready(s) ==> s.posted || s.running)
  }

  /** Removing is taking out the first one there is. */
  lemma {:induction false} RemoveAt(q: seq<nat>, w: nat, i: nat)
    requires i <= |q| && (i < |q| ==> q[i] == w) && forall j :: 0 <= j < i ==> q[j] != w
    ensures Remove(q, w) == if i < |q| then q[..i] + q[i + 1..] else q
    decreases i
  {
    if i > 0 {
      var t := q[1..];
      RemoveAt(t, w, i - 1);
      assert q == [q[0]] + t;
      if i < |q| {
        assert q[..i] == [q[0]] + t[..i - 1] && q[i + 1..] == t[i..];
      }
    }
  }

  lemma {:induction false} RemoveFacts(q: seq<nat>, w: nat)
    requires Ascending(q) && w in q
    ensures Ascending(Remove(q, w)) && |Remove(q, w)| == |q| - 1
    ensures forall x :: x in Remove(q, w) <==> x in q && x != w
  {
    var t := q[1..];
    assert q == [q[0]] + t;
    assert forall x :: x in t ==> q[0] < x;
    if q[0] != w {
      RemoveFacts(t, w);
      SmallerFirst(q[0], Remove(t, w));
    }
  }

  lemma SmallerFirst(x: nat, q: seq<nat>)
    requires Ascending(q) && forall y :: y in q ==> x < y
    ensures Ascending([x] + q)
  {
    assert forall i :: 0 <= i < |q| ==> q[i] in q;
  }

  /** Counting up and down modulo 2^32. */
  lemma CountModulo(n: nat)
    ensures (n % UNSIGNED + 1) % UNSIGNED == (n + 1) % UNSIGNED
    ensures n > 0 ==> (n % UNSIGNED - 1) % UNSIGNED == (n - 1) % UNSIGNED
  {
  }

  lemma LeaveKeepsWaiters(s: State, w: nat, o: Outcome)
    requires WaitersOk(s) && w in s.queue
    ensures WaitersOk(Leave(s, w, o))
    ensures forall x :: x in Leave(s, w, o).queue ==> x in s.queue
  {
    CountModulo(|s.queue|);
    RemoveFacts(s.queue, w);
  }

  lemma LeaveKeepsFifo(s: State, w: nat, o: Outcome)
    requires WaitersOk(s) && Fifo(s) && w in s.queue && o != Granted
    ensures Fifo(Leave(s, w, o))
  {
    RemoveFacts(s.queue, w);
  }

  lemma GrantKeepsWaiters(s: State)
    requires WaitersOk(s) && Enabled(s, Grant)
    ensures WaitersOk(Next(s, Grant))
  {
    LeaveKeepsWaiters(s, s.queue[0], Granted);
  }

  lemma GrantKeepsFifo(s: State)
    requires WaitersOk(s) && Fifo(s) && Enabled(s, Grant)
    ensures Fifo(Next(s, Grant))
  {
    var w := s.queue[0];
    assert w in s.queue && forall x :: x in s.queue && x != w ==> w < x;
    RemoveFacts(s.queue, w);
    assert forall i :: 0 <= i < |s.past.grants| ==> s.past.grants[i] in s.past.grants;
  }

  lemma EnterKeeps(s: State)
    requires WaitersOk(s) && Fifo(s)
    ensures WaitersOk(Enter(s)) && Fifo(Enter(s))
  {
    CountModulo(|s.queue|);
    assert forall i :: 0 <= i < |s.queue| ==> s.queue[i] in s.queue;
  }

  /** Every step keeps the invariant. */
  lemma StepInv(s: State, step: Step)
    requires Inv(s) && Enabled(s, step)
    ensures Inv(Next(s, step))
  {
    match step
    case Wait(timeout) => EnterKeeps(s);
    case Timeout(w) => LeaveKeepsWaiters(s, w, TimedOut); LeaveKeepsFifo(s, w, TimedOut);
    case Cancel(w) => LeaveKeepsWaiters(s, w, Cancelled); LeaveKeepsFifo(s, w, Cancelled);
    case Grant => GrantKeepsWaiters(s); GrantKeepsFifo(s);
    case _ =>
  }

  predicate Legal(s: State, steps: seq<Step>)
    decreases |steps|
  {
    steps == [] || (Enabled(s, steps[0]) && Legal(Next(s, steps[0]), steps[1..]))
  }

  function Run(s: State, steps: seq<Step>): State
    requires Legal(s, steps)
    decreases |steps|
  {
    if steps == [] then s else Run(Next(s, steps[0]), steps[1..])
  }

  lemma {:induction false} RunInv(s: State, steps: seq<Step>)
    requires Inv(s) && Legal(s, steps)
    ensures Inv(Run(s, steps))
    decreases |steps|
  {
    if steps != [] {
      StepInv(s, steps[0]);
      RunInv(Next(s, steps[0]), steps[1..]);
    }
  }

  /** What holds after any interleaving from creation. */
  lemma Reachable(n: int, steps: seq<Step>)
    requires Legal(New(n), steps)
    ensures var s := Run(New(n), steps);
            && n + s.past.added == s.resources + s.past.immediate + |s.past.grants|
            && s.waitCount == |s.queue| % UNSIGNED
            && Ascending(s.past.grants)
            && (forall g, w :: g in s.past.grants && w in s.queue ==> g < w)
            && (forall w: nat :: w < s.tickets <==> w in s.queue || w in s.past.outcomes)
            && (forall w :: w in s.queue ==> w !in s.past.outcomes)
            && (s.queue != [] && s.resources > 0 ==> s.posted || s.running)
  {
    RunInv(New(n), steps);
    InitialKept(New(n), steps);
  }

  lemma {:induction false} InitialKept(s: State, steps: seq<Step>)
    requires Legal(s, steps)
    ensures Run(s, steps).past.initial == s.past.initial
    decreases |steps|
  {
    if steps != [] {
      InitialKept(Next(s, steps[0]), steps[1..]);
    }
  }

  /** A resolved waiter keeps the outcome it got: nobody is resolved twice. */
  lemma {:induction false} ResolvedOnce(s: State, steps: seq<Step>, w: nat)
    requires Inv(s) && Legal(s, steps) && w in s.past.outcomes
    ensures var t := Run(s, steps);
            && w in t.past.outcomes && t.past.outcomes[w] == s.past.outcomes[w]
            && w !in t.queue && w !in t.timers && w !in t.cleanups
    decreases |steps|
  {
    if steps != [] {
      StepInv(s, steps[0]);
      ResolvedOnce(Next(s, steps[0]), steps[1..], w);
    }
  }

  /** With no negative initial count or post, never more grants than resources. */
  lemma {:induction false} NeverOversold(s: State, steps: seq<Step>)
    requires s.resources >= 0 && Legal(s, steps)
    requires forall i :: 0 <= i < |steps| && steps[i].Post? ==> steps[i].n >= 0
    ensures Run(s, steps).resources >= 0
    ensures IsInt(s.resources) && Defined(s, steps) ==> IsInt(Run(s, steps).resources)
    decreases |steps|
  {
    if steps != [] {
      NeverOversold(Next(s, steps[0]), steps[1..]);
    }
  }

  // ---- the int that holds the resources ----

  predicate IsInt(n: int)
  {
    -INT_MAX - 1 <= n <= INT_MAX
  }

  /** A post whose sum does not fit an int has no meaning in C, and the program is stopped there. */
  predicate PostFits(s: State, step: Step)
  {
    step.Post? ==> IsInt(s.resources + step.n)
  }

  /** No post of the run is stopped. */
  predicate Defined(s: State, steps: seq<Step>)
    requires Legal(s, steps)
    decreases |steps|
  {
    steps == [] || (PostFits(s, steps[0]) && Defined(Next(s, steps[0]), steps[1..]))
  }

  /** Step k is no post, or what was there at first and posted before, less what was taken before, and n fit an int. */
  ghost predicate SumFits(s: State, steps: seq<Step>, k: nat)
  {
    k < |steps| && steps[k].Post? && Legal(s, steps[..k]) ==>
      var past := Run(s, steps[..k]).past;
      IsInt(past.initial + past.added - past.immediate - |past.grants| + steps[k].n)
  }

  /** No post of a run is stopped exactly if at each the sum fits. */
  lemma {:induction false} DefinedExactly(s: State, steps: seq<Step>)
    requires Inv(s) && Legal(s, steps)
    ensures Defined(s, steps) <==> forall k :: SumFits(s, steps, k)
    decreases |steps|
  {
    hide Inv;
    if steps == [] {
      assert forall k: nat :: SumFits(s, steps, k);
    } else {
      var t, rest := Next(s, steps[0]), steps[1..];
      StepInv(s, steps[0]);
      DefinedExactly(t, rest);
      FirstFits(s, steps);
      if Defined(s, steps) {
        forall k: nat
          ensures SumFits(s, steps, k)
        {
          if k > 0 {
            assert SumFits(t, rest, k - 1);
            LaterFits(s, steps, k - 1);
          }
        }
      } else if PostFits(s, steps[0]) {
        var k: nat :| !SumFits(t, rest, k);
        LaterFits(s, steps, k);
      } else {
        assert !SumFits(s, steps, 0);
      }
    }
  }

  lemma FirstFits(s: State, steps: seq<Step>)
    requires Inv(s) && steps != []
    ensures SumFits(s, steps, 0) <==> PostFits(s, steps[0])
  {
    hide WaitersOk, Fifo;
    assert steps[..0] == [];
  }

  lemma LaterFits(s: State, steps: seq<Step>, k: nat)
    requires steps != [] && Enabled(s, steps[0])
    ensures SumFits(s, steps, k + 1) <==> SumFits(Next(s, steps[0]), steps[1..], k)
  {
    if k + 1 < |steps| {
      var p := steps[..k + 1];
      assert p[0] == steps[0] && p[1..] == steps[1..][..k];
    }
  }

  function Posted(steps: seq<Step>): int
  {
    if steps == [] then 0 else (if steps[0].Post? then steps[0].n else 0) + Posted(steps[1..])
  }

  /** Without negative posts it is enough that all that is ever there fits. */
  lemma {:induction false} TotalFits(s: State, steps: seq<Step>)
    requires Legal(s, steps) && s.resources >= 0 && s.resources + Posted(steps) <= INT_MAX
    requires forall i :: 0 <= i < |steps| && steps[i].Post? ==> steps[i].n >= 0
    ensures Defined(s, steps) && Posted(steps) >= 0
    decreases |steps|
  {
    if steps != [] {
      PostedNotNegative(steps[1..]);
      TotalFits(Next(s, steps[0]), steps[1..]);
    }
  }

  lemma {:induction false} PostedNotNegative(steps: seq<Step>)
    requires forall i :: 0 <= i < |steps| && steps[i].Post? ==> steps[i].n >= 0
    ensures Posted(steps) >= 0
  {
    if steps != [] {
      PostedNotNegative(steps[1..]);
    }
  }

  /** Two posts that nobody takes: the second is stopped. */
  lemma PostsOverflow()
    ensures var steps := [Post(2147483647), Post(1)];
            && Legal(New(0), steps) && !Defined(New(0), steps)
            && Legal(New(0), steps[..1]) && Defined(New(0), steps[..1])
  {
    var steps := [Post(2147483647), Post(1)];
    var t := Next(New(0), steps[0]);
    assert steps[1..] == [Post(1)] && Legal(t, [Post(1)]);
    assert !PostFits(t, Post(1));
    assert steps[..1] == [Post(2147483647)] && steps[..1][1..] == [];
  }

  /** count(): an int less an unsigned is unsigned, and is given back as an int. */
  function Count(s: State): int
  {
    ToInt((s.resources - s.waitCount) % UNSIGNED)
  }

  /** It is the resources less the waiters exactly if that is not below the least int. */
  lemma CountExactly(s: State)
    requires Inv(s) && IsInt(s.resources)
    ensures Count(s) == s.resources - |s.queue| <==> s.resources - |s.queue| >= -INT_MAX - 1
  {
    hide Fifo;
    var d := s.resources - |s.queue|;
    CountWraps(s.resources, |s.queue|);
    if d >= -INT_MAX - 1 {
      SignedBack(d);
    }
  }

  lemma CountWraps(r: int, n: nat)
    ensures (r - n % UNSIGNED) % UNSIGNED == (r - n) % UNSIGNED
  {
    var q := n / UNSIGNED;
    assert r - n % UNSIGNED == r - n + q * UNSIGNED;
    AddMultiple(r - n, q);
  }

  lemma AddMultiple(a: int, q: nat)
    ensures (a + q * UNSIGNED) % UNSIGNED == a % UNSIGNED
  {
    var k := a / UNSIGNED;
    assert a == k * UNSIGNED + a % UNSIGNED;
    assert a + q * UNSIGNED == (k + q) * UNSIGNED + a % UNSIGNED;
  }

  lemma SignedBack(d: int)
    requires IsInt(d)
    ensures ToInt(d % UNSIGNED) == d
  {
    assert d % UNSIGNED == if d < 0 then d + UNSIGNED else d;
  }

  /** All resources but the least int taken away, and one waiter: count() is positive. */
  lemma CountExample()
    ensures var steps := [Post(-2147483648), Wait(100)];
            && Legal(New(0), steps) && Defined(New(0), steps)
            && Count(Run(New(0), steps)) == 2147483647
  {
    var steps := [Post(-2147483648), Wait(100)];
    var t := Next(New(0), steps[0]);
    assert steps[1..] == [Wait(100)] && [Wait(100)][1..] == [];
    assert Run(t, [Wait(100)]) == Next(t, Wait(100));
  }

  /** What count() means once the event loop has nothing left to do for this semaphore. */
  lemma CountMeaning(s: State)
    requires Inv(s) && 0 <= s.resources <= INT_MAX && !s.posted && !s.running
    ensures var count := Count(s);
            |s.queue| <= INT_MAX + 1 ==>
              && (count > 0 ==> count == s.resources && s.queue == [])
              && (count < 0 ==> -count == |s.queue| && s.resources == 0)
              && (count == 0 ==> s.queue == [] && s.resources == 0)
  {
    hide Count;
    CountExactly(s);
  }

  function GrantsOf(k: nat): seq<Step>
  {
    seq(k, _ => Grant)
  }

  lemma GrantEffect(s: State)
    requires Enabled(s, Grant)
    ensures var t := Next(s, Grant);
            && t.running && t.queue == s.queue[1..] && t.resources == s.resources - 1
            && t.past.grants == s.past.grants + [s.queue[0]]
  {
  }

  /** The handler, left alone, wakes the k oldest waiters, in order, as long as resources last. */
  lemma {:induction false} HandlerServes(s: State, k: nat)
    requires Inv(s) && s.running && k <= |s.queue| && k <= s.resources
    ensures Legal(s, GrantsOf(k))
    ensures var t := Run(s, GrantsOf(k));
            && t.running && t.queue == s.queue[k..] && t.resources == s.resources - k
            && t.past.grants == s.past.grants + s.queue[..k]
    decreases k
  {
    if k > 0 {
      hide Inv, Next;
      var t := Next(s, Grant);
      StepInv(s, Grant);
      GrantEffect(s);
      assert GrantsOf(k)[1..] == GrantsOf(k - 1);
      HandlerServes(t, k - 1);
    }
  }

  /** No wake-up is lost: whenever both a waiter and a resource are there, the event loop alone serves as many
      as the resources allow, oldest first, and only then does the handler return. */
  lemma NoLostWakeup(s: State) returns (steps: seq<Step>)
    requires Inv(s) && Ready(s)
    ensures Legal(s, steps)
    ensures forall i :: 0 <= i < |steps| ==> steps[i] in {EnterHandler, Grant}
    ensures var k := if |s.queue| <= s.resources then |s.queue| else s.resources;
            var t := Run(s, steps);
            t.past.grants == s.past.grants + s.queue[..k] && t.queue == s.queue[k..] && Enabled(t, LeaveHandler)
  {
    var k := if |s.queue| <= s.resources then |s.queue| else s.resources;
    if s.running {
      steps := GrantsOf(k);
      HandlerServes(s, k);
    } else {
      steps := [EnterHandler] + GrantsOf(k);
      assert steps[1..] == GrantsOf(k);
      StepInv(s, EnterHandler);
      HandlerServes(Next(s, EnterHandler), k);
    }
  }

  lemma {:induction false} RunAppend(s: State, a: seq<Step>, b: seq<Step>)
    requires Legal(s, a) && Legal(Run(s, a), b)
    ensures Legal(s, a + b) && Run(s, a + b) == Run(Run(s, a), b)
    ensures Defined(s, a + b) <==> Defined(s, a) && Defined(Run(s, a), b)
    decreases |a|
  {
    if a == [] {
      assert a + b == b;
    } else {
      assert (a + b)[1..] == a[1..] + b;
      RunAppend(Next(s, a[0]), a[1..], b);
    }
  }

  lemma RunStep(s: State, a: seq<Step>, step: Step)
    requires Legal(s, a) && Enabled(Run(s, a), step)
    ensures Legal(s, a + [step]) && Run(s, a + [step]) == Next(Run(s, a), step)
    ensures Defined(s, a + [step]) <==> Defined(s, a) && PostFits(Run(s, a), step)
  {
    RunAppend(s, a, [step]);
  }

  // ---- what each step did, read off the steps alone ----

  /** What a wait does: served at once ahead of nobody, turned away without a timeout, and queued otherwise. */
  lemma WaitExactly(s: State, ms: int)
    ensures var t := Next(s, Wait(ms));
            if s.queue == [] && s.resources > 0 then
              && t.resources == s.resources - 1 && t.past.immediate == s.past.immediate + 1
              && t.queue == [] && t.tickets == s.tickets && t.timers == s.timers
            else if ms == 0 then t == s
            else
              && t.queue == s.queue + [s.tickets] && s.tickets in t.timers && s.tickets in t.cleanups
              && t.tickets == s.tickets + 1 && t.resources == s.resources && t.past == s.past
  {
  }

  /** A wait that can be queued. */
  predicate Patient(step: Step)
  {
    step.Wait? && step.timeout != 0
  }

  /** Without a wait that has a timeout nobody is ever queued, no timer set and no ticket given. */
  lemma {:induction false} NobodyQueued(s: State, steps: seq<Step>)
    requires Legal(s, steps) && forall i :: 0 <= i < |steps| ==> !Patient(steps[i])
    ensures var t := Run(s, steps);
            && t.tickets == s.tickets && t.timers <= s.timers && t.cleanups <= s.cleanups
            && forall w :: w in t.queue ==> w in s.queue
    decreases |steps|
  {
    if steps != [] {
      var t := Next(s, steps[0]);
      LeavesOnly(s, steps[0]);
      hide Next;
      NobodyQueued(t, steps[1..]);
    }
  }

  lemma LeavesOnly(s: State, step: Step)
    requires Enabled(s, step) && !Patient(step)
    ensures var t := Next(s, step);
            && t.tickets == s.tickets && t.timers <= s.timers && t.cleanups <= s.cleanups
            && forall w :: w in t.queue ==> w in s.queue
  {
    if step.Timeout? || step.Cancel? {
      RemoveIn(s.queue, step.w);
    } else if step == Grant {
      RemoveIn(s.queue, s.queue[0]);
    }
  }

  lemma {:induction false} RemoveIn(q: seq<nat>, w: nat)
    ensures forall x :: x in Remove(q, w) ==> x in q
  {
    if q != [] {
      RemoveIn(q[1..], w);
      assert q == [q[0]] + q[1..];
    }
  }

  /** The outcome that a step gives to w, if it gives it one. */
  function GivenBy(s: State, step: Step, w: nat): Option<Outcome>
  {
    if step == Timeout(w) then Some(TimedOut)
    else if step == Cancel(w) then Some(Cancelled)
    else if step == Grant && s.queue != [] && s.queue[0] == w then Some(Granted)
    else None
  }

  /** Step k of the run gave w that outcome. */
  ghost predicate Gave(s: State, steps: seq<Step>, k: nat, w: nat, o: Outcome)
  {
    k < |steps| && Legal(s, steps[..k]) && GivenBy(Run(s, steps[..k]), steps[k], w) == Some(o)
  }

  /** A waiter has timed out exactly if its timer fired, and likewise for the others: nothing else resolves it. */
  lemma {:induction false} OutcomeExactly(s: State, steps: seq<Step>, w: nat, o: Outcome)
    requires Inv(s) && Legal(s, steps) && w !in s.past.outcomes
    ensures var t := Run(s, steps);
            w in t.past.outcomes && t.past.outcomes[w] == o <==> exists k :: Gave(s, steps, k, w, o)
    decreases |steps|
  {
    if steps != [] {
      var n := |steps| - 1;
      var a, step := steps[..n], steps[n];
      assert steps == a + [step];
      PrefixLegal(s, a, [step]);
      OutcomeExactly(s, a, w, o);
      RunInv(s, a);
      var u := Run(s, a);
      assert Run(s, steps) == Next(u, step);
      OutcomeStep(u, step, w, o);
      forall k | 0 <= k < n ensures Gave(s, steps, k, w, o) <==> Gave(s, a, k, w, o) {
        assert steps[..k] == a[..k];
      }
      assert Gave(s, steps, n, w, o) <==> GivenBy(u, step, w) == Some(o);
    }
  }

  lemma OutcomeStep(s: State, step: Step, w: nat, o: Outcome)
    requires Inv(s) && Enabled(s, step)
    ensures var t := Next(s, step);
            w in t.past.outcomes && t.past.outcomes[w] == o <==>
              (w in s.past.outcomes && s.past.outcomes[w] == o) || GivenBy(s, step, w) == Some(o)
  {
    hide Fifo, Ascending, Remove;
  }

  /** The resources added are those of the posts. */
  lemma {:induction false} AddedExactly(s: State, steps: seq<Step>)
    requires Legal(s, steps)
    ensures Run(s, steps).past.added == s.past.added + Posted(steps)
    decreases |steps|
  {
    if steps != [] {
      AddedExactly(Next(s, steps[0]), steps[1..]);
    }
  }

  // ---- giving a semaphore back ----

  lemma {:induction false} PrefixLegal(s: State, a: seq<Step>, b: seq<Step>)
    requires Legal(s, a + b)
    ensures Legal(s, a) && Legal(Run(s, a), b) && Run(s, a + b) == Run(Run(s, a), b)
    decreases |a|
  {
    if a == [] {
      assert a + b == b;
    } else {
      assert (a + b)[1..] == a[1..] + b;
      PrefixLegal(Next(s, a[0]), a[1..], b);
    }
  }

  /** Step k entered the handler, and it was not left since. */
  predicate InsideSince(steps: seq<Step>, k: nat)
  {
    k < |steps| && steps[k] == EnterHandler && forall j :: k < j < |steps| ==> steps[j] != LeaveHandler
  }

  /** The handler runs exactly from a step that enters it to one that leaves it. */
  lemma {:induction false} RunningExactly(s: State, steps: seq<Step>)
    requires Legal(s, steps) && !s.running
    ensures Run(s, steps).running <==> exists k :: InsideSince(steps, k)
    decreases |steps|
  {
    if steps != [] {
      var n := |steps| - 1;
      var a, step := steps[..n], steps[n];
      assert steps == a + [step];
      PrefixLegal(s, a, [step]);
      RunningExactly(s, a);
      forall k | 0 <= k < n ensures InsideSince(steps, k) <==> InsideSince(a, k) && step != LeaveHandler {
        assert forall j :: 0 <= j < n ==> steps[j] == a[j];
      }
      assert InsideSince(steps, n) <==> step == EnterHandler;
    }
  }

  /** Step k posted while somebody waited, and the handler was not entered since. */
  ghost predicate PendingSince(s: State, steps: seq<Step>, k: nat)
  {
    && k < |steps| && steps[k].Post?
    && Legal(s, steps[..k]) && Run(s, steps[..k]).queue != []
    && forall j :: k < j < |steps| ==> steps[j] != EnterHandler
  }

  /**
   When a semaphore is given back, its event is still posted exactly if the handler was not entered since a post that
   found somebody waiting, whether or not anybody still is.
   */
  lemma {:induction false} PostedExactly(s: State, steps: seq<Step>)
    requires Legal(s, steps) && !s.posted
    ensures Run(s, steps).posted <==> exists k :: PendingSince(s, steps, k)
    decreases |steps|
  {
    if steps != [] {
      var n := |steps| - 1;
      var a, step := steps[..n], steps[n];
      assert steps == a + [step];
      PrefixLegal(s, a, [step]);
      PostedExactly(s, a);
      forall k | 0 <= k < n ensures PendingSince(s, steps, k) <==> PendingSince(s, a, k) && step != EnterHandler {
        PendingLonger(s, a, step, k);
      }
      assert PendingSince(s, steps, n) <==> step.Post? && Run(s, a).queue != [];
    }
  }

  lemma PendingLonger(s: State, a: seq<Step>, step: Step, k: nat)
    requires k < |a|
    ensures PendingSince(s, a + [step], k) <==> PendingSince(s, a, k) && step != EnterHandler
  {
    hide Legal, Run;
    var steps := a + [step];
    assert steps[..k] == a[..k];
    assert steps[|a|] == step;
    assert forall j :: 0 <= j < |a| ==> a[j] == steps[j];
  }

  /** The only waiter times out between a post and the event it posted: nobody waits, and the event is posted. */
  lemma StillPosted()
    ensures var steps := [Wait(100), Post(1), Timeout(0)];
            && Legal(New(0), steps)
            && Run(New(0), steps).queue == [] && Run(New(0), steps).posted
  {
    var s0 := New(0);
    var s1 := Next(s0, Wait(100));
    assert s1.queue == [0];
    var s2 := Next(s1, Post(1));
    var s3 := Next(s2, Timeout(0));
    assert Legal(s2, [Timeout(0)]) && Run(s2, [Timeout(0)]) == s3;
    assert [Post(1), Timeout(0)][1..] == [Timeout(0)];
    assert Legal(s1, [Post(1), Timeout(0)]) && Run(s1, [Post(1), Timeout(0)]) == s3;
    assert [Wait(100), Post(1), Timeout(0)][1..] == [Post(1), Timeout(0)];
  }

  datatype WaitResult = Ok | Declined | Again

  /** A step taken, not taken because it was not enabled, or a post that does not fit. */
  datatype Performed = Taken | Skipped | Stopped

  /** The semaphore as the object the source updates in place. */
  class Semaphore {
    var resourceCount: int
    var waitCount: nat
    var waitQueue: seq<nat>
    var timers: set<nat>
    var cleanups: set<nat>
    var posted: bool
    var tickets: nat
    ghost var running: bool
    ghost var past: Past

    ghost function Now(): State
      reads this
    {
      State(resourceCount, waitCount, waitQueue, timers, cleanups, posted, running, tickets, past)
    }

    ghost predicate Valid()
      reads this
    {
      Inv(Now()) && IsInt(resourceCount)
    }

    constructor (n: int)
      requires IsInt(n)
      ensures Now() == New(n) && Valid()
    {
      resourceCount, waitCount, waitQueue, timers, cleanups, posted, tickets := n, 0, [], {}, {}, false, 0;
      running, past := false, Past(n, 0, 0, [], map[]);
    }

    /** Fails where the sum does not fit an int. */
    method PostResources(n: int) returns (ok: bool)
      requires Valid()
      modifies this
      ensures Valid() && (ok <==> PostFits(old(Now()), Post(n)))
      ensures Now() == if ok then Next(old(Now()), Post(n)) else old(Now())
    {
      if !IsInt(resourceCount + n) {
        return false;
      }
      StepInv(Now(), Post(n));
      resourceCount := resourceCount + n;
      past := past.(added := past.added + n);
      if waitQueue != [] {
        posted := true;
      }
      return true;
    }

    method WaitResource(ms: int) returns (r: WaitResult)
      requires Valid()
      modifies this
      ensures Valid() && Now() == Next(old(Now()), Wait(ms))
      ensures r.Ok? <==> old(waitQueue) == [] && old(resourceCount) > 0
      ensures r.Declined? <==> !(old(waitQueue) == [] && old(resourceCount) > 0) && ms == 0
      ensures r.Again? <==> !(old(waitQueue) == [] && old(resourceCount) > 0) && ms != 0
      ensures r.Ok? ==> resourceCount == old(resourceCount) - 1 && past.immediate == old(past.immediate) + 1
      ensures r.Declined? ==> Now() == old(Now())
      ensures r.Again? ==> waitQueue == old(waitQueue) + [old(tickets)] && resourceCount == old(resourceCount)
      ensures !r.Again? ==> waitQueue == old(waitQueue) && timers == old(timers) && tickets == old(tickets)
    {
      hide WaitersOk, Fifo;
      StepInv(Now(), Wait(ms));
      if waitQueue == [] && resourceCount > 0 {
        resourceCount := resourceCount - 1;
        past := past.(immediate := past.immediate + 1);
        return Ok;
      }
      if ms == 0 {
        return Declined;
      }
      var co := tickets;
      waitCount := (waitCount + 1) % UNSIGNED;
      timers := timers + {co};
      waitQueue := waitQueue + [co];
      cleanups := cleanups + {co};
      tickets := tickets + 1;
      return Again;
    }

    method Available() returns (n: int)
      requires Valid()
      ensures n == Count(Now())
      ensures var count := past.initial + past.added - past.immediate - |past.grants| - |waitQueue|;
              n == count <==> IsInt(count)
    {
      hide WaitersOk, Fifo;
      CountExactly(Now());
      n := ToInt((resourceCount - waitCount) % UNSIGNED);
    }

    method Unlink(co: nat)
      modifies `waitQueue
      ensures waitQueue == Remove(old(waitQueue), co)
    {
      var i := 0;
      while i < |waitQueue| && waitQueue[i] != co
        invariant i <= |waitQueue| && waitQueue == old(waitQueue)
        invariant forall j :: 0 <= j < i ==> waitQueue[j] != co
      {
        i := i + 1;
      }
      RemoveAt(waitQueue, co, i);
      if i < |waitQueue| {
        waitQueue := waitQueue[..i] + waitQueue[i + 1..];
      }
    }

    method Cleanup(co: nat)
      requires Valid() && co in cleanups
      modifies this
      ensures Valid() && Now() == Next(old(Now()), Cancel(co))
    {
      hide WaitersOk, Fifo;
      StepInv(Now(), Cancel(co));
      timers := timers - {co};
      Unlink(co);
      waitCount := (waitCount - 1) % UNSIGNED;
      cleanups := cleanups - {co};
      past := past.(outcomes := past.outcomes[co := Cancelled]);
    }

    method TimeoutHandler(co: nat)
      requires Valid() && co in timers
      modifies this
      ensures Valid() && Now() == Next(old(Now()), Timeout(co))
    {
      hide WaitersOk, Fifo;
      StepInv(Now(), Timeout(co));
      timers := timers - {co};
      cleanups := cleanups - {co};
      Unlink(co);
      waitCount := (waitCount - 1) % UNSIGNED;
      past := past.(outcomes := past.outcomes[co := TimedOut]);
    }

    /** One turn of the handler's loop, up to the resumption. */
    method GrantOne()
      requires Valid() && running && waitQueue != [] && resourceCount > 0
      modifies this
      ensures Valid() && Now() == Next(old(Now()), Grant)
      ensures |waitQueue| < old(|waitQueue|)
    {
      hide WaitersOk, Fifo;
      StepInv(Now(), Grant);
      var co := waitQueue[0];
      waitQueue := waitQueue[1..];
      waitCount := (waitCount - 1) % UNSIGNED;
      cleanups := cleanups - {co};
      timers := timers - {co};
      resourceCount := resourceCount - 1;
      past := past.(grants := past.grants + [co], outcomes := past.outcomes[co := Granted]);
    }

    /**
     What a resumed thread does: any steps that Lua code or a timer can take, as far as they are enabled, and up to a
     post that does not fit.
     */
    method Resumed(script: seq<Step>) returns (ok: bool, ghost trace: seq<Step>)
      requires Valid()
      modifies this
      ensures Valid() && Legal(old(Now()), trace) && Now() == Run(old(Now()), trace) && Defined(old(Now()), trace)
      ensures running == old(running)
      ensures !ok ==> exists i :: 0 <= i < |script| && !PostFits(Now(), script[i])
    {
      trace := [];
      for i := 0 to |script|
        invariant Valid() && running == old(running)
        invariant Legal(old(Now()), trace) && Now() == Run(old(Now()), trace) && Defined(old(Now()), trace)
      {
        hide Inv, Enabled, Next;
        var r := Perform(script[i]);
        if r == Stopped {
          return false, trace;
        }
        if r == Taken {
          RunStep(old(Now()), trace, script[i]);
          trace := trace + [script[i]];
        }
      }
      ok := true;
    }

    method Perform(step: Step) returns (r: Performed)
      requires Valid()
      modifies this
      ensures Valid() && running == old(running)
      ensures r == Taken ==> Enabled(old(Now()), step) && Now() == Next(old(Now()), step)
      ensures r != Taken ==> Now() == old(Now())
      ensures r == Stopped <==> !PostFits(old(Now()), step)
      ensures step.Wait? ==> r == Taken
    {
      hide WaitersOk, Fifo;
      r := Taken;
      match step
      case Post(n) =>
        var ok := PostResources(n);
        if !ok {
          r := Stopped;
        }
      case Wait(ms) => var _ := WaitResource(ms);
      case Timeout(w) => if w in timers { TimeoutHandler(w); } else { r := Skipped; }
      case Cancel(w) => if w in cleanups { Cleanup(w); } else { r := Skipped; }
      case _ => r := Skipped;
    }

    /**
     The posted event's handler.  The k-th waiter woken does what script[k] says before the loop goes on; if that comes
     to a post that does not fit, the handler goes no further.
     */
    method Handler(script: seq<seq<Step>>) returns (ok: bool, ghost trace: seq<Step>)
      requires Valid() && posted && !running
      modifies this
      ensures Valid() && Legal(old(Now()), trace) && Now() == Run(old(Now()), trace) && Defined(old(Now()), trace)
      ensures ok ==> !running && (waitQueue == [] || resourceCount <= 0)
      ensures !ok ==> exists k, i :: 0 <= k < |script| && 0 <= i < |script[k]| && !PostFits(Now(), script[k][i])
    {
      trace := [EnterHandler];
      StepInv(Now(), EnterHandler);
      posted := false;
      running := true;
      var k := 0;
      while waitQueue != [] && resourceCount > 0
        invariant running && Valid()
        invariant Legal(old(Now()), trace) && Now() == Run(old(Now()), trace) && Defined(old(Now()), trace)
        decreases if k < |script| then |script| - k else 0, |waitQueue|
      {
        hide Inv, Next;
        RunStep(old(Now()), trace, Grant);
        trace := trace + [Grant];
        GrantOne();
        if k < |script| {
          ghost var more: seq<Step>;
          ok, more := Resumed(script[k]);
          RunAppend(old(Now()), trace, more);
          trace := trace + more;
          if !ok {
            return;
          }
        }
        k := k + 1;
      }
      RunStep(old(Now()), trace, LeaveHandler);
      trace := trace + [LeaveHandler];
      StepInv(Now(), LeaveHandler);
      running := false;
      ok := true;
    }
  }
}
