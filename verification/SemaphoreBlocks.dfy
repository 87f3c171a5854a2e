/**
 The block allocator of stream-lua-nginx-module/src/ngx_stream_lua_semaphore.c.  A block is known by its
 epoch, which no other block ever has; a semaphore by its block and its place in it.
 */
module SemaphoreBlocks {
  import Arith
  import opened Basics

  datatype Sem = Sem(block: nat, index: nat)

  function Count(q: seq<Sem>, e: nat): (n: nat)
    ensures n <= |q|
  {
    if q == [] then 0 else (if q[0].block == e then 1 else 0) + Count(q[1..], e)
  }

  /** Sum of the used counters of the blocks with epochs up to n. */
  function SumUsed(blocks: map<nat, nat>, n: nat): nat
  {
    if n == 0 then 0 else SumUsed(blocks, n - 1) + if n in blocks then blocks[n] else 0
  }

  ghost predicate Distinct(q: seq<Sem>)
  {
    forall i, j :: 0 <= i < j < |q| ==> q[i] != q[j]
  }

  function Take(q: seq<Sem>, x: Sem): seq<Sem>
  {
    if q == [] then [] else if q[0] == x then q[1..] else [q[0]] + Take(q[1..], x)
  }

  /** The allocator's state as a value. */
  datatype Pool = Pool(size: nat, queue: seq<Sem>, blocks: map<nat, nat>, total: int, used: int, epoch: nat)

  predicate InUse(p: Pool, x: Sem)
  {
    x.block in p.blocks && x.index < p.size && x !in p.queue
  }

  ghost predicate BlockOk(p: Pool, e: nat)
  {
    e in p.blocks ==> 1 <= e <= p.epoch && p.blocks[e] <= p.size && Count(p.queue, e) == p.size - p.blocks[e]
  }

  ghost predicate BlocksOk(p: Pool)
  {
    forall e :: e in p.blocks ==> BlockOk(p, e)
  }

  ghost predicate QueueOk(p: Pool)
  {
    && Distinct(p.queue)
    && (forall x :: x in p.queue ==> x.block in p.blocks && x.index < p.size)
  }

  ghost predicate TotalsOk(p: Pool)
  {
    && p.size >= 1
    && p.total == p.size * |p.blocks|
    && p.used == SumUsed(p.blocks, p.epoch)
  }

  ghost predicate Linked(p: Pool)
  {
    BlocksOk(p) && QueueOk(p)
  }

  ghost predicate Inv(p: Pool)
  {
    TotalsOk(p) && Linked(p)
  }

  lemma {:induction false} CountAppend(a: seq<Sem>, b: seq<Sem>, e: nat)
    ensures Count(a + b, e) == Count(a, e) + Count(b, e)
  {
    if a == [] {
      assert a + b == b;
    } else {
      assert (a + b)[1..] == a[1..] + b;
      CountAppend(a[1..], b, e);
    }
  }

  lemma {:induction false} CountNone(q: seq<Sem>, e: nat)
    requires forall x :: x in q ==> x.block != e
    ensures Count(q, e) == 0
  {
    if q != [] {
      CountNone(q[1..], e);
    }
  }

  lemma {:induction false} CountTake(q: seq<Sem>, x: Sem, e: nat)
    requires x in q
    ensures Count(Take(q, x), e) == Count(q, e) - if x.block == e then 1 else 0
  {
    if q[0] != x {
      var t := Take(q[1..], x);
      CountTake(q[1..], x, e);
      assert ([q[0]] + t)[1..] == t;
    }
  }

  lemma {:induction false} TakeFacts(q: seq<Sem>, x: Sem)
    requires Distinct(q)
    ensures Distinct(Take(q, x))
    ensures forall y :: y in Take(q, x) <==> y in q && y != x
  {
    if q != [] {
      var t := q[1..];
      assert q == [q[0]] + t;
      TakeFacts(t, x);
      var r := Take(t, x);
      assert forall i :: 0 <= i < |r| ==> r[i] in r;
      assert forall i :: 0 <= i < |t| ==> t[i] == q[i + 1];
    }
  }

  lemma {:induction false} SumUpdate(m: map<nat, nat>, e: nat, v: nat, n: nat)
    ensures SumUsed(m[e := v], n)
         == SumUsed(m, n) + if 1 <= e <= n then v - (if e in m then m[e] else 0) else 0
  {
    if n > 0 {
      SumUpdate(m, e, v, n - 1);
    }
  }

  lemma {:induction false} SumRemove(m: map<nat, nat>, e: nat, n: nat)
    requires e in m && m[e] == 0
    ensures SumUsed(m - {e}, n) == SumUsed(m, n)
  {
    if n > 0 {
      SumRemove(m, e, n - 1);
    }
  }

  /** Blocks have different epochs, so there are no more of them than epochs. */
  lemma {:induction false} BlocksBound(s: set<nat>, n: nat)
    requires forall e :: e in s ==> 1 <= e <= n
    ensures |s| <= n
  {
    if n == 0 {
      assert s == {};
    } else {
      BlocksBound(s - {n}, n - 1);
      assert s <= (s - {n}) + {n};
    }
  }

  /** A block with as many semaphores queued as it has room for has each one of them queued. */
  lemma AllQueued(p: Pool, e: nat, i: nat)
    requires Linked(p) && e in p.blocks && p.blocks[e] == 0 && i < p.size
    ensures Sem(e, i) in p.queue
  {
    assert BlockOk(p, e);
    if Sem(e, i) !in p.queue {
      var rest := Below(p.size) - {i};
      CountBound(p.queue, e, rest);
      assert false;
    }
  }

  function Below(n: nat): (s: set<nat>)
    ensures |s| == n && forall i :: i in s <==> 0 <= i < n
  {
    if n == 0 then {} else Below(n - 1) + {n - 1}
  }

  lemma {:induction false} CountBound(q: seq<Sem>, e: nat, s: set<nat>)
    requires Distinct(q) && forall x :: x in q && x.block == e ==> x.index in s
    ensures Count(q, e) <= |s|
  {
    if q != [] {
      var t := q[1..];
      assert forall i :: 0 <= i < |t| ==> t[i] == q[i + 1];
      if q[0].block == e {
        forall x | x in t && x.block == e ensures x.index in s - {q[0].index} {
          assert x != q[0];
        }
        CountBound(t, e, s - {q[0].index});
      } else {
        CountBound(t, e, s);
      }
    }
  }

  // ---- alloc ----

  function Pop(p: Pool): Pool
    requires p.queue != [] && p.queue[0].block in p.blocks
  {
    var e := p.queue[0].block;
    p.(queue := p.queue[1..], blocks := p.blocks[e := p.blocks[e] + 1], used := p.used + 1)
  }

  function Rest(e: nat, n: nat): seq<Sem>
    requires n >= 1
  {
    seq(n - 1, i requires 0 <= i < n - 1 => Sem(e, i + 1))
  }

  function Grow(p: Pool): Pool
    requires p.size >= 1
  {
    var e := p.epoch + 1;
    p.(queue := p.queue + Rest(e, p.size),
       blocks := p.blocks[e := 1],
       total := p.total + p.size,
       used := p.used + 1,
       epoch := e)
  }

  lemma PopBlocks(p: Pool)
    requires Inv(p) && p.queue != []
    ensures BlocksOk(Pop(p))
  {
    forall e | e in Pop(p).blocks ensures BlockOk(Pop(p), e) {
      assert BlockOk(p, e);
    }
  }

  lemma PopQueue(p: Pool)
    requires QueueOk(p) && p.queue != []
    ensures QueueOk(Pop(p))
    ensures forall y :: InUse(Pop(p), y) <==> InUse(p, y) || y == p.queue[0]
  {
    var x, t := p.queue[0], p.queue[1..];
    assert forall i :: 0 <= i < |t| ==> t[i] == p.queue[i + 1];
    assert p.queue == [x] + t;
    assert forall y :: y in p.queue <==> y in t || y == x;
  }

  lemma PopInv(p: Pool)
    requires Inv(p) && p.queue != []
    ensures Inv(Pop(p))
    ensures forall y :: InUse(Pop(p), y) <==> InUse(p, y) || y == p.queue[0]
  {
    PopBlocks(p);
    PopQueue(p);
    hide QueueOk;
    var e := p.queue[0].block;
    assert BlockOk(p, e);
    SumUpdate(p.blocks, e, p.blocks[e] + 1, p.epoch);
    assert Pop(p).blocks.Keys == p.blocks.Keys;
    assert |Pop(p).blocks| == |p.blocks|;
  }

  lemma {:induction false} CountRest(q: seq<Sem>, e: nat)
    requires forall x :: x in q ==> x.block == e
    ensures Count(q, e) == |q|
  {
    if q != [] {
      CountRest(q[1..], e);
    }
  }

  lemma GrowBlocks(p: Pool)
    requires Inv(p) && p.queue == []
    ensures forall e :: e in Grow(p).blocks ==> BlockOk(Grow(p), e)
  {
    var n := p.epoch + 1;
    var rest := Rest(n, p.size);
    assert Grow(p).queue == rest;
    CountRest(rest, n);
    forall e | e in Grow(p).blocks ensures BlockOk(Grow(p), e) {
      assert BlockOk(p, e);
      if e != n {
        CountNone(rest, e);
      }
    }
  }

  lemma GrowTotals(p: Pool)
    requires TotalsOk(p) && p.epoch + 1 !in p.blocks
    ensures TotalsOk(Grow(p))
  {
    var n := p.epoch + 1;
    SumUpdate(p.blocks, n, 1, n);
    assert |p.blocks[n := 1]| == |p.blocks| + 1;
    assert p.size * (|p.blocks| + 1) == p.size * |p.blocks| + p.size;
  }

  lemma GrowLinked(p: Pool)
    requires Inv(p) && p.queue == []
    ensures Linked(Grow(p))
  {
    GrowOk(p);
    hide BlockOk, TotalsOk, Distinct;
    GrowBlocks(p);
    GrowQueue(p);
  }

  lemma GrowNew(p: Pool)
    requires Linked(p)
    ensures p.epoch + 1 !in p.blocks
  {
    assert BlockOk(p, p.epoch + 1) || p.epoch + 1 !in p.blocks;
  }

  lemma GrowInv(p: Pool)
    requires Inv(p) && p.queue == []
    ensures Inv(Grow(p))
    ensures forall y :: InUse(Grow(p), y) <==> InUse(p, y) || y == Sem(p.epoch + 1, 0)
    ensures !InUse(p, Sem(p.epoch + 1, 0))
  {
    GrowNew(p);
    GrowOk(p);
    GrowLinked(p);
    GrowTotals(p);
    GrowUse(p);
    hide InUse, Linked, TotalsOk;
  }

  lemma GrowUse(p: Pool)
    requires p.size >= 1 && p.queue == [] && p.epoch + 1 !in p.blocks
    ensures forall y :: InUse(Grow(p), y) <==> InUse(p, y) || y == Sem(p.epoch + 1, 0)
    ensures !InUse(p, Sem(p.epoch + 1, 0))
  {
    GrowQueue(p);
    hide Rest, Distinct;
  }

  lemma GrowQueue(p: Pool)
    requires p.size >= 1 && p.queue == []
    ensures Distinct(Grow(p).queue)
    ensures forall y :: y in Grow(p).queue <==> y.block == p.epoch + 1 && 1 <= y.index < p.size
  {
    var q := Grow(p).queue;
    forall y: Sem | y.block == p.epoch + 1 && 1 <= y.index < p.size ensures y in q {
      assert q[y.index - 1] == y;
    }
  }

  // ---- free ----

  function MidEpoch(p: Pool): int
    requires p.size >= 1
  {
    p.epoch - p.total / p.size / 2
  }

  function Return(p: Pool, x: Sem): Pool
    requires p.size >= 1 && x.block in p.blocks && p.blocks[x.block] >= 1
  {
    p.(blocks := p.blocks[x.block := p.blocks[x.block] - 1],
       used := p.used - 1,
       queue := if x.block < MidEpoch(p) then p.queue + [x] else [x] + p.queue)
  }

  function Others(q: seq<Sem>, e: nat): seq<Sem>
  {
    if q == [] then [] else if q[0].block == e then Others(q[1..], e) else [q[0]] + Others(q[1..], e)
  }

  function Drop(p: Pool, e: nat): Pool
  {
    p.(queue := Others(p.queue, e), blocks := p.blocks - {e})
  }

  function Release(p: Pool, e: nat): Pool
  {
    Drop(p, e).(total := p.total - p.size)
  }

  predicate Surplus(p: Pool, e: nat)
    requires p.size >= 1 && e in p.blocks
  {
    p.blocks[e] == 0 && p.used <= p.total / 2 && e < MidEpoch(p)
  }

  /** The middle epoch is an epoch: the subtraction does not wrap. */
  lemma MidEpochOk(p: Pool)
    requires Inv(p)
    ensures 0 <= MidEpoch(p) <= p.epoch
    ensures p.total / p.size == |p.blocks|
  {
    BlocksBound(p.blocks.Keys, p.epoch) by {
      forall e | e in p.blocks.Keys ensures 1 <= e <= p.epoch {
        assert BlockOk(p, e);
      }
    }
    assert p.total / p.size == |p.blocks| by {
      DivExact(p.size, |p.blocks|);
    }
  }

  lemma DivExact(a: nat, b: nat)
    requires a >= 1
    ensures a * b / a == b
  {
    Arith.DivModUnique(a * b, a, b, 0);
  }

  /** A semaphore in use is counted by its block and by the allocator. */
  lemma InUseCounted(p: Pool, x: Sem)
    requires Inv(p) && InUse(p, x)
    ensures p.blocks[x.block] >= 1 && p.used >= 1
  {
    assert BlockOk(p, x.block);
    if p.blocks[x.block] == 0 {
      AllQueued(p, x.block, x.index);
      assert false;
    }
    SumAtLeast(p.blocks, x.block, p.epoch);
  }

  lemma {:induction false} SumAtLeast(m: map<nat, nat>, e: nat, n: nat)
    requires e in m && 1 <= e <= n
    ensures SumUsed(m, n) >= m[e]
  {
    if e < n {
      SumAtLeast(m, e, n - 1);
    }
  }

  lemma ReturnBlocks(p: Pool, x: Sem)
    requires Inv(p) && InUse(p, x) && p.blocks[x.block] >= 1 && p.used >= 1
    ensures BlocksOk(Return(p, x))
  {
    var r := Return(p, x);
    forall e | e in r.blocks ensures BlockOk(r, e) {
      assert BlockOk(p, e);
      CountAppend(p.queue, [x], e);
      CountAppend([x], p.queue, e);
    }
  }

  lemma ReturnQueue(p: Pool, x: Sem)
    requires QueueOk(p) && p.size >= 1 && InUse(p, x) && p.blocks[x.block] >= 1 && p.used >= 1
    ensures QueueOk(Return(p, x))
    ensures forall y :: InUse(Return(p, x), y) <==> InUse(p, y) && y != x
  {
    assert forall i :: 0 <= i < |p.queue| ==> p.queue[i] in p.queue;
    assert forall y :: y in Return(p, x).queue <==> y in p.queue || y == x;
  }

  lemma ReturnInv(p: Pool, x: Sem)
    requires Inv(p) && InUse(p, x) && p.blocks[x.block] >= 1 && p.used >= 1
    ensures Inv(Return(p, x))
    ensures forall y :: InUse(Return(p, x), y) <==> InUse(p, y) && y != x
  {
    hide QueueOk;
    ReturnBlocks(p, x);
    ReturnQueue(p, x);
    assert BlockOk(p, x.block);
    SumUpdate(p.blocks, x.block, p.blocks[x.block] - 1, p.epoch);
    assert Return(p, x).blocks.Keys == p.blocks.Keys;
    assert |Return(p, x).blocks| == |p.blocks|;
  }

  lemma {:induction false} OthersFacts(q: seq<Sem>, e: nat, f: nat)
    requires Distinct(q)
    ensures Distinct(Others(q, e))
    ensures forall y :: y in Others(q, e) <==> y in q && y.block != e
    ensures f != e ==> Count(Others(q, e), f) == Count(q, f)
  {
    if q != [] {
      var t := q[1..];
      assert q == [q[0]] + t;
      assert forall i :: 0 <= i < |t| ==> t[i] == q[i + 1];
      OthersFacts(t, e, f);
      var r := Others(t, e);
      assert forall i :: 0 <= i < |r| ==> r[i] in r;
      assert ([q[0]] + r)[1..] == r;
    }
  }

  lemma ReleaseTotals(p: Pool, e: nat)
    requires TotalsOk(p) && e in p.blocks && p.blocks[e] == 0
    ensures p.total >= p.size && TotalsOk(Release(p, e))
  {
    var n := |p.blocks|;
    assert p.blocks.Keys == (p.blocks.Keys - {e}) + {e};
    assert (p.blocks - {e}).Keys == p.blocks.Keys - {e};
    assert |p.blocks - {e}| == n - 1;
    assert p.size * n == p.size * (n - 1) + p.size;
    Arith.MulMono(0, n - 1, p.size);
    SumRemove(p.blocks, e, p.epoch);
  }

  lemma DropBlocks(p: Pool, e: nat)
    requires Linked(p)
    ensures BlocksOk(Drop(p, e))
  {
    var r := Drop(p, e);
    forall f | f in r.blocks ensures BlockOk(r, f) {
      assert BlockOk(p, f);
      OthersFacts(p.queue, e, f);
    }
  }

  lemma DropLinked(p: Pool, e: nat)
    requires Linked(p) && e in p.blocks && p.blocks[e] == 0
    ensures Linked(Drop(p, e))
    ensures forall y :: InUse(Drop(p, e), y) <==> InUse(p, y)
    ensures forall y :: y in Drop(p, e).queue ==> y.block != e
  {
    DropBlocks(p, e);
    OthersFacts(p.queue, e, e);
    forall y | InUse(p, y) ensures y.block != e {
      if y.block == e {
        AllQueued(p, e, y.index);
      }
    }
  }

  lemma ReleaseInv(p: Pool, e: nat)
    requires Inv(p) && e in p.blocks && p.blocks[e] == 0
    ensures p.total >= p.size && Inv(Release(p, e))
    ensures forall y :: InUse(Release(p, e), y) <==> InUse(p, y)
    ensures forall y :: y in Release(p, e).queue ==> y.block != e
  {
    ReleaseTotals(p, e);
    DropLinked(p, e);
    var r, d := Release(p, e), Drop(p, e);
    forall f | f in r.blocks ensures BlockOk(r, f) {
      assert BlockOk(d, f);
    }
    assert forall y :: InUse(r, y) <==> InUse(d, y);
  }

  // ---- the allocator object ----

  class Allocator {
    const numPerBlock: nat
    var freeQueue: seq<Sem>
    var blocks: map<nat, nat>
    var total: nat
    var used: nat
    var curEpoch: nat
    ghost var held: set<Sem>         // semaphores handed out and not given back

    ghost function Now(): Pool
      reads this
    {
      Pool(numPerBlock, freeQueue, blocks, total, used, curEpoch)
    }

    ghost predicate Valid()
      reads this
    {
      Inv(Now()) && forall x :: x in held <==> InUse(Now(), x)
    }

    constructor (size: nat)
      requires size >= 1
      ensures Valid() && held == {} && numPerBlock == size
    {
      numPerBlock := size;
      freeQueue, blocks, total, used, curEpoch := [], map[], 0, 0, 0;
      held := {};
    }

    /** memory says whether a new block can be had. */
    method Alloc(memory: bool) returns (r: Option<Sem>)
      requires Valid()
      modifies this
      ensures Valid()
      ensures r.None? <==> old(freeQueue) == [] && !memory
      ensures r.None? ==> Now() == old(Now()) && held == old(held)
      ensures r.Some? ==> r.value !in old(held) && held == old(held) + {r.value}
      ensures old(freeQueue) != [] ==>
                && old(freeQueue[0].block in blocks)
                && r == Some(old(freeQueue[0])) && Now() == Pop(old(Now()))
      ensures r.Some? && old(freeQueue) == [] ==> numPerBlock >= 1 && Now() == Grow(old(Now()))
    {
      hide Linked, TotalsOk;
      if freeQueue != [] {
        PopInv(Now());
        PopOk(Now());
        var x := freeQueue[0];
        freeQueue := freeQueue[1..];
        blocks := blocks[x.block := blocks[x.block] + 1];
        used := used + 1;
        held := held + {x};
        return Some(x);
      }
      if !memory {
        return None;
      }
      GrowInv(Now());
      GrowOk(Now());
      var x := AddBlock();
      held := held + {x};
      return Some(x);
    }

    method AddBlock() returns (x: Sem)
      requires freeQueue == [] && numPerBlock >= 1
      modifies this
      ensures Now() == Grow(old(Now())) && held == old(held)
      ensures x == Sem(old(curEpoch) + 1, 0)
    {
      curEpoch := curEpoch + 1;
      total := total + numPerBlock;
      used := used + 1;
      x := Sem(curEpoch, 0);
      blocks := blocks[curEpoch := 1];
      ghost var p := old(Now());
      var i := 1;
      while i < numPerBlock
        invariant 1 <= i <= numPerBlock
        invariant Now() == p.(epoch := p.epoch + 1, total := p.total + p.size, used := p.used + 1,
                              blocks := p.blocks[p.epoch + 1 := 1], queue := Rest(p.epoch + 1, i))
        invariant held == old(held)
      {
        assert Rest(curEpoch, i + 1) == Rest(curEpoch, i) + [Sem(curEpoch, i)];
        freeQueue := freeQueue + [Sem(curEpoch, i)];
        i := i + 1;
      }
    }

    /** Gives a semaphore back, and its whole block if the allocator has more than it needs. */
    method Free(x: Sem)
      requires Valid() && x in held
      modifies this
      ensures Valid() && held == old(held) - {x}
      ensures 0 <= MidEpoch(old(Now()))
      ensures old(blocks)[x.block] >= 1 && old(used) >= 1
      ensures var r := Return(old(Now()), x);
              Now() == if Surplus(r, x.block) then Release(r, x.block) else r
    {
      hide Inv;
      GrowOk(Now());
      MidEpochOk(Now());
      InUseCounted(Now(), x);
      ReturnInv(Now(), x);
      blocks := blocks[x.block := blocks[x.block] - 1];
      used := used - 1;
      var midEpoch := curEpoch - total / numPerBlock / 2;
      if x.block < midEpoch {
        freeQueue := freeQueue + [x];
      } else {
        freeQueue := [x] + freeQueue;
      }
      held := held - {x};
      if blocks[x.block] == 0 && used <= total / 2 && x.block < midEpoch {
        ReleaseInv(Now(), x.block);
        RemoveBlock(x.block);
      }
    }

    /** Unlinks every semaphore of a block from the free queue and gives the block up. */
    method RemoveBlock(e: nat)
      requires Inv(Now()) && e in blocks && blocks[e] == 0
      modifies this
      ensures old(total) >= numPerBlock && Now() == Release(old(Now()), e)
      ensures held == old(held)
    {
      UnlinkBlock(e);
      ReleaseTotals(old(Now()), e);
      total := total - numPerBlock;
      blocks := blocks - {e};
    }

    /** Every element the loop unlinks is linked. */
    method UnlinkBlock(e: nat)
      requires Linked(Now()) && e in blocks && blocks[e] == 0
      modifies `freeQueue
      ensures freeQueue == Others(old(freeQueue), e)
    {
      ghost var p := Now();
      var i := 0;
      UnlinkStart(p, e);
      while i < numPerBlock
        invariant i <= numPerBlock && Unlinked(p, freeQueue, e, i)
      {
        UnlinkNext(p, freeQueue, e, i);
        freeQueue := Take(freeQueue, Sem(e, i));
        i := i + 1;
      }
      UnlinkDone(p, freeQueue, e);
    }

    /** On exit: gives blocks up from the head of the queue until one is still in use. */
    method Cleanup()
      requires Valid()
      modifies this
      ensures freeQueue == [] || (freeQueue[0].block in blocks && blocks[freeQueue[0].block] > 0)
      ensures held == old(held) && forall x :: x in held ==> x.block in blocks
      ensures old(held) == {} ==> freeQueue == [] && blocks == map[]
    {
      while freeQueue != []
        invariant Linked(Now()) && held == old(held)
        invariant forall x :: x in held <==> InUse(Now(), x)
        decreases |blocks|
      {
        hide Linked;
        PopOk(Now());
        var e := freeQueue[0].block;
        if blocks[e] > 0 {
          break;
        }
        DropLinked(Now(), e);
        UnlinkBlock(e);
        blocks := blocks - {e};
      }
      if held == {} {
        NoneHeld(Now());
      }
    }
  }

  /** The first i semaphores of block e are gone from the queue, and nothing else is. */
  ghost predicate Unlinked(p: Pool, q: seq<Sem>, e: nat, i: nat)
  {
    && Distinct(q)
    && Others(q, e) == Others(p.queue, e)
    && (forall x :: x in q && x.block == e ==> i <= x.index < p.size)
    && (forall k :: i <= k < p.size ==> Sem(e, k) in q)
  }

  lemma UnlinkStart(p: Pool, e: nat)
    requires Linked(p) && e in p.blocks && p.blocks[e] == 0
    ensures Unlinked(p, p.queue, e, 0)
  {
    forall k | 0 <= k < p.size ensures Sem(e, k) in p.queue {
      AllQueued(p, e, k);
    }
  }

  lemma UnlinkNext(p: Pool, q: seq<Sem>, e: nat, i: nat)
    requires Unlinked(p, q, e, i) && i < p.size
    ensures Sem(e, i) in q && Unlinked(p, Take(q, Sem(e, i)), e, i + 1)
  {
    TakeFacts(q, Sem(e, i));
    OthersTake(q, Sem(e, i));
  }

  lemma UnlinkDone(p: Pool, q: seq<Sem>, e: nat)
    requires Unlinked(p, q, e, p.size)
    ensures q == Others(p.queue, e)
  {
    OthersAll(q, e);
  }

  lemma {:induction false} OthersTake(q: seq<Sem>, x: Sem)
    ensures Others(Take(q, x), x.block) == Others(q, x.block)
  {
    if q != [] && q[0] != x {
      OthersTake(q[1..], x);
      assert ([q[0]] + Take(q[1..], x))[1..] == Take(q[1..], x);
    }
  }

  lemma {:induction false} OthersAll(q: seq<Sem>, e: nat)
    requires forall x :: x in q ==> x.block != e
    ensures Others(q, e) == q
  {
    if q != [] {
      OthersAll(q[1..], e);
    }
  }

  lemma {:induction false} CountAll(q: seq<Sem>, e: nat, n: nat)
    requires Distinct(q) && forall i :: 0 <= i < n ==> Sem(e, i) in q
    ensures Count(q, e) >= n
    decreases n
  {
    if n > 0 {
      var x := Sem(e, n - 1);
      TakeFacts(q, x);
      CountTake(q, x, e);
      CountAll(Take(q, x), e, n - 1);
    }
  }

  /** With nothing in use, every block is unused, and there is none unless one is queued. */
  lemma NoneHeld(p: Pool)
    requires Linked(p) && p.size >= 1 && forall x :: !InUse(p, x)
    ensures forall e :: e in p.blocks ==> p.blocks[e] == 0
    ensures p.queue == [] ==> p.blocks == map[]
  {
    forall e | e in p.blocks ensures p.blocks[e] == 0 {
      assert BlockOk(p, e);
      assert !InUse(p, Sem(e, 0));
      forall i | 0 <= i < p.size ensures Sem(e, i) in p.queue {
        assert !InUse(p, Sem(e, i));
      }
      CountAll(p.queue, e, p.size);
    }
    forall e | e in p.blocks ensures p.queue != [] {
      assert !InUse(p, Sem(e, 0));
    }
  }

  lemma PopOk(p: Pool)
    requires Linked(p) && p.queue != []
    ensures p.queue[0].block in p.blocks && p.queue[0].index < p.size
  {
  }

  lemma GrowOk(p: Pool)
    requires Inv(p)
    ensures p.size >= 1
  {
  }

  // ---- conservation ----

  function SumCount(q: seq<Sem>, n: nat): nat
  {
    if n == 0 then 0 else SumCount(q, n - 1) + Count(q, n)
  }

  lemma {:induction false} SumCountCons(x: Sem, q: seq<Sem>, n: nat)
    ensures SumCount([x] + q, n) == SumCount(q, n) + if 1 <= x.block <= n then 1 else 0
  {
    if n > 0 {
      assert ([x] + q)[1..] == q;
      SumCountCons(x, q, n - 1);
    }
  }

  lemma {:induction false} SumCountAll(q: seq<Sem>, n: nat)
    requires forall x :: x in q ==> 1 <= x.block <= n
    ensures SumCount(q, n) == |q|
  {
    if q == [] {
      SumCountNone(n);
    } else {
      assert q == [q[0]] + q[1..];
      SumCountAll(q[1..], n);
      SumCountCons(q[0], q[1..], n);
    }
  }

  lemma {:induction false} SumCountNone(n: nat)
    ensures SumCount([], n) == 0
  {
    if n > 0 {
      SumCountNone(n - 1);
    }
  }

  /** Block by block: what is used and what is queued make up the block. */
  lemma {:induction false} SumBlocks(p: Pool, s: set<nat>, n: nat)
    requires Linked(p)
    requires forall e :: e in s <==> e in p.blocks && e <= n
    ensures SumUsed(p.blocks, n) + SumCount(p.queue, n) == p.size * |s|
  {
    if n == 0 {
      forall e | e in p.blocks ensures 1 <= e {
        assert BlockOk(p, e);
      }
      assert s == {};
    } else if n in p.blocks {
      SumBlocks(p, s - {n}, n - 1);
      assert BlockOk(p, n);
      assert p.size * |s| == p.size * (|s| - 1) + p.size;
    } else {
      SumBlocks(p, s, n - 1);
      CountNone(p.queue, n);
    }
  }

  /** Every semaphore of every live block is either in use or in the free queue. */
  lemma UsedPlusQueued(p: Pool)
    requires Inv(p)
    ensures p.used + |p.queue| == p.total
  {
    forall e | e in p.blocks ensures 1 <= e <= p.epoch {
      assert BlockOk(p, e);
    }
    SumBlocks(p, p.blocks.Keys, p.epoch);
    SumCountAll(p.queue, p.epoch);
  }

  // ---- giving back and growing, told by what is free ----

  lemma {:induction false} CountAtLeast(q: seq<Sem>, e: nat, s: set<nat>)
    requires forall i :: i in s ==> Sem(e, i) in q
    ensures Count(q, e) >= |s|
  {
    if q == [] {
      assert s == {};
    } else {
      assert q == [q[0]] + q[1..];
      if q[0].block == e {
        var r := s - {q[0].index};
        CountAtLeast(q[1..], e, r);
        assert s <= r + {q[0].index};
      } else {
        CountAtLeast(q[1..], e, s);
      }
    }
  }

  /** All of a block's semaphores are free. */
  ghost predicate AllFree(p: Pool, e: nat)
  {
    forall i: nat :: i < p.size ==> Sem(e, i) in p.queue
  }

  lemma UnusedExactly(p: Pool, e: nat)
    requires Linked(p) && e in p.blocks
    ensures p.blocks[e] == 0 <==> AllFree(p, e)
  {
    assert BlockOk(p, e);
    if p.blocks[e] == 0 {
      forall i: nat | i < p.size ensures Sem(e, i) in p.queue {
        AllQueued(p, e, i);
      }
    } else if AllFree(p, e) {
      CountAtLeast(p.queue, e, Below(p.size));
      assert false;
    }
  }

  /**
   A semaphore given back is the next to be handed out, unless its block is older than half of the epochs that there
   are blocks; then it is the last.
   */
  lemma ReturnedWhere(p: Pool, x: Sem)
    requires Inv(p) && InUse(p, x) && p.blocks[x.block] >= 1
    ensures var q := Return(p, x).queue;
            && (x.block >= p.epoch - |p.blocks| / 2 ==> q == [x] + p.queue)
            && (x.block < p.epoch - |p.blocks| / 2 ==> q == p.queue + [x])
  {
    MidEpochOk(p);
  }

  /** Its block is given up exactly if it is that old, all of it is free, and so is half of everything. */
  lemma ReleasedExactly(p: Pool, x: Sem)
    requires Inv(p) && InUse(p, x) && p.blocks[x.block] >= 1 && p.used >= 1
    ensures var r := Return(p, x);
            Surplus(r, x.block) <==>
              AllFree(r, x.block) && 2 * |r.queue| >= r.total && x.block < p.epoch - |p.blocks| / 2
  {
    var r := Return(p, x);
    ReturnInv(p, x);
    MidEpochOk(p);
    UnusedExactly(r, x.block);
    UsedPlusQueued(r);
    hide Inv, AllFree;
  }

  /** A new block has the next epoch, its first semaphore handed out and the others free in order. */
  lemma GrownExactly(p: Pool)
    requires p.size >= 1 && p.queue == []
    ensures var g := Grow(p);
            && g.epoch == p.epoch + 1 && g.total == p.total + p.size && |g.queue| == p.size - 1
            && forall i :: 0 <= i < p.size - 1 ==> g.queue[i] == Sem(p.epoch + 1, i + 1)
  {
  }
}
