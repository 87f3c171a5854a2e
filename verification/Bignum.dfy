/**
 The big integers of bundle/lua-cjson-2.1.0.5/dtoa.c: blocks of 2^k words drawn from and returned
 to per-size free lists, and the memoised chain of powers of 5.  The free lists and the power chain
 thread through the same `next` field.
 */
module Bignum {
  import opened Arith
  import opened Words

  const KMAX: nat := 7

  class Bigint {
    const k: nat
    const x: array<word>
    var sign: bool
    var wds: nat
    var next: Bigint?

    constructor (k: nat)
      ensures this.k == k && fresh(x) && Block()
      ensures !sign && wds == 0
    {
      this.k := k;
      PowPos(2, k);
      x := new word[Pow(2, k)](_ => 0);
      sign, wds := false, 0;
      next := null;
    }

    /** The block holds 2^k words. */
    ghost predicate Block()
    {
      x.Length == Pow(2, k) && x.Length >= 1
    }

    /** A non-zero top word, except that zero is held in one zero word or in none. */
    ghost predicate Normal()
      reads this`wds, x
      ensures Normal() ==> Block() && wds <= x.Length
    {
      && Block()
      && wds <= x.Length
      && (wds == 0 ==> x[0] == 0)
      && (wds > 1 ==> x[wds - 1] != 0)
    }

    ghost function Val(): nat
      requires wds <= x.Length
      reads this`wds, x
    {
      Value(x[..wds])
    }

    /** dtoa.c tests for zero with `!b->x[0] && b->wds <= 1`. */
    predicate IsZero()
      requires Normal()
      reads this`wds, x
      ensures IsZero() <==> Val() == 0
    {
      NormalBounds(this);
      assert x[..1] == [x[0]];
      x[0] == 0 && wds <= 1
    }
  }

  /** The normal form pins down the number of words: BASE^(wds-1) <= Val < BASE^wds, zero apart. */
  lemma NormalBounds(b: Bigint)
    requires b.Normal()
    ensures b.Val() < Pow(BASE, b.wds)
    ensures b.wds > 1 ==> b.Val() >= Pow(BASE, b.wds - 1) > 0
    ensures b.wds == 1 ==> b.Val() == b.x[0]
  {
    var s := b.x[..b.wds];
    ValueBound(s);
    if b.wds > 1 {
      ValueTop(s);
      PowPos(BASE, b.wds - 1);
      MulMono(1, s[b.wds - 1], Pow(BASE, b.wds - 1));
    } else if b.wds == 1 {
      assert s == [b.x[0]];
      assert Value(s) == Value(s[..0]) + s[0] * Pow(BASE, 0);
    }
  }

  ghost function Nth(nodes: seq<Bigint>, i: nat): Bigint?
  {
    if i < |nodes| then nodes[i] else null
  }

  /** `nodes` is the list that starts at `head` and follows `next` to its end. */
  ghost predicate Chain(head: Bigint?, nodes: seq<Bigint>)
    reads nodes`next
  {
    && head == Nth(nodes, 0)
    && (forall i :: 0 <= i < |nodes| ==> nodes[i].next == Nth(nodes, i + 1))
    && (forall i, j :: 0 <= i < j < |nodes| ==> nodes[i] != nodes[j])
  }

  /** The free lists after a block of 2^k words was taken, off its list if that holds one. */
  ghost function Popped(lists: seq<seq<Bigint>>, k: nat): seq<seq<Bigint>>
  {
    if k < |lists| && lists[k] != [] then lists[k := lists[k][1..]] else lists
  }

  /** The free lists after v was given back: to the front of the list of its size, if there is one. */
  ghost function Pushed(lists: seq<seq<Bigint>>, v: Bigint): seq<seq<Bigint>>
  {
    if v.k < |lists| then lists[v.k := [v] + lists[v.k]] else lists
  }

  /** n sits in the free list of blocks of 2^c words, and its words are its own. */
  ghost predicate FreeNode(c: nat, n: Bigint, repr: set<object>, owner: map<array<word>, Bigint>)
  {
    && n in repr && n.x in repr
    && n.k == c && n.Block()
    && n.x in owner && owner[n.x] == n
  }

  /** Each free list is chained through `next` and holds blocks of its own size only. */
  ghost predicate FreeLists(heads: seq<Bigint?>, lists: seq<seq<Bigint>>, repr: set<object>, owner: map<array<word>, Bigint>)
    reads repr
  {
    && |heads| == |lists| == KMAX + 1
    && (forall c: nat, i: nat :: c <= KMAX && i < |lists[c]| ==> FreeNode(c, lists[c][i], repr, owner))
    && (forall c: nat :: c <= KMAX ==> Chain(heads[c], lists[c]))
  }

  /** Node i of the power chain is 625^(2^i). */
  ghost predicate PowChain(head: Bigint?, nodes: seq<Bigint>, repr: set<object>)
    reads repr
  {
    && (forall i :: 0 <= i < |nodes| ==> nodes[i] in repr && nodes[i].x in repr)
    && Chain(head, nodes)
    && (forall i :: 0 <= i < |nodes| ==> PowNode(nodes[i], i))
  }

  ghost predicate PowNode(n: Bigint, i: nat)
    reads n`wds, n.x
  {
    n.Normal() && n.wds >= 1 && n.Val() == Pow(625, Pow(2, i))
  }

  /** The static state of dtoa.c: `freelist` and `p5s`. */
  class Store {
    var freelist: seq<Bigint?>
    var p5s: Bigint?

    ghost var arena: set<object>  // every block made so far, with its words
    ghost var free: seq<seq<Bigint>>
    ghost var freeRepr: set<object>
    ghost var owner: map<array<word>, Bigint>
    ghost var pows: seq<Bigint>
    ghost var powRepr: set<object>

    ghost predicate Valid()
      reads this, freeRepr, powRepr
      ensures Valid() ==> this !in arena && freeRepr <= arena && powRepr <= arena
    {
      && this !in arena && freeRepr <= arena && powRepr <= arena && freeRepr !! powRepr
      && FreeLists(freelist, free, freeRepr, owner)
      && PowChain(p5s, pows, powRepr)
    }

    /** b belongs to a caller: it is in no free list and not in the power chain. */
    ghost predicate Held(b: Bigint)
      reads this
    {
      && b in arena && b.x in arena
      && b !in freeRepr && b.x !in freeRepr && b !in powRepr && b.x !in powRepr
    }

    constructor ()
      ensures Valid() && freeRepr == {} && pows == []
    {
      freelist := seq(KMAX + 1, _ => null);
      free := seq(KMAX + 1, _ => []);
      p5s, pows := null, [];
      arena, freeRepr, powRepr, owner := {}, {}, {}, map[];
    }

    method Balloc(k: nat) returns (rv: Bigint)
      requires Valid()
      modifies this, freeRepr
      ensures Valid() && Held(rv)
      ensures rv.k == k && rv.Block() && rv.wds == 0 && !rv.sign
      ensures fresh(freeRepr - old(freeRepr)) && fresh(arena - old(arena)) && old(arena) <= arena
      ensures pows == old(pows) && powRepr == old(powRepr)
      ensures (fresh(rv) && fresh(rv.x)) || (rv in old(freeRepr) && rv.x in old(freeRepr))
      ensures free == Popped(old(free), k) && |free| == 8
      ensures k < |old(free)| && old(free)[k] != [] ==> rv == old(free)[k][0]
    {
      hide PowChain;
      assert |free| == KMAX + 1 && (k <= KMAX ==> Chain(freelist[k], free[k]));
      hide FreeLists;
      if k <= KMAX && freelist[k] != null {
        rv := TakeFree(k);
      } else {
        rv := new Bigint(k);
        arena := arena + {rv, rv.x};
      }
    }

    /** The head of a free list that is not empty. */
    method TakeFree(k: nat) returns (rv: Bigint)
      requires Valid() && |freelist| == |free| == KMAX + 1
      requires k <= KMAX && freelist[k] != null && free[k] != []
      modifies this, freeRepr
      ensures Valid() && Held(rv)
      ensures rv.k == k && rv.Block() && rv.wds == 0 && !rv.sign
      ensures freeRepr <= old(freeRepr) && arena == old(arena)
      ensures pows == old(pows) && powRepr == old(powRepr)
      ensures rv in old(freeRepr) && rv.x in old(freeRepr)
      ensures free == old(free)[k := old(free)[k][1..]] && rv == old(free)[k][0]
    {
      hide PowChain;
      rv := freelist[k];
      assert FreeNode(k, free[k][0], freeRepr, owner);
      FreePop(freelist, free, freeRepr, owner, k);
      freelist := freelist[k := rv.next];
      freeRepr := freeRepr - {rv, rv.x};
      free := free[k := free[k][1..]];
      hide FreeLists;
      rv.sign, rv.wds := false, 0;
    }

    method Bfree(v: Bigint)
      requires Valid() && Held(v) && v.Block()
      modifies this, v
      ensures Valid()
      ensures freeRepr <= old(freeRepr) + {v, v.x}
      ensures free == Pushed(old(free), v) && |free| == 8
      ensures pows == old(pows) && powRepr == old(powRepr) && arena == old(arena)
    {
      hide PowChain;
      if v.k <= KMAX {
        v.next := freelist[v.k];
        assert FreeLists(freelist, free, freeRepr, owner);
        FreePush(freelist, free, freeRepr, owner, v);
        freelist := freelist[v.k := v];
        freeRepr, owner := freeRepr + {v, v.x}, owner[v.x := v];
        free := free[v.k := [v] + free[v.k]];
      }
    }

    /**
     A step that was given the objects `taken`: what it returned is the caller's and is either one of
     those, fresh, or was free before; the free lists gained only such objects; the powers are as before.
     */
    twostate predicate Returns(new r: Bigint, taken: set<object>)
      reads this
    {
      && Held(r)
      && pows == old(pows) && powRepr == old(powRepr)
      && (r in taken || fresh(r) || r in old(freeRepr))
      && (r.x in taken || fresh(r.x) || r.x in old(freeRepr))
      && fresh(freeRepr - old(freeRepr) - taken)
      && fresh(arena - old(arena)) && old(arena) <= arena
    }

    /** multadd's reallocation: Balloc(b->k + 1), Bcopy, Bfree(b). */
    method Widen(b: Bigint) returns (r: Bigint)
      requires Valid() && Held(b) && b.Block() && b.wds <= b.x.Length
      modifies this, freeRepr, b
      ensures Valid() && Returns(r, {b, b.x})
      ensures r.k == b.k + 1 && r.Block() && r.x.Length == 2 * b.x.Length && r != b && r.x != b.x
      ensures r.wds == old(b.wds) <= r.x.Length && r.x[..r.wds] == old(b.x[..b.wds])
    {
      hide FreeLists, PowChain, Value;
      r := Balloc(b.k + 1);
      Bcopy(r, b);
      Bfree(b);
    }

    /** dtoa.c multadd: b * m + a, in b's own block or, when the carry does not fit there, in one twice as large. */
    method MultAdd(b: Bigint, m: word, a: word) returns (r: Bigint)
      requires Valid() && Held(b) && b.Normal()
      requires m > 0 && (b.wds == 0 ==> a == 0)
      modifies this, freeRepr, b, b.x
      ensures Valid() && Returns(r, {b, b.x})
      ensures r.Normal() && r.Val() == old(b.Val()) * m + a
      ensures r.wds >= old(b.wds)
    {
      hide FreeLists, PowChain, Value, Pow;
      ghost var s := b.x[..b.wds];
      var wds := b.wds;
      var n := if wds == 0 then 1 else wds;
      ghost var t := b.x[..n];
      var carry := MulAddLoop(b.x, n, m, a);
      MulAddResult(s, t, b.x[..n], m, a, carry);
      r := b;
      if carry != 0 {
        if wds >= b.x.Length {
          r := Widen(b);
        }
        ghost var u := r.x[..wds];
        r.x[wds] := carry;
        r.wds := wds + 1;
        assert r.x[..wds + 1] == u + [carry];
      } else {
        assert b.x[..n][..wds] == b.x[..wds];
      }
    }

    /** dtoa.c mult: the product, in a block that holds the words of both. */
    method Mult(a0: Bigint, b0: Bigint) returns (c: Bigint)
      requires Valid() && a0.Normal() && b0.Normal() && a0.wds + b0.wds > 0
      requires a0 !in freeRepr && a0.x !in freeRepr && b0 !in freeRepr && b0.x !in freeRepr
      modifies this, freeRepr
      ensures Valid() && Returns(c, {})
      ensures c.Normal() && c.Val() == old(a0.Val()) * old(b0.Val())
    {
      hide FreeLists, PowChain, Value, Pow;
      var a, b := a0, b0;
      if a0.wds < b0.wds {
        a, b := b0, a0;
      }
      var k := a.k;
      PowTwoStep(a.k);
      if a.wds + b.wds > a.x.Length {
        k := k + 1;
      }
      c := Balloc(k);
      c.wds := MulInto(c.x, a.x, a.wds, b.x, b.wds);
    }

    /** dtoa.c lshift: b * 2^k. */
    method LShift(b: Bigint, k: nat) returns (r: Bigint)
      requires Valid() && Held(b) && b.Normal() && b.wds >= 1
      modifies this, freeRepr, b
      ensures Valid() && Returns(r, {b, b.x})
      ensures r.Block() && 1 <= r.wds <= r.x.Length && r.Val() == old(b.Val()) * Pow(2, k)
      ensures r.Normal() <==> old(b.Val()) > 0 || k < 32
    {
      hide FreeLists, PowChain, Value, Pow;
      var k1 := FitBlock(b.k, b.x.Length, k / 32 + b.wds + 1);
      r := Balloc(k1);
      r.wds := ShiftInto(r.x, b.x, b.wds, k);
      Bfree(b);
    }

    /** diff's result for equal numbers. */
    method ZeroBlock() returns (c: Bigint)
      requires Valid()
      modifies this, freeRepr
      ensures Valid() && Returns(c, {})
      ensures c.Normal() && c.wds == 1 && c.Val() == 0 && !c.sign
    {
      hide FreeLists, PowChain, Value;
      c := Balloc(0);
      c.x[0] := 0;
      c.wds := 1;
      assert c.x[..1] == [0];
      ValueOne(0);
    }

    /** dtoa.c diff: the absolute difference, with the sign set when a is the smaller. */
    method Diff(a0: Bigint, b0: Bigint) returns (c: Bigint)
      requires Valid() && a0.Normal() && b0.Normal() && Comparable(a0, b0)
      requires a0 !in freeRepr && a0.x !in freeRepr && b0 !in freeRepr && b0.x !in freeRepr
      modifies this, freeRepr
      ensures Valid() && Returns(c, {})
      ensures c.Normal() && c.wds >= 1
      ensures c.sign <==> old(a0.Val()) < old(b0.Val())
      ensures if c.sign then c.Val() == old(b0.Val()) - old(a0.Val()) else c.Val() == old(a0.Val()) - old(b0.Val())
    {
      hide FreeLists, PowChain, Value, Pow;
      var i := Cmp(a0, b0);
      if i == 0 {
        c := ZeroBlock();
      } else if i < 0 {
        c := LargerLess(b0, a0);
        c.sign := true;
      } else {
        c := LargerLess(a0, b0);
      }
    }

    /** diff, once it is known which is larger. */
    method LargerLess(a: Bigint, b: Bigint) returns (c: Bigint)
      requires Valid() && a.Normal() && b.Normal() && b.Val() < a.Val()
      requires a !in freeRepr && a.x !in freeRepr && b !in freeRepr && b.x !in freeRepr
      modifies this, freeRepr
      ensures Valid() && Returns(c, {})
      ensures c.Normal() && c.wds >= 1 && !c.sign
      ensures c.Val() == old(a.Val()) - old(b.Val())
    {
      hide FreeLists, PowChain, Value, Pow;
      c := Balloc(a.k);
      LargerHasMoreWords(a, b);
      c.wds := DiffInto(c.x, a.x, a.wds, b.x, b.wds);
    }

    /** dtoa.c i2b. */
    method I2b(i: word) returns (r: Bigint)
      requires Valid()
      modifies this, freeRepr
      ensures Valid() && Returns(r, {})
      ensures r.Normal() && r.wds == 1 && r.Val() == i
    {
      hide FreeLists, PowChain, Value, Pow;
      PowTwoStep(0);
      r := Balloc(1);
      r.x[0] := i;
      r.wds := 1;
      assert r.x[..1] == [i];
      ValueOne(i);
    }

    /** What `Returns` says, for a step that may also lengthen the power chain. */
    twostate predicate Grows(new r: Bigint, taken: set<object>)
      reads this
    {
      && Held(r)
      && old(pows) <= pows
      && (r in taken || fresh(r) || r in old(freeRepr))
      && (r.x in taken || fresh(r.x) || r.x in old(freeRepr))
      && fresh(freeRepr - old(freeRepr) - taken)
      && fresh(powRepr - old(powRepr) - old(freeRepr) - taken)
      && fresh(arena - old(arena)) && old(arena) <= arena
    }

    /** pow5mult's first use of the chain: p5s = i2b(625). */
    method FirstPow()
      requires Valid() && pows == []
      modifies this, freeRepr
      ensures Valid() && |pows| == 1
      ensures fresh(freeRepr - old(freeRepr)) && fresh(powRepr - old(powRepr) - old(freeRepr))
      ensures fresh(arena - old(arena)) && old(arena) <= arena
    {
      hide FreeLists, Value;
      var p5 := I2b(625);
      p5s := p5;
      p5.next := null;
      pows, powRepr := [p5], powRepr + {p5, p5.x};
      assert Pow(625, Pow(2, 0)) == 625;
    }

    /** pow5mult's extension of the chain: p5->next = mult(p5, p5). */
    method NextPow(p5: Bigint)
      requires Valid() && pows != [] && p5 == pows[|pows| - 1]
      modifies this, freeRepr, powRepr
      ensures Valid() && |pows| == |old(pows)| + 1 && old(pows) <= pows
      ensures fresh(freeRepr - old(freeRepr)) && fresh(powRepr - old(powRepr) - old(freeRepr))
      ensures fresh(arena - old(arena)) && old(arena) <= arena
    {
      hide FreeLists, PowChain, Value, Pow;
      ghost var n := |pows|;
      PowAt(n - 1);
      PowSquare(n - 1);
      var p51 := Mult(p5, p5);
      ValueEmpty(p51.x[..p51.wds]);
      LinkPow(p5, p51);
    }

    method LinkPow(p5: Bigint, p51: Bigint)
      requires Valid() && pows != [] && p5 == pows[|pows| - 1]
      requires Held(p51) && PowNode(p51, |pows|)
      modifies this`pows, this`powRepr, p5`next, p51`next
      ensures Valid() && pows == old(pows) + [p51] && powRepr == old(powRepr) + {p51, p51.x}
    {
      hide FreeLists, PowNode, PowChain, Chain;
      ghost var nodes, repr := pows, powRepr;
      PowFacts(p5s, nodes, repr);
      p5.next := p51;
      p51.next := null;
      ChainSnoc(p5s, nodes, p51);
      PowSnoc(p5s, nodes, repr, p51);
      pows, powRepr := pows + [p51], powRepr + {p51, p51.x};
    }

    lemma PowAt(i: nat)
      requires Valid() && i < |pows|
      ensures p5s == pows[0] && pows[i].next == Nth(pows, i + 1)
      ensures pows[i] in powRepr && pows[i].x in powRepr && pows[i] !in freeRepr && pows[i].x !in freeRepr
      ensures pows[i].Normal() && pows[i].wds >= 1 && pows[i].Val() == Pow(625, Pow(2, i))
    {
      assert pows[i] in powRepr;
    }

    /** b1 = mult(b, p5); Bfree(b) */
    method TimesPow(b: Bigint, p5: Bigint, ghost i: nat) returns (r: Bigint)
      requires Valid() && Held(b) && b.Normal() && i < |pows| && p5 == pows[i]
      modifies this, freeRepr, b
      ensures Valid() && Returns(r, {b, b.x})
      ensures r.Normal() && r.Val() == old(b.Val()) * Pow(625, Pow(2, i))
    {
      hide FreeLists, PowChain, Value, Pow;
      PowAt(i);
      r := Mult(b, p5);
      Bfree(b);
    }

    /** The node after p5, made first if the chain ends there. */
    method Advance(p5: Bigint, ghost i: nat) returns (p: Bigint)
      requires Valid() && i < |pows| && p5 == pows[i]
      modifies this, freeRepr, powRepr
      ensures Valid() && old(pows) <= pows && i + 1 < |pows| && p == pows[i + 1]
      ensures fresh(freeRepr - old(freeRepr)) && fresh(powRepr - old(powRepr) - old(freeRepr))
      ensures fresh(arena - old(arena)) && old(arena) <= arena
    {
      hide FreeLists, PowChain, Value, Pow;
      PowAt(i);
      if p5.next == null {
        NextPow(p5);
        PowAt(i);
      }
      p := p5.next;
    }

    /** One turn of pow5mult's loop: multiply if the low bit is set, drop that bit, and move on if any are left. */
    method PowStep(b: Bigint, p5: Bigint, ghost i: nat, k: nat) returns (r: Bigint, p: Bigint, k': nat)
      requires Valid() && Held(b) && b.Normal() && i < |pows| && p5 == pows[i]
      modifies this, freeRepr, powRepr, b, b.x
      ensures Valid() && Grows(r, {b, b.x}) && r.Normal()
      ensures r.Val() == if k % 2 == 1 then old(b.Val()) * Pow(625, Pow(2, i)) else old(b.Val())
      ensures k' == k / 2 && (k' > 0 ==> i + 1 < |pows| && p == pows[i + 1])
    {
      hide FreeLists, PowChain, Value, Pow;
      r, p, k' := b, p5, k / 2;
      if k % 2 == 1 {
        r := TimesPow(b, p5, i);
      }
      if k' > 0 {
        p := Advance(p5, i);
      }
    }

    /** pow5mult's loop: multiply by the chain's node for each bit of k that is set. */
    method PowLoop(b: Bigint, k0: nat) returns (r: Bigint)
      requires Valid() && Held(b) && b.Normal() && k0 >= 1 && pows != []
      modifies this, freeRepr, powRepr, b, b.x
      ensures Valid() && Grows(r, {b, b.x})
      ensures r.Normal() && r.Val() == old(b.Val()) * Pow(625, k0)
    {
      hide FreeLists, PowChain, Value, Pow;
      r := b;
      var k := k0;
      PowAt(0);
      var p5 := p5s;
      ghost var i, v := 0, b.Val();
      PowLoopStart(v, k0);
      while true
        invariant Valid() && Grows(r, {b, b.x}) && r.Normal()
        invariant i < |pows| && p5 == pows[i]
        invariant k >= 1 && PowLoopInv(r.Val(), v, i, k, k0)
        decreases k
      {
        hide PowLoopInv;
        PowLoopNext(r.Val(), v, i, k, k0);
        r, p5, k := PowStep(r, p5, i, k);
        if k == 0 {
          break;
        }
        i := i + 1;
      }
    }

    /** dtoa.c pow5mult: b * 5^k, by squaring along the chain, which it lengthens as far as k needs. */
    method Pow5Mult(b: Bigint, k0: nat) returns (r: Bigint)
      requires Valid() && Held(b) && b.Normal()
      modifies this, freeRepr, powRepr, b, b.x
      ensures Valid() && Grows(r, {b, b.x})
      ensures r.Normal() && r.Val() == old(b.Val()) * Pow(5, k0)
    {
      hide FreeLists, PowChain, Value, Pow;
      r := SmallPow(b, k0 % 4);
      FifthPowers(old(b.Val()), k0);
      if k0 / 4 != 0 {
        r := ChainMult(r, k0 / 4);
      }
    }

    method ChainMult(b: Bigint, k: nat) returns (r: Bigint)
      requires Valid() && Held(b) && b.Normal() && k >= 1
      modifies this, freeRepr, powRepr, b, b.x
      ensures Valid() && Grows(r, {b, b.x})
      ensures r.Normal() && r.Val() == old(b.Val()) * Pow(625, k)
    {
      hide FreeLists, PowChain, Value, Pow;
      EmptyChain();
      if p5s == null {
        FirstPow();
      }
      r := PowLoop(b, k);
    }

    lemma EmptyChain()
      requires Valid()
      ensures p5s == null <==> pows == []
    {
    }

    method SmallPow(b: Bigint, i: nat) returns (r: Bigint)
      requires Valid() && Held(b) && b.Normal() && i < 4
      modifies this, freeRepr, b, b.x
      ensures Valid() && Returns(r, {b, b.x})
      ensures r.Normal() && r.Val() == old(b.Val()) * [1, 5, 25, 125][i]
    {
      hide FreeLists, PowChain, Value, Pow;
      r := b;
      if i != 0 {
        r := MultAdd(b, [5, 25, 125][i - 1], 0);
      }
    }
  }

  /** The pairs on which cmp orders by value: not zero against zero in its other form, nor against no words at all. */
  ghost predicate Comparable(a: Bigint, b: Bigint)
    requires a.wds <= a.x.Length && b.wds <= b.x.Length
    reads a, a.x, b, b.x
  {
    if a.wds == b.wds then a.wds >= 1 else a.Val() > 0 || b.Val() > 0
  }

  /** dtoa.c cmp: the sign of the result orders the values exactly on the comparable pairs. */
  method Cmp(a: Bigint, b: Bigint) returns (r: int)
    requires a.Normal() && b.Normal()
    requires a.wds == b.wds ==> a.wds >= 1
    ensures Comparable(a, b) <==> (r < 0 <==> a.Val() < b.Val()) && (r == 0 <==> a.Val() == b.Val())
    ensures a.wds != b.wds ==> r == a.wds - b.wds
  {
    hide Value, Pow;
    r := a.wds - b.wds;
    if r != 0 {
      if r < 0 {
        FewerWords(a, b);
      } else {
        FewerWords(b, a);
      }
      return;
    }
    r := CompareWords(a.x, b.x, a.wds);
  }

  /** Zero in no words, as quorem leaves it, is less than zero in one word, as diff leaves it. */
  method CmpZeros() returns (a: Bigint, b: Bigint, r: int)
    ensures a.Normal() && b.Normal() && a.Val() == 0 && b.Val() == 0 && r == -1
  {
    hide Value, Pow;
    a := new Bigint(0);
    b := new Bigint(0);
    a.x[0], b.x[0] := 0, 0;
    b.wds := 1;
    NormalBounds(a);
    NormalBounds(b);
    PowNone(BASE);
    r := Cmp(a, b);
  }

  lemma PowNone(b: nat)
    ensures Pow(b, 0) == 1
  {
  }

  /** Zero shifted by a whole word has two words. */
  method LShiftZero() returns (r: Bigint)
    ensures r.wds <= r.x.Length && r.Val() == 0 && !r.Normal()
  {
    var store := new Store();
    var zero := store.I2b(0);
    r := store.LShift(zero, 32);
  }

  /** A normal number of fewer words is smaller, unless both are zero. */
  lemma FewerWords(a: Bigint, b: Bigint)
    requires a.Normal() && b.Normal() && a.wds < b.wds
    ensures a.Val() < b.Val() || a.Val() == b.Val() == 0
  {
    NormalBounds(a);
    NormalBounds(b);
    if b.wds > 1 {
      PowMono(BASE, a.wds, b.wds - 1);
    }
  }

  lemma LargerHasMoreWords(a: Bigint, b: Bigint)
    requires a.Normal() && b.Normal() && a.Val() > b.Val()
    ensures b.wds <= a.wds && a.wds >= 1
  {
    if a.wds < b.wds {
      FewerWords(a, b);
    }
  }

  /** quorem's subtraction: b - S * q, with the leading zero words dropped but one word kept when S has two or more. */
  method SubTrim(b: Bigint, S: Bigint, q: word)
    requires b != S && b.x != S.x && b.Normal() && S.Normal() && b.wds == S.wds >= 1
    requires S.Val() * q <= b.Val()
    modifies b, b.x
    ensures b.Normal() && b.wds <= S.wds
    ensures b.Val() == old(b.Val()) - S.Val() * q
    ensures b.wds == 0 <==> S.wds == 1 && b.Val() == 0
  {
    hide Value, Pow;
    var n := S.wds - 1;
    SubMulLoop(b.x, S.x, n + 1, q);
    if b.x[n] == 0 {
      b.wds := TrimLoop(b.x, n, 1);
      ValueTrimmed(b.x[..], n + 1, b.wds);
      assert b.x[..][..n + 1] == b.x[..n + 1] && b.x[..][..b.wds] == b.x[..b.wds];
    }
    ValueEmpty(b.x[..b.wds]);
    NormalBounds(b);
  }

  /** quorem's estimate of the quotient, from the top words alone. */
  method EstimateQuotient(tb: word, ts: word) returns (q: word)
    requires ts < BASE - 1
    ensures q * (ts + 1) <= tb < q * (ts + 1) + (ts + 1)
  {
    ghost var d: int := ts + 1;
    assert tb == (tb / d) * d + tb % d;
    q := tb / (ts + 1);
  }

  /** quorem up to its comparison: subtract the estimated multiple, which leaves less than twice S. */
  method SubtractEstimate(b: Bigint, S: Bigint) returns (q: word)
    requires b != S && b.x != S.x && b.Normal() && S.Normal() && b.wds == S.wds >= 1
    requires 0x1_0000 <= S.x[S.wds - 1] < BASE - 1
    modifies b, b.x
    ensures b.Normal() && b.wds <= S.wds && q < 0x1_0000
    ensures old(b.Val()) > 0 ==> (b.wds == 0 <==> S.wds == 1 && b.Val() == 0)
    ensures old(b.Val()) == q * S.Val() + b.Val() && b.Val() < S.Val() + S.Val()
  {
    hide Value, Pow;
    var n := S.wds - 1;
    q := EstimateQuotient(b.x[n], S.x[n]);
    QuotientEstimate(b.x[..b.wds], S.x[..S.wds], q);
    MulTwice(q, S.Val());
    if q != 0 {
      SubTrim(b, S, q);
    }
  }

  /** dtoa.c quorem: the quotient is returned and the remainder is left in b. */
  method Quorem(b: Bigint, S: Bigint) returns (q: word)
    requires b != S && b.x != S.x && b.Normal() && S.Normal() && 1 <= S.wds && b.wds <= S.wds
    requires 0x1_0000 <= S.x[S.wds - 1] < BASE - 1
    modifies b, b.x
    ensures b.Normal() && b.wds <= S.wds
    ensures old(b.Val()) == q * S.Val() + b.Val() && b.Val() < S.Val()
    ensures old(b.Val()) > 0 ==> (b.wds == 0 <==> S.wds == 1 && b.Val() == 0)
  {
    hide Value, Pow;
    TopPositive(S);
    ValueEmpty(b.x[..b.wds]);
    if b.wds < S.wds {
      FewerWords(b, S);
      return 0;
    }
    q := SubtractEstimate(b, S);
    var more := SubtractOnceMore(b, S);
    MulOneMore(q, S.Val());
    if more {
      q := q + 1;
    }
  }

  /** quorem's correction of an estimate that was short by one. */
  method SubtractOnceMore(b: Bigint, S: Bigint) returns (more: bool)
    requires b != S && b.x != S.x && b.Normal() && S.Normal() && b.wds <= S.wds
    requires S.wds >= 1 && S.Val() > 0 && b.Val() < S.Val() + S.Val()
    modifies b, b.x
    ensures b.Normal() && b.wds <= S.wds && b.Val() < S.Val()
    ensures old(b.Val()) == b.Val() + if more then S.Val() else 0
    ensures (b.wds == 0 <==> S.wds == 1 && b.Val() == 0) || (!more && b.wds == old(b.wds))
  {
    hide Value, Pow;
    var c := Cmp(b, S);
    more := c >= 0;
    if more {
      if b.wds < S.wds {
        FewerWords(b, S);
      }
      SubTrim(b, S, 1);
    }
  }

  lemma TopPositive(b: Bigint)
    requires b.Normal() && b.wds >= 1 && b.x[b.wds - 1] > 0
    ensures b.Val() > 0
  {
    NormalTop(b);
  }

  lemma MulOneMore(q: int, s: int)
    ensures (q + 1) * s == q * s + s
  {
  }

  lemma MulTwice(q: int, s: int)
    ensures (q + 2) * s == q * s + s + s
  {
  }

  lemma NormalTop(b: Bigint)
    requires b.Normal() && b.wds >= 1
    ensures b.x[b.wds - 1] * Pow(BASE, b.wds - 1) <= b.Val() < (b.x[b.wds - 1] + 1) * Pow(BASE, b.wds - 1)
    ensures b.x[b.wds - 1] > 0 ==> b.Val() > 0
  {
    ValueTop(b.x[..b.wds]);
    PowPos(BASE, b.wds - 1);
  }

  /** The estimate from the top words never exceeds the quotient and is short by at most one. */
  lemma QuotientEstimate(b: seq<word>, s: seq<word>, q: word)
    requires |b| == |s| > 0
    requires 0x1_0000 <= s[|s| - 1] < BASE - 1
    requires var tb, ts: int := b[|s| - 1], s[|s| - 1];
      q * (ts + 1) <= tb < q * (ts + 1) + (ts + 1)
    ensures q * Value(s) <= Value(b) < (q as int + 2) * Value(s)
    ensures q < 0x1_0000
  {
    hide Value, Pow;
    ValueTop(b);
    ValueTop(s);
    EstimateBounds(b[|s| - 1], s[|s| - 1], Pow(BASE, |s| - 1), Value(b), Value(s), q);
  }

  lemma EstimateBounds(tb: nat, ts: nat, p: nat, v: nat, s: nat, q: nat)
    requires tb < BASE && 0x1_0000 <= ts && q * (ts + 1) <= tb < q * (ts + 1) + (ts + 1)
    requires tb * p <= v < (tb + 1) * p && ts * p <= s < (ts + 1) * p
    ensures q * s <= v < (q + 2) * s && q < 0x1_0000
  {
    EstimateSmall(tb, ts, q);
    EstimateLow(tb, ts, p, v, s, q);
    EstimateHigh(tb, ts, p, v, s, q);
  }

  lemma EstimateSmall(tb: nat, ts: nat, q: nat)
    requires tb < BASE && ts >= 0x1_0000 && q * (ts + 1) <= tb
    ensures q < 0x1_0000
  {
    if q >= 0x1_0000 {
      MulMono(0x1_0000, q, ts + 1);
      assert false;
    }
  }

  lemma EstimateLow(tb: nat, ts: nat, p: nat, v: nat, s: nat, q: nat)
    requires q * (ts + 1) <= tb
    requires tb * p <= v && s <= (ts + 1) * p
    ensures q * s <= v
  {
    MulMono(s, (ts + 1) * p, q);
    MulAssoc(q, ts + 1, p);
    MulMono(q * (ts + 1), tb, p);
  }

  lemma EstimateHigh(tb: nat, ts: nat, p: nat, v: nat, s: nat, q: nat)
    requires tb < q * (ts + 1) + (ts + 1) && q + 1 <= ts
    requires v < (tb + 1) * p && ts * p <= s
    ensures v < (q + 2) * s
  {
    assert tb + 1 <= (q + 2) * ts;
    MulMono(tb + 1, (q + 2) * ts, p);
    MulAssoc(q + 2, ts, p);
    MulMono(ts * p, s, q + 2);
  }

  lemma PowTwoStep(k: nat)
    ensures Pow(2, k + 1) == 2 * Pow(2, k)
  {
  }

  /** lshift's search for a block: double until n words fit. */
  method FitBlock(k: nat, len: nat, n: nat) returns (k1: nat)
    requires len == Pow(2, k) && len >= 1
    ensures k1 >= k && Pow(2, k1) >= n
  {
    k1 := k;
    var i := len;
    while n > i
      invariant k1 >= k && i == Pow(2, k1) && i >= 1
      decreases n - i
    {
      i := 2 * i;
      k1 := k1 + 1;
    }
  }

  /** The words in use after multadd: those it had, and one more for a carry. */
  ghost function MulAddWords(s: seq<word>, u: seq<word>, carry: word): seq<word>
    requires |s| <= |u|
  {
    if carry != 0 then u + [carry] else u[..|s|]
  }

  /** What multadd's loop leaves, read back as a number. */
  lemma MulAddResult(s: seq<word>, t: seq<word>, u: seq<word>, m: word, a: word, carry: word)
    requires |t| == |u| == (if s == [] then 1 else |s|)
    requires if s == [] then t == [0] && a == 0 else t == s
    requires |s| > 1 ==> s[|s| - 1] != 0
    requires m > 0
    requires Value(u) + carry * Pow(BASE, |u|) == Value(t) * m + a
    ensures Value(MulAddWords(s, u, carry)) == Value(s) * m + a
    ensures carry == 0 && |s| > 1 ==> u[|s| - 1] != 0
    ensures s == [] ==> carry == 0 && u == [0]
  {
    if s == [] {
      MulAddZero(u, m, carry);
    } else if carry == 0 {
      assert u[..|s|] == u;
      if |s| > 1 {
        MulAddTop(s, u, m, a);
      }
    } else {
      hide Pow;
      ValueSnoc(u + [carry], |u|);
      assert (u + [carry])[..|u|] == u && (u + [carry])[..|u| + 1] == u + [carry];
    }
  }

  lemma MulAddZero(u: seq<word>, m: word, carry: word)
    requires |u| == 1 && Value(u) + carry * Pow(BASE, 1) == Value([0]) * m
    ensures carry == 0 && u == [0] && Value(u[..0]) == 0 == Value([]) * m
  {
    ValueOne(0);
    ValueOne(u[0]);
    assert u == [u[0]];
    assert Pow(BASE, 1) == BASE;
  }

  lemma MulAddTop(s: seq<word>, u: seq<word>, m: word, a: word)
    requires |s| == |u| > 1 && s[|s| - 1] != 0
    requires m > 0 && Value(u) == Value(s) * m + a
    ensures u[|u| - 1] != 0
  {
    hide *;
    ValueTop(s);
    ProductAtLeast(s[|s| - 1], Pow(BASE, |s| - 1), Value(s), m);
    TopNonZero(u);
  }

  /** dtoa.c Bcopy: the sign, the word count and the words in use. */
  method Bcopy(dst: Bigint, src: Bigint)
    requires dst != src && dst.x != src.x && src.wds <= src.x.Length && src.wds <= dst.x.Length
    modifies dst, dst.x
    ensures dst.sign == src.sign && dst.wds == src.wds
    ensures dst.x[..dst.wds] == src.x[..src.wds]
  {
    dst.sign, dst.wds := src.sign, src.wds;
    forall i | 0 <= i < src.wds {
      dst.x[i] := src.x[i];
    }
  }

  /** What is in hand times the powers still to come is the power asked for. */
  ghost predicate PowLoopInv(r: nat, v: nat, i: nat, k: nat, k0: nat)
  {
    r * Pow(Pow(625, Pow(2, i)), k) == v * Pow(625, k0)
  }

  lemma PowLoopStart(v: nat, k0: nat)
    ensures PowLoopInv(v, v, 0, k0, k0)
  {
    assert Pow(625, Pow(2, 0)) == 625;
  }

  lemma PowLoopNext(r: nat, v: nat, i: nat, k: nat, k0: nat)
    requires PowLoopInv(r, v, i, k, k0) && k >= 1
    ensures var r' := if k % 2 == 1 then r * Pow(625, Pow(2, i)) else r;
      && PowLoopInv(r', v, i + 1, k / 2, k0)
      && (k / 2 == 0 ==> r' == v * Pow(625, k0))
  {
    var p := Pow(625, Pow(2, i));
    PowSquare(i);
    PowHalve(p, k);
    hide Pow;
    if k % 2 == 1 {
      MulAssoc(r, p, Pow(p * p, k / 2));
    }
    PowZero(p * p);
  }

  lemma PowZero(p: nat)
    ensures Pow(p, 0) == 1
  {
  }

  lemma PowHalve(p: nat, k: nat)
    ensures Pow(p, k) == (if k % 2 == 1 then p else 1) * Pow(p * p, k / 2)
  {
    var h := k / 2;
    assert Pow(p, 2) == p * p by {
      assert Pow(p, 1) == p;
    }
    PowPow(p, 2, h);
    if k % 2 == 1 {
      assert Pow(p, k) == p * Pow(p, k - 1);
    }
  }

  /** 5^k by its two low bits and the rest. */
  lemma FifthPowers(v: nat, k: nat)
    ensures v * Pow(5, k) == (v * [1, 5, 25, 125][k % 4]) * Pow(625, k / 4)
    ensures k / 4 == 0 ==> v * Pow(5, k) == v * [1, 5, 25, 125][k % 4]
  {
    assert Pow(5, 4) == 625 && Pow(5, 3) == 125 && Pow(5, 2) == 25 && Pow(5, 1) == 5;
    hide Pow;
    PowPow(5, 4, k / 4);
    PowAdd(5, k % 4, 4 * (k / 4));
    PowZero(5);
    PowZero(625);
    MulAssoc(v, [1, 5, 25, 125][k % 4], Pow(625, k / 4));
  }

  lemma PowFacts(head: Bigint?, nodes: seq<Bigint>, repr: set<object>)
    requires PowChain(head, nodes, repr) && nodes != []
    ensures head == nodes[0]
    ensures forall i :: 0 <= i < |nodes| ==> nodes[i] in repr && nodes[i].x in repr && PowNode(nodes[i], i)
    ensures forall i :: 0 <= i < |nodes| - 1 ==> nodes[i].next == nodes[i + 1] && nodes[i] != nodes[|nodes| - 1]
    ensures forall i, j :: 0 <= i < j < |nodes| ==> nodes[i] != nodes[j]
  {
    hide PowNode;
  }

  lemma ChainSnoc(head: Bigint?, nodes: seq<Bigint>, n: Bigint)
    requires nodes != [] && head == nodes[0] && n !in nodes
    requires forall i :: 0 <= i < |nodes| - 1 ==> nodes[i].next == nodes[i + 1]
    requires forall i, j :: 0 <= i < j < |nodes| ==> nodes[i] != nodes[j]
    requires nodes[|nodes| - 1].next == n && n.next == null
    ensures Chain(head, nodes + [n])
  {
  }

  lemma PowSnoc(head: Bigint?, nodes: seq<Bigint>, repr: set<object>, n: Bigint)
    requires Chain(head, nodes + [n])
    requires forall i :: 0 <= i < |nodes| ==> nodes[i] in repr && nodes[i].x in repr && PowNode(nodes[i], i)
    requires PowNode(n, |nodes|)
    ensures PowChain(head, nodes + [n], repr + {n, n.x})
  {
    hide PowNode, Chain;
  }

  lemma PowSquare(i: nat)
    ensures Pow(625, Pow(2, i)) * Pow(625, Pow(2, i)) == Pow(625, Pow(2, i + 1))
    ensures Pow(625, Pow(2, i)) > 0
  {
    PowAdd(625, Pow(2, i), Pow(2, i));
    PowPos(625, Pow(2, i));
  }

  /** dtoa.c hi0bits: the number of leading zero bits.  A mask test is a comparison with the mask's lowest bit. */
  method Hi0bits(x0: word) returns (k: nat)
    ensures x0 == 0 ==> k == 32
    ensures x0 > 0 ==> k < 32 && 0x8000_0000 <= x0 * Pow(2, k) < BASE
  {
    hide Pow;
    PowZero(2);
    k := 0;
    var x: word := x0;
    if x < 0x1_0000 {
      SmallPowers(k);
      k, x := 16, x * 0x1_0000;
    }
    if x < 0x100_0000 {
      SmallPowers(k);
      k, x := k + 8, x * 0x100;
    }
    if x < 0x1000_0000 {
      SmallPowers(k);
      k, x := k + 4, x * 0x10;
    }
    if x < 0x4000_0000 {
      SmallPowers(k);
      k, x := k + 2, x * 4;
    }
    if x < 0x8000_0000 {
      SmallPowers(k);
      k := k + 1;
      if x < 0x4000_0000 {
        return 32;
      }
    }
  }

  lemma SmallPowers(k: nat)
    ensures Pow(2, k + 16) == 0x1_0000 * Pow(2, k)
    ensures Pow(2, k + 8) == 0x100 * Pow(2, k)
    ensures Pow(2, k + 4) == 0x10 * Pow(2, k)
    ensures Pow(2, k + 2) == 4 * Pow(2, k)
    ensures Pow(2, k + 1) == 2 * Pow(2, k)
    ensures Pow(2, 16) == 0x1_0000
  {
    assert Pow(2, 1) == 2 && Pow(2, 2) == 4 && Pow(2, 4) == 0x10 && Pow(2, 8) == 0x100;
    hide Pow;
    PowAdd(2, 8, 8);
    PowAdd(2, 1, k);
    PowAdd(2, 2, k);
    PowAdd(2, 4, k);
    PowAdd(2, 8, k);
    PowAdd(2, 16, k);
  }

  /**
   dtoa.c dshift: how far to shift on, beyond p2, so that the top word has four leading zero bits.
   With h leading zero bits in the top word now, the whole shift is h - 4 modulo the word size.
   */
  method DShift(b: Bigint, p2: nat) returns (i: nat, ghost h: nat)
    requires b.Normal() && b.Val() > 0
    ensures i < 32 && b.wds >= 1
    ensures h < 32 && 0x8000_0000 <= b.x[b.wds - 1] * Pow(2, h) < BASE
    ensures (p2 + i + 4 - h) % 32 == 0
  {
    hide Value, Pow;
    PositiveTop(b);
    var k := Hi0bits(b.x[b.wds - 1]);
    var rv: int := k as int - 4;
    if p2 > 0 {
      rv := rv - p2;
    }
    i, h := rv % 32, k;
  }

  lemma PositiveTop(b: Bigint)
    requires b.Normal() && b.Val() > 0
    ensures b.wds >= 1 && b.x[b.wds - 1] > 0
  {
    NormalBounds(b);
  }

  /** A divisor as the digit loops want it: four leading zero bits. */
  ghost predicate Divisor(S: Bigint)
    reads S`wds, S.x
    ensures Divisor(S) ==> S.Normal() && S.wds >= 1
  {
    S.Normal() && S.wds >= 1 && 0x800_0000 <= S.x[S.wds - 1] < 0x1000_0000
  }

  /** dtoa's preparation of S: shift by s2 + dshift(S, s2), after which S is a divisor for quorem. */
  method ShiftDivisor(store: Store, S: Bigint, s2: nat) returns (r: Bigint, s: nat)
    requires store.Valid() && store.Held(S) && S.Normal() && S.Val() > 0
    modifies store, store.freeRepr, S
    ensures store.Valid() && store.Returns(r, {S, S.x})
    ensures s2 <= s < s2 + 32
    ensures Divisor(r) && r.Val() == old(S.Val()) * Pow(2, s)
  {
    hide Value, Pow, FreeLists, PowChain;
    var i, h := DShift(S, s2);
    s := s2 + i;
    r := S;
    ghost var t, n, v := S.x[S.wds - 1], S.wds, S.Val();
    NormalTop(S);
    MulPowZero(v);
    if s > 0 {
      r := store.LShift(S, s);
    }
    DivisorTop(r, v, t, n - 1, h, s);
  }

  lemma DivisorTop(r: Bigint, v: nat, t: word, e: nat, h: nat, s: nat)
    requires r.Normal() && r.Val() == v * Pow(2, s)
    requires t * Pow(BASE, e) <= v < (t + 1) * Pow(BASE, e)
    requires h < 32 && 0x8000_0000 <= t * Pow(2, h) < BASE && (s + 4 - h) % 32 == 0
    ensures Divisor(r)
  {
    hide Value, Pow;
    var m := (s + 4 - h) / 32;
    ShiftScale(s, h, m);
    PowAdd(BASE, e, m);
    PowPos(BASE, m);
    TopBits(t, h);
    DivisorRange(v, t, Pow(BASE, e), Pow(2, h), Pow(BASE, m), Pow(2, s));
    TopWord(r, e + m);
  }

  lemma ShiftScale(s: nat, h: nat, m: nat)
    requires s + 4 == h + 32 * m
    ensures 16 * Pow(2, s) == Pow(2, h) * Pow(BASE, m)
  {
    hide Pow;
    SmallPowers(s);
    PowAdd(2, h, 32 * m);
    TwoTo32();
    PowPow(2, 32, m);
  }

  lemma TopBits(t: word, h: nat)
    requires h < 32 && t * Pow(2, h) < BASE
    ensures (t + 1) * Pow(2, h) <= BASE
  {
    hide Pow;
    ShiftFactors(h);
    MulCancel(t, Pow(2, 32 - h), Pow(2, h));
    MulMono(t + 1, Pow(2, 32 - h), Pow(2, h));
  }

  lemma SixteenTimes(v: nat, hh: nat, q: nat, ps: nat)
    requires 16 * ps == hh * q
    ensures 16 * (v * ps) == (v * hh) * q
  {
    MulAssoc(v, hh, q);
    MulExchange(16, v, ps);
  }

  lemma ScaledLow(c: nat, v: nat, t: nat, p: nat, hh: nat)
    requires t * p <= v && c <= t * hh
    ensures c * p <= v * hh
  {
    MulMono(c, t * hh, p);
    MulSwap(t, hh, p);
    MulMono(t * p, v, hh);
  }

  lemma ScaledHigh(c: nat, v: nat, t: nat, p: nat, hh: nat)
    requires v < t * p && t * hh <= c && hh > 0
    ensures v * hh < c * p
  {
    MulMono(v + 1, t * p, hh);
    MulSwap(t, p, hh);
    MulMono(t * hh, c, p);
    OneMore(v, hh);
  }

  lemma MulSwap(a: int, b: int, c: int)
    ensures (a * b) * c == (a * c) * b
  {
  }

  lemma OneMore(a: int, b: int)
    ensures (a + 1) * b == a * b + b
  {
  }

  lemma ScaleLow(c: nat, p: nat, q: nat, u: nat)
    requires c * p <= u
    ensures c * (p * q) <= u * q
  {
    MulMono(c * p, u, q);
    MulAssoc(c, p, q);
  }

  lemma ScaleHigh(c: nat, p: nat, q: nat, u: nat)
    requires u < c * p && q > 0
    ensures u * q < c * (p * q)
  {
    MulMono(u + 1, c * p, q);
    MulAssoc(c, p, q);
    OneMore(u, q);
  }

  lemma Sixteenth(w: nat, pq: nat, uq: nat)
    requires 16 * w == uq && 0x8000_0000 * pq <= uq < BASE * pq
    ensures 0x800_0000 * pq <= w < 0x1000_0000 * pq
  {
  }

  /** The divisor's range, for v * 2^s with t the top word of v and hh * q == 16 * 2^s. */
  lemma DivisorRange(v: nat, t: nat, p: nat, hh: nat, q: nat, ps: nat)
    requires t * p <= v < (t + 1) * p
    requires 0x8000_0000 <= t * hh && (t + 1) * hh <= BASE && hh > 0 && q > 0
    requires 16 * ps == hh * q
    ensures 0x800_0000 * (p * q) <= v * ps < 0x1000_0000 * (p * q)
  {
    SixteenTimes(v, hh, q, ps);
    ScaledLow(0x8000_0000, v, t, p, hh);
    ScaledHigh(BASE, v, t + 1, p, hh);
    ScaleLow(0x8000_0000, p, q, v * hh);
    ScaleHigh(BASE, p, q, v * hh);
    Sixteenth(v * ps, p * q, (v * hh) * q);
  }

  /** The range of the value fixes the number of words and the range of the top one. */
  lemma TopWord(r: Bigint, e: nat)
    requires r.Normal()
    requires 0x800_0000 * Pow(BASE, e) <= r.Val() < 0x1000_0000 * Pow(BASE, e)
    ensures Divisor(r)
  {
    hide Value, Pow;
    PowPos(BASE, e);
    NormalBounds(r);
    assert r.wds == e + 1 by {
      PowStep(e);
      if r.wds > e + 1 {
        PowMono(BASE, e + 1, r.wds - 1);
        assert false;
      }
      if r.wds <= e {
        PowMono(BASE, r.wds, e);
        assert false;
      }
    }
    NormalTop(r);
    var t, p: int := r.x[r.wds - 1], Pow(BASE, e);
    MulCancel(t, 0x1000_0000, p);
    MulCancel(0x800_0000, t + 1, p);
  }

  /** Taking the head off a free list leaves the lists in order, and nothing in them shares its words. */
  lemma FreePop(heads: seq<Bigint?>, lists: seq<seq<Bigint>>, repr: set<object>, owner: map<array<word>, Bigint>, k: nat)
    requires FreeLists(heads, lists, repr, owner) && k <= KMAX && heads[k] != null
    ensures lists[k] != [] && heads[k] == lists[k][0]
    ensures FreeLists(heads[k := heads[k].next], lists[k := lists[k][1..]], repr - {heads[k], heads[k].x}, owner)
  {
    var rv := heads[k];
    var heads', lists', repr' := heads[k := rv.next], lists[k := lists[k][1..]], repr - {rv, rv.x};
    assert FreeNode(k, lists[k][0], repr, owner);
    forall c: nat, i: nat | c <= KMAX && i < |lists'[c]|
      ensures FreeNode(c, lists'[c][i], repr', owner)
    {
      assert FreeNode(c, if c == k then lists[c][i + 1] else lists[c][i], repr, owner);
    }
    forall c: nat | c <= KMAX
      ensures Chain(heads'[c], lists'[c])
    {
      assert Chain(heads[c], lists[c]);
    }
  }

  lemma FreePush(heads: seq<Bigint?>, lists: seq<seq<Bigint>>, repr: set<object>, owner: map<array<word>, Bigint>, v: Bigint)
    requires FreeLists(heads, lists, repr, owner)
    requires v.k <= KMAX && v.Block() && v !in repr && v.x !in repr && v.next == heads[v.k]
    ensures FreeLists(heads[v.k := v], lists[v.k := [v] + lists[v.k]], repr + {v, v.x}, owner[v.x := v])
  {
    var heads', lists', repr', owner' := heads[v.k := v], lists[v.k := [v] + lists[v.k]], repr + {v, v.x}, owner[v.x := v];
    forall c: nat, i: nat | c <= KMAX && i < |lists'[c]|
      ensures FreeNode(c, lists'[c][i], repr', owner')
    {
      if c == v.k {
        assert i > 0 ==> FreeNode(c, lists[c][i - 1], repr, owner);
      } else {
        assert FreeNode(c, lists[c][i], repr, owner);
      }
    }
    forall c: nat | c <= KMAX
      ensures Chain(heads'[c], lists'[c])
    {
      assert Chain(heads[c], lists[c]);
      assert c == v.k ==> forall i :: 0 <= i < |lists[c]| ==> FreeNode(c, lists[c][i], repr, owner);
    }
  }
}
