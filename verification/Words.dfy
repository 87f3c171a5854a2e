/**
 Little-endian sequences of 32-bit words and the in-place loops that
 bundle/lua-cjson-2.1.0.5/dtoa.c runs over them.  Every 64-bit intermediate is a
 `dword`, so that each assignment to one is an obligation that it fits.
 */
module Words {
  import opened Arith

  const BASE: nat := 0x1_0000_0000
  const WRAP64: nat := 0x1_0000_0000_0000_0000

  type word = n: int | 0 <= n < 0x1_0000_0000
  type dword = n: int | 0 <= n < 0x1_0000_0000_0000_0000

  ghost function Value(s: seq<word>): nat
  {
    if s == [] then 0 else Value(s[..|s| - 1]) + s[|s| - 1] * Pow(BASE, |s| - 1)
  }

  lemma ValueSnoc(s: seq<word>, i: nat)
    requires i < |s|
    ensures Value(s[..i + 1]) == Value(s[..i]) + s[i] * Pow(BASE, i)
  {
    assert s[..i + 1][..i] == s[..i];
  }

  lemma {:induction false} ValueBound(s: seq<word>)
    ensures Value(s) < Pow(BASE, |s|)
  {
    if s != [] {
      var p := Pow(BASE, |s| - 1);
      ValueBound(s[..|s| - 1]);
      var top: int := s[|s| - 1];
      MulMono(top + 1, BASE, p);
      assert Value(s) < (top + 1) * p;
    }
  }

  lemma {:induction false} ValueSplit(s: seq<word>, i: nat)
    requires i <= |s|
    ensures Value(s) == Value(s[..i]) + Pow(BASE, i) * Value(s[i..])
  {
    if i == |s| {
      assert s[..i] == s;
    } else {
      var t := s[..|s| - 1];
      ValueSplit(t, i);
      assert t[..i] == s[..i];
      assert s[i..][..|s| - 1 - i] == t[i..];
      PowAdd(BASE, i, |s| - 1 - i);
      var p, q, w := Pow(BASE, i), Pow(BASE, |s| - 1 - i), s[|s| - 1];
      assert Value(s[i..]) == Value(t[i..]) + w * q;
      Distribute(p, Value(t[i..]), w, q);
    }
  }

  lemma Distribute(p: int, v: int, w: int, q: int)
    ensures p * (v + w * q) == p * v + w * (p * q)
  {
  }

  lemma {:induction false} ValueZeros(s: seq<word>)
    requires forall i :: 0 <= i < |s| ==> s[i] == 0
    ensures Value(s) == 0
  {
    if s != [] {
      ValueZeros(s[..|s| - 1]);
    }
  }

  /** A number with n words and a non-zero top word is at least BASE^(n-1). */
  lemma ValueTop(s: seq<word>)
    requires s != []
    ensures s[|s| - 1] * Pow(BASE, |s| - 1) <= Value(s) < (s[|s| - 1] + 1) * Pow(BASE, |s| - 1)
  {
    ValueBound(s[..|s| - 1]);
  }

  /** A number of n words that reaches BASE^(n-1) has a non-zero top word. */
  lemma TopNonZero(s: seq<word>)
    requires s != [] && Value(s) >= Pow(BASE, |s| - 1)
    ensures s[|s| - 1] != 0
  {
    ValueTop(s);
  }

  lemma ValueOne(w: word)
    ensures Value([w]) == w
  {
    assert [w][..0] == [];
  }

  lemma ProductAtLeast(t: nat, p: nat, v: nat, m: nat)
    requires t > 0 && m > 0 && t * p <= v
    ensures p <= v <= v * m
  {
    MulMono(1, t, p);
    MulMono(1, m, v);
  }

  /** The index of the highest non-zero word plus one, but never below `low`. */
  function Trimmed(s: seq<word>, n: nat, low: nat): (r: nat)
    requires n <= |s|
    ensures low <= n ==> low <= r <= n
    ensures n < low ==> r == n
    ensures r > low ==> s[r - 1] != 0
    ensures forall i :: r <= i < n ==> s[i] == 0
  {
    if n > low && s[n - 1] == 0 then Trimmed(s, n - 1, low) else n
  }

  lemma {:induction false} ValueTrimmed(s: seq<word>, n: nat, r: nat)
    requires r <= n <= |s|
    requires forall i :: r <= i < n ==> s[i] == 0
    ensures Value(s[..r]) == Value(s[..n])
  {
    if r < n {
      ValueTrimmed(s, n - 1, r);
      ValueSnoc(s, n - 1);
    }
  }

  /** The trimming loops: step back over zero words, stopping at `low`. */
  method TrimLoop(x: array<word>, n: nat, low: nat) returns (r: nat)
    requires n <= x.Length
    ensures r == Trimmed(x[..], n, low)
  {
    r := n;
    while r > low && x[r - 1] == 0
      invariant r <= n
      invariant Trimmed(x[..], r, low) == Trimmed(x[..], n, low)
    {
      r := r - 1;
    }
  }

  /** Splitting a double word at bit 32 keeps its weight. */
  lemma Recompose(y: nat, p: nat)
    ensures (y % BASE) * p + (y / BASE) * (BASE * p) == y * p
  {
    assert y == (y % BASE) + (y / BASE) * BASE;
    assert (y / BASE) * (BASE * p) == ((y / BASE) * BASE) * p;
  }

  lemma ValuePut(s: seq<word>, i: nat, w: word)
    requires i < |s|
    ensures Value(s[i := w][..i + 1]) == Value(s[..i]) + w * Pow(BASE, i)
  {
    ValueSnoc(s[i := w], i);
    assert s[i := w][..i] == s[..i];
  }

  lemma PowStep(i: nat)
    ensures Pow(BASE, i + 1) == BASE * Pow(BASE, i)
  {
  }

  lemma MulBound(x: word, m: word)
    ensures x * m <= (BASE - 1) * (BASE - 1)
  {
    MulMono(x, BASE - 1, m);
    MulMono(m, BASE - 1, BASE - 1);
  }

  /** After i words of multadd: the words done and the carry make up the product of the words read. */
  ghost predicate MulAddInv(x: seq<word>, x0: seq<word>, i: nat, m: word, a: word, carry: word)
  {
    && i <= |x| == |x0|
    && x[i..] == x0[i..]
    && Value(x[..i]) + carry * Pow(BASE, i) == Value(x0[..i]) * m + a
  }

  lemma MulAddNext(x: seq<word>, x0: seq<word>, i: nat, m: word, a: word, carry: word, y: dword)
    requires MulAddInv(x, x0, i, m, a, carry) && i < |x|
    requires y == x[i] * m + carry
    ensures MulAddInv(x[i := y % BASE], x0, i + 1, m, a, y / BASE)
  {
    assert x0[i] == x[i..][0] == x[i];
    ValuePut(x, i, y % BASE);
    ValueSnoc(x0, i);
    MulAddStep(Value(x[..i]), Value(x0[..i]), x[i], m, a, carry, y, Pow(BASE, i));
    PowStep(i);
    hide Value, Pow;
  }

  lemma MulAddStep(v: nat, u: nat, x: nat, m: nat, a: nat, c: nat, y: nat, p: nat)
    requires v + c * p == u * m + a
    requires y == x * m + c
    ensures v + (y % BASE) * p + (y / BASE) * (BASE * p) == (u + x * p) * m + a
  {
    Recompose(y, p);
    assert y * p == x * m * p + c * p;
    assert (u + x * p) * m == u * m + x * m * p;
  }

  /** dtoa.c multadd, the loop: x[..n] := x[..n] * m + a, with the carry out returned. */
  method MulAddLoop(x: array<word>, n: nat, m: word, a: word) returns (carry: word)
    requires n <= x.Length
    modifies x
    ensures x[n..] == old(x[n..])
    ensures Value(x[..n]) + carry * Pow(BASE, n) == Value(old(x[..n])) * m + a
  {
    ghost var s := x[..];
    carry := a;
    var i := 0;
    while i < n
      invariant 0 <= i <= n
      invariant MulAddInv(x[..], s, i, m, a, carry)
    {
      hide MulAddInv;
      ghost var t := x[..];
      MulBound(x[i], m);
      var y: dword := x[i] * m + carry;
      MulAddNext(t, s, i, m, a, carry, y);
      carry := y / BASE;
      x[i] := y % BASE;
      assert x[..] == t[i := x[i]];
      i := i + 1;
    }
    assert x[..][..n] == x[..n] && s[..n] == old(x[..n]);
  }

  /** What one row of a product adds: v * y at weight p. */
  ghost function Row(p: nat, v: nat, y: nat): nat
  {
    p * (v * y)
  }

  lemma RowZero(p: nat, v: nat)
    ensures Row(p, v, 0) == 0
  {
  }

  /** After i words of a row of mult: offset j onwards holds the old words plus a[..i] * y. */
  ghost predicate MulRowInv(c: seq<word>, c0: seq<word>, j: nat, a: seq<word>, i: nat, y: word, carry: word)
  {
    && i <= |a| && j + i <= |c| == |c0|
    && c[j + i..] == c0[j + i..]
    && Value(c[..j + i]) + Weight(carry, j + i) == Value(c0[..j + i]) + Row(Pow(BASE, j), Value(a[..i]), y)
  }

  /** What a word counts for at place n. */
  ghost function Weight(w: nat, n: nat): nat
  {
    w * Pow(BASE, n)
  }

  lemma ValuePutWeight(s: seq<word>, i: nat, w: word)
    requires i < |s|
    ensures Value(s[i := w][..i + 1]) == Value(s[..i]) + Weight(w, i)
  {
    ValuePut(s, i, w);
  }

  lemma MulRowNext(c: seq<word>, c0: seq<word>, j: nat, a: seq<word>, i: nat, y: word, carry: word, z: dword)
    requires MulRowInv(c, c0, j, a, i, y, carry) && i < |a| && j + i < |c|
    requires z == a[i] * y + c[j + i] + carry
    ensures MulRowInv(c[j + i := z % BASE], c0, j, a, i + 1, y, z / BASE)
  {
    assert c0[j + i] == c[j + i..][0] == c[j + i];
    ValuePut(c, j + i, z % BASE);
    ValueSnoc(c0, j + i);
    ValueSnoc(a, i);
    PowAdd(BASE, j, i);
    PowStep(j + i);
    assert j + (i + 1) == (j + i) + 1;
    MulRowStep(Value(c[..j + i]), Value(c0[..j + i]), Value(a[..i]), a[i], y, c[j + i], carry, z,
               Pow(BASE, j), Pow(BASE, i), Pow(BASE, j + i));
    hide Value, Pow, Row;
  }

  lemma DropPut(c: seq<word>, c0: seq<word>, m: nat, w: word)
    requires m < |c| == |c0| && c[m..] == c0[m..]
    ensures c[m := w][m + 1..] == c0[m + 1..]
  {
    assert c[m + 1..] == c[m..][1..] && c0[m + 1..] == c0[m..][1..];
  }

  lemma MulRowStart(c: seq<word>, j: nat, a: seq<word>, y: word)
    requires j <= |c|
    ensures MulRowInv(c, c, j, a, 0, y, 0)
  {
    assert Value(a[..0]) == 0;
  }

  lemma MulRowDone(c: seq<word>, c0: seq<word>, j: nat, a: seq<word>, y: word, carry: word)
    requires MulRowInv(c, c0, j, a, |a|, y, carry) && j + |a| < |c|
    ensures c[j + |a| := carry][j + |a| + 1..] == c0[j + |a| + 1..]
    ensures Value(c[j + |a| := carry][..j + |a| + 1]) == Value(c0[..j + |a|]) + Row(Pow(BASE, j), Value(a), y)
  {
    hide Value, Pow, Row, Weight;
    ValuePutWeight(c, j + |a|, carry);
    assert a[..|a|] == a;
    DropPut(c, c0, j + |a|, carry);
  }

  lemma MulRowStep(v: nat, u: nat, va: nat, x: nat, y: nat, w: nat, k: nat, z: nat, pj: nat, p: nat, q: nat)
    requires q == pj * p
    requires v + k * q == u + Row(pj, va, y)
    requires z == x * y + w + k
    ensures v + (z % BASE) * q + (z / BASE) * (BASE * q) == u + w * q + Row(pj, va + x * p, y)
  {
    RowAdd(pj, va, x, p, y);
    hide Row;
    Recompose(z, q);
    assert z * q == x * y * q + w * q + k * q;
  }

  /**
   dtoa.c mult, the inner loop: add a[..wa] * y into c at word offset j.  The word at j + wa
   receives the last carry.
   */
  method MulRow(c: array<word>, j: nat, a: array<word>, wa: nat, y: word)
    requires c != a && wa <= a.Length && j + wa < c.Length
    modifies c
    ensures c[j + wa + 1..] == old(c[j + wa + 1..])
    ensures Value(c[..j + wa + 1]) == Value(old(c[..j + wa])) + Row(Pow(BASE, j), Value(a[..wa]), y)
  {
    hide MulRowInv, Value, Pow, Row;
    ghost var s := c[..];
    var carry := MulRowLoop(c, j, a, wa, y);
    MulRowDone(c[..], s, j, a[..wa], y, carry);
    ghost var t := c[..];
    c[j + wa] := carry;
    assert c[..] == t[j + wa := carry];
    assert c[..][..j + wa + 1] == c[..j + wa + 1];
    assert s[..j + wa] == old(c[..j + wa]);
    assert c[j + wa + 1..] == c[..][j + wa + 1..];
  }

  method MulRowLoop(c: array<word>, j: nat, a: array<word>, wa: nat, y: word) returns (carry: word)
    requires c != a && wa <= a.Length && j + wa < c.Length
    modifies c
    ensures MulRowInv(c[..], old(c[..]), j, a[..wa], wa, y, carry)
  {
    hide MulRowInv, Value, Pow, Row;
    ghost var s := c[..];
    carry := 0;
    var i := 0;
    MulRowStart(s, j, a[..wa], y);
    while i < wa
      invariant 0 <= i <= wa
      invariant MulRowInv(c[..], s, j, a[..wa], i, y, carry)
    {
      ghost var t := c[..];
      MulBound(a[i], y);
      var z: dword := a[i] * y + c[j + i] + carry;
      MulRowNext(t, s, j, a[..wa], i, y, carry, z);
      carry := z / BASE;
      c[j + i] := z % BASE;
      assert c[..] == t[j + i := c[j + i]];
      i := i + 1;
    }
  }

  /** After j rows of mult: the product of a and the low j words of b, with zeros above. */
  ghost predicate MulInv(c: seq<word>, a: seq<word>, b: seq<word>, j: nat)
  {
    && j <= |b| && |a| + |b| <= |c|
    && (forall i :: |a| + j <= i < |a| + |b| ==> c[i] == 0)
    && Value(c[..|a| + j]) == Value(a) * Value(b[..j])
  }

  lemma MulNext(c: seq<word>, c': seq<word>, a: seq<word>, b: seq<word>, j: nat)
    requires MulInv(c, a, b, j) && j < |b| && |c'| == |c|
    requires c'[j + |a| + 1..] == c[j + |a| + 1..]
    requires Value(c'[..j + |a| + 1]) == Value(c[..j + |a|]) + Row(Pow(BASE, j), Value(a), b[j])
    ensures MulInv(c', a, b, j + 1)
  {
    ValueSnoc(b, j);
    MulExpand(Value(a), Value(b[..j]), b[j], Pow(BASE, j));
    assert Value(c'[..|a| + (j + 1)]) == Value(a) * Value(b[..j + 1]) by {
      hide Value, Pow, Row;
      assert |a| + (j + 1) == j + |a| + 1 && |a| + j == j + |a|;
    }
    hide Value, Pow, Row;
    forall i | |a| + (j + 1) <= i < |a| + |b|
      ensures c'[i] == 0
    {
      assert c'[i] == c'[j + |a| + 1..][i - (j + |a| + 1)] == c[i];
    }
  }

  lemma RowAdd(pj: nat, va: nat, x: nat, p: nat, y: nat)
    ensures Row(pj, va + x * p, y) == Row(pj, va, y) + x * y * (pj * p)
  {
    assert (va + x * p) * y == va * y + x * y * p;
    assert pj * (x * y * p) == x * y * (pj * p);
  }

  lemma MulZeroRow(c: seq<word>, a: seq<word>, b: seq<word>, j: nat)
    requires MulInv(c, a, b, j) && j < |b| && b[j] == 0
    ensures Value(c[..j + |a| + 1]) == Value(c[..j + |a|]) + Row(Pow(BASE, j), Value(a), b[j])
  {
    assert c[j + |a|] == 0;
    hide *;
    ValueTrimmed(c, j + |a| + 1, j + |a|);
    RowZero(Pow(BASE, j), Value(a));
  }

  lemma MulStart(c: seq<word>, a: seq<word>, b: seq<word>)
    requires |a| + |b| <= |c| && forall i :: 0 <= i < |a| + |b| ==> c[i] == 0
    ensures MulInv(c, a, b, 0)
  {
    ValueZeros(c[..|a|]);
    assert Value(b[..0]) == 0;
  }

  lemma MulDone(c: seq<word>, a: seq<word>, b: seq<word>)
    requires MulInv(c, a, b, |b|)
    ensures Value(c[..|a| + |b|]) == Value(a) * Value(b)
  {
    assert b[..|b|] == b;
  }

  lemma MulExpand(va: nat, vb: nat, y: nat, p: nat)
    ensures va * (vb + y * p) == va * vb + Row(p, va, y)
  {
  }

  /** dtoa.c mult, both loops: c[..wa + wb] := a[..wa] * b[..wb]. */
  method MulLoops(c: array<word>, a: array<word>, wa: nat, b: array<word>, wb: nat)
    requires c != a && c != b && wa <= a.Length && wb <= b.Length && wa + wb <= c.Length
    modifies c
    ensures Value(c[..wa + wb]) == Value(a[..wa]) * Value(b[..wb])
  {
    hide MulInv, Value, Pow, Row;
    var n := 0;
    while n < wa + wb
      invariant 0 <= n <= wa + wb
      invariant forall i :: 0 <= i < n ==> c[i] == 0
    {
      c[n] := 0;
      n := n + 1;
    }
    MulStart(c[..], a[..wa], b[..wb]);
    var j := 0;
    while j < wb
      invariant 0 <= j <= wb
      invariant MulInv(c[..], a[..wa], b[..wb], j)
    {
      ghost var t := c[..];
      var y := b[j];
      if y != 0 {
        MulRow(c, j, a, wa, y);
        assert c[..][j + wa + 1..] == c[j + wa + 1..];
        assert c[..][..j + wa + 1] == c[..j + wa + 1];
      } else {
        MulZeroRow(t, a[..wa], b[..wb], j);
      }
      MulNext(t, c[..], a[..wa], b[..wb], j);
      j := j + 1;
    }
    MulDone(c[..], a[..wa], b[..wb]);
    assert c[..][..wa + wb] == c[..wa + wb];
  }

  /** dtoa.c mult without the allocation: the product and its normal word count. */
  method MulInto(c: array<word>, a: array<word>, wa: nat, b: array<word>, wb: nat) returns (wc: nat)
    requires c != a && c != b && wa <= a.Length && wb <= b.Length && 0 < wa + wb <= c.Length
    modifies c
    ensures wc <= wa + wb
    ensures Value(c[..wc]) == Value(a[..wa]) * Value(b[..wb])
    ensures if wc == 0 then c[0] == 0 else c[wc - 1] != 0
  {
    hide Value;
    MulLoops(c, a, wa, b, wb);
    wc := TrimLoop(c, wa + wb, 0);
    ValueTrimmed(c[..], wa + wb, wc);
    assert c[..][..wa + wb] == c[..wa + wb] && c[..][..wc] == c[..wc];
  }

  lemma TwoTo32()
    ensures Pow(2, 32) == BASE
  {
    assert Pow(2, 8) == 256;
    PowAdd(2, 8, 8);
    assert Pow(2, 16) == 65536;
    hide Pow;
    PowAdd(2, 16, 16);
  }

  lemma ShiftFactors(k: nat)
    requires k <= 32
    ensures Pow(2, k) > 0 && Pow(2, k) * Pow(2, 32 - k) == BASE
  {
    hide Pow;
    PowPos(2, k);
    PowAdd(2, k, 32 - k);
    TwoTo32();
  }

  /** The low word of x * up leaves `up` free low values, and its high word is x / down. */
  lemma SplitShift(x: word, up: nat, down: nat)
    requires up * down == BASE
    ensures down > 0
    ensures (x * up) % BASE + up <= BASE
    ensures (x * up) / BASE == x / down < up
  {
    var h, l := x / down, x % down;
    assert x == h * down + l;
    MulMono(l + 1, down, up);
    assert x * up == h * BASE + l * up by {
      assert (h * down) * up == h * (up * down);
    }
    DivModUnique(x * up, BASE, h, l * up);
    if h >= up {
      MulMono(up, h, down);
      assert false;
    }
  }

  /** After i words of lshift by k bits (up == 2^k): the words written and the bits held back. */
  ghost predicate ShiftInv(out: seq<word>, out0: seq<word>, n: nat, x: seq<word>, i: nat, up: nat, z: word)
  {
    && i <= |x| && n + i <= |out| == |out0|
    && out[..n] == out0[..n]
    && z < up
    && Value(out[n..n + i]) + z * Pow(BASE, i) == Value(x[..i]) * up
  }

  lemma ShiftNext(out: seq<word>, out0: seq<word>, n: nat, x: seq<word>, i: nat, up: nat, down: nat, z: word, w: word)
    requires ShiftInv(out, out0, n, x, i, up, z) && i < |x| && n + i < |out|
    requires up * down == BASE && down > 0
    requires w == (x[i] * up) % BASE + z
    ensures ShiftInv(out[n + i := w], out0, n, x, i + 1, up, x[i] / down)
  {
    var hi := out[n..n + i];
    assert out[n + i := w][n..n + (i + 1)] == hi + [w];
    assert (hi + [w])[..i] == hi;
    ValueSnoc(x, i);
    ShiftStep(Value(hi), Value(x[..i]), x[i], z, up, down, w, Pow(BASE, i));
    PowStep(i);
    hide Pow;
  }

  lemma ShiftStep(v: nat, u: nat, x: word, z: nat, up: nat, down: nat, w: int, p: nat)
    requires v + z * p == u * up
    requires up * down == BASE && down > 0
    requires w == (x * up) % BASE + z
    ensures x / down < up
    ensures v + w * p + (x / down) * (BASE * p) == (u + x * p) * up
  {
    SplitShift(x, up, down);
    Recompose(x * up, p);
    assert w * p == ((x * up) % BASE) * p + z * p;
    assert (u + x * p) * up == u * up + (x * up) * p;
  }

  /**
   dtoa.c lshift, the bit loop: out[n..] := x[..wds] * 2^k for 0 < k < 32, the last word written
   being the overflow.  Shifting left and or-ing in the held bits is multiplying and adding, for
   the low k bits of the shifted word are zero.
   */
  method ShiftLoop(out: array<word>, n: nat, x: array<word>, wds: nat, k: nat)
    requires out != x && wds <= x.Length && n + wds < out.Length && 0 < k < 32
    modifies out
    ensures out[..n] == old(out[..n])
    ensures Value(out[n..n + wds + 1]) == Value(x[..wds]) * Pow(2, k)
  {
    ghost var s := out[..];
    ShiftFactors(k);
    var up, down := Pow(2, k), Pow(2, 32 - k);
    var z: word := 0;
    var i := 0;
    while i < wds
      invariant 0 <= i <= wds
      invariant ShiftInv(out[..], s, n, x[..wds], i, up, z)
    {
      ghost var t := out[..];
      SplitShift(x[i], up, down);
      var w := (x[i] * up) % BASE + z;
      ShiftNext(t, s, n, x[..wds], i, up, down, z, w);
      hide ShiftInv, Value, Pow;
      out[n + i] := w;
      z := x[i] / down;
      assert out[..] == t[n + i := w];
      i := i + 1;
    }
    ghost var hi := out[..][n..n + wds];
    out[n + wds] := z;
    assert out[n..n + wds + 1] == hi + [z];
    assert (hi + [z])[..wds] == hi && x[..wds][..wds] == x[..wds];
    assert out[..n] == s[..n] == old(out[..n]);
  }

  /**
   dtoa.c lshift without the allocation.  Shifting zero by a word or more leaves zero words on top, so the
   result is normal exactly when the number is not zero or less than a word is shifted.
   */
  method ShiftInto(out: array<word>, x: array<word>, wds: nat, k: nat) returns (w: nat)
    requires out != x && 1 <= wds <= x.Length && k / 32 + wds < out.Length
    requires wds > 1 ==> x[wds - 1] != 0
    modifies out
    ensures k / 32 + wds <= w <= k / 32 + wds + 1
    ensures Value(out[..w]) == Value(x[..wds]) * Pow(2, k)
    ensures (w > 1 ==> out[w - 1] != 0) <==> Value(x[..wds]) > 0 || k < 32
  {
    hide Value, Pow;
    var n := k / 32;
    ZeroFill(out, n);
    ghost var lo := out[..n];
    w := ShiftHigh(out, n, x, wds, k % 32);
    ShiftParts(out[..], lo, n, w);
    ShiftResult(lo, out[n..w], x[..wds], k);
  }

  lemma ShiftParts(out: seq<word>, lo: seq<word>, n: nat, w: nat)
    requires n <= w <= |out| && out[..n] == lo
    ensures out[..w] == lo + out[n..w]
    ensures w > 0 ==> out[w - 1] == (lo + out[n..w])[w - 1]
  {
    assert out[..w] == out[..n] + out[n..w];
  }

  method ZeroFill(out: array<word>, n: nat)
    requires n <= out.Length
    modifies out
    ensures forall j :: 0 <= j < n ==> out[j] == 0
  {
    var i := 0;
    while i < n
      invariant 0 <= i <= n
      invariant forall j :: 0 <= j < i ==> out[j] == 0
    {
      out[i] := 0;
      i := i + 1;
    }
  }

  /** lshift above the zero words: shift by k bits or copy, and keep the overflow word only if it is not zero. */
  method ShiftHigh(out: array<word>, n: nat, x: array<word>, wds: nat, k: nat) returns (w: nat)
    requires out != x && 1 <= wds <= x.Length && n + wds < out.Length && k < 32
    modifies out
    ensures out[..n] == old(out[..n])
    ensures w == n + wds || (w == n + wds + 1 && out[n + wds] != 0)
    ensures Value(out[n..w]) == Value(x[..wds]) * Pow(2, k)
  {
    hide Value, Pow;
    w := n + wds;
    if k != 0 {
      ShiftLoop(out, n, x, wds, k);
      if out[w] != 0 {
        w := w + 1;
      } else {
        ghost var hi := out[n..n + wds + 1];
        ValueTrimmed(hi, wds + 1, wds);
        assert hi[..wds + 1] == hi && hi[..wds] == out[n..w];
      }
    } else {
      ghost var lo := out[..n];
      forall j | 0 <= j < wds {
        out[n + j] := x[j];
      }
      assert out[n..w] == x[..wds];
      assert out[..n] == lo;
      MulPowZero(Value(x[..wds]));
    }
  }

  lemma MulPowZero(v: nat)
    ensures v * Pow(2, 0) == v
  {
  }

  /** A shift by whole words and by bits, put together. */
  lemma ShiftResult(lo: seq<word>, h: seq<word>, x: seq<word>, k: nat)
    requires x != [] && (|x| > 1 ==> x[|x| - 1] != 0)
    requires |lo| == k / 32 && forall j :: 0 <= j < |lo| ==> lo[j] == 0
    requires Value(h) == Value(x) * Pow(2, k % 32)
    requires |h| == |x| || (|h| == |x| + 1 && h[|x|] != 0)
    ensures Value(lo + h) == Value(x) * Pow(2, k)
    ensures (|lo + h| > 1 ==> (lo + h)[|lo + h| - 1] != 0) <==> Value(x) > 0 || k < 32
  {
    hide Value, Pow;
    ZerosBelow(lo, h);
    ShiftWeight(Value(x), k);
    PowPos(2, k % 32);
    ShiftTop(h, x, Pow(2, k % 32));
  }

  lemma MulExchange(p: int, v: int, q: int)
    ensures p * (v * q) == v * (p * q)
  {
  }

  lemma ShiftWeight(v: nat, k: nat)
    ensures Pow(BASE, k / 32) * (v * Pow(2, k % 32)) == v * Pow(2, k)
  {
    hide Pow;
    var p, q := Pow(BASE, k / 32), Pow(2, k % 32);
    assert Pow(2, k) == p * q by {
      TwoTo32();
      PowPow(2, 32, k / 32);
      PowAdd(2, 32 * (k / 32), k % 32);
    }
    MulExchange(p, v, q);
  }

  lemma ShiftTop(h: seq<word>, x: seq<word>, up: nat)
    requires x != [] && (|x| > 1 ==> x[|x| - 1] != 0)
    requires up > 0 && Value(h) == Value(x) * up
    requires |h| == |x| || (|h| == |x| + 1 && h[|x|] != 0)
    ensures h[|h| - 1] != 0 <==> Value(x) > 0
    ensures Value(x) == 0 ==> |h| == 1
  {
    hide Value, Pow;
    ValueTop(x);
    ValueTop(h);
    if |x| > 1 {
      ProductAtLeast(x[|x| - 1], Pow(BASE, |x| - 1), Value(x), up);
      PowPos(BASE, |x| - 1);
      if |h| == |x| {
        TopNonZero(h);
      }
    } else {
      assert x == [x[0]];
      ValueOne(x[0]);
      if |h| == 1 {
        assert h == [h[0]];
        ValueOne(h[0]);
        MulMono(1, up, x[0]);
      } else {
        PowPos(BASE, 1);
        MulMono(1, h[1], Pow(BASE, 1));
      }
    }
  }

  /** Zero words below a number multiply it by BASE^n. */
  lemma ZerosBelow(lo: seq<word>, h: seq<word>)
    requires forall j :: 0 <= j < |lo| ==> lo[j] == 0
    ensures Value(lo + h) == Pow(BASE, |lo|) * Value(h)
  {
    ValueSplit(lo + h, |lo|);
    assert (lo + h)[..|lo|] == lo && (lo + h)[|lo|..] == h;
    ValueZeros(lo);
  }

  /** Bit 32 of the 64-bit difference is the borrow, and its low word is the digit. */
  method SubWord(a: word, b: word, borrow: word) returns (r: word, borrow': word)
    requires borrow <= 1
    ensures borrow' <= 1 && r == a - b - borrow + borrow' * BASE
  {
    ghost var v := a - b - borrow;
    var y: dword := (a - b - borrow) % WRAP64;
    assert y == if v < 0 then v + WRAP64 else v;
    borrow' := y / BASE % 2;
    r := y % BASE;
  }

  lemma BorrowStep(r: int, a: int, b: int, borrow: int, borrow': int, p: nat)
    requires r == a - b - borrow + borrow' * BASE
    ensures r * p + b * p == a * p - borrow * p + borrow' * (BASE * p)
  {
    assert r * p == a * p - b * p - borrow * p + borrow' * (BASE * p);
  }

  /** After i words of diff. */
  ghost predicate DiffInv(c: seq<word>, a: seq<word>, b: seq<word>, i: nat, borrow: word)
    ensures DiffInv(c, a, b, i, borrow) ==> borrow <= 1
  {
    && i <= |a| == |b| && i <= |c| && borrow <= 1
    && Value(c[..i]) + Value(b[..i]) == Value(a[..i]) + borrow * Pow(BASE, i)
  }

  lemma DiffNext(c: seq<word>, a: seq<word>, b: seq<word>, i: nat, borrow: word, r: word, borrow': word)
    requires DiffInv(c, a, b, i, borrow) && i < |a| && i < |c|
    requires borrow' <= 1 && r == a[i] - b[i] - borrow + borrow' * BASE
    ensures DiffInv(c[i := r], a, b, i + 1, borrow')
  {
    ValuePut(c, i, r);
    ValueSnoc(a, i);
    ValueSnoc(b, i);
    BorrowStep(r, a[i], b[i], borrow, borrow', Pow(BASE, i));
  }

  lemma DiffStart(c: seq<word>, a: seq<word>, b: seq<word>)
    requires |a| == |b|
    ensures DiffInv(c, a, b, 0, 0)
  {
  }

  lemma DiffDone(c: seq<word>, a: seq<word>, b: seq<word>, bb: seq<word>, borrow: word)
    requires |b| <= |a| && bb == Padded(b, |a|)
    requires Value(b) <= Value(a)
    requires DiffInv(c, a, bb, |a|, borrow)
    ensures Value(c[..|a|]) == Value(a) - Value(b)
  {
    ValueTrimmed(bb, |a|, |b|);
    assert bb[..|a|] == bb && a[..|a|] == a && bb[..|b|] == b;
    ValueBound(c[..|a|]);
    NoBorrow(Value(c[..|a|]), Value(b), Value(a), borrow, Pow(BASE, |a|));
  }

  /** b padded with zeros to n words. */
  ghost function Padded(b: seq<word>, n: nat): (r: seq<word>)
    requires |b| <= n
    ensures |r| == n && r[..|b|] == b
    ensures forall i :: |b| <= i < n ==> r[i] == 0
  {
    b + seq(n - |b|, i => 0)
  }

  /** dtoa.c diff, the first loop, over the words of b; it always runs once. */
  method DiffLow(c: array<word>, a: array<word>, wa: nat, b: array<word>, wb: nat) returns (i: nat, borrow: word)
    requires c != a && c != b && 1 <= wa <= a.Length && wa <= c.Length && wb <= wa && 1 <= b.Length && wb <= b.Length
    requires wb == 0 ==> b[0] == 0
    modifies c
    ensures wb <= i <= wa && DiffInv(c[..], a[..wa], Padded(b[..wb], wa), i, borrow)
  {
    hide DiffInv, Value, Pow;
    ghost var bb := Padded(b[..wb], wa);
    DiffStart(c[..], a[..wa], bb);
    borrow, i := 0, 0;
    while i < 1 || i < wb
      invariant 0 <= i <= wa && (i <= wb || i == 1)
      invariant DiffInv(c[..], a[..wa], bb, i, borrow)
      decreases wa - i
    {
      ghost var t, k := c[..], borrow;
      assert b[i] == bb[i] by {
        assert wb > 0 ==> bb[i] == bb[..wb][i] == b[i];
      }
      c[i], borrow := SubWord(a[i], b[i], borrow);
      DiffNext(t, a[..wa], bb, i, k, c[i], borrow);
      assert c[..] == t[i := c[i]];
      i := i + 1;
    }
  }

  /** dtoa.c diff, the second loop, over the rest of a. */
  method DiffHigh(c: array<word>, a: array<word>, wa: nat, ghost bb: seq<word>, i0: nat, borrow0: word)
    returns (borrow: word)
    requires c != a && wa <= a.Length && wa <= c.Length && |bb| == wa && i0 <= wa
    requires (forall j :: i0 <= j < wa ==> bb[j] == 0) && DiffInv(c[..], a[..wa], bb, i0, borrow0)
    modifies c
    ensures DiffInv(c[..], a[..wa], bb, wa, borrow)
  {
    hide DiffInv, Value, Pow;
    borrow := borrow0;
    var i := i0;
    while i < wa
      invariant i0 <= i <= wa
      invariant DiffInv(c[..], a[..wa], bb, i, borrow)
    {
      ghost var t, k := c[..], borrow;
      c[i], borrow := SubWord(a[i], 0, borrow);
      DiffNext(t, a[..wa], bb, i, k, c[i], borrow);
      assert c[..] == t[i := c[i]];
      i := i + 1;
    }
  }

  /** dtoa.c diff, both loops: c[..wa] := a[..wa] - b[..wb], for a larger a. */
  method DiffLoops(c: array<word>, a: array<word>, wa: nat, b: array<word>, wb: nat)
    requires c != a && c != b && 1 <= wa <= a.Length && wa <= c.Length && wb <= wa && 1 <= b.Length && wb <= b.Length
    requires wb == 0 ==> b[0] == 0
    requires Value(b[..wb]) <= Value(a[..wa])
    modifies c
    ensures Value(c[..wa]) == Value(a[..wa]) - Value(b[..wb])
  {
    hide DiffInv, Value, Pow;
    ghost var bb := Padded(b[..wb], wa);
    var i, borrow := DiffLow(c, a, wa, b, wb);
    assert b[..wb] == old(b[..wb]);
    borrow := DiffHigh(c, a, wa, bb, i, borrow);
    assert c[..][..wa] == c[..wa];
    DiffDone(c[..], a[..wa], b[..wb], bb, borrow);
  }

  /** dtoa.c diff without the allocation: the difference and its normal word count. */
  method DiffInto(c: array<word>, a: array<word>, wa: nat, b: array<word>, wb: nat) returns (wc: nat)
    requires c != a && c != b && 1 <= wa <= a.Length && wa <= c.Length && wb <= wa && 1 <= b.Length && wb <= b.Length
    requires wb == 0 ==> b[0] == 0
    requires Value(b[..wb]) < Value(a[..wa])
    modifies c
    ensures 1 <= wc <= wa && c[wc - 1] != 0
    ensures Value(c[..wc]) == Value(a[..wa]) - Value(b[..wb])
  {
    hide Value;
    DiffLoops(c, a, wa, b, wb);
    wc := TrimLoop(c, wa, 0);
    ValueTrimmed(c[..], wa, wc);
    assert c[..][..wa] == c[..wa] && c[..][..wc] == c[..wc];
    ValueEmpty(c[..0]);
  }

  lemma ValueEmpty(s: seq<word>)
    ensures s == [] ==> Value(s) == 0
  {
  }

  /** One 64-bit product, split at bit 32. */
  method MulWord(x: word, m: word, carry: word) returns (lo: word, hi: word)
    ensures lo + hi * BASE == x * m + carry
  {
    MulBound(x, m);
    var y: dword := x * m + carry;
    lo := y % BASE;
    hi := y / BASE;
  }

  /** After i words of the multiply-and-subtract loop of quorem. */
  ghost predicate SubMulInv(b: seq<word>, b0: seq<word>, s: seq<word>, i: nat, q: word, borrow: word, carry: word)
  {
    && i <= |s| && i <= |b| == |b0| && borrow <= 1
    && b[i..] == b0[i..]
    && Value(b[..i]) + Value(s[..i]) * q == Value(b0[..i]) + (borrow as int + carry as int) * Pow(BASE, i)
  }

  lemma SubMulNext(b: seq<word>, b0: seq<word>, s: seq<word>, i: nat, q: word, borrow: word, carry: word,
                   lo: word, hi: word, r: word, borrow': word)
    requires SubMulInv(b, b0, s, i, q, borrow, carry) && i < |s| && i < |b|
    requires lo + hi * BASE == s[i] * q + carry
    requires borrow' <= 1 && r == b[i] - lo - borrow + borrow' * BASE
    ensures SubMulInv(b[i := r], b0, s, i + 1, q, borrow', hi)
  {
    assert b0[i] == b[i..][0] == b[i];
    ValuePut(b, i, r);
    ValueSnoc(b0, i);
    ValueSnoc(s, i);
    SubMulStep(Value(b[..i]), Value(s[..i]), Value(b0[..i]), q, r, b[i], s[i], lo, hi, borrow, borrow', carry, Pow(BASE, i));
    PowStep(i);
    hide Value, Pow;
  }

  lemma SubMulStep(vb: nat, vs: nat, vt: nat, q: nat, r: int, t: int, s: nat, lo: nat, hi: nat,
                   k: int, k': int, c: nat, p: nat)
    requires vb + vs * q == vt + (k + c) * p
    requires lo + hi * BASE == s * q + c
    requires r == t - lo - k + k' * BASE
    ensures (vb + r * p) + (vs + s * p) * q == (vt + t * p) + (k' + hi) * (BASE * p)
  {
    BorrowStep(r, t, lo, k, k', p);
    assert (vs + s * p) * q == vs * q + (s * q) * p;
    assert (lo + hi * BASE) * p == (s * q) * p + c * p;
    assert (lo + hi * BASE) * p == lo * p + hi * (BASE * p);
    assert (k + c) * p == k * p + c * p;
    assert (k' + hi) * (BASE * p) == k' * (BASE * p) + hi * (BASE * p);
  }

  /**
   dtoa.c quorem, the multiply-and-subtract loop: b[..n] := b[..n] - s[..n] * q when that is
   not negative.  The second loop of quorem is this one with q == 1.
   */
  method SubMulLoop(b: array<word>, s: array<word>, n: nat, q: word)
    requires b != s && n <= b.Length && n <= s.Length
    requires Value(s[..n]) * q <= Value(b[..n])
    modifies b
    ensures b[n..] == old(b[n..])
    ensures Value(b[..n]) == Value(old(b[..n])) - Value(s[..n]) * q
  {
    hide SubMulInv, Value, Pow;
    ghost var b0 := b[..];
    SubMulStart(b0, s[..n], q);
    var borrow: word, carry: word := 0, 0;
    var i := 0;
    while i < n
      invariant 0 <= i <= n
      invariant borrow <= 1
      invariant SubMulInv(b[..], b0, s[..n], i, q, borrow, carry)
    {
      ghost var t, k := b[..], borrow;
      var lo, hi := MulWord(s[i], q, carry);
      b[i], borrow := SubWord(b[i], lo, borrow);
      SubMulNext(t, b0, s[..n], i, q, k, carry, lo, hi, b[i], borrow);
      carry := hi;
      assert b[..] == t[i := b[i]];
      i := i + 1;
    }
    assert b0[..n] == old(b[..n]) && b[..][..n] == b[..n];
    SubMulDone(b[..], b0, s[..n], q, borrow, carry);
    assert b[n..] == b[..][n..] == b0[n..];
  }

  lemma SubMulStart(b: seq<word>, s: seq<word>, q: word)
    ensures SubMulInv(b, b, s, 0, q, 0, 0)
  {
    assert Value(s[..0]) == 0;
  }

  lemma NoBorrow(v: nat, t: int, u: int, d: nat, p: nat)
    requires v + t == u + d * p && t <= u && v < p
    ensures d == 0 && v == u - t
  {
    if d > 0 {
      MulMono(1, d, p);
      assert false;
    }
  }

  lemma SubMulDone(b: seq<word>, b0: seq<word>, s: seq<word>, q: word, borrow: word, carry: word)
    requires SubMulInv(b, b0, s, |s|, q, borrow, carry)
    requires Value(s) * q <= Value(b0[..|s|])
    ensures b[|s|..] == b0[|s|..]
    ensures Value(b[..|s|]) == Value(b0[..|s|]) - Value(s) * q
  {
    hide Value, Pow;
    assert s[..|s|] == s;
    ValueBound(b[..|s|]);
    NoBorrow(Value(b[..|s|]), Value(s) * q, Value(b0[..|s|]), borrow as int + carry as int, Pow(BASE, |s|));
  }

  /** dtoa.c cmp, the loop: compare equal-length numbers from the top word down. */
  method CompareWords(a: array<word>, b: array<word>, n: nat) returns (r: int)
    requires n <= a.Length && n <= b.Length
    ensures r == 0 <==> Value(a[..n]) == Value(b[..n])
    ensures r < 0 <==> Value(a[..n]) < Value(b[..n])
  {
    var i := n;
    while i > 0
      invariant 0 <= i <= n
      invariant a[i..n] == b[i..n]
    {
      hide Value;
      i := i - 1;
      if a[i] != b[i] {
        CompareAt(a[..n], b[..n], i);
        return if a[i] < b[i] then -1 else 1;
      }
    }
    assert a[..n] == a[0..n] == b[0..n] == b[..n];
    return 0;
  }

  /** Of two numbers the one with the larger top word is the larger. */
  lemma TopDecides(u: nat, v: nat, a: nat, b: nat, p: nat)
    requires u < (a + 1) * p && b * p <= v && a < b
    ensures u < v
  {
    MulMono(a + 1, b, p);
  }

  lemma CompareTop(s: seq<word>, t: seq<word>)
    requires |s| == |t| > 0 && s[|s| - 1] < t[|t| - 1]
    ensures Value(s) < Value(t)
  {
    hide Value, Pow;
    ValueTop(s);
    ValueTop(t);
    TopDecides(Value(s), Value(t), s[|s| - 1], t[|t| - 1], Pow(BASE, |s| - 1));
  }

  lemma CompareAt(s: seq<word>, t: seq<word>, i: nat)
    requires i < |s| == |t|
    requires s[i + 1..] == t[i + 1..]
    ensures s[i] < t[i] ==> Value(s) < Value(t)
    ensures s[i] > t[i] ==> Value(s) > Value(t)
  {
    hide Value, Pow;
    ValueSplit(s, i + 1);
    ValueSplit(t, i + 1);
    if s[i] < t[i] {
      CompareTop(s[..i + 1], t[..i + 1]);
    } else if s[i] > t[i] {
      CompareTop(t[..i + 1], s[..i + 1]);
    }
  }
}
