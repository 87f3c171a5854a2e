/** Decimal digit strings and rounding, as the digit loops of bundle/lua-cjson-2.1.0.5/dtoa.c use them. */
module Decimal {
  import opened Arith

  /** A digit character, by its value. */
  type digit = d: int | 0 <= d < 10

  ghost function Numeral(ds: seq<digit>): nat
  {
    if ds == [] then 0 else 10 * Numeral(ds[..|ds| - 1]) + ds[|ds| - 1]
  }

  lemma NumeralSnoc(ds: seq<digit>, d: digit)
    ensures Numeral(ds + [d]) == 10 * Numeral(ds) + d
  {
    assert (ds + [d])[..|ds|] == ds;
  }

  lemma {:induction false} NumeralZeros(ds: seq<digit>, i: nat)
    requires i <= |ds| && forall j :: i <= j < |ds| ==> ds[j] == 0
    ensures Numeral(ds) == Numeral(ds[..i]) * Pow(10, |ds| - i)
  {
    if i == |ds| {
      assert ds[..i] == ds;
    } else {
      var t := ds[..|ds| - 1];
      NumeralZeros(t, i);
      assert t[..i] == ds[..i];
      Tenfold(Numeral(ds[..i]), |t| - i);
    }
  }

  lemma {:induction false} NumeralNines(ds: seq<digit>, i: nat)
    requires i <= |ds| && forall j :: i <= j < |ds| ==> ds[j] == 9
    ensures Numeral(ds) + 1 == (Numeral(ds[..i]) + 1) * Pow(10, |ds| - i)
  {
    if i == |ds| {
      assert ds[..i] == ds;
    } else {
      var t := ds[..|ds| - 1];
      NumeralNines(t, i);
      assert t[..i] == ds[..i];
      Tenfold(Numeral(ds[..i]) + 1, |t| - i);
    }
  }

  lemma Tenfold(v: nat, n: nat)
    ensures 10 * (v * Pow(10, n)) == v * Pow(10, n + 1)
  {
  }

  /** What dtoa returns: no zero at either end. */
  ghost predicate Clean(ds: seq<digit>)
  {
    ds != [] && ds[0] != 0 && ds[|ds| - 1] != 0
  }

  /** dtoa.c `roundoff`: drop trailing nines and add one to the digit before them, or start over with a 1. */
  method RoundUp(ds: seq<digit>) returns (r: seq<digit>, carry: nat)
    requires ds != [] && ds[0] != 0
    ensures Clean(r) && |r| <= |ds| && carry <= 1
    ensures Numeral(r) * Pow(10, |ds| - |r| + carry) == Numeral(ds) + 1
    ensures (forall j :: 0 <= j < |ds| ==> ds[j] == 9) <==> carry == 1
  {
    hide Pow, Numeral;
    var i := |ds|;
    while true
      invariant 0 < i <= |ds|
      invariant forall j :: i <= j < |ds| ==> ds[j] == 9
      decreases i
    {
      NumeralNines(ds, i);
      i := i - 1;
      if ds[i] != 9 {
        r, carry := ds[..i] + [ds[i] + 1], 0;
        NumeralSnoc(ds[..i], ds[i]);
        NumeralSnoc(ds[..i], ds[i] + 1);
        assert ds[..i + 1] == ds[..i] + [ds[i]];
        return;
      }
      if i == 0 {
        NumeralNines(ds, 0);
        OneDigit(1);
        EmptyNumeral(ds[..0]);
        return [1], 1;
      }
    }
  }

  lemma OneDigit(d: digit)
    ensures Numeral([d]) == d
  {
    assert [d][..0] == [];
  }

  lemma EmptyNumeral(ds: seq<digit>)
    ensures ds == [] ==> Numeral(ds) == 0
  {
  }

  /** dtoa.c `trimzeros`. */
  method TrimZeros(ds: seq<digit>) returns (r: seq<digit>)
    requires ds != [] && ds[0] != 0
    ensures Clean(r) && r <= ds
    ensures Numeral(r) * Pow(10, |ds| - |r|) == Numeral(ds)
  {
    hide Pow, Numeral;
    var i := |ds|;
    while ds[i - 1] == 0
      invariant 0 < i <= |ds|
      invariant forall j :: i <= j < |ds| ==> ds[j] == 0
      decreases i
    {
      i := i - 1;
    }
    NumeralZeros(ds, i);
    r := ds[..i];
  }

  /** r is the integer nearest to n / s, and the even one when two are equally near. */
  ghost predicate NearestEven(n: nat, s: nat, r: nat)
  {
    var d: int := n - r * s;
    0 <= 2 * d + s && 2 * d <= s && (2 * d == s || 2 * d + s == 0 ==> r % 2 == 0)
  }

  /** There is only one such integer. */
  lemma NearestEvenUnique(n: nat, s: nat, r: nat, t: nat)
    requires s > 0 && NearestEven(n, s, r) && NearestEven(n, s, t)
    ensures r == t
  {
    assert r * s - t * s == (r - t) * s;
    if r > t {
      MulMono(1, r - t, s);
      assert (r - t) * s <= s;
      if r - t >= 2 {
        MulMono(2, r - t, s);
      }
    } else if t > r {
      assert t * s - r * s == (t - r) * s;
      MulMono(1, t - r, s);
      if t - r >= 2 {
        MulMono(2, t - r, s);
      }
    }
  }

  /** From a floor quotient and its remainder, rounding half to even decides by twice the remainder. */
  lemma RoundHalfEven(n: nat, s: nat, q: nat, rem: nat)
    requires n == q * s + rem && rem < s
    ensures 2 * rem > s || (2 * rem == s && q % 2 == 1) ==> NearestEven(n, s, q + 1)
    ensures !(2 * rem > s || (2 * rem == s && q % 2 == 1)) ==> NearestEven(n, s, q)
  {
    assert (q + 1) * s == q * s + s;
  }

  /** A decimal N in units where the exact value is x / s: within lo below or hi above, endpoints only if closed. */
  ghost predicate Inside(x: nat, lo: nat, hi: nat, s: nat, closed: bool, N: nat)
  {
    var off: int := N * s - x;
    if closed then 0 <= off + lo && off <= hi else 0 < off + lo && off < hi
  }

  ghost predicate DownOk(r: nat, lo: nat, closed: bool)
  {
    r < lo || (closed && r == lo)
  }

  ghost predicate UpOk(r: nat, hi: nat, s: nat, closed: bool)
  {
    s < r + hi || (closed && s == r + hi)
  }

  /** Only the two neighbours of x / s matter: anything inside makes the neighbour on its side inside, and is no nearer. */
  lemma Neighbours(x: nat, q: nat, r: nat, lo: nat, hi: nat, s: nat, closed: bool, N: nat)
    requires x == q * s + r && r < s && lo > 0 && hi > 0
    ensures N <= q ==> x - N * s >= r
    ensures N > q ==> N * s - x >= s - r
    ensures Inside(x, lo, hi, s, closed, N) ==> if N <= q then DownOk(r, lo, closed) else UpOk(r, hi, s, closed)
    ensures Inside(x, lo, hi, s, closed, q) <==> DownOk(r, lo, closed)
    ensures Inside(x, lo, hi, s, closed, q + 1) <==> UpOk(r, hi, s, closed)
  {
    assert (q + 1) * s == q * s + s;
    if N <= q {
      MulMono(N, q, s);
    } else {
      MulMono(q + 1, N, s);
    }
  }
}
