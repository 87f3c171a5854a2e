/**
 The digit loops at the end of dtoa in bundle/lua-cjson-2.1.0.5/dtoa.c, from the exact ratio b / S on.
 The first digit stands before the decimal point, so i digits make a number in units of 10^(1-i).
 */
module Digits {
  import opened Arith
  import opened Words
  import opened Bignum
  import opened Decimal

  // ---------------------------------------------------------------- one digit

  /** Before a digit: the digits so far account for x but for v, in units of the next digit. */
  ghost predicate Pending(x: nat, s: nat, ds: seq<digit>, v: nat)
  {
    && 0 < v < 10 * s
    && x * Pow(10, |ds|) == (10 * Numeral(ds)) * s + v
    && (if ds == [] then v >= s else ds[0] != 0)
  }

  /** After a digit: the digits are the integer part of x / s at this precision, and r is what is left. */
  ghost predicate Quotient(x: nat, s: nat, ds: seq<digit>, r: nat)
    ensures Quotient(x, s, ds, r) ==> ds != [] && ds[0] != 0 && r < s
  {
    && ds != [] && ds[0] != 0
    && r < s
    && x * Pow(10, |ds| - 1) == Numeral(ds) * s + r
  }

  lemma PendingStart(x: nat, s: nat)
    requires s <= x < 10 * s
    ensures Pending(x, s, [], x)
  {
  }

  lemma DigitNext(x: nat, s: nat, ds: seq<digit>, v: nat, q: nat, r: nat)
    requires Pending(x, s, ds, v) && v == q * s + r && r < s
    ensures q < 10 && Quotient(x, s, ds + [q], r)
    ensures r == 0 ==> q != 0
  {
    hide Numeral, Pow;
    if q >= 10 {
      MulMono(10, q, s);
      assert false;
    }
    if q == 0 {
      assert q * s == 0;
    }
    NumeralSnoc(ds, q);
    AddMul(10 * Numeral(ds), q, s);
  }

  lemma AddMul(a: int, b: int, s: int)
    ensures (a + b) * s == a * s + b * s
  {
  }

  lemma ScaleNext(x: nat, s: nat, ds: seq<digit>, r: nat)
    requires Quotient(x, s, ds, r) && r > 0
    ensures Pending(x, s, ds, 10 * r)
  {
    var n := |ds| - 1;
    assert x * Pow(10, n + 1) == 10 * (x * Pow(10, n)) by {
      Tenfold(x, n);
    }
    hide Numeral, Pow;
    assert 10 * (Numeral(ds) * s) == (10 * Numeral(ds)) * s;
  }

  /** A number below ten times the divisor has no more words than the divisor. */
  lemma FitsDivisor(b: Bigint, S: Bigint)
    requires b.Normal() && Divisor(S) && b.Val() < 10 * S.Val()
    ensures b.wds <= S.wds
  {
    hide Value, Pow;
    NormalTop(S);
    NormalBounds(b);
    var p, t: int := Pow(BASE, S.wds - 1), S.x[S.wds - 1];
    MulMono(10 * (t + 1), BASE, p);
    PowStep(S.wds - 1);
    assert 10 * ((t + 1) * p) == (10 * (t + 1)) * p;
    if b.wds > S.wds {
      PowMono(BASE, S.wds, b.wds - 1);
      assert false;
    }
  }

  /** One call of quorem inside a digit loop. */
  method NextDigit(b: Bigint, S: Bigint, ghost x: nat, ds: seq<digit>) returns (d: digit)
    requires b != S && b.x != S.x && b.Normal() && Divisor(S)
    requires Pending(x, S.Val(), ds, b.Val())
    modifies b, b.x
    ensures b.Normal() && Quotient(x, S.Val(), ds + [d], b.Val()) && b.Val() < S.Val()
    ensures b.Val() == 0 ==> d != 0
    ensures b.wds == 0 <==> S.wds == 1 && b.Val() == 0
  {
    hide Value, Pow, Numeral;
    ghost var v := b.Val();
    FitsDivisor(b, S);
    var q := Quorem(b, S);
    DigitNext(x, S.Val(), ds, v, q, b.Val());
    d := q;
  }

  // ---------------------------------------------------------------- fixed precision

  /** The last digit's parity is the number's. */
  lemma Parity(ds: seq<digit>)
    requires ds != []
    ensures Numeral(ds) % 2 == ds[|ds| - 1] % 2
  {
  }

  /** Digits with zeros after them, as a number. */
  ghost function Scaled(r: seq<digit>, zeros: nat): nat
  {
    Numeral(r) * Pow(10, zeros)
  }

  /** dtoa's end of the digits: round half to even on what is left, then drop nines or zeros. */
  method RoundLast(store: Store, b: Bigint, S: Bigint, ds: seq<digit>, ghost x: nat)
    returns (b': Bigint, r: seq<digit>, carry: nat)
    requires store.Valid() && store.Held(b) && store.Held(S) && b != S && b.x != S.x
    requires b.Normal() && b.wds >= 1 && Divisor(S) && Quotient(x, S.Val(), ds, b.Val())
    modifies store, store.freeRepr, b
    ensures store.Valid() && store.Returns(b', {b, b.x})
    ensures Clean(r) && |r| <= |ds| && carry <= 1
    ensures NearestEven(x * Pow(10, |ds| - 1), S.Val(), Scaled(r, |ds| - |r| + carry))
  {
    hide Value, Pow, Numeral, FreeLists, PowChain, NearestEven;
    ghost var v := b.Val();
    TwiceIs(v);
    b' := store.LShift(b, 1);
    var j := Cmp(b', S);
    RoundHalfEven(x * Pow(10, |ds| - 1), S.Val(), Numeral(ds), v);
    Parity(ds);
    if j > 0 || (j == 0 && ds[|ds| - 1] % 2 == 1) {
      r, carry := RoundUp(ds);
    } else {
      r := TrimZeros(ds);
      carry := 0;
    }
  }

  lemma TwiceIs(v: nat)
    ensures v * Pow(2, 1) == 2 * v
  {
    assert Pow(2, 1) == 2;
  }

  /**
   dtoa's fixed-precision loop with its round-off: the ilim-digit decimal nearest to b / S, ties to even,
   without trailing zeros.  A carry out of the first digit raises the exponent by one.
   */
  method FixedDigits(store: Store, b0: Bigint, S: Bigint, ilim: nat) returns (r: seq<digit>, carry: nat)
    requires store.Valid() && store.Held(b0) && store.Held(S) && b0 != S && b0.x != S.x
    requires b0.Normal() && Divisor(S) && S.Val() <= b0.Val() < 10 * S.Val() && ilim >= 1
    modifies store, store.arena
    ensures store.Valid()
    ensures Clean(r) && |r| <= ilim && carry <= 1
    ensures NearestEven(old(b0.Val()) * Pow(10, ilim - 1), old(S.Val()), Scaled(r, ilim - |r| + carry))
  {
    hide Value, Pow, Numeral, FreeLists, PowChain, Pending, Quotient, NearestEven;
    hide Bigint.Normal, Bigint.Val, Divisor, Store.Valid, Clean;
    var b := b0;
    ghost var x, s := b0.Val(), S.Val();
    var ds: seq<digit> := [];
    PendingStart(x, s);
    while true
      invariant store.Valid() && fresh(store.arena - old(store.arena))
      invariant store.Held(b) && store.Held(S) && b != S && b.x != S.x
      invariant Divisor(S) && S.Val() == s
      invariant b.Normal() && |ds| < ilim && Pending(x, s, ds, b.Val())
      decreases ilim - |ds|
    {
      var more: bool;
      b, ds, more := FixedTurn(store, b, S, ds, ilim, x);
      if !more {
        break;
      }
    }
    if b.IsZero() {
      ExactResult(x, s, ds, ilim);
      return ds, 0;
    }
    b, r, carry := RoundLast(store, b, S, ds, x);
  }

  /** One turn of the fixed-precision loop; it stops at an exact remainder of zero or at ilim digits. */
  method FixedTurn(store: Store, b: Bigint, S: Bigint, ds: seq<digit>, ilim: nat, ghost x: nat)
    returns (b': Bigint, ds': seq<digit>, more: bool)
    requires store.Valid() && store.Held(b) && store.Held(S) && b != S && b.x != S.x
    requires b.Normal() && Divisor(S) && |ds| < ilim && Pending(x, S.Val(), ds, b.Val())
    modifies store, store.freeRepr, b, b.x
    ensures store.Valid() && store.Returns(b', {b, b.x}) && b'.Normal()
    ensures |ds'| == |ds| + 1
    ensures more ==> |ds'| < ilim && Pending(x, S.Val(), ds', b'.Val())
    ensures !more ==> Quotient(x, S.Val(), ds', b'.Val())
    ensures !more && b'.Val() == 0 ==> ds'[|ds|] != 0
    ensures !more && b'.Val() > 0 ==> |ds'| == ilim && b'.wds >= 1
  {
    hide Value, Pow, Numeral, FreeLists, PowChain, Pending, Quotient;
    b' := b;
    var d := NextDigit(b, S, x, ds);
    ds' := ds + [d];
    more := !b.IsZero() && |ds'| < ilim;
    if more {
      ScaleNext(x, S.Val(), ds', b.Val());
      b' := store.MultAdd(b, 10, 0);
    }
  }

  lemma ExactResult(x: nat, s: nat, ds: seq<digit>, ilim: nat)
    requires Quotient(x, s, ds, 0) && |ds| <= ilim
    ensures ds[|ds| - 1] != 0 ==> Clean(ds)
    ensures NearestEven(x * Pow(10, ilim - 1), s, Numeral(ds) * Pow(10, ilim - |ds| + 0))
  {
    var n, m, v := |ds| - 1, ilim - |ds|, Numeral(ds);
    assert x * Pow(10, n) == v * s && s > 0 && Clean(ds) == (ds[n] != 0);
    hide Numeral, Pow, Quotient, Clean;
    PowAdd(10, n, m);
    ExactScaled(x, s, v, Pow(10, n), Pow(10, m));
  }

  lemma ExactScaled(x: nat, s: nat, v: nat, p: nat, q: nat)
    requires x * p == v * s && s > 0
    ensures NearestEven(x * (p * q), s, v * q)
  {
    MulAssoc(x, p, q);
    assert (v * s) * q == (v * q) * s;
  }

  // ---------------------------------------------------------------- free format

  /** N, taken as an n-digit decimal, rounds to the number: it lies in the rounding interval. */
  ghost predicate InsideAt(x: nat, lo: nat, hi: nat, s: nat, closed: bool, n: nat, N: nat)
    requires n >= 1
  {
    Inside(x * Pow(10, n - 1), lo * Pow(10, n - 1), hi * Pow(10, n - 1), s, closed, N)
  }

  /** No decimal of fewer than n digits lies in the rounding interval. */
  ghost predicate NoneShorter(x: nat, lo: nat, hi: nat, s: nat, closed: bool, n: nat)
  {
    forall m: nat, N: nat :: 1 <= m < n ==> !InsideAt(x, lo, hi, s, closed, m, N)
  }

  /** No n-digit decimal in the rounding interval is nearer than N. */
  ghost predicate NearestInside(x: nat, lo: nat, hi: nat, s: nat, closed: bool, n: nat, N: nat)
    requires n >= 1
  {
    Nearest(x * Pow(10, n - 1), lo * Pow(10, n - 1), hi * Pow(10, n - 1), s, closed, N)
  }

  ghost predicate Nearest(x: nat, lo: nat, hi: nat, s: nat, closed: bool, N: nat)
  {
    forall M: nat :: Inside(x, lo, hi, s, closed, M) ==> Distance(N * s, x) <= Distance(M * s, x)
  }

  ghost function Distance(a: nat, b: nat): nat
  {
    if a < b then b - a else a - b
  }

  datatype Verdict = Down | Up | Continue

  /** The upper endpoint is hit exactly; diff's one-word zero is not recognised as equal to quorem's zero of no words. */
  predicate Hit(r: nat, hi: nat, s: nat, closed: bool, oneWord: bool)
  {
    closed && r + hi == s && !(oneWord && r == 0)
  }

  /** The branches of the free-format loop after a digit d with r left over. */
  function Decide(d: int, r: nat, lo: nat, hi: nat, s: nat, closed: bool, oneWord: bool): Verdict
  {
    if Hit(r, hi, s, closed, oneWord) then
      if d == 9 || r > lo then Up else Down
    else if r < lo || (r == lo && closed) then
      if r > 0 && r + hi > s && (2 * r > s || (2 * r == s && d % 2 == 1)) then Up else Down
    else if r + hi > s then Up
    else Continue
  }

  /** The loop goes on exactly when neither neighbour is in the interval, and otherwise takes one that is. */
  lemma DecideSound(d: int, r: nat, lo: nat, hi: nat, s: nat, closed: bool, oneWord: bool)
    requires r < s && lo > 0 && hi > 0
    ensures var v := Decide(d, r, lo, hi, s, closed, oneWord);
      && (v.Continue? <==> !DownOk(r, lo, closed) && !UpOk(r, hi, s, closed))
      && (v.Down? ==> DownOk(r, lo, closed))
      && (v.Up? ==> UpOk(r, hi, s, closed))
  {
  }

  /** The neighbour taken is the nearer when both are in, but for a 9 rounded up on hitting the upper endpoint. */
  lemma DecideNearer(d: int, r: nat, lo: nat, hi: nat, s: nat, closed: bool, oneWord: bool)
    requires r < s && 0 < lo <= hi
    ensures var v := Decide(d, r, lo, hi, s, closed, oneWord);
      var over := Hit(r, hi, s, closed, oneWord) && d == 9 && r <= lo && r < hi;
      && (v.Down? && UpOk(r, hi, s, closed) ==> r <= s - r)
      && (v.Up? && DownOk(r, lo, closed) ==> (s - r <= r <==> !over))
      && (over ==> v.Up?)
  {
  }

  /** Nothing inside at this many digits when the loop goes on. */
  lemma NoneAtLength(x: nat, lo: nat, hi: nat, s: nat, closed: bool, ds: seq<digit>, r: nat)
    requires Quotient(x, s, ds, r) && lo > 0 && hi > 0
    requires !DownOk(r, lo * Pow(10, |ds| - 1), closed) && !UpOk(r, hi * Pow(10, |ds| - 1), s, closed)
    requires NoneShorter(x, lo, hi, s, closed, |ds|)
    ensures NoneShorter(x, lo, hi, s, closed, |ds| + 1)
  {
    var n := |ds|;
    ScaledPositive(lo, hi, n);
    hide Pow, Numeral, Inside, DownOk, UpOk;
    forall m: nat, N: nat | 1 <= m < n + 1
      ensures !InsideAt(x, lo, hi, s, closed, m, N)
    {
      if m == n {
        Neighbours(x * Pow(10, n - 1), Numeral(ds), r, lo * Pow(10, n - 1), hi * Pow(10, n - 1), s, closed, N);
      }
    }
  }

  lemma ScaledPositive(lo: nat, hi: nat, n: nat)
    requires lo > 0 && hi > 0 && n >= 1
    ensures lo * Pow(10, n - 1) > 0 && hi * Pow(10, n - 1) > 0
    ensures lo <= hi ==> lo * Pow(10, n - 1) <= hi * Pow(10, n - 1)
  {
    PowPos(10, n - 1);
    if lo <= hi {
      MulMono(lo, hi, Pow(10, n - 1));
    }
  }

  /** The neighbour taken lies in the rounding interval. */
  lemma StopInside(x: nat, lo: nat, hi: nat, s: nat, closed: bool, ds: seq<digit>, r: nat, N: nat)
    requires Quotient(x, s, ds, r) && lo > 0 && hi > 0
    requires (N == Numeral(ds) && DownOk(r, lo * Pow(10, |ds| - 1), closed))
          || (N == Numeral(ds) + 1 && UpOk(r, hi * Pow(10, |ds| - 1), s, closed))
    ensures InsideAt(x, lo, hi, s, closed, |ds|, N)
  {
    var n := |ds|;
    ScaledPositive(lo, hi, n);
    hide Pow, Numeral, Inside, DownOk, UpOk;
    Neighbours(x * Pow(10, n - 1), Numeral(ds), r, lo * Pow(10, n - 1), hi * Pow(10, n - 1), s, closed, N);
  }

  /** The upper boundary is exactly ten, and nine is at least as good: the loop then answers ten. */
  ghost predicate Overshoots(x: nat, lo: nat, hi: nat, s: nat, closed: bool, oneWord: bool)
  {
    closed && x + hi == 10 * s && 9 * s <= x <= 9 * s + lo && x < 9 * s + hi && !(oneWord && x == 9 * s)
  }

  /** Such an input, with boundaries equally far: both 9 and 10 round to the value, and 10 is the farther. */
  lemma OvershootExample()
    ensures var s := 0x800_0000;
      var lo, hi := 100_000_000, 100_000_000;
      var x := 10 * s - hi;
      && Overshoots(x, lo, hi, s, true, true)
      && InsideAt(x, lo, hi, s, true, 1, 9) && InsideAt(x, lo, hi, s, true, 1, 10)
      && !NearestInside(x, lo, hi, s, true, 1, 10)
  {
    PowZero(10);
    var s := 0x800_0000;
    var hi := 100_000_000;
    assert Inside(10 * s - hi, hi, hi, s, true, 9);
  }

  lemma StopNearest(x: nat, lo: nat, hi: nat, s: nat, closed: bool, oneWord: bool, ds: seq<digit>, r: nat, v: Verdict, N: nat)
    requires Quotient(x, s, ds, r) && 0 < lo <= hi
    requires NoneShorter(x, lo, hi, s, closed, |ds|)
    requires v == Decide(ds[|ds| - 1], r, lo * Pow(10, |ds| - 1), hi * Pow(10, |ds| - 1), s, closed, oneWord)
    requires (v.Down? && N == Numeral(ds)) || (v.Up? && N == Numeral(ds) + 1)
    ensures NearestInside(x, lo, hi, s, closed, |ds|, N) <==> !Overshoots(x, lo, hi, s, closed, oneWord)
  {
    var n, d := |ds|, ds[|ds| - 1];
    var x', lo', hi', D := x * Pow(10, n - 1), lo * Pow(10, n - 1), hi * Pow(10, n - 1), Numeral(ds);
    var over := Hit(r, hi', s, closed, oneWord) && d == 9 && r <= lo' && r < hi';
    ScaledPositive(lo, hi, n);
    DecideSound(d, r, lo', hi', s, closed, oneWord);
    DecideNearer(d, r, lo', hi', s, closed, oneWord);
    assert over <==> Overshoots(x, lo, hi, s, closed, oneWord) by {
      OverOnlyFirst(x, lo, hi, s, closed, oneWord, ds, r);
    }
    hide Pow, Numeral, Inside, Decide, Overshoots, NoneShorter, Nearest;
    NearestNeighbour(x', D, r, lo', hi', s, closed, N, over);
    assert NearestInside(x, lo, hi, s, closed, n, N) == Nearest(x', lo', hi', s, closed, N);
  }

  /** Of the two neighbours, the one taken is nearest of all that are inside unless the other is nearer. */
  lemma NearestNeighbour(x: nat, D: nat, r: nat, lo: nat, hi: nat, s: nat, closed: bool, N: nat, over: bool)
    requires x == D * s + r && r < s && lo > 0 && hi > 0
    requires N == D || N == D + 1
    requires N == D ==> (UpOk(r, hi, s, closed) ==> r <= s - r)
    requires N == D + 1 ==> (DownOk(r, lo, closed) ==> (s - r <= r <==> !over))
    requires over ==> N == D + 1 && DownOk(r, lo, closed)
    ensures Nearest(x, lo, hi, s, closed, N) <==> !over
  {
    hide Inside, DownOk, UpOk;
    assert (D + 1) * s == D * s + s;
    Neighbours(x, D, r, lo, hi, s, closed, D);
    if !over {
      forall M: nat | Inside(x, lo, hi, s, closed, M)
        ensures Distance(N * s, x) <= Distance(M * s, x)
      {
        Neighbours(x, D, r, lo, hi, s, closed, M);
      }
    } else {
      assert Distance(D * s, x) == r && Distance(N * s, x) == s - r;
    }
  }

  /** With an interval narrower than the divisor there is no such input. */
  lemma NarrowInterval(x: nat, lo: nat, hi: nat, s: nat, closed: bool, oneWord: bool)
    requires lo <= hi && 2 * hi < s
    ensures !Overshoots(x, lo, hi, s, closed, oneWord)
  {
  }

  /**
   What dtoa passes to the loop for a double with integer mantissa m: half the gap above it and the divisor are
   products of twos and fives, the value is 2 * m half gaps, and the half gap below is the same or half as large.
   */
  ghost predicate BuiltByDtoa(x: nat, lo: nat, hi: nat, s: nat, m: nat, p: nat, q: nat, r: nat, t: nat)
  {
    && m >= 1 && x == 2 * m * hi
    && hi == Pow(2, p) * Pow(5, q) && s == Pow(2, r) * Pow(5, t)
    && (lo == hi || 2 * lo == hi)
  }

  /**
   The factors as dtoa sets them up: b times 2^(b2 + i) * 5^m5, with i >= 1 the bits by which b falls short of the
   mantissa and one more, boundaries of 2^b2 * 5^m5, and in the special case of a power of two everything
   doubled but the lower boundary.
   */
  lemma DtoaBuilds(b: nat, i: nat, b2: nat, m5: nat, special: bool, r: nat, t: nat)
    requires b >= 1 && i >= 1
    ensures var e := if special then 1 else 0;
      var x, lo, hi := b * (Pow(2, b2 + i + e) * Pow(5, m5)), Pow(2, b2) * Pow(5, m5), Pow(2, b2 + e) * Pow(5, m5);
      0 <= b * Pow(2, i - 1) && BuiltByDtoa(x, lo, hi, Pow(2, r) * Pow(5, t), b * Pow(2, i - 1), b2 + e, m5, r, t)
  {
    var e := if special then 1 else 0;
    var f, g, h := Pow(5, m5), Pow(2, b2 + e), Pow(2, i - 1);
    assert Pow(2, b2 + i + e) == g * (2 * h) by {
      PowAdd(2, b2 + e, i);
      assert b2 + e + i == b2 + i + e;
    }
    PowPos(2, i - 1);
    assert Pow(2, b2 + 1) == 2 * Pow(2, b2);
    hide Pow;
    MulMono(1, b, h);
    HalfGaps(b, f, g, h);
    MulAssoc(2, Pow(2, b2), f);
  }

  lemma HalfGaps(b: nat, f: nat, g: nat, h: nat)
    ensures b * ((g * (2 * h)) * f) == 2 * (b * h) * (g * f)
  {
    var k := g * f;
    assert (g * (2 * h)) * f == (2 * h) * k by {
      MulAssoc(g, 2 * h, f);
      MulAssoc(2 * h, g, f);
    }
    MulAssoc(b, 2 * h, k);
    assert b * (2 * h) == 2 * (b * h);
  }

  predicate OddPrime(d: nat)
  {
    d == 3 || d == 11 || d == 13 || d == 17 || d == 19
  }

  lemma ScaleMod(c: nat, n: nat, d: nat)
    requires d > 0
    ensures (c * n) % d == (c * (n % d)) % d
  {
    var q, r := n / d, n % d;
    var a := c * r;
    assert n == q * d + r;
    assert c * n == (c * q + a / d) * d + a % d by {
      assert c * n == (c * q) * d + a;
      assert a == (a / d) * d + a % d;
    }
    DivModUnique(c * n, d, c * q + a / d, a % d);
  }

  lemma TwiceNotMultiple(d: nat, n: nat)
    requires OddPrime(d) && n % d != 0
    ensures (2 * n) % d != 0
  {
    ScaleMod(2, n, d);
    SmallNotMultiple(d, n % d);
  }

  lemma FiveNotMultiple(d: nat, n: nat)
    requires OddPrime(d) && n % d != 0
    ensures (5 * n) % d != 0
  {
    ScaleMod(5, n, d);
    SmallNotMultiple(d, n % d);
  }

  lemma SmallNotMultiple(d: nat, r: nat)
    requires OddPrime(d) && 0 < r < d
    ensures (2 * r) % d != 0 && (5 * r) % d != 0
  {
  }

  lemma {:induction false} FivesNotMultiple(d: nat, t: nat)
    requires OddPrime(d)
    ensures Pow(5, t) % d != 0
  {
    if t > 0 {
      FivesNotMultiple(d, t - 1);
      FiveNotMultiple(d, Pow(5, t - 1));
    }
  }

  /** No other prime divides a product of twos and fives. */
  lemma {:induction false} NotMultiple(d: nat, r: nat, t: nat)
    requires OddPrime(d)
    ensures (Pow(2, r) * Pow(5, t)) % d != 0
  {
    if r == 0 {
      FivesNotMultiple(d, t);
      assert Pow(2, 0) * Pow(5, t) == Pow(5, t);
    } else {
      NotMultiple(d, r - 1, t);
      MulAssoc(2, Pow(2, r - 1), Pow(5, t));
      TwiceNotMultiple(d, Pow(2, r - 1) * Pow(5, t));
    }
  }

  lemma OddCount(c: nat, hi: nat, s: nat)
    requires c % 2 == 1 && c * hi == 10 * s && hi <= s < 2 * hi
    ensures c == 11 || c == 13 || c == 15 || c == 17 || c == 19
  {
    if c < 10 {
      MulMono(c, 9, hi);
      assert false;
    }
    if c >= 20 {
      MulMono(20, c, hi);
      assert false;
    }
  }

  lemma OddMultiple(c: nat, hi: nat) returns (d: nat)
    requires c == 11 || c == 13 || c == 15 || c == 17 || c == 19
    ensures OddPrime(d) && (c * hi) % d == 0
  {
    if c == 15 {
      d := 3;
      assert c * hi == (5 * hi) * 3 + 0;
      DivModUnique(c * hi, 3, 5 * hi, 0);
    } else {
      d := c;
      DivModUnique(c * hi, c, hi, 0);
    }
  }

  /** The correction of an exponent that was estimated one too high: everything but the divisor times ten. */
  lemma DtoaTenfold(x: nat, lo: nat, hi: nat, s: nat, m: nat, p: nat, q: nat, r: nat, t: nat)
    requires BuiltByDtoa(x, lo, hi, s, m, p, q, r, t)
    ensures BuiltByDtoa(10 * x, 10 * lo, 10 * hi, s, m, p + 1, q + 1, r, t)
  {
    assert Pow(2, p + 1) == 2 * Pow(2, p) && Pow(5, q + 1) == 5 * Pow(5, q);
    TenTimes(Pow(2, p), Pow(5, q));
    MulTen(2 * m, hi);
  }

  lemma TenTimes(a: nat, b: nat)
    ensures (2 * a) * (5 * b) == 10 * (a * b)
  {
  }

  lemma MulTen(a: nat, b: nat)
    ensures a * (10 * b) == 10 * (a * b)
  {
  }

  /** dtoa never passes such an input: ten times the divisor is not that many half gaps. */
  lemma DtoaNeverOvershoots(x: nat, lo: nat, hi: nat, s: nat, closed: bool, oneWord: bool, m: nat, p: nat, q: nat, r: nat, t: nat)
    requires BuiltByDtoa(x, lo, hi, s, m, p, q, r, t)
    ensures !Overshoots(x, lo, hi, s, closed, oneWord)
  {
    hide Pow;
    if Overshoots(x, lo, hi, s, closed, oneWord) {
      var c := 2 * m + 1;
      assert c * hi == x + hi;
      OddCount(c, hi, s);
      var d := OddMultiple(c, hi);
      NotMultiple(d, r, t);
      FiveNotMultiple(d, s);
      TwiceNotMultiple(d, 5 * s);
      assert false;
    }
  }

  /** So for every double the answer is the nearest of the shortest decimals in the interval. */
  lemma DtoaNearest(x: nat, lo: nat, hi: nat, s: nat, closed: bool, oneWord: bool, n: nat, N: nat, m: nat, p: nat, q: nat, r: nat, t: nat)
    requires BuiltByDtoa(x, lo, hi, s, m, p, q, r, t)
    requires n >= 1 && FreeResult(x, lo, hi, s, closed, oneWord, n, N)
    ensures InsideAt(x, lo, hi, s, closed, n, N) && NoneShorter(x, lo, hi, s, closed, n)
    ensures NearestInside(x, lo, hi, s, closed, n, N)
  {
    hide Pow;
    DtoaNeverOvershoots(x, lo, hi, s, closed, oneWord, m, p, q, r, t);
  }

  /** Rounding a nine up on hitting the endpoint happens at the first digit or not at all. */
  lemma OverOnlyFirst(x: nat, lo: nat, hi: nat, s: nat, closed: bool, oneWord: bool, ds: seq<digit>, r: nat)
    requires Quotient(x, s, ds, r) && 0 < lo <= hi
    requires NoneShorter(x, lo, hi, s, closed, |ds|)
    ensures (Hit(r, hi * Pow(10, |ds| - 1), s, closed, oneWord) && ds[|ds| - 1] == 9
             && r <= lo * Pow(10, |ds| - 1) && r < hi * Pow(10, |ds| - 1))
       <==> Overshoots(x, lo, hi, s, closed, oneWord)
  {
    if |ds| == 1 {
      assert ds == [ds[0]];
      OneDigit(ds[0]);
      PowZero(10);
      hide Pow, Numeral;
      FirstDigit(x, s, ds[0], r);
    } else {
      hide Pow, Numeral, InsideAt;
      OvershootInside(x, lo, hi, s, closed, oneWord);
      EndsInZero(x, lo, hi, s, closed, ds, r);
    }
  }

  lemma OvershootInside(x: nat, lo: nat, hi: nat, s: nat, closed: bool, oneWord: bool)
    ensures Overshoots(x, lo, hi, s, closed, oneWord) ==> InsideAt(x, lo, hi, s, closed, 1, 10)
  {
    PowZero(10);
  }

  lemma FirstDigit(x: nat, s: nat, d: digit, r: nat)
    requires x == d * s + r && r < s
    ensures d == 9 <==> 9 * s <= x < 10 * s
  {
    if d < 9 {
      MulMono(d + 1, 9, s);
    }
  }

  /** Ten times M at one more digit is M. */
  lemma TenthInside(x: nat, lo: nat, hi: nat, s: nat, closed: bool, n: nat, M: nat)
    requires n >= 2 && InsideAt(x, lo, hi, s, closed, n, 10 * M)
    ensures InsideAt(x, lo, hi, s, closed, n - 1, M)
  {
    Tenfold(x, n - 2);
    Tenfold(lo, n - 2);
    Tenfold(hi, n - 2);
    hide Pow;
    assert (10 * M) * s == 10 * (M * s);
  }

  /** A neighbour that ends in zero was inside already without this digit. */
  lemma EndsInZero(x: nat, lo: nat, hi: nat, s: nat, closed: bool, ds: seq<digit>, r: nat)
    requires Quotient(x, s, ds, r) && |ds| > 1 && lo > 0 && hi > 0
    requires NoneShorter(x, lo, hi, s, closed, |ds|)
    ensures ds[|ds| - 1] == 0 ==> !DownOk(r, lo * Pow(10, |ds| - 1), closed)
    ensures ds[|ds| - 1] == 9 ==> !UpOk(r, hi * Pow(10, |ds| - 1), s, closed)
  {
    var n, D := |ds|, Numeral(ds);
    var M := Numeral(ds[..n - 1]);
    assert D == 10 * M + ds[n - 1];
    hide Pow, Numeral, DownOk, UpOk, InsideAt;
    if ds[n - 1] == 0 && DownOk(r, lo * Pow(10, n - 1), closed) {
      StopInside(x, lo, hi, s, closed, ds, r, D);
      TenthInside(x, lo, hi, s, closed, n, M);
      assert false;
    }
    if ds[n - 1] == 9 && UpOk(r, hi * Pow(10, n - 1), s, closed) {
      StopInside(x, lo, hi, s, closed, ds, r, D + 1);
      TenthInside(x, lo, hi, s, closed, n, M + 1);
      assert false;
    }
  }

  /** The loop's comparisons: b with mlo, and b with S - mhi through diff. */
  method Sides(store: Store, b: Bigint, S: Bigint, mlo: Bigint, mhi: Bigint) returns (j: int, j1: int)
    requires store.Valid() && store.Held(b) && store.Held(S) && store.Held(mlo) && store.Held(mhi)
    requires b.Normal() && S.Normal() && mlo.Normal() && mhi.Normal() && S.Val() > 0 && mlo.Val() > 0
    requires b.wds == 0 <==> S.wds == 1 && b.Val() == 0
    modifies store, store.freeRepr
    ensures store.Valid() && fresh(store.freeRepr - old(store.freeRepr))
    ensures fresh(store.arena - old(store.arena)) && old(store.arena) <= store.arena
    ensures store.pows == old(store.pows) && store.powRepr == old(store.powRepr)
    ensures (j < 0 <==> b.Val() < mlo.Val()) && (j == 0 <==> b.Val() == mlo.Val())
    ensures j1 > 0 <==> b.Val() + mhi.Val() > S.Val()
    ensures j1 == 0 <==> b.Val() + mhi.Val() == S.Val() && !(S.wds == 1 && b.Val() == 0)
  {
    hide Value, Pow, FreeLists, PowChain;
    SameWords(b, mlo);
    j := Cmp(b, mlo);
    j1 := HighSide(store, b, S, mhi);
  }

  /** The comparison with S - mhi. */
  method HighSide(store: Store, b: Bigint, S: Bigint, mhi: Bigint) returns (j1: int)
    requires store.Valid() && store.Held(b) && store.Held(S) && store.Held(mhi)
    requires b.Normal() && S.Normal() && mhi.Normal() && S.Val() > 0
    requires b.wds == 0 <==> S.wds == 1 && b.Val() == 0
    modifies store, store.freeRepr
    ensures store.Valid() && fresh(store.freeRepr - old(store.freeRepr))
    ensures fresh(store.arena - old(store.arena)) && old(store.arena) <= store.arena
    ensures store.pows == old(store.pows) && store.powRepr == old(store.powRepr)
    ensures j1 > 0 <==> b.Val() + mhi.Val() > S.Val()
    ensures j1 == 0 <==> b.Val() + mhi.Val() == S.Val() && !(S.wds == 1 && b.Val() == 0)
  {
    hide Value, Pow, FreeLists, PowChain;
    SameWords(S, mhi);
    var delta := store.Diff(S, mhi);
    if delta.sign {
      j1 := 1;
    } else {
      j1 := Cmp(b, delta);
      ZeroForms(b, delta);
    }
    store.Bfree(delta);
  }

  lemma SameWords(a: Bigint, b: Bigint)
    requires a.Normal() && b.Normal() && (a.Val() > 0 || b.Val() > 0)
    ensures Comparable(a, b)
  {
  }

  /** Zero has one word or none. */
  lemma ZeroForms(a: Bigint, b: Bigint)
    requires a.Normal() && b.Normal() && b.wds >= 1
    ensures a.wds == 0 ==> a.Val() == 0
    ensures Comparable(a, b) <==> !(a.wds == 0 && b.Val() == 0)
    ensures b.Val() == 0 ==> b.wds == 1
  {
    NormalBounds(a);
    NormalBounds(b);
    ValueEmpty(a.x[..a.wds]);
  }

  /** What the loop does with a digit d and the remainder in b. */
  method Judge(store: Store, b: Bigint, S: Bigint, mlo: Bigint, mhi: Bigint, d: digit, closed: bool)
    returns (b': Bigint, v: Verdict)
    requires store.Valid() && store.Held(b) && store.Held(S) && store.Held(mlo) && store.Held(mhi)
    requires b != S && b.x != S.x && b != mlo && b.x != mlo.x && b != mhi && b.x != mhi.x
    requires b.Normal() && S.Normal() && mlo.Normal() && mhi.Normal() && b.Val() < S.Val() && mlo.Val() > 0
    requires b.wds == 0 <==> S.wds == 1 && b.Val() == 0
    modifies store, store.freeRepr, b
    ensures store.Valid() && store.Returns(b', {b, b.x})
    ensures v == Decide(d, old(b.Val()), mlo.Val(), mhi.Val(), S.Val(), closed, S.wds == 1)
    ensures v.Continue? ==> b' == b && b.Normal() && b.Val() == old(b.Val()) && b.wds >= 1
  {
    hide Value, Pow, FreeLists, PowChain;
    b' := b;
    ghost var r := b.Val();
    var j, j1 := Sides(store, b, S, mlo, mhi);
    assert b.Val() == r && b.Normal();
    if j1 == 0 && closed {
      v := if d == 9 || j > 0 then Up else Down;
    } else if j < 0 || (j == 0 && closed) {
      v := Down;
      if !b.IsZero() && j1 > 0 {
        TwiceIs(r);
        b' := store.LShift(b, 1);
        j1 := Cmp(b', S);
        if j1 > 0 || (j1 == 0 && d % 2 == 1) {
          v := Up;
        }
      }
    } else if j1 > 0 {
      v := Up;
    } else {
      v := Continue;
    }
  }

  /** Two bigints that share neither the block nor its words. */
  ghost predicate Apart(a: Bigint, b: Bigint)
  {
    a != b && a.x != b.x
  }

  /** The loop's next scale for the interval; one number serves for both sides while they are equal. */
  method ScaleSides(store: Store, mlo: Bigint, mhi: Bigint) returns (lo: Bigint, hi: Bigint)
    requires store.Valid() && store.Held(mlo) && store.Held(mhi) && (mlo == mhi || Apart(mlo, mhi))
    requires mlo.Normal() && mhi.Normal()
    modifies store, store.freeRepr, mlo, mlo.x, mhi, mhi.x
    ensures store.Valid() && (lo == hi || Apart(lo, hi))
    ensures store.Returns(lo, {mlo, mlo.x, mhi, mhi.x}) && store.Returns(hi, {mlo, mlo.x, mhi, mhi.x})
    ensures lo.Normal() && hi.Normal()
    ensures lo.Val() == 10 * old(mlo.Val()) && hi.Val() == 10 * old(mhi.Val())
  {
    hide Value, Pow, FreeLists, PowChain;
    if mlo == mhi {
      hi := store.MultAdd(mhi, 10, 0);
      lo := hi;
    } else {
      lo := store.MultAdd(mlo, 10, 0);
      hi := store.MultAdd(mhi, 10, 0);
    }
  }

  /** At the head of the free-format loop, in numbers. */
  ghost predicate FreeInv(x: nat, lo0: nat, hi0: nat, s: nat, closed: bool, ds: seq<digit>, v: nat, lo: nat, hi: nat)
  {
    && Pending(x, s, ds, v)
    && lo == lo0 * Pow(10, |ds|) && hi == hi0 * Pow(10, |ds|)
    && NoneShorter(x, lo0, hi0, s, closed, |ds| + 1)
  }

  lemma FreeStart(x: nat, lo: nat, hi: nat, s: nat, closed: bool)
    requires s <= x < 10 * s
    ensures FreeInv(x, lo, hi, s, closed, [], x, lo, hi)
  {
    PendingStart(x, s);
  }

  lemma FreeFacts(x: nat, lo0: nat, hi0: nat, s: nat, closed: bool, ds: seq<digit>, v: nat, lo: nat, hi: nat)
    requires FreeInv(x, lo0, hi0, s, closed, ds, v, lo, hi) && 0 < lo0 && 0 < hi0
    ensures Pending(x, s, ds, v) && NoneShorter(x, lo0, hi0, s, closed, |ds| + 1)
    ensures lo == lo0 * Pow(10, |ds|) && hi == hi0 * Pow(10, |ds|) && lo > 0
  {
    ScaledPositive(lo0, hi0, |ds| + 1);
  }

  /** The loop goes on: one more digit, everything else ten times larger, and still nothing inside. */
  lemma FreeNext(x: nat, lo0: nat, hi0: nat, s: nat, closed: bool, oneWord: bool, ds: seq<digit>, r: nat, lo: nat, hi: nat)
    requires Quotient(x, s, ds, r) && lo0 > 0 && hi0 > 0
    requires lo == lo0 * Pow(10, |ds| - 1) && hi == hi0 * Pow(10, |ds| - 1)
    requires NoneShorter(x, lo0, hi0, s, closed, |ds|)
    requires Decide(ds[|ds| - 1], r, lo, hi, s, closed, oneWord).Continue?
    ensures NoneShorter(x, lo0, hi0, s, closed, |ds| + 1)
    ensures 0 < lo <= r < s
    ensures FreeInv(x, lo0, hi0, s, closed, ds, 10 * r, 10 * lo, 10 * hi)
  {
    ScaledPositive(lo0, hi0, |ds|);
    DecideSound(ds[|ds| - 1], r, lo, hi, s, closed, oneWord);
    Tenfold(lo0, |ds| - 1);
    Tenfold(hi0, |ds| - 1);
    hide Pow, Decide;
    NoneAtLength(x, lo0, hi0, s, closed, ds, r);
    ScaleNext(x, s, ds, r);
  }

  /** Writing the last digit: the digit as it is, one more, or a carry through the nines. */
  method LastDigit(ds: seq<digit>, v: Verdict) returns (r: seq<digit>, carry: nat)
    requires ds != [] && ds[0] != 0 && !v.Continue?
    requires v.Down? ==> ds[|ds| - 1] != 0
    ensures Clean(r) && |r| <= |ds| && carry <= 1
    ensures Scaled(r, |ds| - |r| + carry) == Numeral(ds) + if v.Up? then 1 else 0
  {
    hide Pow, Numeral;
    PowZero(10);
    var n := |ds| - 1;
    if v.Down? {
      r, carry := ds, 0;
    } else if ds[n] == 9 {
      r, carry := RoundUp(ds);
    } else {
      r, carry := ds[..n] + [ds[n] + 1], 0;
      NumeralSnoc(ds[..n], ds[n]);
      NumeralSnoc(ds[..n], ds[n] + 1);
      assert ds == ds[..n] + [ds[n]];
    }
  }

  /** What the free-format loop promises of its answer N, an n-digit decimal. */
  ghost predicate FreeResult(x: nat, lo: nat, hi: nat, s: nat, closed: bool, oneWord: bool, n: nat, N: nat)
    requires n >= 1
  {
    && InsideAt(x, lo, hi, s, closed, n, N)
    && NoneShorter(x, lo, hi, s, closed, n)
    && (NearestInside(x, lo, hi, s, closed, n, N) <==> !Overshoots(x, lo, hi, s, closed, oneWord))
  }

  lemma FreeStop(x: nat, lo0: nat, hi0: nat, s: nat, closed: bool, oneWord: bool, ds: seq<digit>, r: nat, v: Verdict)
    requires Quotient(x, s, ds, r) && 0 < lo0 <= hi0
    requires NoneShorter(x, lo0, hi0, s, closed, |ds|)
    requires v == Decide(ds[|ds| - 1], r, lo0 * Pow(10, |ds| - 1), hi0 * Pow(10, |ds| - 1), s, closed, oneWord)
    requires !v.Continue?
    ensures v.Down? ==> ds[|ds| - 1] != 0
    ensures FreeResult(x, lo0, hi0, s, closed, oneWord, |ds|, Numeral(ds) + if v.Up? then 1 else 0)
  {
    var N := Numeral(ds) + if v.Up? then 1 else 0;
    ScaledPositive(lo0, hi0, |ds|);
    DecideSound(ds[|ds| - 1], r, lo0 * Pow(10, |ds| - 1), hi0 * Pow(10, |ds| - 1), s, closed, oneWord);
    hide Pow, Numeral, InsideAt, NearestInside, Overshoots, Decide;
    StopInside(x, lo0, hi0, s, closed, ds, r, N);
    StopNearest(x, lo0, hi0, s, closed, oneWord, ds, r, v, N);
    if |ds| > 1 {
      EndsInZero(x, lo0, hi0, s, closed, ds, r);
    }
  }

  /**
   dtoa's free-format loop: the shortest decimal that rounds to b / S, or the nearest of ilim digits when
   none of that length does.  `closed` says that the ends of the rounding interval round to b / S as well.
   */
  method FreeDigits(store: Store, b0: Bigint, S: Bigint, mlo0: Bigint, mhi0: Bigint, closed: bool, ilim: int)
    returns (r: seq<digit>, carry: nat, ghost n: nat, ghost limited: bool)
    requires store.Valid() && store.Held(b0) && store.Held(S) && store.Held(mlo0) && store.Held(mhi0)
    requires Apart(b0, S) && Apart(b0, mlo0) && Apart(b0, mhi0) && Apart(S, mlo0) && Apart(S, mhi0)
    requires mlo0 == mhi0 || Apart(mlo0, mhi0)
    requires b0.Normal() && Divisor(S) && S.Val() <= b0.Val() < 10 * S.Val()
    requires mlo0.Normal() && mhi0.Normal() && 0 < mlo0.Val() <= mhi0.Val()
    modifies store, store.arena
    ensures store.Valid()
    ensures Clean(r) && |r| <= n && carry <= 1 && n >= 1
    ensures var x, lo, hi, s := old(b0.Val()), old(mlo0.Val()), old(mhi0.Val()), old(S.Val());
      var N := Scaled(r, n - |r| + carry);
      if limited then
        n == ilim && NearestEven(x * Pow(10, n - 1), s, N) && NoneShorter(x, lo, hi, s, closed, n + 1)
      else
        FreeResult(x, lo, hi, s, closed, old(S.wds) == 1, n, N)
  {
    hide Value, Pow, Numeral, FreeLists, PowChain, Pending, Quotient, NearestEven, FreeInv, Decide, NoneShorter, FreeResult, Scaled;
    hide Bigint.Normal, Bigint.Val, Divisor, Store.Valid, Clean;
    var b, mlo, mhi := b0, mlo0, mhi0;
    ghost var x, lo0, hi0, s, w := b0.Val(), mlo0.Val(), mhi0.Val(), S.Val(), S.wds;
    var ds: seq<digit> := [];
    FreeStart(x, lo0, hi0, s, closed);
    while true
      invariant store.Valid() && fresh(store.arena - old(store.arena))
      invariant store.Held(b) && store.Held(S) && store.Held(mlo) && store.Held(mhi)
      invariant Apart(b, S) && Apart(b, mlo) && Apart(b, mhi) && Apart(S, mlo) && Apart(S, mhi)
      invariant mlo == mhi || Apart(mlo, mhi)
      invariant Divisor(S) && S.Val() == s && S.wds == w
      invariant b.Normal() && mlo.Normal() && mhi.Normal()
      invariant FreeInv(x, lo0, hi0, s, closed, ds, b.Val(), mlo.Val(), mhi.Val())
      decreases s - mlo.Val()
    {
      var v: Verdict;
      b, mlo, mhi, ds, v := FreeTurn(store, b, S, mlo, mhi, ds, closed, ilim, x, lo0, hi0);
      if !v.Continue? {
        r, carry := LastDigit(ds, v);
        n, limited := |ds|, false;
        return;
      }
      if |ds| == ilim {
        break;
      }
    }
    b, r, carry := RoundLast(store, b, S, ds, x);
    n, limited := |ds|, true;
  }

  /** One turn of the free-format loop. */
  method FreeTurn(store: Store, b: Bigint, S: Bigint, mlo: Bigint, mhi: Bigint, ds: seq<digit>, closed: bool, ilim: int,
                  ghost x: nat, ghost lo0: nat, ghost hi0: nat)
    returns (b': Bigint, mlo': Bigint, mhi': Bigint, ds': seq<digit>, v: Verdict)
    requires store.Valid() && store.Held(b) && store.Held(S) && store.Held(mlo) && store.Held(mhi)
    requires Apart(b, S) && Apart(b, mlo) && Apart(b, mhi) && Apart(S, mlo) && Apart(S, mhi)
    requires mlo == mhi || Apart(mlo, mhi)
    requires b.Normal() && Divisor(S) && mlo.Normal() && mhi.Normal() && 0 < lo0 <= hi0
    requires FreeInv(x, lo0, hi0, S.Val(), closed, ds, b.Val(), mlo.Val(), mhi.Val())
    modifies store, store.freeRepr, b, b.x, mlo, mlo.x, mhi, mhi.x
    ensures store.Valid() && |ds'| == |ds| + 1 && ds'[0] != 0
    ensures fresh(store.arena - old(store.arena))
    ensures store.Held(b') && store.Held(S) && store.Held(mlo') && store.Held(mhi')
    ensures Apart(b', S) && Apart(b', mlo') && Apart(b', mhi') && Apart(S, mlo') && Apart(S, mhi')
    ensures mlo' == mhi' || Apart(mlo', mhi')
    ensures v.Continue? ==> b'.Normal() && b'.wds >= 1 && mlo'.Normal() && mhi'.Normal()
    ensures !v.Continue? ==>
      && (v.Down? ==> ds'[|ds|] != 0)
      && FreeResult(x, lo0, hi0, S.Val(), closed, S.wds == 1, |ds'|, Numeral(ds') + if v.Up? then 1 else 0)
    ensures v.Continue? && |ds'| == ilim ==>
      Quotient(x, S.Val(), ds', b'.Val()) && NoneShorter(x, lo0, hi0, S.Val(), closed, |ds'| + 1)
    ensures v.Continue? && |ds'| != ilim ==>
      && FreeInv(x, lo0, hi0, S.Val(), closed, ds', b'.Val(), mlo'.Val(), mhi'.Val())
      && old(mlo.Val()) < S.Val() && mlo'.Val() > old(mlo.Val())
  {
    hide Value, Pow, Numeral, FreeLists, PowChain, Pending, Quotient, Decide, NoneShorter, FreeResult, FreeInv;
    hide Bigint.Normal, Bigint.Val, Divisor, Store.Valid;
    FreeFacts(x, lo0, hi0, S.Val(), closed, ds, b.Val(), mlo.Val(), mhi.Val());
    mlo', mhi' := mlo, mhi;
    var d := NextDigit(b, S, x, ds);
    ds' := ds + [d];
    ghost var rem := b.Val();
    b', v := Judge(store, b, S, mlo, mhi, d, closed);
    if !v.Continue? {
      FreeStop(x, lo0, hi0, S.Val(), closed, S.wds == 1, ds', rem, v);
      return;
    }
    FreeNext(x, lo0, hi0, S.Val(), closed, S.wds == 1, ds', rem, mlo.Val(), mhi.Val());
    if |ds'| != ilim {
      b', mlo', mhi' := ScaleAll(store, b, S, mlo, mhi);
    }
  }

  /** The next scale for the remainder and the interval. */
  method ScaleAll(store: Store, b: Bigint, S: Bigint, mlo: Bigint, mhi: Bigint)
    returns (b': Bigint, mlo': Bigint, mhi': Bigint)
    requires store.Valid() && store.Held(b) && store.Held(S) && store.Held(mlo) && store.Held(mhi)
    requires Apart(b, S) && Apart(b, mlo) && Apart(b, mhi) && Apart(S, mlo) && Apart(S, mhi)
    requires mlo == mhi || Apart(mlo, mhi)
    requires b.Normal() && b.wds >= 1 && mlo.Normal() && mhi.Normal()
    modifies store, store.freeRepr, b, b.x, mlo, mlo.x, mhi, mhi.x
    ensures store.Valid() && fresh(store.arena - old(store.arena))
    ensures store.Held(b') && store.Held(S) && store.Held(mlo') && store.Held(mhi')
    ensures Apart(b', S) && Apart(b', mlo') && Apart(b', mhi') && Apart(S, mlo') && Apart(S, mhi')
    ensures mlo' == mhi' || Apart(mlo', mhi')
    ensures b'.Normal() && b'.wds >= 1 && mlo'.Normal() && mhi'.Normal()
    ensures b'.Val() == 10 * old(b.Val()) && mlo'.Val() == 10 * old(mlo.Val()) && mhi'.Val() == 10 * old(mhi.Val())
  {
    hide Value, Pow, FreeLists, PowChain, Bigint.Normal, Bigint.Val, Store.Valid;
    b' := store.MultAdd(b, 10, 0);
    mlo', mhi' := ScaleSides(store, mlo, mhi);
  }
}
