/** Decimal digits in a byte string. */
module Ascii {
  import opened Basics

  predicate Digit(b: byte)
  {
    0x30 <= b <= 0x39
  }

  predicate Digits(d: seq<byte>)
  {
    forall k :: 0 <= k < |d| ==> Digit(d[k])
  }

  /** Where the run of digits that starts at i ends. */
  function RunEnd(s: seq<byte>, i: nat): (j: nat)
    requires i <= |s|
    ensures i <= j <= |s|
    ensures forall k :: i <= k < j ==> Digit(s[k])
    ensures j < |s| ==> !Digit(s[j])
    decreases |s| - i
  {
    if i < |s| && Digit(s[i]) then RunEnd(s, i + 1) else i
  }

  lemma {:induction false} RunEndIs(s: seq<byte>, i: nat, j: nat)
    requires i <= j <= |s| && (forall k :: i <= k < j ==> Digit(s[k])) && (j < |s| ==> !Digit(s[j]))
    ensures RunEnd(s, i) == j
    decreases j - i
  {
    if i < j {
      RunEndIs(s, i + 1, j);
    }
  }

  /** The number that digits denote. */
  function DecimalOf(d: seq<byte>): nat
    requires Digits(d)
  {
    if d == [] then 0 else
      assert Digit(d[|d| - 1]);
      var last: int := d[|d| - 1];
      10 * DecimalOf(d[..|d| - 1]) + (last - 0x30)
  }

  /** The digits of a number. */
  function Num(n: nat): (s: seq<byte>)
    ensures |s| >= 1
  {
    if n < 10 then [0x30 + n] else Num(n / 10) + [0x30 + n % 10]
  }

  /** Digits denote the number they were made from. */
  lemma {:induction false} NumBack(n: nat)
    ensures Digits(Num(n)) && DecimalOf(Num(n)) == n
  {
    if n >= 10 {
      NumBack(n / 10);
      assert Num(n)[..|Num(n)| - 1] == Num(n / 10);
    } else {
      assert Num(n)[..0] == [];
    }
  }
}
