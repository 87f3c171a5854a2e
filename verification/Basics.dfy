/** Types and facts about byte strings that several parts of the model share. */
module Basics {

  type byte = n: int | 0 <= n < 256

  datatype Option<+T> = None | Some(value: T)

  const INT_MAX: int := 0x7fff_ffff
  const LONG_MAX: int := 0x7fff_ffff_ffff_ffff

  /** What is left of an unsigned number in an int of 32 bits, and in a long of 64. */
  function ToInt(n: nat): (r: int)
    ensures -INT_MAX - 1 <= r <= INT_MAX
    ensures r <= n && (r == n <==> n <= INT_MAX)
  {
    var m := n % 0x1_0000_0000;
    if m <= INT_MAX then m else m - 0x1_0000_0000
  }

  function ToLong(n: nat): (r: int)
    ensures -LONG_MAX - 1 <= r <= LONG_MAX
    ensures r <= n && (r == n <==> n <= LONG_MAX)
  {
    var m := n % 0x1_0000_0000_0000_0000;
    if m <= LONG_MAX then m else m - 0x1_0000_0000_0000_0000
  }

  /** The text has t at i. */
  predicate Has(s: seq<byte>, i: nat, t: seq<byte>)
  {
    i + |t| <= |s| && s[i..i + |t|] == t
  }

  lemma HasParts(s: seq<byte>, i: nat, a: seq<byte>, b: seq<byte>)
    requires Has(s, i, a + b)
    ensures Has(s, i, a) && Has(s, i + |a|, b)
  {
    var t := s[i..i + |a + b|];
    assert t[..|a|] == a && t[|a|..] == b;
    assert t[..|a|] == s[i..i + |a|] && t[|a|..] == s[i + |a|..i + |a| + |b|];
  }

  lemma HasAt(s: seq<byte>, i: nat, t: seq<byte>, k: nat)
    requires Has(s, i, t) && k < |t|
    ensures i + k < |s| && s[i + k] == t[k]
  {
    assert s[i..i + |t|][k] == t[k];
  }

  const CRLF: seq<byte> := [13, 10]

  function Concat(parts: seq<seq<byte>>): seq<byte>
  {
    if parts == [] then [] else parts[0] + Concat(parts[1..])
  }

  /** What was appended in turns is one sequence. */
  lemma Joined(before: seq<byte>, a: seq<byte>, b: seq<byte>)
    ensures before + a + b == before + (a + b)
  {
  }
}
