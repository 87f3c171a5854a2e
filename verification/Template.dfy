/**
 What a replacement template means: the text between references stands for itself, `$$` for a dollar sign,
 `$n` and `${n}` for the n-th capture.
 */
module Template {
  import opened Ascii
  import opened Basics

  const DOLLAR: byte := 0x24
  const OPEN: byte := 0x7b
  const CLOSE: byte := 0x7d
  const WORD: nat := 0x1_0000_0000_0000_0000
  const HALF: nat := 0x8000_0000_0000_0000

  datatype Token = Byte(b: byte) | Ref(n: nat)

  function Then(t: seq<Token>, rest: Option<seq<Token>>): Option<seq<Token>>
  {
    if rest.None? then None else Some(t + rest.value)
  }

  /** The tokens of the template from position i on; none if it is not a template. */
  function Parse(s: seq<byte>, i: nat): Option<seq<Token>>
    requires i <= |s|
    decreases |s| - i
  {
    if i == |s| then Some([])
    else if s[i] != DOLLAR then Then([Byte(s[i])], Parse(s, i + 1))
    else if i + 1 == |s| then None
    else if s[i + 1] == DOLLAR then Then([Byte(DOLLAR)], Parse(s, i + 2))
    else if Digit(s[i + 1]) then
      var j := RunEnd(s, i + 1);
      Then([Ref(DecimalOf(s[i + 1..j]))], Parse(s, j))
    else if s[i + 1] == OPEN then
      var j := RunEnd(s, i + 2);
      if i + 2 < j < |s| && s[j] == CLOSE then Then([Ref(DecimalOf(s[i + 2..j]))], Parse(s, j + 1)) else None
    else None
  }

  /** What a match hands to the engine: the subject and the offsets of its count groups. */
  datatype Match = Match(subject: seq<byte>, count: nat, offsets: seq<int>)

  /** A group is unset (both offsets -1) or a span of the subject. */
  predicate GroupOk(m: Match, g: nat)
    requires 2 * g + 1 < |m.offsets|
  {
    var a, b := m.offsets[2 * g], m.offsets[2 * g + 1];
    (a == -1 && b == -1) || 0 <= a <= b <= |m.subject|
  }

  predicate MatchOk(m: Match)
  {
    && 2 * m.count <= |m.offsets|
    && 2 * m.count <= WORD
    && forall g :: 0 <= g < m.count ==> GroupOk(m, g)
  }

  function Group(m: Match, g: nat): seq<byte>
    requires MatchOk(m)
  {
    if g >= m.count then [] else
      assert GroupOk(m, g);
      var a, b := m.offsets[2 * g], m.offsets[2 * g + 1];
      if a < 0 then [] else m.subject[a..b]
  }

  function Piece(t: Token, m: Match): seq<byte>
    requires MatchOk(m)
  {
    match t case Byte(b) => [b] case Ref(n) => Group(m, n)
  }

  function Expand(t: seq<Token>, m: Match): seq<byte>
    requires MatchOk(m)
  {
    if t == [] then [] else Piece(t[0], m) + Expand(t[1..], m)
  }

  lemma {:induction false} ExpandAppend(a: seq<Token>, b: seq<Token>, m: Match)
    requires MatchOk(m)
    ensures Expand(a + b, m) == Expand(a, m) + Expand(b, m)
  {
    if a == [] {
      assert a + b == b;
    } else {
      assert (a + b)[1..] == a[1..] + b;
      ExpandAppend(a[1..], b, m);
    }
  }

  /** Text without a dollar sign stands for itself. */
  lemma {:induction false} PlainText(s: seq<byte>, i: nat, m: Match)
    requires MatchOk(m) && i <= |s| && DOLLAR !in s
    ensures Parse(s, i).Some? && Expand(Parse(s, i).value, m) == s[i..]
    decreases |s| - i
  {
    if i < |s| {
      PlainText(s, i + 1, m);
      var t := Parse(s, i + 1).value;
      assert ([Byte(s[i])] + t)[1..] == t;
      assert s[i..] == [s[i]] + s[i + 1..];
    }
  }

  // ---- what the compiler makes of large numbers ----

  /** The compiler keeps twice the number in a 64-bit word. */
  function Kept(t: Token): Token
  {
    match t case Byte(_) => t case Ref(n) => Ref(n % HALF)
  }

  function KeptAll(t: seq<Token>): (r: seq<Token>)
    ensures |r| == |t| && forall i :: 0 <= i < |t| ==> r[i] == Kept(t[i])
  {
    if t == [] then [] else [Kept(t[0])] + KeptAll(t[1..])
  }

  lemma {:induction false} KeptAppend(a: seq<Token>, b: seq<Token>)
    ensures KeptAll(a + b) == KeptAll(a) + KeptAll(b)
  {
  }

  /** A reference that names the same thing, or nothing, before and after. */
  predicate Safe(t: Token, count: nat)
  {
    t.Ref? ==> t.n < HALF || t.n % HALF >= count
  }

  /** A dollar sign and a number is a reference, whatever the number. */
  lemma ReferenceParsed(n: nat)
    ensures Parse([DOLLAR] + Num(n), 0) == Some([Ref(n)])
  {
    hide DecimalOf, Num;
    NumBack(n);
    var s := [DOLLAR] + Num(n);
    assert s[1..|s|] == Num(n);
    forall k | 1 <= k < |s| ensures Digit(s[k]) {
      assert s[k] == Num(n)[k - 1];
    }
    RunEndIs(s, 1, |s|);
    assert [Ref(n)] + [] == [Ref(n)];
  }

  /** `$9223372036854775808` should be empty and is the whole match. */
  lemma LargeReference(m: Match)
    requires MatchOk(m) && m.count == 1 && 0 <= m.offsets[0] <= m.offsets[1] <= |m.subject|
    ensures HALF == 9223372036854775808 && Parse([DOLLAR] + Num(HALF), 0) == Some([Ref(HALF)])
    ensures Expand([Ref(HALF)], m) == []
    ensures Expand(KeptAll([Ref(HALF)]), m) == m.subject[m.offsets[0]..m.offsets[1]]
  {
    hide Num;
    ReferenceParsed(HALF);
    assert KeptAll([Ref(HALF)]) == [Ref(0)];
    assert Group(m, 0) == m.subject[m.offsets[0]..m.offsets[1]];
  }

  lemma SafePiece(t: Token, m: Match)
    requires MatchOk(m) && Safe(t, m.count)
    ensures Piece(Kept(t), m) == Piece(t, m)
  {
    assert m.count <= HALF;
  }

  lemma {:induction false} SafeExpand(t: seq<Token>, m: Match)
    requires MatchOk(m) && forall i :: 0 <= i < |t| ==> Safe(t[i], m.count)
    ensures Expand(KeptAll(t), m) == Expand(t, m)
  {
    if t != [] {
      hide Piece, Kept;
      SafeExpand(t[1..], m);
      SafePiece(t[0], m);
      assert KeptAll(t)[1..] == KeptAll(t[1..]);
    }
  }

  /** Every group is the one byte of the subject. */
  function AllSet(count: nat): Match
  {
    Match([DOLLAR], count, seq(2 * count, i => i % 2))
  }

  lemma {:induction false} LongerWhenUnsafe(t: seq<Token>, count: nat, k: nat)
    requires 2 * count <= WORD && k <= |t| && MatchOk(AllSet(count))
    requires k < |t| ==> !Safe(t[k], count)
    ensures |Expand(KeptAll(t), AllSet(count))| >= |Expand(t, AllSet(count))| + if k < |t| then 1 else 0
  {
    if t != [] {
      hide Piece, Kept, Safe;
      LongerWhenUnsafe(t[1..], count, if k > 0 then k - 1 else |t| - 1);
      LongerPiece(t[0], count);
      assert KeptAll(t)[1..] == KeptAll(t[1..]);
    }
  }

  lemma LongerPiece(t: Token, count: nat)
    requires MatchOk(AllSet(count))
    ensures |Piece(Kept(t), AllSet(count))| >= |Piece(t, AllSet(count))| + if Safe(t, count) then 0 else 1
  {
    if t.Ref? {
      GroupAllSet(count, t.n);
      GroupAllSet(count, t.n % HALF);
    }
  }

  lemma AllSetOk(count: nat)
    requires 2 * count <= WORD
    ensures MatchOk(AllSet(count))
  {
    var m := AllSet(count);
    forall g | 0 <= g < count ensures GroupOk(m, g) {
      assert m.offsets[2 * g] == 0 && m.offsets[2 * g + 1] == 1;
    }
  }

  lemma GroupAllSet(count: nat, g: nat)
    requires MatchOk(AllSet(count))
    ensures |Group(AllSet(count), g)| == if g < count then 1 else 0
  {
  }

  /** The expansion is the intended one for every match with that many groups exactly when every reference
      is below 2^63 or wraps to a group that is not there. */
  lemma LargeReferencesExact(t: seq<Token>, count: nat)
    requires 2 * count <= WORD
    ensures (forall m :: MatchOk(m) && m.count == count ==> Expand(KeptAll(t), m) == Expand(t, m))
       <==> (forall i :: 0 <= i < |t| ==> Safe(t[i], count))
  {
    if forall i :: 0 <= i < |t| ==> Safe(t[i], count) {
      forall m | MatchOk(m) && m.count == count ensures Expand(KeptAll(t), m) == Expand(t, m) {
        SafeExpand(t, m);
      }
    } else {
      hide Expand, Safe, MatchOk;
      var k :| 0 <= k < |t| && !Safe(t[k], count);
      AllSetOk(count);
      LongerWhenUnsafe(t, count, k);
      assert AllSet(count).count == count;
    }
  }
}
