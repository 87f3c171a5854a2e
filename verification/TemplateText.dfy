/** Replacement templates byte for byte: which texts are templates, and what each part of one is replaced by. */
module TemplateText {
  import opened Ascii
  import opened Basics
  import opened Template

  /** A byte that stands for itself, a doubled dollar sign, and a number with or without braces. */
  datatype Part = Char(b: byte) | Doubled | Bare(digits: seq<byte>) | Braced(digits: seq<byte>)

  function Spelled(x: Part): (s: seq<byte>)
  {
    match x
    case Char(b) => [b]
    case Doubled => [0x24, 0x24]
    case Bare(d) => [0x24] + d
    case Braced(d) => [0x24, 0x7b] + d + [0x7d]
  }

  function Spell(ps: seq<Part>): seq<byte>
  {
    if ps == [] then [] else Spelled(ps[0]) + Spell(ps[1..])
  }

  predicate PartOk(x: Part)
  {
    match x
    case Char(b) => b != 0x24
    case Doubled => true
    case Bare(d) => d != [] && Digits(d)
    case Braced(d) => d != [] && Digits(d)
  }

  /** A number without braces goes on as long as there are digits. */
  predicate PartsOk(ps: seq<Part>)
  {
    ps == [] ||
    (PartOk(ps[0]) && PartsOk(ps[1..]) &&
     (ps[0].Bare? && |ps| > 1 && ps[1].Char? ==> !(0x30 <= ps[1].b <= 0x39)))
  }

  function NumberOf(x: Part): nat
    requires PartOk(x) && (x.Bare? || x.Braced?)
  {
    DecimalOf(x.digits)
  }

  /** What a part is replaced by: itself, a dollar sign, or the bytes of the subject that the group of that number has. */
  function Replaced(x: Part, m: Match): seq<byte>
    requires PartOk(x) && MatchOk(m)
  {
    match x
    case Char(b) => [b]
    case Doubled => [0x24]
    case _ =>
      var n := NumberOf(x) % 0x8000_0000_0000_0000;
      if n < m.count && m.offsets[2 * n] >= 0 then
        assert GroupOk(m, n);
        m.subject[m.offsets[2 * n]..m.offsets[2 * n + 1]]
      else []
  }

  function ReplacedAll(ps: seq<Part>, m: Match): seq<byte>
    requires PartsOk(ps) && MatchOk(m)
  {
    if ps == [] then [] else Replaced(ps[0], m) + ReplacedAll(ps[1..], m)
  }

  // ---- which texts are templates ----

  function TokenOf(x: Part): Token
    requires PartOk(x)
  {
    match x case Char(b) => Byte(b) case Doubled => Byte(0x24) case _ => Ref(NumberOf(x))
  }

  function TokensOf(ps: seq<Part>): seq<Token>
    requires PartsOk(ps)
  {
    if ps == [] then [] else [TokenOf(ps[0])] + TokensOf(ps[1..])
  }

  lemma BareRead(s: seq<byte>, i: nat, d: seq<byte>)
    requires d != [] && Digits(d) && Has(s, i, [0x24] + d)
    requires i + 1 + |d| < |s| ==> !Digit(s[i + 1 + |d|])
    ensures i <= |s| && i + 1 + |d| <= |s|
    ensures Parse(s, i) == Then([Ref(DecimalOf(d))], Parse(s, i + 1 + |d|))
  {
    hide DecimalOf, Has, Digits, Then;
    var j := i + 1 + |d|;
    HasAt(s, i, [0x24] + d, 0);
    HasParts(s, i, [0x24], d);
    DigitsThere(s, i + 1, d);
    RunEndIs(s, i + 1, j);
    hide RunEnd;
  }

  lemma BracedRead(s: seq<byte>, i: nat, d: seq<byte>)
    requires d != [] && Digits(d) && Has(s, i, [0x24, 0x7b] + d + [0x7d])
    ensures i <= |s| && i + 3 + |d| <= |s|
    ensures Parse(s, i) == Then([Ref(DecimalOf(d))], Parse(s, i + 3 + |d|))
  {
    hide DecimalOf, Has, Digits, Then;
    var j := i + 2 + |d|;
    HasParts(s, i, [0x24, 0x7b] + d, [0x7d]);
    HasParts(s, i, [0x24, 0x7b], d);
    HasAt(s, i, [0x24, 0x7b], 0);
    HasAt(s, i, [0x24, 0x7b], 1);
    HasAt(s, j, [0x7d], 0);
    DigitsThere(s, i + 2, d);
    RunEndIs(s, i + 2, j);
    hide RunEnd;
  }

  lemma DoubledRead(s: seq<byte>, i: nat)
    requires Has(s, i, [0x24, 0x24])
    ensures i + 2 <= |s| && Parse(s, i) == Then([Byte(0x24)], Parse(s, i + 2))
  {
    hide DecimalOf, Has, RunEnd, Then;
    HasAt(s, i, [0x24, 0x24], 0);
    HasAt(s, i, [0x24, 0x24], 1);
  }

  lemma CharRead(s: seq<byte>, i: nat, b: byte)
    requires b != 0x24 && Has(s, i, [b])
    ensures i + 1 <= |s| && Parse(s, i) == Then([Byte(b)], Parse(s, i + 1))
  {
    hide DecimalOf, Has, RunEnd, Then;
    HasAt(s, i, [b], 0);
  }

  /** The first part of a text at i is read as its token, and the rest after it. */
  lemma PartRead(s: seq<byte>, i: nat, x: Part)
    requires PartOk(x) && Has(s, i, Spelled(x))
    requires x.Bare? && i + |Spelled(x)| < |s| ==> !Digit(s[i + |Spelled(x)|])
    ensures i <= |s| && i + |Spelled(x)| <= |s|
    ensures Parse(s, i) == Then([TokenOf(x)], Parse(s, i + |Spelled(x)|))
  {
    hide DecimalOf, Has, Parse, Then;
    match x
    case Char(b) => CharRead(s, i, b);
    case Doubled => DoubledRead(s, i);
    case Bare(d) => BareRead(s, i, d);
    case Braced(d) => BracedRead(s, i, d);
  }

  lemma DigitsThere(s: seq<byte>, i: nat, d: seq<byte>)
    requires Has(s, i, d) && Digits(d)
    ensures i + |d| <= |s| && s[i..i + |d|] == d && forall k :: i <= k < i + |d| ==> Digit(s[k])
  {
    forall k | i <= k < i + |d| ensures Digit(s[k]) {
      HasAt(s, i, d, k - i);
    }
  }

  lemma {:induction false} PartsRead(s: seq<byte>, i: nat, ps: seq<Part>)
    requires i <= |s| && PartsOk(ps) && s[i..] == Spell(ps)
    ensures Parse(s, i) == Some(TokensOf(ps))
    decreases |ps|
  {
    hide Parse, PartOk, TokenOf;
    if ps == [] {
      NothingLeft(s, i);
    } else {
      var t, rest := Spelled(ps[0]), Spell(ps[1..]);
      SplitAt(s, i, t, rest);
      if rest != [] {
        NextPart(ps);
      }
      hide Spelled, Spell, Digit;
      PartRead(s, i, ps[0]);
      PartsRead(s, i + |t|, ps[1..]);
    }
  }

  lemma SplitAt(s: seq<byte>, i: nat, t: seq<byte>, rest: seq<byte>)
    requires i <= |s| && s[i..] == t + rest
    ensures Has(s, i, t) && i + |t| <= |s| && s[i + |t|..] == rest && (rest != [] ==> s[i + |t|] == rest[0])
    ensures rest == [] <==> i + |t| == |s|
  {
    assert s[i..][..|t|] == t && s[i..][|t|..] == rest;
    assert s[i..i + |t|] == t && s[i + |t|..] == rest;
  }

  lemma NothingLeft(s: seq<byte>, i: nat)
    requires i <= |s| && s[i..] == []
    ensures Parse(s, i) == Some([])
  {
  }

  lemma NextPart(ps: seq<Part>)
    requires PartsOk(ps) && ps != [] && Spell(ps[1..]) != []
    ensures ps[0].Bare? ==> !Digit(Spell(ps[1..])[0])
  {
    var x := ps[1];
    assert Spell(ps[1..]) == Spelled(x) + Spell(ps[1..][1..]);
  }

  lemma {:induction false} PartsOf(s: seq<byte>, i: nat) returns (ps: seq<Part>)
    requires i <= |s| && Parse(s, i).Some?
    ensures PartsOk(ps) && s[i..] == Spell(ps)
    decreases |s| - i
  {
    if i == |s| {
      ps := [];
    } else {
      var x, j := FirstPart(s, i);
      ps := PartsOf(s, j);
      JoinParts(s, i, j, x, ps);
      ps := [x] + ps;
    }
  }

  lemma FirstPart(s: seq<byte>, i: nat) returns (x: Part, j: nat)
    requires i < |s| && Parse(s, i).Some?
    ensures i < j <= |s| && PartOk(x) && s[i..j] == Spelled(x) && Parse(s, j).Some?
    ensures x.Bare? && j < |s| ==> !Digit(s[j])
  {
    hide DecimalOf;
    if s[i] != 0x24 {
      x, j := Char(s[i]), i + 1;
    } else if s[i + 1] == 0x24 {
      x, j := Doubled, i + 2;
      assert s[i..j] == [s[i], s[i + 1]];
    } else if Digit(s[i + 1]) {
      x, j := FirstBare(s, i);
    } else {
      x, j := FirstBraced(s, i);
    }
  }

  lemma FirstBare(s: seq<byte>, i: nat) returns (x: Part, j: nat)
    requires i + 1 < |s| && s[i] == 0x24 && Digit(s[i + 1]) && Parse(s, i).Some?
    ensures i < j <= |s| && PartOk(x) && s[i..j] == Spelled(x) && Parse(s, j).Some?
    ensures j < |s| ==> !Digit(s[j])
  {
    hide DecimalOf;
    j := RunEnd(s, i + 1);
    x := Bare(s[i + 1..j]);
    assert j > i + 1;
    assert s[i..j] == [s[i]] + s[i + 1..j];
    hide RunEnd;
  }

  lemma FirstBraced(s: seq<byte>, i: nat) returns (x: Part, j: nat)
    requires i + 1 < |s| && s[i] == 0x24 && s[i + 1] != 0x24 && !Digit(s[i + 1]) && Parse(s, i).Some?
    ensures i < j <= |s| && x.Braced? && PartOk(x) && s[i..j] == Spelled(x) && Parse(s, j).Some?
  {
    hide DecimalOf;
    var k := RunEnd(s, i + 2);
    j := k + 1;
    x := Braced(s[i + 2..k]);
    assert s[i..j] == [s[i], s[i + 1]] + s[i + 2..k] + [s[k]];
    hide RunEnd;
  }

  lemma JoinParts(s: seq<byte>, i: nat, j: nat, x: Part, ps: seq<Part>)
    requires i <= j <= |s| && PartOk(x) && s[i..j] == Spelled(x) && PartsOk(ps) && s[j..] == Spell(ps)
    requires x.Bare? && j < |s| ==> !Digit(s[j])
    ensures PartsOk([x] + ps) && s[i..] == Spell([x] + ps)
  {
    hide PartOk;
    assert ([x] + ps)[1..] == ps;
    assert s[i..] == s[i..j] + s[j..];
    if ps != [] && ps[0].Char? {
      assert s[j..][0] == ps[0].b;
    }
  }

  /** The texts that are templates, and their tokens. */
  lemma ParseExactly(s: seq<byte>, t: seq<Token>)
    ensures Parse(s, 0) == Some(t) <==> exists ps :: PartsOk(ps) && Spell(ps) == s && TokensOf(ps) == t
  {
    hide Parse, PartsOk, Spell;
    assert s[0..] == s;
    forall ps | PartsOk(ps) && Spell(ps) == s ensures Parse(s, 0) == Some(TokensOf(ps)) {
      PartsRead(s, 0, ps);
    }
    if Parse(s, 0).Some? {
      var ps := PartsOf(s, 0);
    }
  }

  // ---- what a template is replaced by ----

  lemma {:induction false} TokensReplaced(ps: seq<Part>, m: Match)
    requires PartsOk(ps) && MatchOk(m)
    ensures Expand(KeptAll(TokensOf(ps)), m) == ReplacedAll(ps, m)
  {
    if ps != [] {
      var t := TokensOf(ps);
      TokensReplaced(ps[1..], m);
      assert t[1..] == TokensOf(ps[1..]) && KeptAll(t)[1..] == KeptAll(t[1..]);
      PartReplaced(ps[0], m);
      hide Piece, Kept, PartOk, MatchOk, Replaced, TokenOf;
    }
  }

  lemma PartReplaced(x: Part, m: Match)
    requires PartOk(x) && MatchOk(m)
    ensures Piece(Kept(TokenOf(x)), m) == Replaced(x, m)
  {
    hide DecimalOf;
    if x.Bare? || x.Braced? {
      var n := NumberOf(x) % 0x8000_0000_0000_0000;
      assert n < m.count ==> GroupOk(m, n);
    }
  }

  /** Part by part, what the engine puts out for a template is what is said above. */
  lemma TemplateReplaced(ps: seq<Part>, m: Match)
    requires PartsOk(ps) && MatchOk(m)
    ensures Parse(Spell(ps), 0).Some?
    ensures Expand(KeptAll(Parse(Spell(ps), 0).value), m) == ReplacedAll(ps, m)
  {
    hide Parse, PartsOk, Spell, Expand, ReplacedAll, MatchOk;
    assert Spell(ps)[0..] == Spell(ps);
    PartsRead(Spell(ps), 0, ps);
    TokensReplaced(ps, m);
  }

  // ---- text around one reference ----

  function Chars(a: seq<byte>): (ps: seq<Part>)
    ensures |ps| == |a| && forall i :: 0 <= i < |a| ==> ps[i] == Char(a[i])
  {
    seq(|a|, i requires 0 <= i < |a| => Char(a[i]))
  }

  lemma {:induction false} CharsThen(a: seq<byte>, ps: seq<Part>, m: Match)
    requires 0x24 !in a && PartsOk(ps) && MatchOk(m)
    ensures PartsOk(Chars(a) + ps) && Spell(Chars(a) + ps) == a + Spell(ps)
    ensures ReplacedAll(Chars(a) + ps, m) == a + ReplacedAll(ps, m)
  {
    hide MatchOk, PartsOk, Spell, ReplacedAll;
    if a == [] {
      assert Chars(a) + ps == ps;
    } else {
      assert a[0] in a;
      CharsThen(a[1..], ps, m);
      var rest := Chars(a[1..]) + ps;
      assert Chars(a) + ps == [Char(a[0])] + rest;
      CharFirst(a[0], rest, m);
      assert a == [a[0]] + a[1..];
      Joined([a[0]], a[1..], Spell(ps));
      Joined([a[0]], a[1..], ReplacedAll(ps, m));
    }
  }

  lemma CharFirst(b: byte, ps: seq<Part>, m: Match)
    requires b != 0x24 && PartsOk(ps) && MatchOk(m)
    ensures PartsOk([Char(b)] + ps) && Spell([Char(b)] + ps) == [b] + Spell(ps)
    ensures ReplacedAll([Char(b)] + ps, m) == [b] + ReplacedAll(ps, m)
  {
    assert ([Char(b)] + ps)[1..] == ps;
    hide MatchOk;
  }

  /** What a text is expanded to for a match, if it is a template. */
  predicate Expands(s: seq<byte>, m: Match, out: seq<byte>)
    requires MatchOk(m)
  {
    Parse(s, 0).Some? && Expand(KeptAll(Parse(s, 0).value), m) == out
  }

  lemma OnePart(a: seq<byte>, x: Part, b: seq<byte>, m: Match)
    requires 0x24 !in a && 0x24 !in b && PartOk(x) && MatchOk(m)
    requires x.Bare? && b != [] ==> !(0x30 <= b[0] <= 0x39)
    ensures Expands(a + Spelled(x) + b, m, a + Replaced(x, m) + b)
  {
    hide Parse, MatchOk, Spelled, Replaced, Expand, KeptAll;
    var end := Chars(b);
    assert Chars(b) + [] == end;
    CharsThen(b, [], m);
    var mid := [x] + end;
    assert mid[1..] == end;
    CharsThen(a, mid, m);
    TemplateReplaced(Chars(a) + mid, m);
    assert b + [] == b;
    Joined(a, Spelled(x), b);
    Joined(a, Replaced(x, m), b);
  }

  /** The two ways to write a reference to n, and what stands for it. */
  lemma NumberParts(n: nat, m: Match)
    requires MatchOk(m) && n < 0x8000_0000_0000_0000
    ensures forall x :: x == Bare(Num(n)) || x == Braced(Num(n)) ==>
      PartOk(x) && Replaced(x, m) == if Set(m, n) then m.subject[m.offsets[2 * n]..m.offsets[2 * n + 1]] else []
  {
    hide Num, DecimalOf;
    NumBack(n);
    SetExactly(m, n);
  }

  /** A group that the match has set. */
  predicate Set(m: Match, n: nat)
    requires MatchOk(m)
  {
    n < m.count && 0 <= m.offsets[2 * n] <= m.offsets[2 * n + 1] <= |m.subject|
  }

  lemma SetExactly(m: Match, n: nat)
    requires MatchOk(m)
    ensures Set(m, n) <==> n < m.count && m.offsets[2 * n] >= 0
  {
    assert n < m.count ==> GroupOk(m, n);
  }

  /** `$n` gives the bytes of group n, and `${n}` does whatever follows. */
  lemma ReferenceExpands(a: seq<byte>, n: nat, b: seq<byte>, m: Match)
    requires 0x24 !in a && 0x24 !in b && MatchOk(m) && Set(m, n)
    ensures var got := a + m.subject[m.offsets[2 * n]..m.offsets[2 * n + 1]] + b;
            && (b == [] || !(0x30 <= b[0] <= 0x39) ==> Expands(a + ([0x24] + Num(n)) + b, m, got))
            && Expands(a + ([0x24, 0x7b] + Num(n) + [0x7d]) + b, m, got)
  {
    hide Expands, Num, PartOk, Replaced;
    NumberParts(n, m);
    if b == [] || !(0x30 <= b[0] <= 0x39) {
      OnePart(a, Bare(Num(n)), b, m);
    }
    OnePart(a, Braced(Num(n)), b, m);
  }

  /** A group that is not set, or that the match does not have, gives nothing. */
  lemma UnsetExpands(a: seq<byte>, n: nat, b: seq<byte>, m: Match)
    requires 0x24 !in a && 0x24 !in b && MatchOk(m) && !Set(m, n) && n < 0x8000_0000_0000_0000
    ensures b == [] || !(0x30 <= b[0] <= 0x39) ==> Expands(a + ([0x24] + Num(n)) + b, m, a + b)
    ensures Expands(a + ([0x24, 0x7b] + Num(n) + [0x7d]) + b, m, a + b)
  {
    hide Expands, Num, PartOk, Replaced;
    NumberParts(n, m);
    assert a + [] + b == a + b;
    if b == [] || !(0x30 <= b[0] <= 0x39) {
      OnePart(a, Bare(Num(n)), b, m);
    }
    OnePart(a, Braced(Num(n)), b, m);
  }

  /** `$$` gives a dollar sign. */
  lemma DollarExpands(a: seq<byte>, b: seq<byte>, m: Match)
    requires 0x24 !in a && 0x24 !in b && MatchOk(m)
    ensures Expands(a + [0x24, 0x24] + b, m, a + [0x24] + b)
  {
    hide Expands, MatchOk;
    OnePart(a, Doubled, b, m);
  }

  /** A dollar sign that is followed by nothing, or by none of these, is no template. */
  lemma NoTemplate(a: seq<byte>, b: seq<byte>)
    requires 0x24 !in a
    requires b == [] || !(b[0] == 0x24 || b[0] == 0x7b || 0x30 <= b[0] <= 0x39)
    ensures Parse(a + [0x24] + b, 0).None?
  {
    var s := a + [0x24] + b;
    StuckAt(s, 0, |a|);
  }

  lemma {:induction false} StuckAt(s: seq<byte>, i: nat, k: nat)
    requires i <= k < |s| && 0x24 !in s[i..k] && s[k] == 0x24
    requires k + 1 == |s| || !(s[k + 1] == 0x24 || s[k + 1] == 0x7b || 0x30 <= s[k + 1] <= 0x39)
    ensures Parse(s, i).None?
    decreases k - i
  {
    if i < k {
      assert s[i] in s[i..k];
      assert s[i..k][1..] == s[i + 1..k];
      StuckAt(s, i + 1, k);
    }
  }
}
