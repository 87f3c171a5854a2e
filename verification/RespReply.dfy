/**
 Replies byte for byte (the Redis protocol specification, and what the parser takes beyond it): which bytes are a reply,
 what it means, and that queries are written so as well.
 */
module RespReply {
  import opened Ascii
  import opened Basics
  import opened Resp
  import Q = RespQuery

  /** A line with its type byte; a bulk string and the digits of its length; or nil with the digits after the minus sign. */
  datatype Elem = Text(kind: byte, line: seq<byte>) | Data(digits: seq<byte>, bytes: seq<byte>) | Nil(digits: seq<byte>)

  /** One element; a list and the digits of its length; or the nil list, of which the parser skips most. */
  datatype Message =
    | One(elem: Elem)
    | Many(digits: seq<byte>, elems: seq<Elem>)
    | NilMany(digits: seq<byte>, digit: byte, junk: seq<byte>)

  function ElemBytes(e: Elem): (s: seq<byte>)
    ensures |s| >= 3
  {
    match e
    case Text(kind, line) => [kind] + line + [13, 10]
    case Data(digits, b) => [0x24] + digits + [13, 10] + b + [13, 10]
    case Nil(digits) => [0x24] + ([0x2d] + digits) + [13, 10]
  }

  function ElemsBytes(es: seq<Elem>): seq<byte>
  {
    if es == [] then [] else ElemBytes(es[0]) + ElemsBytes(es[1..])
  }

  function MessageBytes(m: Message): seq<byte>
  {
    match m
    case One(e) => ElemBytes(e)
    case Many(digits, es) => [0x2a] + digits + [13, 10] + ElemsBytes(es)
    case NilMany(digits, d, junk) => [0x2a] + digits + ([0x2d, d] + junk) + [13, 10]
  }

  /** No carriage return with a line feed behind it. */
  predicate OneLine(line: seq<byte>)
  {
    forall k :: 0 <= k < |line| - 1 ==> !(line[k] == 13 && line[k + 1] == 10)
  }

  /** A line is a status, an error or an integer; lengths are right. */
  predicate ElemOk(e: Elem)
  {
    match e
    case Text(kind, line) => (kind == 0x2b || kind == 0x2d || kind == 0x3a) && OneLine(line)
    case Data(digits, b) => Digits(digits) && DecimalOf(digits) == |b|
    case Nil(digits) => Digits(digits)
  }

  predicate MessageOk(m: Message)
  {
    match m
    case One(e) => ElemOk(e)
    case Many(digits, es) => Digits(digits) && DecimalOf(digits) == |es| && forall i :: 0 <= i < |es| ==> ElemOk(es[i])
    case NilMany(digits, d, junk) => Digits(digits) && 0x30 <= d <= 0x39 && 13 !in junk
  }

  function ElemValue(e: Elem): Option<seq<byte>>
  {
    match e case Text(_, line) => Some(line) case Data(_, b) => Some(b) case Nil(_) => None
  }

  function ElemValues(es: seq<Elem>): (vs: seq<Option<seq<byte>>>)
    ensures |vs| == |es|
  {
    if es == [] then [] else [ElemValue(es[0])] + ElemValues(es[1..])
  }

  function Meaning(m: Message): (r: Reply)
    requires MessageOk(m)
    ensures r != Bad
  {
    match m
    case One(Text(kind, line)) =>
      if kind == 0x2b then Status(line) else if kind == 0x2d then Failure(line) else Integer(line)
    case One(e) => Bulk(ElemValue(e))
    case Many(_, es) => MultiBulk(Some(ElemValues(es)))
    case NilMany(_, _, _) => MultiBulk(None)
  }

  // ---- what is written is read ----

  lemma CrlfHere(s: seq<byte>, i: nat)
    ensures Has(s, i, [13, 10]) <==> Crlf(s, i)
    ensures Crlf(s, i) ==> i + 2 <= |s| && s[i..i + 2] == [13, 10]
  {
    if i + 2 <= |s| {
      assert s[i..i + 2] == [s[i], s[i + 1]];
    }
  }

  lemma SliceHas(s: seq<byte>, i: nat, t: seq<byte>)
    requires Has(s, i, t)
    ensures i + |t| <= |s| && s[i..i + |t|] == t
  {
  }

  /** Digits up to the end of a line. */
  lemma DigitsRead(s: seq<byte>, i: nat, d: seq<byte>)
    requires Has(s, i, d) && Has(s, i + |d|, [13, 10]) && Digits(d)
    ensures var j := i + |d|; j + 2 <= |s| && RunEnd(s, i) == j && Crlf(s, j) && s[i..j] == d
  {
    hide Has, Crlf;
    var j := i + |d|;
    CrlfHere(s, j);
    SliceHas(s, i, d);
    HasAt(s, j, [13, 10], 0);
    forall k | i <= k < j ensures Digit(s[k]) {
      HasAt(s, i, d, k - i);
    }
    RunEndIs(s, i, j);
  }

  lemma TextLine(s: seq<byte>, i: nat, kind: byte, line: seq<byte>)
    requires Has(s, i, [kind] + line + [13, 10]) && OneLine(line)
    ensures i < |s| && s[i] == kind && FindCrlf(s, i + 1) == Some(i + 1 + |line|)
    ensures s[i + 1..i + 1 + |line|] == line
  {
    hide Has;
    HasParts(s, i, [kind] + line, [13, 10]);
    HasParts(s, i, [kind], line);
    HasAt(s, i, [kind], 0);
    var j := i + 1 + |line|;
    CrlfHere(s, j);
    SliceHas(s, i + 1, line);
    forall k | i + 1 <= k < j ensures !Crlf(s, k) {
      HasAt(s, i + 1, line, k - (i + 1));
      if k + 1 < j {
        HasAt(s, i + 1, line, k + 1 - (i + 1));
      }
    }
    FindCrlfIs(s, i + 1, j);
  }

  /** A bulk string whose digits end at j. */
  lemma BulkFrom(s: seq<byte>, i: nat, j: nat, size: nat)
    requires i < |s| && s[i] != 0x2d && RunEnd(s, i) == j && Crlf(s, j) && Crlf(s, j + 2 + size)
    requires Digits(s[i..j]) && DecimalOf(s[i..j]) == size
    ensures j + 2 + size <= |s| && BulkAt(s, i) == Some(Item(Some(s[j + 2..j + 2 + size]), j + 2 + size + 2))
  {
    hide RunEnd, DecimalOf, Digits, Crlf, Digit;
    CrlfHere(s, j + 2 + size);
  }

  lemma DataRead(s: seq<byte>, i: nat, digits: seq<byte>, b: seq<byte>)
    requires Digits(digits) && DecimalOf(digits) == |b|
    requires Has(s, i, [0x24] + digits + [13, 10] + b + [13, 10])
    ensures i < |s| && s[i] == 0x24
    ensures BulkAt(s, i + 1) == Some(Item(Some(b), i + 1 + |digits| + 2 + |b| + 2))
  {
    hide Has, DecimalOf, Crlf, BulkAt, RunEnd, Digits;
    var h := [0x24] + digits + [13, 10];
    HasParts(s, i, h + b, [13, 10]);
    HasParts(s, i, h, b);
    HasParts(s, i, [0x24] + digits, [13, 10]);
    HasParts(s, i, [0x24], digits);
    HasAt(s, i, [0x24], 0);
    DigitsRead(s, i + 1, digits);
    CrlfHere(s, i + |h| + |b|);
    SliceHas(s, i + |h|, b);
    NoMinus(s, i + 1, digits);
    BulkFrom(s, i + 1, i + 1 + |digits|, |b|);
  }

  lemma NoMinus(s: seq<byte>, i: nat, digits: seq<byte>)
    requires Digits(digits) && Has(s, i, digits) && Crlf(s, i + |digits|)
    ensures i < |s| && s[i] != 0x2d
  {
    if digits != [] {
      HasAt(s, i, digits, 0);
    }
  }

  lemma NilRead(s: seq<byte>, i: nat, digits: seq<byte>)
    requires Digits(digits) && Has(s, i, [0x24] + ([0x2d] + digits) + [13, 10])
    ensures i < |s| && s[i] == 0x24 && BulkAt(s, i + 1) == Some(Item(None, i + 2 + |digits| + 2))
  {
    hide Has, DecimalOf;
    HasParts(s, i, [0x24] + ([0x2d] + digits), [13, 10]);
    HasParts(s, i, [0x24], [0x2d] + digits);
    HasParts(s, i + 1, [0x2d], digits);
    HasAt(s, i, [0x24], 0);
    HasAt(s, i + 1, [0x2d], 0);
    DigitsRead(s, i + 2, digits);
  }

  lemma ElemRead(s: seq<byte>, i: nat, e: Elem)
    requires ElemOk(e) && Has(s, i, ElemBytes(e))
    ensures ItemAt(s, i) == Some(Item(ElemValue(e), i + |ElemBytes(e)|))
  {
    hide Has, BulkAt, FindCrlf, DecimalOf, OneLine;
    match e
    case Text(kind, line) => TextLine(s, i, kind, line);
    case Data(digits, b) => DataRead(s, i, digits, b);
    case Nil(digits) => NilRead(s, i, digits);
  }

  lemma {:induction false} ElemsRead(s: seq<byte>, i: nat, es: seq<Elem>)
    requires (forall k :: 0 <= k < |es| ==> ElemOk(es[k])) && Has(s, i, ElemsBytes(es))
    ensures ItemsAt(s, i, |es|) == Some(Items(ElemValues(es), i + |ElemsBytes(es)|))
    decreases |es|
  {
    hide Has, ElemBytes, ItemAt, ElemOk, ElemValue;
    if es != [] {
      HasParts(s, i, ElemBytes(es[0]), ElemsBytes(es[1..]));
      ElemRead(s, i, es[0]);
      ElemsRead(s, i + |ElemBytes(es[0])|, es[1..]);
    }
  }

  lemma OneRead(s: seq<byte>, e: Elem)
    requires ElemOk(e) && Has(s, 0, ElemBytes(e))
    ensures ParseReply(s) == (Meaning(One(e)), |ElemBytes(e)|)
  {
    hide Has, BulkAt, FindCrlf, DecimalOf, OneLine;
    match e
    case Text(kind, line) => TextLine(s, 0, kind, line);
    case Data(digits, b) => DataRead(s, 0, digits, b);
    case Nil(digits) => NilRead(s, 0, digits);
  }

  lemma CountRead(s: seq<byte>, digits: seq<byte>)
    requires Digits(digits) && Has(s, 0, [0x2a] + digits + [13, 10])
    ensures s != [] && s[0] == 0x2a && CountAt(s, 1) == Some(Count(DecimalOf(digits), 1 + |digits| + 2))
  {
    hide Has, DecimalOf, FirstCr;
    HasParts(s, 0, [0x2a] + digits, [13, 10]);
    HasParts(s, 0, [0x2a], digits);
    HasAt(s, 0, [0x2a], 0);
    DigitsRead(s, 1, digits);
  }

  lemma ManyRead(s: seq<byte>, digits: seq<byte>, es: seq<Elem>)
    requires MessageOk(Many(digits, es)) && Has(s, 0, MessageBytes(Many(digits, es)))
    ensures ParseReply(s) == (Meaning(Many(digits, es)), |MessageBytes(Many(digits, es))|)
  {
    hide Has, ItemsAt, CountAt, DecimalOf, ElemsBytes, ElemValues, ElemOk, Digits;
    var h := [0x2a] + digits + [13, 10];
    HasParts(s, 0, h, ElemsBytes(es));
    CountRead(s, digits);
    ElemsRead(s, |h|, es);
  }

  lemma NilManyRead(s: seq<byte>, digits: seq<byte>, d: byte, junk: seq<byte>)
    requires MessageOk(NilMany(digits, d, junk)) && Has(s, 0, MessageBytes(NilMany(digits, d, junk)))
    ensures ParseReply(s) == (MultiBulk(None), |MessageBytes(NilMany(digits, d, junk))|)
  {
    hide Has, DecimalOf, Crlf, CountAt, ItemsAt, Digits;
    HasParts(s, 0, [0x2a] + digits + ([0x2d, d] + junk), [13, 10]);
    HasParts(s, 0, [0x2a] + digits, [0x2d, d] + junk);
    HasParts(s, 0, [0x2a], digits);
    var j := 1 + |digits|;
    HasParts(s, j, [0x2d, d], junk);
    HasAt(s, 0, [0x2a], 0);
    HasAt(s, j, [0x2d, d], 0);
    HasAt(s, j, [0x2d, d], 1);
    NilCountRead(s, digits, d, junk);
  }

  lemma NilCountRead(s: seq<byte>, digits: seq<byte>, d: byte, junk: seq<byte>)
    requires Digits(digits) && 0x30 <= d <= 0x39 && 13 !in junk
    requires Has(s, 1, digits) && Has(s, 1 + |digits|, [0x2d, d]) && Has(s, 3 + |digits|, junk)
    requires Has(s, 3 + |digits| + |junk|, [13, 10])
    ensures CountAt(s, 1) == Some(Count(-1, 3 + |digits| + |junk| + 2))
  {
    hide Has, DecimalOf;
    var j := 1 + |digits|;
    HasAt(s, j, [0x2d, d], 0);
    HasAt(s, j, [0x2d, d], 1);
    forall k | 1 <= k < j ensures Digit(s[k]) {
      HasAt(s, 1, digits, k - 1);
    }
    RunEndIs(s, 1, j);
    var k := j + 2 + |junk|;
    CrlfHere(s, k);
    forall l | j + 2 <= l < k ensures s[l] != 13 {
      HasAt(s, j + 2, junk, l - (j + 2));
    }
    FirstCrIs(s, j + 1, k);
    hide RunEnd, FirstCr;
  }

  /** Every reply is read as what it means, and takes exactly its bytes, whatever follows. */
  lemma MessageRead(s: seq<byte>, m: Message)
    requires MessageOk(m) && Has(s, 0, MessageBytes(m))
    ensures ParseReply(s) == (Meaning(m), |MessageBytes(m)|)
  {
    hide ParseReply, Has, ElemBytes, ElemsBytes, ElemOk;
    match m
    case One(e) => OneRead(s, e);
    case Many(digits, es) => ManyRead(s, digits, es);
    case NilMany(digits, d, junk) => NilManyRead(s, digits, d, junk);
  }

  // ---- what is read was written so ----

  lemma Cut(s: seq<byte>, a: nat, b: nat, c: nat)
    requires a <= b <= c <= |s|
    ensures s[a..c] == s[a..b] + s[b..c]
  {
  }

  lemma Single(s: seq<byte>, a: nat)
    requires a < |s|
    ensures s[a..a + 1] == [s[a]]
  {
  }

  lemma LineOf(s: seq<byte>, i: nat, k: nat)
    requires i < |s| && FindCrlf(s, i + 1) == Some(k)
    ensures i < k && k + 2 <= |s|
    ensures s[i..k + 2] == [s[i]] + s[i + 1..k] + [13, 10] && OneLine(s[i + 1..k])
  {
    hide FindCrlf, OneLine, Crlf;
    LineOnly(s, i + 1, k);
    LineJoins(s, i, k);
  }

  lemma LineJoins(s: seq<byte>, i: nat, k: nat)
    requires i + 1 <= k && k + 2 <= |s| && s[k..k + 2] == [13, 10]
    ensures s[i..k + 2] == [s[i]] + s[i + 1..k] + [13, 10]
  {
    Cut(s, i, k, k + 2);
    Cut(s, i, i + 1, k);
    Single(s, i);
  }

  lemma LineOnly(s: seq<byte>, i: nat, k: nat)
    requires FindCrlf(s, i) == Some(k)
    ensures i <= k && k + 2 <= |s| && s[k..k + 2] == [13, 10] && OneLine(s[i..k])
  {
    CrlfHere(s, k);
    var line := s[i..k];
    forall l | 0 <= l < |line| - 1 ensures !(line[l] == 13 && line[l + 1] == 10) {
      assert !Crlf(s, i + l);
      assert line[l] == s[i + l] && line[l + 1] == s[i + l + 1];
    }
  }

  /** Where the parts of an accepted bulk string are, its digits ending at j. */
  lemma BulkParts(s: seq<byte>, i: nat) returns (j: nat)
    requires BulkAt(s, i).Some?
    ensures var x := BulkAt(s, i).value;
            var n := x.next - 2;
            && i < |s| && i <= j && n + 2 <= |s| && s[n..n + 2] == [13, 10]
            && if s[i] == 0x2d then i < j && n == j && x.value == None && Digits(s[i + 1..j])
               else
                 && j + 2 <= n && s[j..j + 2] == [13, 10] && Digits(s[i..j])
                 && DecimalOf(s[i..j]) == n - (j + 2) && x.value == Some(s[j + 2..n])
  {
    hide DecimalOf;
    j := RunEnd(s, if s[i] == 0x2d then i + 1 else i);
    CrlfHere(s, j);
    CrlfHere(s, BulkAt(s, i).value.next - 2);
  }

  lemma BulkOf(s: seq<byte>, i: nat) returns (e: Elem)
    requires i < |s| && s[i] == 0x24 && BulkAt(s, i + 1).Some?
    ensures ElemOk(e) && !e.Text? && ElemBytes(e) == s[i..BulkAt(s, i + 1).value.next]
    ensures ElemValue(e) == BulkAt(s, i + 1).value.value
  {
    hide DecimalOf, BulkAt, Digits;
    var j := BulkParts(s, i + 1);
    var n := BulkAt(s, i + 1).value.next - 2;
    if s[i + 1] == 0x2d {
      e := Nil(s[i + 2..n]);
      NilJoins(s, i, n);
    } else {
      e := Data(s[i + 1..j], s[j + 2..n]);
      DataJoins(s, i, j, n);
    }
  }

  lemma NilJoins(s: seq<byte>, i: nat, n: nat)
    requires i + 2 <= n && n + 2 <= |s| && s[n..n + 2] == [13, 10]
    ensures s[i..n + 2] == [s[i]] + ([s[i + 1]] + s[i + 2..n]) + [13, 10]
  {
    Single(s, i);
    Single(s, i + 1);
    Cut(s, i, n, n + 2);
    Cut(s, i, i + 1, n);
    Cut(s, i + 1, i + 2, n);
  }

  lemma DataJoins(s: seq<byte>, i: nat, j: nat, n: nat)
    requires i + 1 <= j && j + 2 <= n && n + 2 <= |s| && s[j..j + 2] == [13, 10] && s[n..n + 2] == [13, 10]
    ensures s[i..n + 2] == [s[i]] + s[i + 1..j] + [13, 10] + s[j + 2..n] + [13, 10]
  {
    Single(s, i);
    Cut(s, i, n, n + 2);
    Cut(s, i, j + 2, n);
    Cut(s, i, j, j + 2);
    Cut(s, i, i + 1, j);
  }

  lemma ElemOf(s: seq<byte>, i: nat) returns (e: Elem)
    requires ItemAt(s, i).Some?
    ensures ElemOk(e) && ElemBytes(e) == s[i..ItemAt(s, i).value.next] && ElemValue(e) == ItemAt(s, i).value.value
  {
    hide BulkAt, FindCrlf;
    if s[i] == 0x24 {
      e := BulkOf(s, i);
    } else {
      var k := FindCrlf(s, i + 1).value;
      e := Text(s[i], s[i + 1..k]);
      LineOf(s, i, k);
    }
  }

  lemma {:induction false} ElemsOf(s: seq<byte>, i: nat, n: nat) returns (es: seq<Elem>)
    requires i <= |s| && ItemsAt(s, i, n).Some?
    ensures |es| == n && (forall k :: 0 <= k < n ==> ElemOk(es[k]))
    ensures ElemsBytes(es) == s[i..ItemsAt(s, i, n).value.next] && ElemValues(es) == ItemsAt(s, i, n).value.values
    decreases n
  {
    hide ItemAt, ElemOk, ElemBytes, ElemValue;
    if n == 0 {
      es := [];
    } else {
      var e := ElemOf(s, i);
      var x := ItemAt(s, i).value;
      var rest := ElemsOf(s, x.next, n - 1);
      es := [e] + rest;
      assert es[1..] == rest;
      var end := ItemsAt(s, i, n).value.next;
      assert s[i..end] == s[i..x.next] + s[x.next..end];
    }
  }

  lemma CountOf(s: seq<byte>, next: nat)
    requires 1 < |s| && s[0] == 0x2a && CountAt(s, 1).Some? && CountAt(s, 1).value.n >= 0
    requires next == CountAt(s, 1).value.next
    ensures var digits := s[1..next - 2];
            Digits(digits) && DecimalOf(digits) == CountAt(s, 1).value.n && s[..next] == [0x2a] + digits + [13, 10]
  {
    hide DecimalOf;
    var j := RunEnd(s, 1);
    assert next == j + 2;
    assert s[j..next] == [13, 10];
    assert s[..next] == [s[0]] + s[1..j] + s[j..next];
  }

  lemma NilCountParts(s: seq<byte>) returns (j: nat, k: nat)
    requires 1 < |s| && CountAt(s, 1).Some? && CountAt(s, 1).value.n < 0
    ensures 1 <= j && j + 2 <= k && k + 2 <= |s| && s[k..k + 2] == [13, 10] && CountAt(s, 1).value.next == k + 2
    ensures Digits(s[1..j]) && s[j] == 0x2d && 0x30 <= s[j + 1] <= 0x39 && 13 !in s[j + 2..k]
  {
    hide DecimalOf;
    j := RunEnd(s, 1);
    k := FirstCr(s, j + 1);
    CrlfHere(s, k);
  }

  lemma NilCountOf(s: seq<byte>) returns (m: Message)
    requires 1 < |s| && s[0] == 0x2a && CountAt(s, 1).Some? && CountAt(s, 1).value.n < 0
    ensures MessageOk(m) && m.NilMany? && MessageBytes(m) == s[..CountAt(s, 1).value.next]
  {
    hide DecimalOf, CountAt, Digits;
    var j, k := NilCountParts(s);
    m := NilMany(s[1..j], s[j + 1], s[j + 2..k]);
    Cut(s, 0, k, k + 2);
    Cut(s, 0, j, k);
    Cut(s, 0, 1, j);
    Cut(s, j, j + 2, k);
    assert s[j..j + 2] == [s[j], s[j + 1]];
  }

  lemma ManyOf(s: seq<byte>) returns (m: Message)
    requires 1 < |s| && s[0] == 0x2a && ParseReply(s).0 != Bad
    ensures MessageOk(m) && MessageBytes(m) == s[..ParseReply(s).1] && Meaning(m) == ParseReply(s).0
  {
    hide CountAt, ItemsAt, DecimalOf;
    var c := CountAt(s, 1).value;
    if c.n < 0 {
      m := NilCountOf(s);
    } else {
      CountOf(s, c.next);
      var es := ElemsOf(s, c.next, c.n);
      m := Many(s[1..c.next - 2], es);
      var end := ParseReply(s).1;
      assert s[..end] == s[..c.next] + s[c.next..end];
    }
  }

  lemma MessageOf(s: seq<byte>) returns (m: Message)
    requires ParseReply(s).0 != Bad
    ensures MessageOk(m) && MessageBytes(m) == s[..ParseReply(s).1] && Meaning(m) == ParseReply(s).0
  {
    hide BulkAt, FindCrlf, CountAt, ItemsAt;
    if s[0] == 0x2a {
      StarGoesOn(s);
      m := ManyOf(s);
    } else if s[0] == 0x24 {
      var e := BulkOf(s, 0);
      m := One(e);
      assert s[0..ParseReply(s).1] == s[..ParseReply(s).1];
    } else {
      var k := FindCrlf(s, 1).value;
      LineOf(s, 0, k);
      m := One(Text(s[0], s[1..k]));
      assert s[0..k + 2] == s[..k + 2];
    }
  }

  lemma StarGoesOn(s: seq<byte>)
    requires s != [] && s[0] == 0x2a && ParseReply(s).0 != Bad
    ensures 1 < |s|
  {
    hide ItemsAt;
  }

  /** The bytes that are a reply, and what it is: exactly those written above, at the front of the input. */
  lemma ReplyExactly(s: seq<byte>, r: Reply, k: nat)
    requires r != Bad
    ensures ParseReply(s) == (r, k) <==> exists m :: MessageOk(m) && Meaning(m) == r && |MessageBytes(m)| == k && Has(s, 0, MessageBytes(m))
  {
    hide ParseReply, MessageOk, MessageBytes, Meaning;
    forall m | MessageOk(m) && Has(s, 0, MessageBytes(m)) ensures ParseReply(s) == (Meaning(m), |MessageBytes(m)|) {
      MessageRead(s, m);
    }
    if ParseReply(s) == (r, k) {
      var m := MessageOf(s);
      assert s[0..0 + k] == s[..k];
    }
  }

  // ---- several replies ----

  function Written(ms: seq<Message>): (ts: seq<seq<byte>>)
    ensures |ts| == |ms| && forall i :: 0 <= i < |ms| ==> ts[i] == MessageBytes(ms[i])
  {
    seq(|ms|, i requires 0 <= i < |ms| => MessageBytes(ms[i]))
  }

  /** Replies written one after the other are read back, whatever follows them. */
  lemma MessagesRead(ms: seq<Message>, rest: seq<byte>)
    requires forall i :: 0 <= i < |ms| ==> MessageOk(ms[i])
    ensures ParseReplies(Concat(Written(ms)) + rest, |ms|)
         == seq(|ms|, i requires 0 <= i < |ms| => Meaning(ms[i]))
  {
    hide ParseReply, MessageBytes, Meaning, MessageOk;
    var ts := Written(ms);
    forall i | 0 <= i < |ts| ensures Whole(ts[i]) && ParseReply(ts[i]).0 == Meaning(ms[i]) {
      assert ts[i][0..0 + |ts[i]|] == ts[i];
      MessageRead(ts[i], ms[i]);
    }
    RepliesSplit(ts, rest);
    assert seq(|ts|, i requires 0 <= i < |ts| => ParseReply(ts[i]).0)
        == seq(|ms|, i requires 0 <= i < |ms| => Meaning(ms[i]));
  }

  // ---- queries ----

  /** An argument as a bulk string: the bytes given, "1" or "0" for a boolean, nil for null. */
  function ArgElem(a: Q.Arg): Elem
    requires !a.Other?
  {
    match a
    case Text(b) => Data(Num(|b|), b)
    case Flag(on) => Data([0x31], [if on then 0x31 else 0x30])
    case NullArg => Nil([0x31])
  }

  function ArgElems(args: seq<Q.Arg>): (es: seq<Elem>)
    requires Q.Sendable(args)
    ensures |es| == |args| && forall i :: 0 <= i < |args| ==> es[i] == ArgElem(args[i])
  {
    seq(|args|, i requires 0 <= i < |args| => ArgElem(args[i]))
  }

  lemma ArgSpelled(a: Q.Arg)
    requires !a.Other?
    ensures Q.ArgBytes(a) == ElemBytes(ArgElem(a)) && ElemOk(ArgElem(a))
  {
    hide Num, DecimalOf;
    match a
    case Text(b) => NumBack(|b|);
    case Flag(on) => OneDigit();
    case NullArg =>
  }

  lemma OneDigit()
    ensures Digits([0x31]) && DecimalOf([0x31]) == 1
  {
    assert [0x31][..0] == [];
  }

  lemma {:induction false} BodySpelled(args: seq<Q.Arg>, k: nat)
    requires Q.Sendable(args) && k <= |args|
    ensures Q.Body(args, k) == ElemsBytes(ArgElems(args)[..k])
  {
    hide ElemBytes, ArgElem, Q.ArgBytes;
    var es := ArgElems(args);
    if k == 0 {
      assert es[..0] == [];
    } else {
      BodySpelled(args, k - 1);
      ArgSpelled(args[k - 1]);
      assert es[..k] == es[..k - 1] + [es[k - 1]];
      ElemsSnoc(es[..k - 1], es[k - 1]);
    }
  }

  lemma {:induction false} ElemsSnoc(es: seq<Elem>, e: Elem)
    ensures ElemsBytes(es + [e]) == ElemsBytes(es) + ElemBytes(e)
  {
    hide ElemBytes;
    if es == [] {
      assert es + [e] == [e] && [e][1..] == [];
      assert ElemBytes(e) + [] == ElemBytes(e) && [] + ElemBytes(e) == ElemBytes(e);
    } else {
      ElemsSnoc(es[1..], e);
      assert (es + [e])[1..] == es[1..] + [e];
      Joined(ElemBytes(es[0]), ElemsBytes(es[1..]), ElemBytes(e));
    }
  }

  lemma HeaderSpelled(n: nat)
    ensures Q.Header(n) == [0x2a] + Num(n) + [13, 10]
  {
    hide Num;
  }

  /** A query is, byte for byte, the list of its arguments as bulk strings. */
  lemma QuerySpelled(args: seq<Q.Arg>)
    requires Q.Sendable(args)
    ensures var m := Many(Num(|args|), ArgElems(args)); MessageOk(m) && Q.Query(args) == MessageBytes(m)
  {
    hide Num, DecimalOf, ElemsBytes, ElemOk, Digits, Q.Body, Q.Header, ArgElem;
    var es := ArgElems(args);
    NumBack(|args|);
    HeaderSpelled(|args|);
    forall i | 0 <= i < |es| ensures ElemOk(es[i]) {
      ArgSpelled(args[i]);
    }
    BodySpelled(args, |args|);
    assert es[..|es|] == es;
  }
}
