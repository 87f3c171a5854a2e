/** Writing queries: redis_build_query of bundle/lua-redis-parser-0.13/redis-parser.c. */
module RespQuery {
  import opened Ascii
  import opened Basics
  import opened Memory
  import opened Resp
  import opened RespWidth

  // ---- numbers ----

  method GetNumSize(i: nat) returns (n: nat)
    ensures n == |Num(i)|
  {
    var rest := i / 10;
    n := 1;
    while rest > 0
      invariant |Num(i)| == n + if rest > 0 then |Num(rest)| else 0
    {
      rest := rest / 10;
      n := n + 1;
    }
  }

  lemma NumShort(n: nat)
    requires n <= LONG_MAX
    ensures |Num(n)| <= 20
  {
    assert TenTo(3) == 1_000;
    assert TenTo(6) == 1_000_000;
    assert TenTo(9) == 1_000_000_000;
    assert TenTo(12) == 1_000_000_000_000;
    assert TenTo(15) == 1_000_000_000_000_000;
    assert TenTo(18) == 1_000_000_000_000_000_000;
    NumDigits(n, 1_000_000_000_000_000_000, 19);
  }

  lemma {:induction false} NumDigits(n: nat, p: nat, d: nat)
    requires d >= 1 && p == TenTo(d - 1) && n < 10 * p
    ensures |Num(n)| <= d
    decreases d
  {
    if n >= 10 {
      NumDigits(n / 10, p / 10, d - 1);
    }
  }

  function TenTo(n: nat): nat
  {
    if n == 0 then 1 else 10 * TenTo(n - 1)
  }

  /** Digits are made from the last to the first in a small scratch array, then copied. */
  method SprintfNum(buf: array<byte>, pos: nat, n: nat) returns (end: nat)
    requires n <= LONG_MAX && pos + |Num(n)| <= buf.Length
    modifies buf
    ensures end == pos + |Num(n)| && buf[..end] == old(buf[..pos]) + Num(n)
  {
    NumShort(n);
    var temp := new byte[21];
    var p, rest := 20, n;
    p := p - 1;
    temp[p] := 0x30 + rest % 10;
    rest := rest / 10;
    while rest > 0
      invariant 0 <= p < 20 && temp.Length == 21 && fresh(temp)
      invariant (if rest > 0 then Num(rest) else []) + temp[p..20] == Num(n)
      invariant buf[..] == old(buf[..])
    {
      ghost var before := temp[p..20];
      assert |Num(rest)| >= 1;
      p := p - 1;
      temp[p] := 0x30 + rest % 10;
      assert temp[p..20] == [temp[p]] + before;
      rest := rest / 10;
    }
    end := CopyBytes(buf, pos, temp[p..20]);
  }

  // ---- queries ----

  datatype Arg = Text(bytes: seq<byte>) | Flag(on: bool) | NullArg | Other

  /** A type byte, a number and the end of the line. */
  function Line(c: byte, n: nat): (s: seq<byte>)
    ensures |s| == 3 + |Num(n)|
  {
    [c] + Num(n) + CRLF
  }

  function ArgBytes(a: Arg): seq<byte>
  {
    match a
    case Text(b) => Line(DOLLAR, |b|) + b + CRLF
    case Flag(on) => [DOLLAR, 0x31, CR, LF, if on then 0x31 else 0x30, CR, LF]
    case NullArg => [DOLLAR, MINUS, 0x31, CR, LF]
    case Other => []
  }

  function Header(n: nat): seq<byte>
  {
    Line(STAR, n)
  }

  function Body(args: seq<Arg>, k: nat): seq<byte>
    requires k <= |args|
  {
    if k == 0 then [] else Body(args, k - 1) + ArgBytes(args[k - 1])
  }

  function Query(args: seq<Arg>): seq<byte>
  {
    Header(|args|) + Body(args, |args|)
  }

  /** What the other side gets for an argument. */
  function Sent(a: Arg): Option<seq<byte>>
  {
    match a
    case Text(b) => Some(b)
    case Flag(on) => Some([if on then 0x31 else 0x30])
    case _ => None
  }

  predicate Sendable(args: seq<Arg>)
  {
    forall i :: 0 <= i < |args| ==> !args[i].Other?
  }

  // ---- reading queries back ----

  lemma HasCrlf(s: seq<byte>, i: nat)
    requires Has(s, i, CRLF)
    ensures Crlf(s, i)
  {
    HasAt(s, i, CRLF, 0);
    HasAt(s, i, CRLF, 1);
  }

  /** A number followed by CRLF is read as that number. */
  lemma NumRead(s: seq<byte>, i: nat, n: nat)
    requires Has(s, i, Num(n)) && Has(s, i + |Num(n)|, CRLF)
    ensures var j := i + |Num(n)|;
            i < j <= |s| && RunEnd(s, i) == j && Crlf(s, j) && Digits(s[i..j]) && DecimalOf(s[i..j]) == n
            && Digit(s[i])
  {
    hide Has, Num, DecimalOf;
    NumBack(n);
    var j := i + |Num(n)|;
    HasCrlf(s, j);
    SliceIs(s, i, Num(n));
    forall k | i <= k < j ensures Digit(s[k]) {
      HasAt(s, i, Num(n), k - i);
    }
    RunEndIs(s, i, j);
  }

  lemma LineRead(s: seq<byte>, i: nat, c: byte, n: nat)
    requires Has(s, i, Line(c, n))
    ensures var j := i + 1 + |Num(n)|;
            && i < |s| && s[i] == c && i + 1 < j <= |s| && RunEnd(s, i + 1) == j && Crlf(s, j)
            && Digits(s[i + 1..j]) && DecimalOf(s[i + 1..j]) == n && Digit(s[i + 1])
  {
    hide Has, Num, DecimalOf, RunEnd;
    HasParts(s, i, [c] + Num(n), CRLF);
    HasParts(s, i, [c], Num(n));
    HasAt(s, i, [c], 0);
    NumRead(s, i + 1, n);
  }

  lemma TextRead(s: seq<byte>, i: nat, b: seq<byte>)
    requires Has(s, i, ArgBytes(Text(b)))
    ensures ItemAt(s, i) == Some(Item(Some(b), i + |ArgBytes(Text(b))|))
  {
    hide Has, Num, DecimalOf, RunEnd, Line;
    var l := Line(DOLLAR, |b|);
    HasParts(s, i, l + b, CRLF);
    HasParts(s, i, l, b);
    LineRead(s, i, DOLLAR, |b|);
    HasCrlf(s, i + |l| + |b|);
    SliceIs(s, i + |l|, b);
  }

  lemma SliceIs(s: seq<byte>, i: nat, t: seq<byte>)
    requires Has(s, i, t)
    ensures i + |t| <= |s| && s[i..i + |t|] == t
  {
  }

  lemma FlagRead(s: seq<byte>, i: nat, on: bool)
    requires Has(s, i, ArgBytes(Flag(on)))
    ensures ItemAt(s, i) == Some(Item(Sent(Flag(on)), i + 7))
  {
    var one: byte := if on then 0x31 else 0x30;
    assert Num(1) == [0x31];
    assert ArgBytes(Flag(on)) == ArgBytes(Text([one]));
    TextRead(s, i, [one]);
  }

  lemma NullRead(s: seq<byte>, i: nat)
    requires Has(s, i, ArgBytes(NullArg))
    ensures ItemAt(s, i) == Some(Item(None, i + 5))
  {
    var t := ArgBytes(NullArg);
    HasAt(s, i, t, 0);
    HasAt(s, i, t, 1);
    HasAt(s, i, t, 2);
    HasAt(s, i, t, 3);
    HasAt(s, i, t, 4);
    RunEndIs(s, i + 2, i + 3);
  }

  lemma ArgRead(s: seq<byte>, i: nat, a: Arg)
    requires !a.Other? && Has(s, i, ArgBytes(a))
    ensures ItemAt(s, i) == Some(Item(Sent(a), i + |ArgBytes(a)|))
  {
    match a
    case Text(b) => TextRead(s, i, b);
    case Flag(on) => FlagRead(s, i, on);
    case NullArg => NullRead(s, i);
  }

  lemma {:induction false} HasArg(s: seq<byte>, i: nat, args: seq<Arg>, k: nat)
    requires k < |args| && Has(s, i, Body(args, |args|))
    ensures Has(s, i, Body(args, k + 1)) && Has(s, i + |Body(args, k)|, ArgBytes(args[k]))
    decreases |args| - k
  {
    hide Has, ArgBytes;
    if k + 1 < |args| {
      HasArg(s, i, args, k + 1);
      HasParts(s, i, Body(args, k + 1), ArgBytes(args[k + 1]));
    }
    HasParts(s, i, Body(args, k), ArgBytes(args[k]));
  }

  function SentAll(args: seq<Arg>): seq<Option<seq<byte>>>
  {
    seq(|args|, i requires 0 <= i < |args| => Sent(args[i]))
  }

  lemma {:induction false} ArgsRead(s: seq<byte>, i: nat, args: seq<Arg>, k: nat)
    requires k <= |args| && Sendable(args) && Has(s, i, Body(args, |args|))
    ensures ItemsAt(s, i + |Body(args, k)|, |args| - k)
         == Some(Items(SentAll(args)[k..], i + |Body(args, |args|)|))
    decreases |args| - k
  {
    hide Has, ArgBytes, ItemAt, Sent;
    if k < |args| {
      HasArg(s, i, args, k);
      ArgRead(s, i + |Body(args, k)|, args[k]);
      ArgsRead(s, i, args, k + 1);
      assert SentAll(args)[k..] == [SentAll(args)[k]] + SentAll(args)[k + 1..];
    } else {
      assert SentAll(args)[k..] == [];
    }
  }

  /** Reading a query back gives the arguments, and takes all of it. */
  lemma QueryRead(args: seq<Arg>)
    requires Sendable(args)
    ensures ParseReply(Query(args)) == (MultiBulk(Some(SentAll(args))), |Query(args)|)
  {
    hide Has, Num, Line, ItemsAt, Body, DecimalOf, RunEnd;
    var s := Query(args);
    var h, b := Header(|args|), Body(args, |args|);
    WholeHas(s);
    HasParts(s, 0, h, b);
    LineRead(s, 0, STAR, |args|);
    NoBody(args);
    ArgsRead(s, |h|, args, 0);
    assert SentAll(args)[0..] == SentAll(args);
  }

  /**
   Both copies read a query back, as long as its arguments are not longer than the copy hands over whole and their
   number leaves an int room to count on.
   */
  lemma QueryReadBy(copy: Copy, args: seq<Arg>)
    requires Sendable(args) && |args| < INT_MAX && |Query(args)| <= LONG_MAX
    requires forall i :: 0 <= i < |args| ==> Fits(copy, Sent(args[i]))
    ensures ReplyRead(copy, Query(args)) == Ok((MultiBulk(Some(SentAll(args))), |Query(args)|))
  {
    hide Has, Num, Line, ItemsAt, ItemsRead, Body, DecimalOf, RunEnd, Sent, Fits;
    var s := Query(args);
    var h, b := Header(|args|), Body(args, |args|);
    WholeHas(s);
    HasParts(s, 0, h, b);
    LineRead(s, 0, STAR, |args|);
    NoBody(args);
    ArgsRead(s, |h|, args, 0);
    assert SentAll(args)[0..] == SentAll(args);
    ItemsExact(copy, s, |h|, |args|);
  }

  /** One argument: the stream copy reads it back just if its length fits an int. */
  lemma TextReadBy(copy: Copy, b: seq<byte>)
    requires |ArgBytes(Text(b))| <= LONG_MAX
    ensures var s := ArgBytes(Text(b));
            ItemRead(copy, s, 0) == Ok(Item(Some(b), |s|)) <==> |b| <= Width(copy)
  {
    hide Has, Num, DecimalOf, RunEnd, Line, ItemAt, ItemRead;
    var s := ArgBytes(Text(b));
    WholeHas(s);
    TextRead(s, 0, b);
    ItemExact(copy, s, 0);
  }

  lemma DataThere(copy: Copy, s: seq<byte>, p: nat, size: nat)
    requires p <= |s| && Crlf(s, p + size) && size <= LONG_MAX - 2
    ensures DataRead(copy, s, p, size) == Handed(copy, s, p, size)
  {
    hide Handed;
  }

  lemma TextHanded(copy: Copy, b: seq<byte>)
    requires |b| <= LONG_MAX - 2
    ensures var s, p := ArgBytes(Text(b)), |Line(DOLLAR, |b|)|;
            p + |b| + 2 <= |s| && ItemRead(copy, s, 0) == Handed(copy, s, p, |b|)
  {
    hide Has, Num, DecimalOf, RunEnd, Line, DataRead, Handed;
    var s, l := ArgBytes(Text(b)), Line(DOLLAR, |b|);
    WholeHas(s);
    HasParts(s, 0, l + b, CRLF);
    HasParts(s, 0, l, b);
    LineRead(s, 0, DOLLAR, |b|);
    HasCrlf(s, |l| + |b|);
    DataThere(copy, s, |l|, |b|);
  }

  /** An argument of 2^32 - 1 bytes is read as nil, and reading goes on inside it. */
  lemma LongReadAsNil(b: seq<byte>)
    requires |b| == 0xffff_ffff
    ensures ItemRead(Stream, ArgBytes(Text(b)), 0) == Ok(Item(None, |Line(DOLLAR, |b|)| + 2))
  {
    hide Line, ArgBytes, ItemRead, Handed, Num;
    TextHanded(Stream, b);
    HandedAsNil(ArgBytes(Text(b)), |Line(DOLLAR, |b|)|, |b|);
  }

  lemma HandedAsNil(s: seq<byte>, p: nat, n: nat)
    requires p + n + 2 <= |s| && n == 0xffff_ffff
    ensures Handed(Stream, s, p, n) == Ok(Item(None, p + 2))
  {
  }

  /** What the two copies make of the first line of a bulk string alone, for every size. */
  lemma SizeOnly(size: nat)
    ensures var s := Line(DOLLAR, size);
            && BulkRead(Bundled, s, 1) == (if size <= LONG_MAX then Invalid else Overflow)
            && BulkRead(Stream, s, 1) ==
                 (if size <= LONG_MAX - 2 then Invalid else if size <= LONG_MAX then Outside else Overflow)
  {
    hide Has, Num, DecimalOf, RunEnd, Line;
    var s := Line(DOLLAR, size);
    WholeHas(s);
    LineRead(s, 0, DOLLAR, size);
  }

  /** The smallest size with which the stream copy goes wrong. */
  lemma SizeWraps()
    ensures var s := Line(DOLLAR, 9223372036854775806);
            BulkRead(Bundled, s, 1) == Invalid && BulkRead(Stream, s, 1) == Outside
  {
    SizeOnly(9223372036854775806);
  }

  lemma NoBody(args: seq<Arg>)
    ensures Body(args, 0) == []
  {
  }

  lemma WholeHas(s: seq<byte>)
    ensures Has(s, 0, s)
  {
    assert s[0..|s|] == s;
  }

  // ---- building ----

  lemma {:induction false} BodyGrows(args: seq<Arg>, k: nat, l: nat)
    requires k <= l <= |args|
    ensures |Body(args, k)| <= |Body(args, l)|
  {
    hide ArgBytes;
    if k < l {
      BodyGrows(args, k, l - 1);
    }
  }

  lemma BodyStep(args: seq<Arg>, k: nat)
    requires k < |args|
    ensures Body(args, k + 1) == Body(args, k) + ArgBytes(args[k])
  {
    hide ArgBytes;
  }

  /** Lengths that the C integers can hold. */
  predicate InRange(args: seq<Arg>)
  {
    |args| <= INT_MAX && forall i :: 0 <= i < |args| && args[i].Text? ==> |args[i].bytes| <= LONG_MAX
  }

  /** The first pass: how many bytes an argument will take. */
  method ArgSize(a: Arg) returns (n: nat)
    requires !a.Other?
    ensures n == |ArgBytes(a)|
  {
    match a
    case Text(b) =>
      var d := GetNumSize(|b|);
      n := 1 + d + 2 + |b| + 2;
    case Flag(_) => n := 7;
    case NullArg => n := 5;
  }

  method TotalSize(args: seq<Arg>) returns (r: Option<nat>)
    ensures r == if Sendable(args) then Some(|Query(args)|) else None
  {
    hide ArgBytes, Num;
    var d := GetNumSize(|args|);
    var total := 1 + d + 2;
    for i := 0 to |args|
      invariant forall k :: 0 <= k < i ==> !args[k].Other?
      invariant total == |Header(|args|)| + |Body(args, i)|
    {
      if args[i].Other? {
        return None;
      }
      var n := ArgSize(args[i]);
      total := total + n;
    }
    return Some(total);
  }

  /** The second pass: writes an argument, never past the end. */
  method WriteArg(buf: array<byte>, pos: nat, a: Arg) returns (end: nat)
    requires !a.Other? && pos + |ArgBytes(a)| <= buf.Length
    requires a.Text? ==> |a.bytes| <= LONG_MAX
    modifies buf
    ensures end == pos + |ArgBytes(a)| && buf[..end] == old(buf[..pos]) + ArgBytes(a)
  {
    match a
    case Text(b) => end := WriteText(buf, pos, b);
    case Flag(on) => end := CopyBytes(buf, pos, [DOLLAR, 0x31, CR, LF, if on then 0x31 else 0x30, CR, LF]);
    case NullArg => end := CopyBytes(buf, pos, [DOLLAR, MINUS, 0x31, CR, LF]);
  }

  method WriteLine(buf: array<byte>, pos: nat, c: byte, n: nat) returns (end: nat)
    requires n <= LONG_MAX && pos + |Line(c, n)| <= buf.Length
    modifies buf
    ensures end == pos + |Line(c, n)| && buf[..end] == old(buf[..pos]) + Line(c, n)
  {
    hide Num;
    ghost var before := buf[..pos];
    end := CopyBytes(buf, pos, [c]);
    end := SprintfNum(buf, end, n);
    end := CopyBytes(buf, end, CRLF);
    Appended(before, [c], Num(n), CRLF);
  }

  lemma Appended(before: seq<byte>, a: seq<byte>, b: seq<byte>, c: seq<byte>)
    ensures before + a + b + c == before + (a + b + c)
  {
  }

  method WriteText(buf: array<byte>, pos: nat, b: seq<byte>) returns (end: nat)
    requires |b| <= LONG_MAX && pos + |ArgBytes(Text(b))| <= buf.Length
    modifies buf
    ensures end == pos + |ArgBytes(Text(b))| && buf[..end] == old(buf[..pos]) + ArgBytes(Text(b))
  {
    hide Line;
    ghost var before := buf[..pos];
    end := WriteLine(buf, pos, DOLLAR, |b|);
    end := CopyBytes(buf, end, b);
    end := CopyBytes(buf, end, CRLF);
    Appended(before, Line(DOLLAR, |b|), b, CRLF);
  }

  datatype Built = Built(bytes: seq<byte>) | EmptyTable | BadParameter | BufferError

  /** What is written is exactly as long as was computed, so the last check never fails. */
  method BuildQuery(args: seq<Arg>) returns (r: Built)
    requires InRange(args)
    ensures r == if args == [] then EmptyTable else if Sendable(args) then Built(Query(args)) else BadParameter
  {
    hide ArgBytes, Line, Body;
    if args == [] {
      return EmptyTable;
    }
    var size := TotalSize(args);
    if size.None? {
      return BadParameter;
    }
    var total := size.value;
    var buf := new byte[total];
    var last := WriteLine(buf, 0, STAR, |args|);
    NoBody(args);
    Joined([], [], Header(|args|));
    for i := 0 to |args|
      invariant last == |Header(|args|)| + |Body(args, i)| && last <= total
      invariant buf[..last] == Header(|args|) + Body(args, i)
    {
      BodyGrows(args, i + 1, |args|);
      BodyStep(args, i);
      last := WriteArg(buf, last, args[i]);
      Joined(Header(|args|), Body(args, i), ArgBytes(args[i]));
    }
    if last != total {
      return BufferError;
    }
    return Built(buf[..]);
  }
}
