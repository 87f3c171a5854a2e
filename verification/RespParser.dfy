/**
 The two copies of the reply parser, bundle/lua-redis-parser-0.13/redis-parser.c and
 stream-lua-nginx-module/src/ngx_stream_lua_redis_parser.c, as they walk through the input.
 */
module RespParser {
  import opened Ascii
  import opened Basics
  import opened Resp
  import RR = RespReply
  import opened RespWidth

  /** The line loop: a carriage return seen just before a line feed ends the line. */
  method ParseLine(s: seq<byte>, i: nat) returns (r: Option<nat>)
    requires i <= |s|
    ensures r == FindCrlf(s, i)
  {
    var p, seenCr := i, false;
    while p != |s|
      invariant i <= p <= |s|
      invariant seenCr == (i < p && s[p - 1] == CR)
      invariant forall k :: i <= k && k + 1 < p ==> !Crlf(s, k)
      decreases |s| - p
    {
      if s[p] == CR {
        seenCr := true;
      } else if seenCr {
        if s[p] == LF {
          FindCrlfIs(s, i, p - 1);
          return Some(p - 1);
        }
        seenCr := false;
      }
      p := p + 1;
    }
    NoCrlf(s, i);
    return None;
  }

  lemma {:induction false} NoCrlf(s: seq<byte>, i: nat)
    requires forall k :: i <= k && k + 1 < |s| ==> !Crlf(s, k)
    ensures FindCrlf(s, i).None?
    decreases if i <= |s| then |s| - i else 0
  {
    if i + 1 < |s| {
      NoCrlf(s, i + 1);
    }
  }

  /** More digits make no smaller number. */
  lemma {:induction false} MoreDigits(s: seq<byte>, i: nat, p: nat, j: nat)
    requires i <= p <= j <= |s| && Digits(s[i..j])
    ensures Digits(s[i..p]) && DecimalOf(s[i..p]) <= DecimalOf(s[i..j])
    decreases j
  {
    Shorter(s, i, p, j);
    if p < j {
      Shorter(s, i, j - 1, j);
      MoreDigits(s, i, p, j - 1);
      assert s[i..j][..|s[i..j]| - 1] == s[i..j - 1];
    }
  }

  lemma Shorter(s: seq<byte>, i: nat, p: nat, j: nat)
    requires i <= p <= j <= |s| && Digits(s[i..j])
    ensures Digits(s[i..p])
  {
    forall k | 0 <= k < p - i ensures Digit(s[i..p][k]) {
      assert s[i..p][k] == s[i..j][k];
    }
  }

  /** One digit more, as long as it fits; a number too large stays too large. */
  method AddDigit(s: seq<byte>, ghost i: nat, p: nat, n: nat, limit: nat) returns (r: Option<nat>)
    requires i <= p < |s| && Digit(s[p]) && RunEnd(s, p) == RunEnd(s, i)
    requires Digits(s[i..p]) && n == DecimalOf(s[i..p])
    ensures Digits(s[i..p + 1]) && RunEnd(s, p + 1) == RunEnd(s, i)
    ensures match r case Some(m) => m == DecimalOf(s[i..p + 1]) <= limit case None => SizeAt(s, i) > limit
  {
    var d: int := s[p];
    assert s[i..p + 1][..p - i] == s[i..p];
    MoreDigits(s, i, p + 1, RunEnd(s, i));
    var m := n * 10 + (d - 0x30);
    r := if m > limit then None else Some(m);
  }

  /** Digits up to a carriage return, summed up in a long. */
  method ReadSize(s: seq<byte>, i: nat) returns (r: Read<Count>)
    requires i < |s|
    ensures var j := RunEnd(s, i);
            r == if SizeAt(s, i) > LONG_MAX then Overflow
                 else if j < |s| && s[j] == CR then Ok(Count(SizeAt(s, i), j)) else Invalid
  {
    hide DecimalOf;
    var p, size := i, 0;
    EmptyIsZero(s, i);
    while s[p] != CR
      invariant i <= p < |s| && RunEnd(s, p) == RunEnd(s, i)
      invariant Digits(s[i..p]) && size == DecimalOf(s[i..p]) <= LONG_MAX
      decreases |s| - p
    {
      if !Digit(s[p]) {
        return Invalid;
      }
      var more := AddDigit(s, i, p, size, LONG_MAX);
      if more.None? {
        return Overflow;
      }
      size, p := more.value, p + 1;
      if p >= |s| {
        return Invalid;
      }
    }
    return Ok(Count(size, p));
  }

  lemma EmptyIsZero(s: seq<byte>, i: nat)
    requires i <= |s|
    ensures Digits(s[i..i]) && DecimalOf(s[i..i]) == 0
  {
  }

  /** After a minus sign the digits are only skipped. */
  method SkipDigits(s: seq<byte>, i: nat) returns (r: Option<nat>)
    requires i <= |s|
    ensures r == if RunEnd(s, i) < |s| && s[RunEnd(s, i)] == CR then Some(RunEnd(s, i)) else None
  {
    var p := i;
    if p >= |s| {
      return None;
    }
    while s[p] != CR
      invariant i <= p < |s| && RunEnd(s, p) == RunEnd(s, i)
      decreases |s| - p
    {
      if !Digit(s[p]) {
        return None;
      }
      p := p + 1;
      if p >= |s| {
        return None;
      }
    }
    return Some(p);
  }

  method ParseBulk(copy: Copy, s: seq<byte>, i: nat) returns (r: Read<Item>)
    ensures r == BulkRead(copy, s, i)
  {
    hide SizeAt;
    if i >= |s| {
      return Invalid;
    }
    if s[i] == MINUS {
      var j := SkipDigits(s, i + 1);
      if j.None? || |s| - j.value < 2 || s[j.value + 1] != LF {
        return Invalid;
      }
      return Ok(Item(None, j.value + 2));
    }
    var c := ReadSize(s, i);
    if c == Overflow {
      return Overflow;
    }
    if !c.Ok? || c.value.next + 1 >= |s| || s[c.value.next + 1] != LF {
      return Invalid;
    }
    r := ParseData(copy, s, c.value.next + 2, c.value.n);
  }

  /** The check that asks for the room, and then the reads it is to guard. */
  method ParseData(copy: Copy, s: seq<byte>, p: nat, size: nat) returns (r: Read<Item>)
    requires p <= |s|
    ensures r == DataRead(copy, s, p, size)
  {
    if |s| - p < Asked(copy, size) {
      return Invalid;
    }
    var q := p + size;
    if q >= |s| {
      return Outside;
    }
    if s[q] != CR {
      return Invalid;
    }
    q := q + 1;
    if q >= |s| {
      return Outside;
    }
    if s[q] != LF {
      return Invalid;
    }
    return Handed(copy, s, p, size);
  }

  /** The count of a multi-bulk reply; a minus sign and a digit, wherever they come, make it nil. */
  method ReadCount(s: seq<byte>, i: nat) returns (r: Read<Count>)
    ensures r == CountRead(s, i)
  {
    hide DecimalOf;
    if i >= |s| {
      return Invalid;
    }
    var p, count := i, 0;
    EmptyIsZero(s, i);
    while s[p] != CR
      invariant i <= p < |s| && RunEnd(s, p) == RunEnd(s, i)
      invariant Digits(s[i..p]) && count == DecimalOf(s[i..p]) <= INT_MAX
      decreases |s| - p
    {
      if s[p] == MINUS {
        r := SkipToCr(s, i, p);
        return;
      }
      if !Digit(s[p]) {
        return Invalid;
      }
      var more := AddDigit(s, i, p, count, INT_MAX);
      if more.None? {
        return Overflow;
      }
      count, p := more.value, p + 1;
      if p >= |s| {
        return Invalid;
      }
    }
    if p + 1 >= |s| || s[p + 1] != LF {
      return Invalid;
    }
    return Ok(Count(count, p + 2));
  }

  method SkipToCr(s: seq<byte>, i: nat, minus: nat) returns (r: Read<Count>)
    requires i <= minus < |s| && s[minus] == MINUS && RunEnd(s, i) == minus && SizeAt(s, i) <= INT_MAX
    ensures r == CountRead(s, i)
  {
    hide DecimalOf;
    var p := minus + 1;
    if p >= |s| || !Digit(s[p]) {
      return Invalid;
    }
    while s[p] != CR
      invariant minus < p < |s| && FirstCr(s, p) == FirstCr(s, minus + 1)
      decreases |s| - p
    {
      p := p + 1;
      if p >= |s| {
        return Invalid;
      }
    }
    if p + 1 >= |s| || s[p + 1] != LF {
      return Invalid;
    }
    return Ok(Count(-1, p + 2));
  }

  method ParseItem(copy: Copy, s: seq<byte>, i: nat) returns (r: Read<Item>)
    ensures r == ItemRead(copy, s, i)
  {
    hide BulkRead, FindCrlf, Handed;
    if i >= |s| {
      return Invalid;
    }
    if s[i] == PLUS || s[i] == MINUS || s[i] == COLON {
      var k := ParseLine(s, i + 1);
      return if k.None? then Invalid else Handed(copy, s, i + 1, k.value - (i + 1));
    }
    if s[i] == DOLLAR {
      r := ParseBulk(copy, s, i + 1);
      return;
    }
    return Invalid;
  }

  /** The items one after the other, until one cannot be read; those before it are in the table already. */
  method ParseItems(copy: Copy, s: seq<byte>, i: nat, count: nat)
    returns (r: Read<Items>, values: seq<Option<seq<byte>>>)
    requires i <= |s|
    ensures r == ItemsRead(copy, s, i, count) && values == ReadBefore(copy, s, i, count)
  {
    hide ItemRead;
    var p: nat := i;
    values := [];
    ghost var all, before := ItemsRead(copy, s, i, count), ReadBefore(copy, s, i, count);
    if all.Ok? {
      assert [] + all.value.values == all.value.values;
    }
    assert [] + before == before;
    var k := 0;
    while k < count
      invariant 0 <= k <= count && p <= |s|
      invariant before == values + ReadBefore(copy, s, p, count - k)
      invariant var rest := ItemsRead(copy, s, p, count - k);
                all == if rest.Ok? then Ok(Items(values + rest.value.values, rest.value.next)) else rest
    {
      var x := ParseItem(copy, s, p);
      ItemsTurn(copy, s, p, count - k, values);
      if !x.Ok? {
        assert values + [] == values;
        return Failed(x), values;
      }
      values := values + [x.value.value];
      p := x.value.next;
      k := k + 1;
    }
    assert values + [] == values;
    r := Ok(Items(values, p));
  }

  lemma ItemsTurn(copy: Copy, s: seq<byte>, p: nat, n: nat, values: seq<Option<seq<byte>>>)
    requires n > 0
    ensures var x, all := ItemRead(copy, s, p), ItemsRead(copy, s, p, n);
            if !x.Ok? then all == Failed(x) else
              var rest := ItemsRead(copy, s, x.value.next, n - 1);
              if !rest.Ok? then all == rest else
                && all.Ok? && all.value.next == rest.value.next
                && values + all.value.values == values + [x.value.value] + rest.value.values
    ensures var x := ItemRead(copy, s, p);
            values + ReadBefore(copy, s, p, n) ==
              if x.Ok? then values + [x.value.value] + ReadBefore(copy, s, x.value.next, n - 1) else values + []
  {
    hide ItemRead;
  }

  /** A torso is what is left on the Lua stack. */
  method ParseMultiBulk(copy: Copy, s: seq<byte>) returns (r: Read<(Reply, nat)>, torso: Option<seq<Option<seq<byte>>>>)
    requires s != [] && s[0] == STAR
    ensures r == MultiRead(copy, s, 1) && torso == Torso(copy, s)
  {
    hide CountRead, ItemsRead, ReadBefore;
    torso := None;
    var c := ReadCount(s, 1);
    if c == Invalid {
      return Ok((Bad, 0)), None;
    }
    if !c.Ok? {
      return Failed(c), None;
    }
    if c.value.n < 0 {
      return Ok((MultiBulk(None), c.value.next)), None;
    }
    var xs, before := ParseItems(copy, s, c.value.next, c.value.n);
    if xs == Invalid {
      return Ok((Bad, 0)), Some(before);
    }
    if !xs.Ok? {
      return Failed(xs), None;
    }
    if c.value.n == INT_MAX {
      return Overflow, None;
    }
    r := Ok((MultiBulk(Some(xs.value.values)), xs.value.next));
  }

  /** One element more before the end. */
  lemma CutStep(copy: Copy, s: seq<byte>, i: nat, n: nat, x: Item)
    requires n > 0 && ItemRead(copy, s, i) == Ok(x) && ItemsRead(copy, s, x.next, n - 1) == Invalid
    ensures ItemsRead(copy, s, i, n) == Invalid
    ensures ReadBefore(copy, s, i, n) == [x.value] + ReadBefore(copy, s, x.next, n - 1)
  {
    hide ItemRead;
  }

  lemma CutEnd(copy: Copy, s: seq<byte>, n: nat)
    requires n > 0
    ensures ItemsRead(copy, s, |s|, n) == Invalid && ReadBefore(copy, s, |s|, n) == []
  {
  }

  /** Fewer elements than asked for, and then the input ends. */
  lemma {:induction false} CutShort(copy: Copy, s: seq<byte>, i: nat, es: seq<RR.Elem>, n: nat)
    requires |s| <= INT_MAX && Has(s, i, RR.ElemsBytes(es)) && i + |RR.ElemsBytes(es)| == |s| && |es| < n
    requires forall k :: 0 <= k < |es| ==> RR.ElemOk(es[k])
    ensures ItemsRead(copy, s, i, n) == Invalid && ReadBefore(copy, s, i, n) == RR.ElemValues(es)
    decreases |es|
  {
    hide Has, RR.ElemBytes, RR.ElemOk, RR.ElemValue, ItemRead, ItemAt, ItemsRead, ReadBefore;
    if es == [] {
      CutEnd(copy, s, n);
    } else {
      HasParts(s, i, RR.ElemBytes(es[0]), RR.ElemsBytes(es[1..]));
      RR.ElemRead(s, i, es[0]);
      ItemShort(copy, s, i);
      var next := i + |RR.ElemBytes(es[0])|;
      CutShort(copy, s, next, es[1..], n - 1);
      CutStep(copy, s, i, n, Item(RR.ElemValue(es[0]), next));
    }
  }

  /** A list cut short leaves on the stack the elements that are there, in order. */
  lemma TorsoSpelled(copy: Copy, s: seq<byte>, digits: seq<byte>, es: seq<RR.Elem>)
    requires |s| <= INT_MAX && s == [0x2a] + digits + [13, 10] + RR.ElemsBytes(es)
    requires Digits(digits) && |es| < DecimalOf(digits) <= 2147483647
    requires forall k :: 0 <= k < |es| ==> RR.ElemOk(es[k])
    ensures Torso(copy, s) == Some(RR.ElemValues(es))
  {
    hide RR.ElemsBytes, RR.ElemOk, RR.ElemValues, ItemsRead, ReadBefore, DecimalOf, CountAt, Digits;
    var h := [0x2a] + digits + [13, 10];
    assert s[0..|h|] == h && s[|h|..|s|] == RR.ElemsBytes(es);
    RR.CountRead(s, digits);
    HasParts(s, 0, [0x2a] + digits, [13, 10]);
    HasParts(s, 0, [0x2a], digits);
    RR.DigitsRead(s, 1, digits);
    CutShort(copy, s, |h|, es, DecimalOf(digits));
  }

  /** What is read is a message at the front of the input, and a message there is read unless the program is stopped. */
  ghost predicate ReadsMessages(s: seq<byte>, r: Read<(Reply, nat)>)
  {
    && (r.Ok? && r.value.0 != Bad ==>
          exists m :: RR.MessageOk(m) && Has(s, 0, RR.MessageBytes(m)) && r.value == (RR.Meaning(m), |RR.MessageBytes(m)|))
    && (forall m :: RR.MessageOk(m) && Has(s, 0, RR.MessageBytes(m)) ==>
          r in {Ok((RR.Meaning(m), |RR.MessageBytes(m)|)), Overflow, Outside})
  }

  lemma MessagesOnly(copy: Copy, s: seq<byte>)
    requires |s| <= INT_MAX
    ensures ReadsMessages(s, ReplyRead(copy, s))
  {
    hide ReplyRead, ParseReply, RR.MessageOk, RR.MessageBytes, RR.Meaning, Has;
    ReplyExact(copy, s);
    var (r, k) := ParseReply(s);
    if r != Bad {
      RR.ReplyExactly(s, r, k);
    }
    forall m | RR.MessageOk(m) && Has(s, 0, RR.MessageBytes(m))
      ensures ParseReply(s) == (RR.Meaning(m), |RR.MessageBytes(m)|)
    {
      RR.MessageRead(s, m);
    }
  }

  method ParseReplyHelper(copy: Copy, s: seq<byte>) returns (r: Read<(Reply, nat)>, torso: Option<seq<Option<seq<byte>>>>)
    ensures r == ReplyRead(copy, s) && torso == Torso(copy, s)
    ensures |s| <= 0x7fff_ffff ==> ReadsMessages(s, r)
  {
    hide ReadsMessages;
    if |s| <= 0x7fff_ffff {
      MessagesOnly(copy, s);
    }
    hide FindCrlf, BulkRead, MultiRead, Handed, ItemsRead, CountRead, ReadBefore;
    torso := None;
    if |s| == 0 {
      return Ok((Bad, 0)), None;
    }
    var ch := s[0];
    if ch == PLUS || ch == MINUS || ch == COLON {
      var k := ParseLine(s, 1);
      if k.None? {
        return Ok((Bad, 0)), None;
      }
      var x := Handed(copy, s, 1, k.value - 1);
      if x == Invalid {
        return Ok((Bad, 0)), None;
      }
      if !x.Ok? || x.value.value.None? {
        return Negative, None;
      }
      return Ok((LineReply(ch, x.value.value.value), x.value.next)), None;
    }
    if ch == DOLLAR {
      var x := ParseBulk(copy, s, 1);
      if x == Invalid {
        return Ok((Bad, 0)), None;
      }
      if !x.Ok? {
        return Failed(x), None;
      }
      return Ok((Bulk(x.value.value), x.value.next)), None;
    }
    if ch == STAR {
      r, torso := ParseMultiBulk(copy, s);
      return;
    }
    return Ok((Bad, 0)), None;
  }

  /** redis_parse_replies: what is read is cut off and the rest read on. */
  method ParseAll(s: seq<byte>, n: nat) returns (r: Read<map<nat, Cell>>)
    ensures r == RepliesTable(s, n, 0, map[])
  {
    hide ReplyRead, Torso;
    var rest: seq<byte>, table: map<nat, Cell> := s, map[];
    for i := 0 to n
      invariant RepliesTable(s, n, 0, map[]) == RepliesTable(rest, n, i, table)
    {
      var x, torso := ParseReplyHelper(Bundled, rest);
      if !x.Ok? {
        return Failed(x);
      }
      table := if torso.Some? then map[i + 1 := Remains(torso.value)] else table[i + 1 := Got(x.value.0)];
      rest := rest[x.value.1..];
    }
    return Ok(table);
  }
}
