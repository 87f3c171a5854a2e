/**
 What becomes of a reply when sizes and counts are the C integers that the two copies of the parser,
 bundle/lua-redis-parser-0.13/redis-parser.c and stream-lua-nginx-module/src/ngx_stream_lua_redis_parser.c, keep them
 in.  Both read sizes into a signed long and counts into an int.  The bundled copy compares sizes unsigned and keeps
 lengths in a size_t; the stream copy compares them signed and keeps lengths in an int.
 */
module RespWidth {
  import opened Ascii
  import opened Basics
  import opened Resp

  datatype Copy = Bundled | Stream

  /**
   A result; input refused; or the program stopped: a signed integer exceeded, the input read past its end, or a
   negative length handed to Lua.
   */
  datatype Read<+T> = Ok(value: T) | Invalid | Overflow | Outside | Negative

  function Of<T>(r: Option<T>): Read<T>
  {
    match r case None => Invalid case Some(x) => Ok(x)
  }

  /** A failure, whatever it is a failure to read. */
  function Failed<T, U>(r: Read<T>): (f: Read<U>)
    requires !r.Ok?
    ensures !f.Ok? && (f == Invalid <==> r == Invalid)
  {
    match r case Invalid => Invalid case Overflow => Overflow case Outside => Outside case Negative => Negative
  }

  /** The number that the digits at i make. */
  function SizeAt(s: seq<byte>, i: nat): nat
    requires i <= |s|
  {
    DecimalOf(s[i..RunEnd(s, i)])
  }

  /** The room that is asked for before that many bytes of data. */
  function Asked(copy: Copy, size: nat): int
  {
    if copy == Bundled then size + 2 else ToLong(size + 2)
  }

  /** n bytes at p, handed over by their length, the end of the line behind them. */
  function Handed(copy: Copy, s: seq<byte>, p: nat, n: nat): (r: Read<Item>)
    requires p + n + 2 <= |s|
    ensures r.Ok? ==> p + 2 <= r.value.next <= |s|
    ensures r != Overflow && r != Outside && (copy == Bundled ==> r.Ok?)
  {
    if copy == Bundled then Ok(Item(Some(s[p..p + n]), p + n + 2)) else
      var len := ToInt(n);
      if len == -2 then Invalid
      else if len == -1 then Ok(Item(None, p + 2))
      else if len < 0 then Negative
      else Ok(Item(Some(s[p..p + len]), p + len + 2))
  }

  /** What becomes of a length in the int of the stream copy: -2 is an error, -1 nil. */
  lemma HandedExactly(s: seq<byte>, p: nat, n: nat)
    requires p + n + 2 <= |s|
    ensures var m := n % 4294967296;
            Handed(Stream, s, p, n) ==
              if m == 4294967294 then Invalid
              else if m == 4294967295 then Ok(Item(None, p + 2))
              else if m >= 2147483648 then Negative
              else Ok(Item(Some(s[p..p + m]), p + m + 2))
  {
  }

  function BulkRead(copy: Copy, s: seq<byte>, i: nat): (r: Read<Item>)
    ensures r.Ok? ==> i + 2 <= r.value.next <= |s|
  {
    if i >= |s| then Invalid
    else if s[i] == MINUS then
      var j := RunEnd(s, i + 1);
      if Crlf(s, j) then Ok(Item(None, j + 2)) else Invalid
    else
      var j, size := RunEnd(s, i), SizeAt(s, i);
      if size > LONG_MAX then Overflow
      else if !Crlf(s, j) then Invalid
      else DataRead(copy, s, j + 2, size)
  }

  /** The data of a bulk string, from the check of the room on. */
  function DataRead(copy: Copy, s: seq<byte>, p: nat, size: nat): (r: Read<Item>)
    requires p <= |s|
    ensures r.Ok? ==> p + 2 <= r.value.next <= |s|
  {
    if |s| - p < Asked(copy, size) then Invalid
    else if p + size >= |s| then Outside
    else if s[p + size] != CR then Invalid
    else if p + size + 1 >= |s| then Outside
    else if s[p + size + 1] != LF then Invalid
    else Handed(copy, s, p, size)
  }

  function ItemRead(copy: Copy, s: seq<byte>, i: nat): (r: Read<Item>)
    ensures r.Ok? ==> i + 3 <= r.value.next <= |s|
  {
    if i >= |s| then Invalid
    else if s[i] == PLUS || s[i] == MINUS || s[i] == COLON then
      match FindCrlf(s, i + 1)
      case None => Invalid
      case Some(k) => Handed(copy, s, i + 1, k - (i + 1))
    else if s[i] == DOLLAR then BulkRead(copy, s, i + 1)
    else Invalid
  }

  function ItemsRead(copy: Copy, s: seq<byte>, i: nat, n: nat): (r: Read<Items>)
    ensures r.Ok? ==> |r.value.values| == n && i <= r.value.next && (n > 0 || i <= |s| ==> r.value.next <= |s|)
    decreases n
  {
    if n == 0 then Ok(Items([], i)) else
      var x := ItemRead(copy, s, i);
      if !x.Ok? then Failed(x) else
        var rest := ItemsRead(copy, s, x.value.next, n - 1);
        if !rest.Ok? then rest else Ok(Items([x.value.value] + rest.value.values, rest.value.next))
  }

  /** The count is summed up in an int before anything else is looked at. */
  function CountRead(s: seq<byte>, i: nat): (r: Read<Count>)
    ensures r.Ok? ==> i + 2 <= r.value.next <= |s| && -1 <= r.value.n <= INT_MAX
  {
    if i < |s| && SizeAt(s, i) > INT_MAX then Overflow else Of(CountAt(s, i))
  }

  /** The loop over the items counts one further than the count. */
  function MultiRead(copy: Copy, s: seq<byte>, i: nat): (r: Read<(Reply, nat)>)
    ensures r != Invalid && (r.Ok? ==> r.value.1 <= |s| && (r.value.0 == Bad <==> r.value.1 == 0))
  {
    var c := CountRead(s, i);
    if c == Invalid then Ok((Bad, 0))
    else if !c.Ok? then Failed(c)
    else if c.value.n < 0 then Ok((MultiBulk(None), c.value.next))
    else
      var xs := ItemsRead(copy, s, c.value.next, c.value.n);
      if xs == Invalid then Ok((Bad, 0))
      else if !xs.Ok? then Failed(xs)
      else if c.value.n == INT_MAX then Overflow
      else Ok((MultiBulk(Some(xs.value.values)), xs.value.next))
  }

  function LineReply(type_: byte, text: seq<byte>): Reply
  {
    if type_ == PLUS then Status(text) else if type_ == MINUS then Failure(text) else Integer(text)
  }

  function ReplyRead(copy: Copy, s: seq<byte>): (r: Read<(Reply, nat)>)
    ensures r != Invalid && (r.Ok? ==> r.value.1 <= |s| && (r.value.0 == Bad <==> r.value.1 == 0))
  {
    if s == [] then Ok((Bad, 0))
    else if s[0] == PLUS || s[0] == MINUS || s[0] == COLON then
      match FindCrlf(s, 1)
      case None => Ok((Bad, 0))
      case Some(k) =>
        var x := Handed(copy, s, 1, k - 1);
        if x == Invalid then Ok((Bad, 0))
        else if !x.Ok? || x.value.value.None? then Negative
        else Ok((LineReply(s[0], x.value.value.value), x.value.next))
    else if s[0] == DOLLAR then
      var x := BulkRead(copy, s, 1);
      if x == Invalid then Ok((Bad, 0)) else if !x.Ok? then Failed(x) else Ok((Bulk(x.value.value), x.value.next))
    else if s[0] == STAR then MultiRead(copy, s, 1)
    else Ok((Bad, 0))
  }

  /** A status, an error or an integer: read whole by the bundled copy, and up to 2^31 - 1 bytes by the other. */
  lemma LineExactly(copy: Copy, s: seq<byte>, k: nat)
    requires s != [] && s[0] in {0x2b, 0x2d, 0x3a} && FindCrlf(s, 1) == Some(k)
    ensures var m := if copy == Bundled then k - 1 else (k - 1) % 4294967296;
            ReplyRead(copy, s) ==
              if copy == Bundled || m <= 2147483647 then Ok((LineReply(s[0], s[1..1 + m]), m + 3))
              else if m == 4294967294 then Ok((Bad, 0))
              else Negative
  {
    hide FindCrlf, LineReply, BulkRead, MultiRead;
    if copy == Stream {
      HandedExactly(s, 1, k - 1);
    }
    hide Handed;
  }

  /** redis_parse_replies, which only the bundled copy has. */
  function RepliesRead(s: seq<byte>, n: nat): (r: Read<seq<Reply>>)
    ensures r != Invalid && (r.Ok? ==> |r.value| == n)
    decreases n
  {
    if n == 0 then Ok([]) else
      var x := ReplyRead(Bundled, s);
      if !x.Ok? then Failed(x) else
        var rest := RepliesRead(s[x.value.1..], n - 1);
        if !rest.Ok? then rest else Ok([x.value.0] + rest.value)
  }

  // ---- what redis_parse_replies puts into its table ----

  /** The elements read before one that cannot be. */
  function ReadBefore(copy: Copy, s: seq<byte>, i: nat, n: nat): seq<Option<seq<byte>>>
    decreases n
  {
    if n == 0 then [] else
      var x := ItemRead(copy, s, i);
      if !x.Ok? then [] else [x.value.value] + ReadBefore(copy, s, x.value.next, n - 1)
  }

  /** The elements of a multi-bulk reply that turned out malformed after a table was made for it. */
  function Torso(copy: Copy, s: seq<byte>): Option<seq<Option<seq<byte>>>>
  {
    if s == [] || s[0] != STAR then None else
      var c := CountRead(s, 1);
      if !c.Ok? || c.value.n < 0 || ItemsRead(copy, s, c.value.next, c.value.n) != Invalid then None
      else Some(ReadBefore(copy, s, c.value.next, c.value.n))
  }

  /** A reply with its type; or a table with such elements, its first two places taken by an error text and its type. */
  datatype Cell = Got(reply: Reply) | Remains(values: seq<Option<seq<byte>>>)

  /**
   The loop, i replies having been put into the table.  A torso left on the Lua stack stands where the table for the
   reply is expected, and the new table where the table of all replies is.
   */
  function RepliesTable(s: seq<byte>, n: nat, i: nat, table: map<nat, Cell>): (r: Read<map<nat, Cell>>)
    requires i <= n
    decreases n - i
  {
    if i == n then Ok(table) else
      var x, torso := ReplyRead(Bundled, s), Torso(Bundled, s);
      if !x.Ok? then Failed(x)
      else if torso.Some? then RepliesTable(s[x.value.1..], n, i + 1, map[i + 1 := Remains(torso.value)])
      else RepliesTable(s[x.value.1..], n, i + 1, table[i + 1 := Got(x.value.0)])
  }

  /** A torso is a bad reply, and is not stepped over. */
  lemma TorsoBad(copy: Copy, s: seq<byte>)
    requires Torso(copy, s).Some?
    ensures ReplyRead(copy, s) == Ok((Bad, 0))
  {
    hide ItemsRead, CountRead, ReadBefore;
  }

  /** After a torso there is nothing but that torso, at the last place. */
  lemma {:induction false} TorsoStays(s: seq<byte>, n: nat, i: nat, table: map<nat, Cell>)
    requires i < n && Torso(Bundled, s).Some?
    ensures RepliesTable(s, n, i, table) == Ok(map[n := Remains(Torso(Bundled, s).value)])
    decreases n - i
  {
    hide Torso, ReplyRead;
    TorsoBad(Bundled, s);
    assert s[0..] == s;
    if i + 1 < n {
      TorsoStays(s, n, i + 1, map[i + 1 := Remains(Torso(Bundled, s).value)]);
    }
  }

  /** The first of the n replies of which only a torso is left. */
  function FirstTorso(s: seq<byte>, n: nat): Option<seq<Option<seq<byte>>>>
    decreases n
  {
    if n == 0 then None else
      var x, torso := ReplyRead(Bundled, s), Torso(Bundled, s);
      if torso.Some? || !x.Ok? then torso else FirstTorso(s[x.value.1..], n - 1)
  }

  /** The table with the replies from place i + 1 on. */
  function Filled(table: map<nat, Cell>, i: nat, rs: seq<Reply>): map<nat, Cell>
    decreases |rs|
  {
    if rs == [] then table else Filled(table[i + 1 := Got(rs[0])], i + 1, rs[1..])
  }

  lemma {:induction false} FilledMeans(table: map<nat, Cell>, i: nat, rs: seq<Reply>)
    ensures forall k: nat :: k in Filled(table, i, rs) <==> k in table || i < k <= i + |rs|
    ensures forall k: nat :: i < k <= i + |rs| ==> Filled(table, i, rs)[k] == Got(rs[k - i - 1])
    ensures forall k: nat :: k in table && !(i < k <= i + |rs|) ==> Filled(table, i, rs)[k] == table[k]
    decreases |rs|
  {
    if rs != [] {
      FilledMeans(table[i + 1 := Got(rs[0])], i + 1, rs[1..]);
    }
  }

  lemma {:induction false} TableFrom(s: seq<byte>, n: nat, i: nat, table: map<nat, Cell>)
    requires i <= n
    ensures var r, rs := RepliesTable(s, n, i, table), RepliesRead(s, n - i);
            if FirstTorso(s, n - i).Some? then r == Ok(map[n := Remains(FirstTorso(s, n - i).value)])
            else if rs.Ok? then r == Ok(Filled(table, i, rs.value)) else r == Failed(rs)
    decreases n - i
  {
    hide Torso, ReplyRead;
    if i < n {
      var x, torso := ReplyRead(Bundled, s), Torso(Bundled, s);
      if torso.Some? {
        TorsoStays(s, n, i, table);
      } else if x.Ok? {
        TableFrom(s[x.value.1..], n, i + 1, table[i + 1 := Got(x.value.0)]);
        var rest := RepliesRead(s[x.value.1..], n - i - 1);
        if rest.Ok? {
          assert ([x.value.0] + rest.value)[1..] == rest.value;
        }
      }
    }
  }

  /**
   redis_parse_replies gives back the n replies at the places from 1 to n, or, if one of them fails midway, a table with
   nothing but the torso of that one at place n.
   */
  lemma TableExactly(s: seq<byte>, n: nat)
    requires RepliesRead(s, n).Ok?
    ensures var r := RepliesTable(s, n, 0, map[]);
            && r.Ok?
            && if FirstTorso(s, n).Some? then r.value == map[n := Remains(FirstTorso(s, n).value)]
               else forall k: nat :: (k in r.value <==> 1 <= k <= n)
                                     && (k in r.value ==> r.value[k] == Got(RepliesRead(s, n).value[k - 1]))
  {
    hide RepliesTable, RepliesRead, FirstTorso, Filled;
    TableFrom(s, n, 0, map[]);
    FilledMeans(map[], 0, RepliesRead(s, n).value);
  }

  /** Two announced, one there: its table has taken the place of the one for all replies. */
  lemma TorsoExample()
    ensures var s := [STAR, 0x32, CR, LF, PLUS, 0x61, CR, LF];
            RepliesTable(s, 2, 0, map[]) == Ok(map[2 := Remains([Some([0x61])])])
  {
    var s: seq<byte> := [STAR, 0x32, CR, LF, PLUS, 0x61, CR, LF];
    RunEndIs(s, 1, 2);
    assert s[1..2] == [0x32] && [0x32][..0] == [];
    assert DecimalOf([0x32]) == 2;
    assert CountRead(s, 1) == Ok(Count(2, 4));
    FindCrlfIs(s, 5, 6);
    assert s[5..6] == [0x61];
    assert ItemRead(Bundled, s, 4) == Ok(Item(Some([0x61]), 8));
    assert ItemRead(Bundled, s, 8) == Invalid;
    assert ItemsRead(Bundled, s, 8, 1) == Invalid && ItemsRead(Bundled, s, 4, 2) == Invalid;
    assert ReadBefore(Bundled, s, 8, 1) == [] && ReadBefore(Bundled, s, 4, 2) == [Some([0x61])];
    TorsoStays(s, 2, 0, map[]);
  }

  // ---- bounds ----

  /** The size of a bulk string with which the stream copy's sum of size and two turns negative. */
  predicate Wraps(s: seq<byte>, i: nat)
  {
    i < |s| && s[i] != MINUS && Crlf(s, RunEnd(s, i)) && LONG_MAX - 2 < SizeAt(s, i) <= LONG_MAX
  }

  /** The bundled copy never reads past the input; the stream copy does exactly for the last two sizes of a long. */
  lemma BulkBounds(s: seq<byte>, i: nat)
    requires |s| <= LONG_MAX
    ensures BulkRead(Bundled, s, i) != Outside && BulkRead(Bundled, s, i) != Negative
    ensures BulkRead(Stream, s, i) == Outside <==> Wraps(s, i)
  {
    hide Handed, DecimalOf;
  }

  /** Digits that make a number beyond a signed 64-bit integer stop a bulk string, beyond an int a count. */
  lemma OverflowExactly(copy: Copy, s: seq<byte>, i: nat)
    ensures BulkRead(copy, s, i) == Overflow <==>
              i < |s| && s[i] != 0x2d && DecimalOf(s[i..RunEnd(s, i)]) > 9223372036854775807
    ensures CountRead(s, i) == Overflow <==> i < |s| && DecimalOf(s[i..RunEnd(s, i)]) > 2147483647
  {
    hide Handed, DecimalOf, CountAt;
  }

  /** The longest value that is handed over whole. */
  function Width(copy: Copy): nat
  {
    if copy == Bundled then LONG_MAX else INT_MAX
  }

  predicate Fits(copy: Copy, value: Option<seq<byte>>)
  {
    value.None? || |value.value| <= Width(copy)
  }

  lemma HandedExact(copy: Copy, s: seq<byte>, p: nat, n: nat)
    requires p + n + 2 <= |s| && (copy == Bundled ==> n <= LONG_MAX)
    ensures Handed(copy, s, p, n) == Ok(Item(Some(s[p..p + n]), p + n + 2)) <==> n <= Width(copy)
  {
  }

  /** Neither copy accepts a malformed bulk string, and a well-formed one is read whole just if its length fits. */
  lemma BulkExact(copy: Copy, s: seq<byte>, i: nat)
    ensures match BulkAt(s, i)
            case None => !BulkRead(copy, s, i).Ok?
            case Some(x) => BulkRead(copy, s, i) == Ok(x) <==> Fits(copy, x.value)
  {
    hide Handed, DecimalOf;
    if i < |s| && s[i] != MINUS {
      var j, size := RunEnd(s, i), SizeAt(s, i);
      if Crlf(s, j) && Crlf(s, j + 2 + size) && size <= LONG_MAX {
        HandedExact(copy, s, j + 2, size);
      }
    }
  }

  lemma ItemExact(copy: Copy, s: seq<byte>, i: nat)
    requires |s| <= LONG_MAX
    ensures match ItemAt(s, i)
            case None => !ItemRead(copy, s, i).Ok?
            case Some(x) => ItemRead(copy, s, i) == Ok(x) <==> Fits(copy, x.value)
  {
    hide BulkAt, BulkRead, Handed;
    if i < |s| {
      if s[i] == PLUS || s[i] == MINUS || s[i] == COLON {
        var k := FindCrlf(s, i + 1);
        if k.Some? {
          HandedExact(copy, s, i + 1, k.value - (i + 1));
        }
      } else if s[i] == DOLLAR {
        BulkExact(copy, s, i + 1);
      }
    }
  }

  /** Items whose lengths fit are read whole. */
  lemma {:induction false} ItemsExact(copy: Copy, s: seq<byte>, i: nat, n: nat)
    requires |s| <= LONG_MAX && ItemsAt(s, i, n).Some?
    requires forall k :: 0 <= k < n ==> Fits(copy, ItemsAt(s, i, n).value.values[k])
    ensures ItemsRead(copy, s, i, n) == Ok(ItemsAt(s, i, n).value)
    decreases n
  {
    hide ItemAt, ItemRead, Fits;
    if n > 0 {
      ItemExact(copy, s, i);
      var x, xs := ItemAt(s, i).value, ItemsAt(s, i, n).value.values;
      var rest := ItemsAt(s, x.next, n - 1).value.values;
      assert xs[0] == x.value;
      forall k | 0 <= k < n - 1 ensures Fits(copy, rest[k]) {
        assert rest[k] == xs[k + 1];
      }
      ItemsExact(copy, s, x.next, n - 1);
    }
  }

  // ---- inputs shorter than an int ----

  lemma ItemShort(copy: Copy, s: seq<byte>, i: nat)
    requires |s| <= INT_MAX
    ensures match ItemAt(s, i)
            case None => ItemRead(copy, s, i) in {Invalid, Overflow, Outside}
            case Some(x) => ItemRead(copy, s, i) == Ok(x) && (x.value.Some? ==> |x.value.value| <= |s|)
    ensures copy == Bundled ==> ItemRead(copy, s, i) != Outside
  {
    hide BulkAt, BulkRead;
    ItemExact(copy, s, i);
    if i < |s| && s[i] == DOLLAR {
      BulkShort(copy, s, i + 1);
      BulkBounds(s, i + 1);
    }
  }

  lemma BulkShort(copy: Copy, s: seq<byte>, i: nat)
    requires |s| <= INT_MAX
    ensures BulkRead(copy, s, i) != Negative
    ensures BulkAt(s, i).Some? && BulkAt(s, i).value.value.Some? ==> |BulkAt(s, i).value.value.value| <= |s|
  {
    hide DecimalOf;
  }

  lemma {:induction false} ItemsShort(copy: Copy, s: seq<byte>, i: nat, n: nat)
    requires |s| <= INT_MAX
    ensures match ItemsAt(s, i, n)
            case None => ItemsRead(copy, s, i, n) in {Invalid, Overflow, Outside}
            case Some(x) => ItemsRead(copy, s, i, n) == Ok(x) && x.next >= i + 3 * n
    ensures copy == Bundled ==> ItemsRead(copy, s, i, n) != Outside
    decreases n
  {
    hide ItemAt, ItemRead;
    if n > 0 {
      ItemShort(copy, s, i);
      if ItemAt(s, i).Some? {
        ItemsShort(copy, s, ItemAt(s, i).value.next, n - 1);
      }
    }
  }

  /**
   On an input shorter than 2^31 bytes each copy answers as Resp.ParseReply does, unless it is stopped: by a size or
   a count too large, or, the stream copy, by reading past the input.
   */
  lemma ReplyExact(copy: Copy, s: seq<byte>)
    requires |s| <= INT_MAX
    ensures ReplyRead(copy, s) in {Ok(ParseReply(s)), Overflow, Outside}
    ensures copy == Bundled ==> ReplyRead(copy, s) != Outside
  {
    hide BulkAt, BulkRead, ItemsAt, ItemsRead;
    if s != [] {
      if s[0] == PLUS || s[0] == MINUS || s[0] == COLON {
        var k := FindCrlf(s, 1);
        if k.Some? {
          HandedExact(copy, s, 1, k.value - 1);
        }
      } else if s[0] == DOLLAR {
        BulkShort(copy, s, 1);
        BulkExact(copy, s, 1);
        BulkBounds(s, 1);
      } else if s[0] == STAR {
        MultiExact(copy, s);
      }
    }
  }

  lemma MultiExact(copy: Copy, s: seq<byte>)
    requires 0 < |s| <= INT_MAX && s[0] == STAR
    ensures ReplyRead(copy, s) in {Ok(ParseReply(s)), Overflow, Outside}
    ensures copy == Bundled ==> ReplyRead(copy, s) != Outside
    ensures ParseReply(s).0 != Bad && SizeAt(s, 1) <= INT_MAX ==> ReplyRead(copy, s) == Ok(ParseReply(s))
  {
    hide CountAt, ItemsAt, ItemsRead, SizeAt;
    var c := CountRead(s, 1);
    if c.Ok? && c.value.n >= 0 {
      ItemsShort(copy, s, c.value.next, c.value.n);
    }
  }

  /** A reply that is accepted is read by both copies alike, as long as a count in it fits an int. */
  lemma AcceptedExact(copy: Copy, s: seq<byte>)
    requires |s| <= INT_MAX && ParseReply(s).0 != Bad && (s[0] == STAR ==> SizeAt(s, 1) <= INT_MAX)
    ensures ReplyRead(copy, s) == Ok(ParseReply(s))
  {
    hide BulkAt, BulkRead, CountAt, ItemsAt, ItemsRead;
    if s[0] == STAR {
      MultiExact(copy, s);
    } else if s[0] == DOLLAR {
      BulkShort(copy, s, 1);
      BulkExact(copy, s, 1);
    } else {
      HandedExact(copy, s, 1, FindCrlf(s, 1).value - 1);
    }
  }

  lemma {:induction false} RepliesExact(s: seq<byte>, n: nat)
    requires |s| <= INT_MAX
    ensures RepliesRead(s, n) in {Ok(ParseReplies(s, n)), Overflow}
    decreases n
  {
    hide ReplyRead, ParseReply;
    if n > 0 {
      ReplyExact(Bundled, s);
      RepliesExact(s[ParseReply(s).1..], n - 1);
    }
  }
}
