/**
 The Redis serialization protocol as bundle/lua-redis-parser-0.13/redis-parser.c and
 stream-lua-nginx-module/src/ngx_stream_lua_redis_parser.c read it, and as redis_build_query writes it.
 */
module Resp {
  import opened Ascii
  import opened Basics

  const CR: byte := 13
  const LF: byte := 10
  const MINUS: byte := 0x2d
  const PLUS: byte := 0x2b
  const COLON: byte := 0x3a
  const DOLLAR: byte := 0x24
  const STAR: byte := 0x2a

  // ---- reading ----

  predicate Crlf(s: seq<byte>, k: nat)
  {
    k + 1 < |s| && s[k] == CR && s[k + 1] == LF
  }

  /** Where the first CRLF at or after i is. */
  function FindCrlf(s: seq<byte>, i: nat): (r: Option<nat>)
    ensures r.Some? ==> i <= r.value && Crlf(s, r.value)
    ensures forall k :: i <= k && (r.Some? ==> k < r.value) ==> !Crlf(s, k)
    decreases if i <= |s| then |s| - i else 0
  {
    if i + 1 >= |s| then None else if Crlf(s, i) then Some(i) else FindCrlf(s, i + 1)
  }

  /** A value, nil if there is none, and where the input goes on. */
  datatype Item = Item(value: Option<seq<byte>>, next: nat)

  /** A bulk string, the dollar sign being before i. */
  function BulkAt(s: seq<byte>, i: nat): (r: Option<Item>)
    ensures r.Some? ==> i + 2 <= r.value.next <= |s|
  {
    if i >= |s| then None
    else if s[i] == MINUS then
      var j := RunEnd(s, i + 1);
      if Crlf(s, j) then Some(Item(None, j + 2)) else None
    else
      var j := RunEnd(s, i);
      if !Crlf(s, j) then None else
        var p, size := j + 2, DecimalOf(s[i..j]);
        if Crlf(s, p + size) then Some(Item(Some(s[p..p + size]), p + size + 2)) else None
  }

  /** An element of a multi-bulk reply. */
  function ItemAt(s: seq<byte>, i: nat): (r: Option<Item>)
    ensures r.Some? ==> i + 3 <= r.value.next <= |s|
  {
    if i >= |s| then None
    else if s[i] == PLUS || s[i] == MINUS || s[i] == COLON then
      match FindCrlf(s, i + 1)
      case None => None
      case Some(k) => Some(Item(Some(s[i + 1..k]), k + 2))
    else if s[i] == DOLLAR then BulkAt(s, i + 1)
    else None
  }

  datatype Items = Items(values: seq<Option<seq<byte>>>, next: nat)

  function ItemsAt(s: seq<byte>, i: nat, n: nat): (r: Option<Items>)
    ensures r.Some? ==> |r.value.values| == n && i <= r.value.next && (n > 0 || i <= |s| ==> r.value.next <= |s|)
    decreases n
  {
    if n == 0 then Some(Items([], i)) else
      match ItemAt(s, i)
      case None => None
      case Some(x) =>
        match ItemsAt(s, x.next, n - 1)
        case None => None
        case Some(rest) => Some(Items([x.value] + rest.values, rest.next))
  }

  function FirstCr(s: seq<byte>, i: nat): (k: nat)
    requires i <= |s|
    ensures i <= k <= |s| && (k < |s| ==> s[k] == CR)
    ensures forall j :: i <= j < k ==> s[j] != CR
    decreases |s| - i
  {
    if i == |s| || s[i] == CR then i else FirstCr(s, i + 1)
  }

  datatype Count = Count(n: int, next: nat)

  /** The count of a multi-bulk reply, -1 for nil, the star being before i. */
  function CountAt(s: seq<byte>, i: nat): (r: Option<Count>)
    ensures r.Some? ==> i + 2 <= r.value.next <= |s| && r.value.n >= -1
  {
    if i >= |s| then None else
      var j := RunEnd(s, i);
      if Crlf(s, j) then Some(Count(DecimalOf(s[i..j]), j + 2))
      else if j + 1 < |s| && s[j] == MINUS && Digit(s[j + 1]) then
        var k := FirstCr(s, j + 1);
        if Crlf(s, k) then Some(Count(-1, k + 2)) else None
      else None
  }

  datatype Reply =
    | Bad
    | Status(text: seq<byte>)
    | Failure(text: seq<byte>)
    | Integer(text: seq<byte>)
    | Bulk(value: Option<seq<byte>>)
    | MultiBulk(values: Option<seq<Option<seq<byte>>>>)

  /** The reply at the front of the input, and how much of the input it takes. */
  function ParseReply(s: seq<byte>): (r: (Reply, nat))
    ensures r.1 <= |s| && (r.0 == Bad <==> r.1 == 0)
  {
    if s == [] then (Bad, 0)
    else if s[0] == PLUS || s[0] == MINUS || s[0] == COLON then
      match FindCrlf(s, 1)
      case None => (Bad, 0)
      case Some(k) =>
        var text := s[1..k];
        (if s[0] == PLUS then Status(text) else if s[0] == MINUS then Failure(text) else Integer(text), k + 2)
    else if s[0] == DOLLAR then
      match BulkAt(s, 1) case None => (Bad, 0) case Some(x) => (Bulk(x.value), x.next)
    else if s[0] == STAR then
      match CountAt(s, 1)
      case None => (Bad, 0)
      case Some(c) =>
        if c.n < 0 then (MultiBulk(None), c.next) else
          match ItemsAt(s, c.next, c.n)
          case None => (Bad, 0)
          case Some(xs) => (MultiBulk(Some(xs.values)), xs.next)
    else (Bad, 0)
  }

  /** n replies, one after the other; a bad one is not stepped over. */
  function ParseReplies(s: seq<byte>, n: nat): (r: seq<Reply>)
    ensures |r| == n
    decreases n
  {
    if n == 0 then [] else
      var (x, k) := ParseReply(s);
      [x] + ParseReplies(s[k..], n - 1)
  }

  // ---- what follows an accepted reply does not matter ----

  /** Two inputs that agree up to n. */
  predicate Agree(s: seq<byte>, t: seq<byte>, n: nat)
  {
    n <= |s| && n <= |t| && s[..n] == t[..n]
  }

  lemma AgreeAt(s: seq<byte>, t: seq<byte>, n: nat)
    requires Agree(s, t, n)
    ensures forall k :: 0 <= k < n ==> s[k] == t[k]
    ensures forall k :: 0 <= k && k + 2 <= n ==> Crlf(s, k) == Crlf(t, k)
  {
    forall k | 0 <= k < n ensures s[k] == t[k] {
      assert s[..n][k] == t[..n][k];
    }
  }

  lemma {:induction false} FindCrlfLocal(s: seq<byte>, t: seq<byte>, i: nat)
    requires FindCrlf(s, i).Some? && Agree(s, t, FindCrlf(s, i).value + 2)
    ensures FindCrlf(t, i) == FindCrlf(s, i)
  {
    var k := FindCrlf(s, i).value;
    AgreeAt(s, t, k + 2);
    FindCrlfIs(t, i, k);
  }

  lemma {:induction false} FindCrlfIs(s: seq<byte>, i: nat, k: nat)
    requires i <= k && Crlf(s, k) && forall j :: i <= j < k ==> !Crlf(s, j)
    ensures FindCrlf(s, i) == Some(k)
    decreases k - i
  {
    if i < k {
      FindCrlfIs(s, i + 1, k);
    }
  }

  lemma SameSlice(s: seq<byte>, t: seq<byte>, n: nat, a: nat, b: nat)
    requires Agree(s, t, n) && a <= b <= n
    ensures s[a..b] == t[a..b]
  {
    assert s[a..b] == s[..n][a..b] && t[a..b] == t[..n][a..b];
  }

  lemma RunEndLocal(s: seq<byte>, t: seq<byte>, n: nat, i: nat)
    requires Agree(s, t, n) && i <= |s| && RunEnd(s, i) < n
    ensures i <= |t| && RunEnd(t, i) == RunEnd(s, i)
  {
    AgreeAt(s, t, n);
    RunEndIs(t, i, RunEnd(s, i));
  }

  lemma BulkLocal(s: seq<byte>, t: seq<byte>, i: nat)
    requires BulkAt(s, i).Some? && Agree(s, t, BulkAt(s, i).value.next)
    ensures BulkAt(t, i) == BulkAt(s, i)
  {
    var n := BulkAt(s, i).value.next;
    AgreeAt(s, t, n);
    if s[i] == MINUS {
      RunEndLocal(s, t, n, i + 1);
    } else {
      RunEndLocal(s, t, n, i);
      var j := RunEnd(s, i);
      SameSlice(s, t, n, i, j);
      SameSlice(s, t, n, j + 2, n - 2);
    }
  }

  lemma ItemLocal(s: seq<byte>, t: seq<byte>, i: nat)
    requires ItemAt(s, i).Some? && Agree(s, t, ItemAt(s, i).value.next)
    ensures ItemAt(t, i) == ItemAt(s, i)
  {
    hide BulkAt;
    var n := ItemAt(s, i).value.next;
    AgreeAt(s, t, n);
    if s[i] == DOLLAR {
      BulkLocal(s, t, i + 1);
    } else {
      FindCrlfLocal(s, t, i + 1);
      SameSlice(s, t, n, i + 1, n - 2);
    }
  }

  lemma AgreeLess(s: seq<byte>, t: seq<byte>, n: nat, m: nat)
    requires Agree(s, t, n) && m <= n
    ensures Agree(s, t, m)
  {
    SameSlice(s, t, n, 0, m);
  }

  lemma {:induction false} ItemsLocal(s: seq<byte>, t: seq<byte>, i: nat, n: nat)
    requires i <= |s| && ItemsAt(s, i, n).Some? && Agree(s, t, ItemsAt(s, i, n).value.next)
    ensures ItemsAt(t, i, n) == ItemsAt(s, i, n)
    decreases n
  {
    hide ItemAt, Agree;
    if n > 0 {
      var x := ItemAt(s, i).value;
      AgreeLess(s, t, ItemsAt(s, i, n).value.next, x.next);
      ItemLocal(s, t, i);
      ItemsLocal(s, t, x.next, n - 1);
    }
  }

  lemma CountLocal(s: seq<byte>, t: seq<byte>, i: nat)
    requires CountAt(s, i).Some? && Agree(s, t, CountAt(s, i).value.next)
    ensures CountAt(t, i) == CountAt(s, i)
  {
    var n := CountAt(s, i).value.next;
    AgreeAt(s, t, n);
    var j := RunEnd(s, i);
    RunEndLocal(s, t, n, i);
    SameSlice(s, t, n, i, j);
    if !Crlf(s, j) {
      var k := FirstCr(s, j + 1);
      FirstCrIs(t, j + 1, k);
    }
  }

  lemma {:induction false} FirstCrIs(s: seq<byte>, i: nat, k: nat)
    requires i <= k < |s| && s[k] == CR && forall j :: i <= j < k ==> s[j] != CR
    ensures FirstCr(s, i) == k
    decreases k - i
  {
    if i < k {
      FirstCrIs(s, i + 1, k);
    }
  }

  /** An accepted reply is the same reply, of the same length, whatever follows it. */
  lemma ReplyLocal(s: seq<byte>, t: seq<byte>)
    requires ParseReply(s).0 != Bad && Agree(s, t, ParseReply(s).1)
    ensures ParseReply(t) == ParseReply(s)
  {
    hide BulkAt, CountAt, ItemsAt;
    var n := ParseReply(s).1;
    AgreeAt(s, t, n);
    if s[0] == PLUS || s[0] == MINUS || s[0] == COLON {
      FindCrlfLocal(s, t, 1);
      SameSlice(s, t, n, 1, n - 2);
    } else if s[0] == DOLLAR {
      BulkLocal(s, t, 1);
    } else {
      var c := CountAt(s, 1).value;
      if c.n >= 0 {
        ItemsLocal(s, t, c.next, c.n);
      }
      AgreeLess(s, t, n, c.next);
      CountLocal(s, t, 1);
    }
  }

  // ---- a stream of replies ----

  /** A reply that takes the whole input. */
  predicate Whole(s: seq<byte>)
  {
    ParseReply(s).0 != Bad && ParseReply(s).1 == |s|
  }

  /** Well-formed replies put one after the other are told apart, whatever comes after them. */
  lemma {:induction false} RepliesSplit(ts: seq<seq<byte>>, rest: seq<byte>)
    requires forall i :: 0 <= i < |ts| ==> Whole(ts[i])
    ensures ParseReplies(Concat(ts) + rest, |ts|) == seq(|ts|, i requires 0 <= i < |ts| => ParseReply(ts[i]).0)
  {
    hide ParseReply;
    if ts != [] {
      var s := Concat(ts) + rest;
      var more := Concat(ts[1..]) + rest;
      assert s == ts[0] + more;
      assert ts[0][..|ts[0]|] == s[..|ts[0]|];
      assert Whole(ts[0]);
      ReplyLocal(ts[0], s);
      assert s[|ts[0]|..] == more;
      RepliesSplit(ts[1..], rest);
    }
  }
}
