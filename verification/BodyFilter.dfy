/**
 The streaming body filter of bundle/redis-nginx-module-0.3.7/ngx_http_redis_module.c: a value of known length
 and its CRLF arrive in chunks cut anywhere, and the value is passed on.
 */
module BodyFilter {
  import opened Basics

  const END: nat := 2

  /** strncmp(a, b, n) == 0 for a buffer a of n bytes and a string b that a zero ends. */
  predicate SameUpTo(a: seq<byte>, b: seq<byte>)
  {
    if a == [] then true
    else if b == [] then a[0] == 0
    else a[0] == b[0] && (a[0] == 0 || SameUpTo(a[1..], b[1..]))
  }

  /** length: what is still to come; rest: what of the CRLF is still to come. */
  datatype State = State(length: int, rest: int, keepalive: bool, out: seq<byte>)

  function Init(size: nat): State
  {
    State(size + END, END, false, [])
  }

  predicate Valid(s: State)
  {
    0 <= s.rest <= END && s.length >= s.rest && (s.length > s.rest ==> s.rest == END)
  }

  function Trailer(s: State, left: int): State
  {
    s.(rest := left, length := left, keepalive := s.keepalive || left == 0)
  }

  /** One chunk. */
  function Step(s: State, chunk: seq<byte>): State
    requires Valid(s)
  {
    if s.length == s.rest then
      if SameUpTo(chunk, CRLF[END - s.rest..]) then Trailer(s, s.rest - |chunk|)
      else s.(length := 0, rest := 0)
    else if |chunk| <= s.length - END then
      s.(length := s.length - |chunk|, out := s.out + chunk)
    else
      var body, tail := chunk[..s.length - END], chunk[s.length - END..];
      var t := s.(out := s.out + body);
      if SameUpTo(tail, CRLF) then Trailer(t, s.rest - |tail|) else t.(length := 0, rest := 0)
  }

  /** Chunks are fed as long as something is to come. */
  function Run(s: State, chunks: seq<seq<byte>>): State
    requires Valid(s)
    decreases |chunks|
  {
    if chunks == [] || s.length == 0 then s else
      var t := Step(s, chunks[0]);
      if Valid(t) then Run(t, chunks[1..]) else t
  }

  function Least(a: int, b: int): int
  {
    if a <= b then a else b
  }

  // ---- what has been received so far ----

  /** The value is whole and the CRLF after it is right as far as it has come. */
  predicate OnTrack(got: seq<byte>, size: nat)
  {
    |got| <= size + END && (|got| > size ==> got[size..] == CRLF[..|got| - size])
  }

  /** The state is a function of what has been received. */
  ghost predicate Inv(s: State, got: seq<byte>, size: nat)
  {
    && s.out == got[..Least(size, |got|)]
    && (s.length > 0 <==> OnTrack(got, size) && |got| < size + END)
    && (s.length > 0 ==> s.length == size + END - |got| && s.rest == Least(END, s.length))
    && (s.keepalive <==> OnTrack(got, size) && |got| == size + END)
    && (s.keepalive ==> s.length == 0 && s.rest == 0)
  }

  lemma InitInv(size: nat)
    ensures Inv(Init(size), [], size)
  {
  }

  lemma SameShort(a: seq<byte>, b: seq<byte>)
    requires |b| <= 2 && (forall i :: 0 <= i < |b| ==> b[i] != 0)
    ensures |a| <= |b| ==> (SameUpTo(a, b) <==> a == b[..|a|])
    ensures |a| > |b| ==> (SameUpTo(a, b) <==> a[..|b|] == b && a[|b|] == 0)
  {
    if a != [] && b != [] {
      assert a == [a[0]] + a[1..] && b == [b[0]] + b[1..];
      if |a| >= 2 && |b| == 2 {
        assert a[1..] == [a[1]] + a[2..] && b[1..] == [b[1]];
      }
    }
  }

  /** More bytes than were announced, the first of them zero: the one input the comparison lets through. */
  predicate Overrun(s: State, chunk: seq<byte>)
    requires Valid(s)
  {
    |chunk| > s.length && chunk[s.length] == 0 && chunk[s.length - s.rest..s.length] == CRLF[END - s.rest..]
  }

  lemma TrailerStep(s: State, got: seq<byte>, size: nat, chunk: seq<byte>)
    requires Valid(s) && Inv(s, got, size) && s.length == s.rest > 0 && chunk != []
    ensures Inv(Step(s, chunk), got + chunk, size)
    ensures Valid(Step(s, chunk)) <==> !Overrun(s, chunk)
  {
    var want := CRLF[END - s.rest..];
    SameShort(chunk, want);
    var all := got + chunk;
    assert all[..size] == got[..size];
    var n := |got| - size;
    assert got[size..] == CRLF[..n];
    assert all[size..] == CRLF[..n] + chunk;
    assert CRLF == CRLF[..n] + want;
    if |chunk| <= |want| {
      assert CRLF[..n + |chunk|] == CRLF[..n] + want[..|chunk|];
      assert all[size..] == CRLF[..n + |chunk|] <==> chunk == want[..|chunk|];
    }
  }

  lemma BodyStep(s: State, got: seq<byte>, size: nat, chunk: seq<byte>)
    requires Valid(s) && Inv(s, got, size) && s.length > s.rest && chunk != []
    ensures Inv(Step(s, chunk), got + chunk, size)
    ensures Valid(Step(s, chunk)) <==> !Overrun(s, chunk)
  {
    var all := got + chunk;
    assert got[..|got|] == got;
    var n := s.length - END;
    if |chunk| <= n {
      assert all[..|all|] == all;
    } else {
      var tail := chunk[n..];
      SameShort(tail, CRLF);
      assert all[..size] == got + chunk[..n] && all[size..] == tail;
    }
  }

  lemma StepInv(s: State, got: seq<byte>, size: nat, chunk: seq<byte>)
    requires Valid(s) && Inv(s, got, size) && s.length > 0 && chunk != []
    ensures Inv(Step(s, chunk), got + chunk, size)
    ensures Valid(Step(s, chunk)) <==> !Overrun(s, chunk)
  {
    hide Inv, Step, Overrun;
    if s.length == s.rest {
      TrailerStep(s, got, size, chunk);
    } else {
      BodyStep(s, got, size, chunk);
    }
  }

  /** A value of one byte, its CRLF and a zero byte, all in one chunk. */
  lemma ZeroByteExample()
    ensures Step(Init(1), [0x78, 13, 10, 0]) == State(-1, -1, false, [0x78])
  {
    var chunk: seq<byte> := [0x78, 13, 10, 0];
    assert chunk[..1] == [0x78] && chunk[1..] == [13, 10, 0];
    SameShort([13, 10, 0], CRLF);
    assert [13, 10, 0][..2] == CRLF;
  }

  predicate NonEmpty(chunks: seq<seq<byte>>)
  {
    forall i :: 0 <= i < |chunks| ==> chunks[i] != []
  }

  /** However a stream is cut, the filter ends in the state that belongs to the k chunks it was fed. */
  lemma {:induction false} RunFed(s: State, got: seq<byte>, size: nat, chunks: seq<seq<byte>>) returns (k: nat)
    requires Valid(s) && Inv(s, got, size) && NonEmpty(chunks)
    ensures k <= |chunks| && Inv(Run(s, chunks), got + Concat(chunks[..k]), size)
    ensures k < |chunks| ==> Run(s, chunks).length <= 0
    decreases |chunks|
  {
    hide Inv, Step;
    if chunks == [] || s.length == 0 {
      k := 0;
      assert got + Concat(chunks[..0]) == got;
    } else {
      StepInv(s, got, size, chunks[0]);
      var t := Step(s, chunks[0]);
      var rest := chunks[1..];
      var l := 0;
      if Valid(t) {
        l := RunFed(t, got + chunks[0], size, rest);
      } else {
        InvalidMeans(t, got + chunks[0], size);
        assert got + chunks[0] == got + chunks[0] + Concat(rest[..0]);
      }
      k := l + 1;
      assert Inv(Run(s, chunks), got + chunks[0] + Concat(rest[..l]), size);
      assert chunks[..k][1..] == rest[..l];
      assert got + Concat(chunks[..k]) == got + chunks[0] + Concat(rest[..l]);
    }
  }

  lemma InvalidMeans(s: State, got: seq<byte>, size: nat)
    requires Inv(s, got, size) && !Valid(s)
    ensures s.length <= 0 && Concat([]) == []
  {
  }

  lemma OnTrackPrefix(a: seq<byte>, b: seq<byte>, size: nat)
    requires OnTrack(a + b, size)
    ensures OnTrack(a, size)
  {
    if |a| > size {
      assert a[size..] == (a + b)[size..][..|a| - size];
      assert CRLF[..|a + b| - size][..|a| - size] == CRLF[..|a| - size];
    }
  }

  lemma ConcatFirst(got: seq<byte>, chunks: seq<seq<byte>>)
    requires chunks != []
    ensures got + Concat(chunks) == got + chunks[0] + Concat(chunks[1..])
  {
  }

  lemma {:induction false} ConcatSome(chunks: seq<seq<byte>>)
    requires NonEmpty(chunks) && chunks != []
    ensures Concat(chunks) != []
  {
    assert chunks[0] != [];
  }

  /** While the stream is as it should be, every chunk counts. */
  lemma {:induction false} RunTracked(s: State, got: seq<byte>, size: nat, chunks: seq<seq<byte>>)
    requires Valid(s) && Inv(s, got, size) && NonEmpty(chunks) && OnTrack(got + Concat(chunks), size)
    ensures Valid(Run(s, chunks)) && Inv(Run(s, chunks), got + Concat(chunks), size)
    decreases |chunks|
  {
    if chunks == [] {
      assert got + Concat(chunks) == got;
    } else {
      ConcatFirst(got, chunks);
      ConcatSome(chunks);
      OnTrackPrefix(got, Concat(chunks), size);
      var more := got + chunks[0];
      OnTrackPrefix(more, Concat(chunks[1..]), size);
      StepInv(s, got, size, chunks[0]);
      StepFits(s, got, size, chunks[0]);
      RunTracked(Step(s, chunks[0]), more, size, chunks[1..]);
    }
  }

  lemma StepFits(s: State, got: seq<byte>, size: nat, chunk: seq<byte>)
    requires Valid(s) && Inv(s, got, size) && s.length > 0 && OnTrack(got + chunk, size)
    ensures !Overrun(s, chunk)
  {
  }

  lemma {:induction false} RunStops(s: State, a: seq<seq<byte>>, b: seq<seq<byte>>)
    requires Valid(s) && Run(s, a).length == 0
    ensures Run(s, a + b) == Run(s, a)
    decreases |a|
  {
    hide Step;
    if a == [] {
      assert a + b == b;
    } else if s.length != 0 && Valid(Step(s, a[0])) {
      assert (a + b)[1..] == a[1..] + b;
      RunStops(Step(s, a[0]), a[1..], b);
    }
  }

  predicate IsReply(got: seq<byte>, size: nat)
  {
    |got| == size + 2 && got[size..] == [13, 10]
  }

  /** However value and CRLF are cut into chunks, exactly the value is passed on, nothing is left to come, and
      the connection is marked reusable. */
  lemma WholeValue(value: seq<byte>, chunks: seq<seq<byte>>)
    requires NonEmpty(chunks) && Concat(chunks) == value + [13, 10]
    ensures Run(Init(|value|), chunks) == State(0, 0, true, value)
  {
    InitInv(|value|);
    assert [] + Concat(chunks) == Concat(chunks);
    assert (value + CRLF)[|value|..] == CRLF && CRLF[..2] == CRLF;
    RunTracked(Init(|value|), [], |value|, chunks);
    assert (value + CRLF)[..|value|] == value;
  }

  /** Before that: what is to come is the rest of the value and the rest of the CRLF, and the connection is not
      reusable. */
  lemma PartOfValue(value: seq<byte>, chunks: seq<seq<byte>>, later: seq<byte>)
    requires NonEmpty(chunks) && Concat(chunks) + later == value + [13, 10] && later != []
    ensures var s, n := Run(Init(|value|), chunks), |Concat(chunks)|;
            && s.length == |later| && s.rest == Least(2, |later|) && !s.keepalive
            && s.out == value[..Least(|value|, n)]
            && s.length - s.rest == |value| - Least(|value|, n)
  {
    var got := Concat(chunks);
    InitInv(|value|);
    assert [] + got == got;
    assert (value + CRLF)[|value|..] == CRLF && CRLF[..2] == CRLF;
    OnTrackPrefix(got, later, |value|);
    RunTracked(Init(|value|), [], |value|, chunks);
    var k := Least(|value|, |got|);
    assert got[..k] == (got + later)[..k] == (value + CRLF)[..k] == value[..k];
  }

  lemma ReplyIsTracked(got: seq<byte>, size: nat)
    ensures IsReply(got, size) <==> OnTrack(got, size) && |got| == size + END
  {
    assert CRLF[..2] == CRLF;
  }

  /** A reply among the first chunks is enough. */
  lemma ReplyKept(size: nat, chunks: seq<seq<byte>>, l: nat)
    requires NonEmpty(chunks) && l <= |chunks| && IsReply(Concat(chunks[..l]), size)
    ensures Run(Init(size), chunks).keepalive
  {
    hide Run, OnTrack, IsReply, Concat;
    var a := chunks[..l];
    InitInv(size);
    ReplyIsTracked(Concat(a), size);
    assert [] + Concat(a) == Concat(a);
    RunTracked(Init(size), [], size, a);
    RunStops(Init(size), a, chunks[l..]);
    assert a + chunks[l..] == chunks;
  }

  /** The connection is marked reusable exactly when some of the chunks make up a value of the announced length
      and its CRLF, nothing more and nothing less. */
  lemma KeepaliveExact(size: nat, chunks: seq<seq<byte>>)
    requires NonEmpty(chunks)
    ensures Run(Init(size), chunks).keepalive
       <==> exists k :: 0 <= k <= |chunks| && IsReply(Concat(chunks[..k]), size)
  {
    hide Run, OnTrack, IsReply, Concat;
    InitInv(size);
    var k := RunFed(Init(size), [], size, chunks);
    assert [] + Concat(chunks[..k]) == Concat(chunks[..k]);
    ReplyIsTracked(Concat(chunks[..k]), size);
    if l: nat :| l <= |chunks| && IsReply(Concat(chunks[..l]), size) {
      ReplyKept(size, chunks, l);
    }
  }

  // ---- the filter as the source updates it ----

  class Filter {
    var length: int              // u->length
    var rest: int                // ctx->rest
    var keepalive: bool          // u->keepalive
    var bufs: seq<seq<byte>>     // u->out_bufs

    ghost function Now(): State
      reads this
    {
      State(length, rest, keepalive, Concat(bufs))
    }

    constructor (found: bool, size: nat)
      ensures Now() == if found then Init(size) else Init(size).(length := 0)
    {
      rest, keepalive, bufs := END, false, [];
      length := if found then size + END else 0;
    }

    /** memory says whether a buffer can be had for the chain. */
    method Feed(chunk: seq<byte>, memory: bool) returns (ok: bool)
      requires Valid(Now())
      modifies this
      ensures ok ==> Now() == Step(old(Now()), chunk)
      ensures !ok ==> !memory && Now() == old(Now())
    {
      if length == rest {
        if !SameUpTo(chunk, CRLF[END - rest..]) {
          length, rest := 0, 0;
          return true;
        }
        length := length - |chunk|;
        rest := rest - |chunk|;
        if length == 0 {
          keepalive := true;
        }
        return true;
      }
      if !memory {
        return false;
      }
      if |chunk| <= length - END {
        ConcatLast(bufs, chunk);
        bufs := bufs + [chunk];
        length := length - |chunk|;
        return true;
      }
      var body, tail := chunk[..length - END], chunk[length - END..];
      ConcatLast(bufs, body);
      bufs := bufs + [body];
      if !SameUpTo(tail, CRLF) {
        length, rest := 0, 0;
        return true;
      }
      rest := rest - |tail|;
      length := rest;
      if length == 0 {
        keepalive := true;
      }
      return true;
    }
  }

  lemma {:induction false} ConcatLast(chunks: seq<seq<byte>>, x: seq<byte>)
    ensures Concat(chunks + [x]) == Concat(chunks) + x
  {
    if chunks == [] {
      assert [] + [x] == [x];
    } else {
      assert (chunks + [x])[1..] == chunks[1..] + [x];
      ConcatLast(chunks[1..], x);
    }
  }
}
