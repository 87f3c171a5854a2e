/**
 The template compiler of stream-lua-nginx-module/src/ngx_stream_lua_script.c and the engine that runs what it
 emits: two byte arrays of 8-byte words, one to add up lengths and one to copy bytes.
 */
module TemplateCode {
  import opened Arith
  import opened Basics
  import opened Template

  // ---- words in a code array ----

  function ToBytes(w: nat, n: nat): (s: seq<byte>)
    ensures |s| == n
  {
    if n == 0 then [] else [w % 256] + ToBytes(w / 256, n - 1)
  }

  function FromBytes(s: seq<byte>): nat
  {
    if s == [] then 0 else s[0] + 256 * FromBytes(s[1..])
  }

  lemma {:induction false} BytesRoundTrip(w: nat, n: nat)
    requires w < Pow(256, n)
    ensures FromBytes(ToBytes(w, n)) == w
  {
    if n > 0 {
      assert w / 256 < Pow(256, n - 1);
      BytesRoundTrip(w / 256, n - 1);
      assert ToBytes(w, n)[1..] == ToBytes(w / 256, n - 1);
    }
  }

  function WordBytes(w: nat): (s: seq<byte>)
    ensures |s| == 8
  {
    ToBytes(w, 8)
  }

  function WordAt(code: seq<byte>, ip: nat): nat
    requires ip + 8 <= |code|
  {
    FromBytes(code[ip..ip + 8])
  }

  lemma WordWritten(code: seq<byte>, w: nat, rest: seq<byte>)
    requires w < WORD
    ensures WordAt(code + WordBytes(w) + rest, |code|) == w
  {
    assert Pow(256, 8) == WORD;
    BytesRoundTrip(w, 8);
    assert (code + WordBytes(w) + rest)[|code|..|code| + 8] == WordBytes(w);
  }

  lemma WordKept(code: seq<byte>, more: seq<byte>, ip: nat)
    requires ip + 8 <= |code|
    ensures WordAt(code + more, ip) == WordAt(code, ip)
  {
    assert (code + more)[ip..ip + 8] == code[ip..ip + 8];
  }

  // ---- instructions ----

  /** A run of text, or a reference with the number as it was written. */
  datatype Instr = Copy(text: seq<byte>) | Capture(n: nat)

  // stand for the addresses of the four opcode functions
  const COPY_LEN: nat := 1
  const CAPTURE_LEN: nat := 2
  const COPY: nat := 3
  const CAPTURE: nat := 4

  function Aligned(n: nat): nat
  {
    (n + 7) / 8 * 8
  }

  function LenOp(x: Instr): nat
  {
    if x.Copy? then COPY_LEN else CAPTURE_LEN
  }

  function ValOp(x: Instr): nat
  {
    if x.Copy? then COPY else CAPTURE
  }

  function Arg(x: Instr): nat
  {
    match x case Copy(text) => |text| case Capture(n) => 2 * n % WORD
  }

  function Size(x: Instr): nat
  {
    match x case Copy(text) => 16 + Aligned(|text|) case Capture(_) => 16
  }

  /** Where instruction k of the values program starts. */
  function Off(p: seq<Instr>, k: nat): nat
    requires k <= |p|
  {
    if k == 0 then 0 else Off(p, k - 1) + Size(p[k - 1])
  }

  ghost predicate LenInstr(code: seq<byte>, ip: nat, x: Instr)
  {
    ip + 16 <= |code| && WordAt(code, ip) == LenOp(x) && WordAt(code, ip + 8) == Arg(x)
  }

  /** The text is followed by padding, whose bytes may be anything. */
  ghost predicate ValInstr(code: seq<byte>, ip: nat, x: Instr)
    ensures ValInstr(code, ip, x) ==> ip + 16 <= |code|
  {
    && ip + Size(x) <= |code|
    && WordAt(code, ip) == ValOp(x) && WordAt(code, ip + 8) == Arg(x)
    && (x.Copy? ==> code[ip + 16..ip + 16 + |x.text|] == x.text)
  }

  ghost predicate LengthsOf(code: seq<byte>, p: seq<Instr>)
  {
    |code| == 16 * |p| && forall k :: 0 <= k < |p| ==> LenInstr(code, 16 * k, p[k])
  }

  ghost predicate ValuesOf(code: seq<byte>, p: seq<Instr>)
  {
    |code| == Off(p, |p|) && forall k :: 0 <= k < |p| ==> ValInstr(code, Off(p, k), p[k])
  }

  lemma LenInstrKept(code: seq<byte>, more: seq<byte>, ip: nat, x: Instr)
    requires LenInstr(code, ip, x)
    ensures LenInstr(code + more, ip, x)
  {
    WordKept(code, more, ip);
    WordKept(code, more, ip + 8);
  }

  lemma ValInstrKept(code: seq<byte>, more: seq<byte>, ip: nat, x: Instr)
    requires ValInstr(code, ip, x)
    ensures ValInstr(code + more, ip, x)
  {
    WordKept(code, more, ip);
    WordKept(code, more, ip + 8);
    if x.Copy? {
      var n := ip + 16 + |x.text|;
      assert (code + more)[ip + 16..n] == code[ip + 16..n];
    }
  }

  lemma {:induction false} OffKept(p: seq<Instr>, q: seq<Instr>, k: nat)
    requires k <= |p|
    ensures Off(p + q, k) == Off(p, k)
  {
    if k > 0 {
      OffKept(p, q, k - 1);
    }
  }

  lemma TwoWords(code: seq<byte>, op: nat, arg: nat, rest: seq<byte>)
    requires op < WORD && arg < WORD
    ensures var all := code + WordBytes(op) + WordBytes(arg) + rest;
            WordAt(all, |code|) == op && WordAt(all, |code| + 8) == arg
  {
    var all := code + WordBytes(op) + WordBytes(arg) + rest;
    WordWritten(code, op, WordBytes(arg) + rest);
    assert all == code + WordBytes(op) + (WordBytes(arg) + rest);
    WordWritten(code + WordBytes(op), arg, rest);
  }

  function LenCode(x: Instr): (s: seq<byte>)
    ensures |s| == 16
  {
    WordBytes(LenOp(x)) + WordBytes(Arg(x))
  }

  lemma LenInstrNew(code: seq<byte>, x: Instr)
    requires Arg(x) < WORD
    ensures LenInstr(code + LenCode(x), |code|, x)
  {
    hide WordAt, WordBytes;
    TwoWords(code, LenOp(x), Arg(x), []);
    assert code + LenCode(x) == code + WordBytes(LenOp(x)) + WordBytes(Arg(x)) + [];
  }

  lemma LengthsPush(code: seq<byte>, p: seq<Instr>, x: Instr)
    requires LengthsOf(code, p) && Arg(x) < WORD
    ensures LengthsOf(code + LenCode(x), p + [x])
  {
    hide LenInstr, LenCode, Arg;
    forall k | 0 <= k < |p| + 1 ensures LenInstr(code + LenCode(x), 16 * k, (p + [x])[k]) {
      if k < |p| {
        LenInstrKept(code, LenCode(x), 16 * k, p[k]);
      } else {
        LenInstrNew(code, x);
      }
    }
  }

  function ValCode(x: Instr, tail: seq<byte>): (s: seq<byte>)
    ensures |s| == 16 + |tail|
  {
    WordBytes(ValOp(x)) + WordBytes(Arg(x)) + tail
  }

  /** What follows the two words: the text and whatever pads it. */
  ghost predicate TailOf(x: Instr, tail: seq<byte>)
  {
    16 + |tail| == Size(x) && (x.Copy? ==> x.text <= tail)
  }

  lemma ValInstrNew(code: seq<byte>, x: Instr, tail: seq<byte>)
    requires Arg(x) < WORD && TailOf(x, tail)
    ensures ValInstr(code + ValCode(x, tail), |code|, x)
  {
    hide WordAt, WordBytes, Aligned;
    TwoWords(code, ValOp(x), Arg(x), tail);
    var all := code + ValCode(x, tail);
    assert all == code + WordBytes(ValOp(x)) + WordBytes(Arg(x)) + tail;
    if x.Copy? {
      assert all[|code| + 16..|code| + 16 + |x.text|] == tail[..|x.text|];
    }
  }

  lemma ValuesPush(code: seq<byte>, p: seq<Instr>, x: Instr, tail: seq<byte>)
    requires ValuesOf(code, p) && Arg(x) < WORD && TailOf(x, tail)
    ensures ValuesOf(code + ValCode(x, tail), p + [x])
  {
    hide ValInstr, ValCode, Arg, Size;
    OffKept(p, [x], |p|);
    forall k | 0 <= k < |p| + 1 ensures ValInstr(code + ValCode(x, tail), Off(p + [x], k), (p + [x])[k]) {
      OffKept(p, [x], k);
      if k < |p| {
        ValInstrKept(code, ValCode(x, tail), Off(p, k), p[k]);
      } else {
        ValInstrNew(code, x, tail);
      }
    }
  }

  // ---- tokens of a program ----

  function Text(s: seq<byte>): (t: seq<Token>)
    ensures |t| == |s| && forall i :: 0 <= i < |s| ==> t[i] == Byte(s[i])
  {
    if s == [] then [] else [Byte(s[0])] + Text(s[1..])
  }

  function TokensOf(x: Instr): seq<Token>
  {
    match x case Copy(text) => Text(text) case Capture(n) => [Ref(n)]
  }

  function Tokens(p: seq<Instr>): seq<Token>
  {
    if p == [] then [] else Tokens(p[..|p| - 1]) + TokensOf(p[|p| - 1])
  }
}
