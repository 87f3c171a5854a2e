/** Compiling a template: ngx_stream_lua_compile_complex_value and the scanner and emitters below it. */
module TemplateCompiler {
  import opened Arith
  import opened Ascii
  import opened Basics
  import opened Template
  import opened TemplateCode

  function Dollars(s: seq<byte>, i: nat): (n: nat)
    requires i <= |s|
  {
    if i == 0 then 0 else Dollars(s, i - 1) + if s[i - 1] == DOLLAR then 1 else 0
  }

  lemma {:induction false} DollarsGrow(s: seq<byte>, i: nat, j: nat)
    requires i <= j <= |s|
    ensures Dollars(s, i) <= Dollars(s, j)
    ensures i < j && s[i] == DOLLAR ==> Dollars(s, i) < Dollars(s, j)
  {
    if i < j {
      DollarsGrow(s, i, j - 1);
    }
  }

  lemma {:induction false} DollarsNone(s: seq<byte>, i: nat)
    requires i <= |s| && Dollars(s, |s|) == 0
    ensures DOLLAR !in s[..i]
  {
    if i > 0 {
      DollarsNone(s, i - 1);
      DollarsGrow(s, i - 1, |s|);
      assert s[..i] == s[..i - 1] + [s[i - 1]];
    }
  }

  lemma {:induction false} TextParse(s: seq<byte>, i: nat, j: nat)
    requires i <= j <= |s| && forall k :: i <= k < j ==> s[k] != DOLLAR
    ensures Parse(s, i) == Then(Text(s[i..j]), Parse(s, j))
    decreases j - i
  {
    if i == j {
      ThenNothing(Parse(s, j));
    } else {
      TextParse(s, i + 1, j);
      assert s[i..j] == [s[i]] + s[i + 1..j];
      ThenThen([Byte(s[i])], Text(s[i + 1..j]), Parse(s, j));
      assert Text(s[i..j]) == [Byte(s[i])] + Text(s[i + 1..j]);
    }
  }

  lemma ThenNothing(r: Option<seq<Token>>)
    ensures Then([], r) == r
  {
    if r.Some? {
      assert [] + r.value == r.value;
    }
  }

  lemma ThenThen(a: seq<Token>, b: seq<Token>, r: Option<seq<Token>>)
    ensures Then(a, Then(b, r)) == Then(a + b, r)
  {
    if r.Some? {
      assert a + (b + r.value) == (a + b) + r.value;
    }
  }

  lemma TokensPush(p: seq<Instr>, x: Instr)
    ensures Tokens(p + [x]) == Tokens(p) + TokensOf(x)
  {
    assert (p + [x])[..|p|] == p;
  }

  /** Where the scanner is: the program stands for what was read. */
  ghost predicate Scanned(s: seq<byte>, p: seq<Instr>, i: nat)
  {
    i <= |s| && Parse(s, 0) == Then(Tokens(p), Parse(s, i))
  }

  lemma ScannedMore(s: seq<byte>, p: seq<Instr>, i: nat, x: Instr, j: nat)
    requires Scanned(s, p, i) && j <= |s| && Parse(s, i) == Then(TokensOf(x), Parse(s, j))
    ensures Scanned(s, p + [x], j)
  {
    TokensPush(p, x);
    ThenThen(Tokens(p), TokensOf(x), Parse(s, j));
  }

  /** The loop over a name: i, len and n as the source has them when it ends. */
  method ScanName(s: seq<byte>, start: nat, open: bool, numeric: bool)
    returns (i: nat, bracket: bool, len: nat, n: nat)
    requires start < |s| && (numeric ==> Digit(s[start]))
    ensures start <= i <= |s|
    ensures numeric ==>
              var j := RunEnd(s, start);
              var closed := open && j < |s| && s[j] == CLOSE;
              && len == j - start && n == DecimalOf(s[start..j]) % WORD
              && i == (if closed then j + 1 else j) && bracket == (open && !closed)
  {
    i, bracket, len, n := start, open, 0, 0;
    while i < |s|
      invariant start <= i <= |s| && bracket == open
      invariant numeric ==> RunEnd(s, start) == RunEnd(s, i) && len == i - start
      invariant numeric ==> n == DecimalOf(s[start..i]) % WORD
      invariant forall k :: start <= k < i && numeric ==> Digit(s[k])
    {
      var ch: int := s[i];
      if ch == CLOSE && bracket {
        i := i + 1;
        bracket := false;
        break;
      }
      if numeric {
        if !Digit(s[i]) {
          break;
        }
        DecimalStep(s, start, i);
        n := (n * 10 + (ch - 0x30)) % WORD;
      } else if !(0x41 <= ch <= 0x5a || 0x61 <= ch <= 0x7a || Digit(s[i]) || ch == 0x5f) {
        break;
      }
      i, len := i + 1, len + 1;
    }
  }

  lemma DecimalStep(s: seq<byte>, i: nat, j: nat)
    requires i <= j < |s| && forall k :: i <= k <= j ==> Digit(s[k])
    ensures var d: int := s[j]; var n := DecimalOf(s[i..j]);
            DecimalOf(s[i..j + 1]) == 10 * n + (d - 0x30) && DecimalOf(s[i..j + 1]) % WORD == (n % WORD * 10 + (d - 0x30)) % WORD
  {
    assert s[i..j + 1][..j - i] == s[i..j];
    var d: int := s[j];
    WrapStep(DecimalOf(s[i..j]), d - 0x30);
  }

  lemma WrapStep(n: nat, d: nat)
    ensures (10 * n + d) % WORD == (n % WORD * 10 + d) % WORD
  {
    var q, r := n / WORD, n % WORD;
    assert 10 * n + d == (r * 10 + d) + (10 * q) * WORD;
    WrapPlus(r * 10 + d, 10 * q);
  }

  lemma WrapPlus(a: nat, q: nat)
    ensures (a + q * WORD) % WORD == a % WORD
  {
    var e := a / WORD;
    DivModUnique(a + q * WORD, WORD, e + q, a % WORD);
  }

  /** Doubling what was kept of n is what is kept of its double. */
  lemma DoubleKept(n: nat)
    ensures 2 * (n % WORD) % WORD == 2 * n % WORD
  {
    var q, r := n / WORD, n % WORD;
    assert 2 * n == 2 * r + (2 * q) * WORD;
    WrapPlus(2 * r, 2 * q);
  }

  /** The emitter and the engine pad alike. */
  lemma AlignedText(n: nat)
    ensures Aligned(16 + n) == 16 + Aligned(n) && Aligned(n) >= n
  {
  }

  /** The bytes of fresh memory, which may be anything. */
  method Garbage(n: nat) returns (s: seq<byte>)
    ensures |s| == n
  {
    s := [];
    while |s| < n
      invariant |s| <= n
    {
      var b: byte := *;
      s := s + [b];
    }
  }

  method TextEnd(s: seq<byte>, start: nat) returns (i: nat)
    requires start <= |s|
    ensures start <= i <= |s| && (i < |s| ==> s[i] == DOLLAR)
    ensures forall k :: start <= k < i ==> s[k] != DOLLAR
  {
    i := start;
    while i < |s| && s[i] != DOLLAR
      invariant start <= i <= |s|
      invariant forall k :: start <= k < i ==> s[k] != DOLLAR
    {
      i := i + 1;
    }
  }

  class Compiler {
    const source: seq<byte>
    const room: nat              // bytes reserved for each program
    const memory: bool           // whether the values program may outgrow its reservation
    var lengths: seq<byte>
    var values: seq<byte>
    ghost var program: seq<Instr>

    ghost predicate Valid()
      reads this
    {
      && LengthsOf(lengths, program) && ValuesOf(values, program)
      && |lengths| <= room
    }

    constructor (s: seq<byte>, n: nat, ok: bool)
      ensures Valid() && program == [] && source == s && room == n && memory == ok
    {
      source, room, memory := s, n, ok;
      lengths, values, program := [], [], [];
    }

    method AddCopyCode(text: seq<byte>) returns (ok: bool)
      requires Valid() && |text| < WORD && |lengths| + 16 <= room
      modifies this
      ensures ok ==> Valid() && program == old(program) + [Copy(text)]
      ensures !ok ==> !memory
    {
      hide LengthsOf, ValuesOf, Aligned, LenCode, ValCode;
      AlignedText(|text|);
      var x := Copy(text);
      lengths := lengths + LenCode(x);
      var size := Aligned(16 + |text|);
      if |values| + size > room && !memory {
        return false;
      }
      var rest := Garbage(size - 16 - |text|);
      values := values + ValCode(x, text + rest);
      LengthsPush(old(lengths), program, x);
      ValuesPush(old(values), program, x, text + rest);
      program := program + [x];
      return true;
    }

    method AddCaptureCode(n: nat, ghost written: nat) returns (ok: bool)
      requires Valid() && |lengths| + 16 <= room && n == written % WORD
      modifies this
      ensures ok ==> Valid() && program == old(program) + [Capture(written)]
      ensures !ok ==> !memory
    {
      ghost var x := Capture(written);
      DoubleKept(written);
      var arg := 2 * n % WORD;
      lengths := lengths + (WordBytes(CAPTURE_LEN) + WordBytes(arg));
      if |values| + 16 > room && !memory {
        return false;
      }
      values := values + (WordBytes(CAPTURE) + WordBytes(arg) + []);
      LengthsPush(old(lengths), program, x);
      ValuesPush(old(values), program, x, []);
      program := program + [x];
      return true;
    }

    /** One literal run, as long as it can be. */
    method ScanText(start: nat) returns (ok: bool, i: nat)
      requires Valid() && |source| < WORD && |lengths| + 16 <= room
      requires Scanned(source, program, start) && start < |source| && source[start] != DOLLAR
      modifies this
      ensures !ok ==> !memory
      ensures ok ==> && Valid() && start < i <= |source| && (i < |source| ==> source[i] == DOLLAR)
                     && Scanned(source, program, i) && |program| == old(|program|) + 1
    {
      hide Parse, LengthsOf, ValuesOf, Scanned;
      i := TextEnd(source, start);
      ok := AddCopyCode(source[start..i]);
      TextParse(source, start, i);
      ScannedMore(source, old(program), start, Copy(source[start..i]), i);
    }

    /** What follows a dollar sign. */
    method ScanDollar(start: nat) returns (ok: bool, i: nat)
      requires Valid() && |source| < WORD && |lengths| + 16 <= room
      requires Scanned(source, program, start) && start < |source| && source[start] == DOLLAR
      modifies this
      ensures !ok ==> !memory || Parse(source, 0).None?
      ensures ok ==> && Valid() && start < i <= |source|
                     && Scanned(source, program, i) && |program| == old(|program|) + 1
    {
      hide LengthsOf, ValuesOf, DecimalOf, Tokens, RunEnd;
      i := start + 1;
      if i == |source| {
        return false, i;
      }
      if source[i] == DOLLAR {
        i := i + 1;
        ok := AddCopyCode([DOLLAR]);
        assert TokensOf(Copy([DOLLAR])) == [Byte(DOLLAR)];
        ScannedMore(source, old(program), start, Copy([DOLLAR]), i);
        return;
      }
      ok, i := ScanReference(start);
    }

    /** A reference, `$n` or `${n}`; named ones are refused. */
    method ScanReference(start: nat) returns (ok: bool, i: nat)
      requires Valid() && |source| < WORD && |lengths| + 16 <= room
      requires Scanned(source, program, start) && start + 1 < |source|
      requires source[start] == DOLLAR && source[start + 1] != DOLLAR
      modifies this
      ensures !ok ==> !memory || Parse(source, 0).None?
      ensures ok ==> && Valid() && start < i <= |source|
                     && Scanned(source, program, i) && |program| == old(|program|) + 1
    {
      hide LengthsOf, ValuesOf, DecimalOf, Tokens;
      i := start + 1;
      var numeric, open := Digit(source[i]), false;
      if source[i] == OPEN {
        open := true;
        i := i + 1;
        if i == |source| {
          return false, i;
        }
        numeric := Digit(source[i]);
      }
      var first := i;
      var bracket, len, n;
      i, bracket, len, n := ScanName(source, first, open, numeric);
      if bracket || len == 0 || !numeric {
        return false, i;
      }
      ghost var written := DecimalOf(source[first..RunEnd(source, first)]);
      ok := AddCaptureCode(n, written);
      ScannedMore(source, old(program), start, Capture(written), i);
    }

    /** The whole scan.  Every instruction is paid for by a dollar sign, so the lengths program never outgrows
        what was reserved for it. */
    method Scan() returns (ok: bool)
      requires Valid() && |source| < WORD && program == []
      requires Dollars(source, |source|) >= 1 && room == 48 * Dollars(source, |source|) + 8
      modifies this
      ensures !ok ==> !memory || Parse(source, 0).None?
      ensures ok ==> && Valid() && Parse(source, 0) == Some(Tokens(program))
                     && |lengths| + 8 <= room
    {
      hide Parse, ValuesOf, Scanned;
      ScanStart(source);
      var i := 0;
      while i < |source|
        invariant i <= |source| && Valid() && Scanned(source, program, i)
        invariant |program| <= 2 * Dollars(source, i) + 1
        invariant i < |source| && source[i] != DOLLAR ==> |program| <= 2 * Dollars(source, i)
      {
        var start := i;
        DollarsGrow(source, start, |source|);
        if source[i] == DOLLAR {
          ok, i := ScanDollar(start);
        } else {
          ok, i := ScanText(start);
        }
        if !ok {
          return;
        }
        DollarsGrow(source, start, i);
      }
      ScanEnd(source, program);
      ok := true;
    }
  }

  lemma ScanStart(s: seq<byte>)
    ensures Scanned(s, [], 0)
  {
    ThenNothing(Parse(s, 0));
  }

  lemma ScanEnd(s: seq<byte>, p: seq<Instr>)
    requires Scanned(s, p, |s|)
    ensures Parse(s, 0) == Some(Tokens(p))
  {
    assert Tokens(p) + [] == Tokens(p);
  }

  /** A finished program ends in a zero word. */
  ghost predicate LengthsProgram(code: seq<byte>, p: seq<Instr>)
  {
    |code| >= 8 && LengthsOf(code[..|code| - 8], p) && WordAt(code, |code| - 8) == 0
  }

  ghost predicate ValuesProgram(code: seq<byte>, p: seq<Instr>)
  {
    |code| >= 8 && ValuesOf(code[..|code| - 8], p) && WordAt(code, |code| - 8) == 0
  }

  datatype Compiled = Plain(text: seq<byte>) | Code(lengths: seq<byte>, values: seq<byte>)

  /** The result is the code for the template it was made from. */
  ghost predicate CodeFor(c: Compiled, s: seq<byte>, p: seq<Instr>)
  {
    match c
    case Plain(text) => text == s && DOLLAR !in s
    case Code(lengths, values) =>
      && Parse(s, 0) == Some(Tokens(p))
      && LengthsProgram(lengths, p) && ValuesProgram(values, p)
  }

  /** Compilation fails only for text that is no template, or for want of memory, and never because the lengths
      program outgrew its reservation. */
  method CompileComplexValue(s: seq<byte>, memory: bool) returns (r: Option<Compiled>, ghost p: seq<Instr>)
    requires |s| < WORD
    ensures r.Some? ==> Parse(s, 0).Some? && CodeFor(r.value, s, p)
    ensures r.None? ==> !memory || Parse(s, 0).None?
    ensures r.Some? && r.value.Code? ==> |r.value.lengths| <= 48 * Dollars(s, |s|) + 8
  {
    hide LengthsOf, ValuesOf;
    p := [];
    var nv := CountDollars(s);
    if nv == 0 {
      DollarsNone(s, |s|);
      assert s[..|s|] == s;
      NoDollars(s, 0);
      return Some(Plain(s)), p;
    }
    var sc := new Compiler(s, 48 * nv + 8, memory);
    var ok := sc.Scan();
    if !ok || (|sc.values| + 8 > sc.room && !memory) {
      return None, p;
    }
    p := sc.program;
    Terminated(sc.lengths);
    Terminated(sc.values);
    r := Some(Code(sc.lengths + WordBytes(0), sc.values + WordBytes(0)));
  }

  method CountDollars(s: seq<byte>) returns (n: nat)
    ensures n == Dollars(s, |s|)
  {
    n := 0;
    for i := 0 to |s|
      invariant n == Dollars(s, i)
    {
      if s[i] == DOLLAR {
        n := n + 1;
      }
    }
  }

  lemma {:induction false} NoDollars(s: seq<byte>, i: nat)
    requires i <= |s| && DOLLAR !in s
    ensures Parse(s, i).Some?
    decreases |s| - i
  {
    if i < |s| {
      NoDollars(s, i + 1);
    }
  }

  lemma Terminated(code: seq<byte>)
    ensures var all := code + WordBytes(0); all[..|all| - 8] == code && WordAt(all, |all| - 8) == 0
  {
    WordWritten(code, 0, []);
    assert code + WordBytes(0) + [] == code + WordBytes(0);
  }
}
