/** Running compiled templates: ngx_stream_lua_complex_value and its opcodes. */
module TemplateEngine {
  import opened Arith
  import opened Basics
  import opened Memory
  import opened Template
  import opened TemplateCode
  import opened TemplateCompiler
  import TT = TemplateText

  // ---- what a program puts out ----

  function OutOf(x: Instr, m: Match): seq<byte>
    requires MatchOk(m)
  {
    match x case Copy(text) => text case Capture(n) => Group(m, n % HALF)
  }

  function Outs(p: seq<Instr>, k: nat, m: Match): seq<byte>
    requires MatchOk(m) && k <= |p|
  {
    if k == 0 then [] else Outs(p, k - 1, m) + OutOf(p[k - 1], m)
  }

  lemma {:induction false} OutsGrow(p: seq<Instr>, k: nat, l: nat, m: Match)
    requires MatchOk(m) && k <= l <= |p|
    ensures |Outs(p, k, m)| <= |Outs(p, l, m)|
  {
    hide MatchOk, OutOf;
    if k < l {
      OutsGrow(p, k, l - 1, m);
    }
  }

  lemma {:induction false} ExpandText(s: seq<byte>, m: Match)
    requires MatchOk(m)
    ensures Expand(KeptAll(Text(s)), m) == s
  {
    if s != [] {
      ExpandText(s[1..], m);
      assert KeptAll(Text(s))[1..] == KeptAll(Text(s[1..]));
      assert s == [s[0]] + s[1..];
    }
  }

  lemma ExpandOne(x: Instr, m: Match)
    requires MatchOk(m)
    ensures Expand(KeptAll(TokensOf(x)), m) == OutOf(x, m)
  {
    match x
    case Copy(text) => ExpandText(text, m);
    case Capture(n) =>
      var t := KeptAll([Ref(n)]);
      assert t == [Ref(n % HALF)] && t[1..] == [];
  }

  /** A program puts out the expansion of its tokens. */
  lemma {:induction false} OutsExpand(p: seq<Instr>, m: Match)
    requires MatchOk(m)
    ensures Outs(p, |p|, m) == Expand(KeptAll(Tokens(p)), m)
  {
    if p != [] {
      var q, x := p[..|p| - 1], p[|p| - 1];
      OutsExpand(q, m);
      OutsPrefix(p, |p| - 1, m);
      ExpandOne(x, m);
      KeptAppend(Tokens(q), TokensOf(x));
      ExpandAppend(KeptAll(Tokens(q)), KeptAll(TokensOf(x)), m);
    }
  }

  lemma {:induction false} OutsPrefix(p: seq<Instr>, k: nat, m: Match)
    requires MatchOk(m) && k <= |p|
    ensures forall l :: k <= l <= |p| ==> Outs(p[..l], k, m) == Outs(p, k, m)
  {
    if k > 0 {
      OutsPrefix(p, k - 1, m);
    }
  }

  // ---- the opcodes ----

  /** The length of the group an argument names. */
  method GroupLength(arg: nat, m: Match, ghost n: nat) returns (len: nat)
    requires MatchOk(m) && arg == 2 * n % WORD
    ensures len == |Group(m, n % HALF)|
  {
    GroupArg(n);
    if arg < 2 * m.count {
      assert GroupOk(m, n % HALF);
      return m.offsets[arg + 1] - m.offsets[arg];
    }
    return 0;
  }

  lemma GroupArg(n: nat)
    ensures 2 * n % WORD == 2 * (n % HALF)
  {
    var q, r := n / HALF, n % HALF;
    assert 2 * n == 2 * r + q * WORD;
    DivModUnique(2 * n, WORD, q, 2 * r);
  }

  /** The first loop: adds up lengths, stepping from instruction to instruction. */
  method RunLengths(code: seq<byte>, m: Match, ghost p: seq<Instr>) returns (len: nat)
    requires MatchOk(m) && LengthsProgram(code, p)
    ensures len == |Outs(p, |p|, m)|
  {
    hide MatchOk, WordAt, LengthsProgram, Group;
    var ip := 0;
    len := 0;
    ghost var k := 0;
    AtLength(code, p, 0);
    while WordAt(code, ip) != 0
      invariant k <= |p| && ip == 16 * k && ip + 8 <= |code|
      invariant len == |Outs(p, k, m)|
      invariant if k < |p| then LenInstr(code, ip, p[k]) else WordAt(code, ip) == 0
      decreases |p| - k
    {
      var op, arg := WordAt(code, ip), WordAt(code, ip + 8);
      if op == COPY_LEN {
        len := len + arg;
      } else {
        assert op == CAPTURE_LEN;
        var more := GroupLength(arg, m, p[k].n);
        len := len + more;
      }
      ip := ip + 16;
      k := k + 1;
      AtLength(code, p, k);
    }
  }

  lemma AtLength(code: seq<byte>, p: seq<Instr>, k: nat)
    requires LengthsProgram(code, p) && k <= |p|
    ensures 16 * k + 8 <= |code|
    ensures if k < |p| then LenInstr(code, 16 * k, p[k]) else WordAt(code, 16 * k) == 0
  {
    hide WordAt, Arg;
    var n := |code| - 8;
    assert code == code[..n] + code[n..];
    if k < |p| {
      LenInstrKept(code[..n], code[n..], 16 * k, p[k]);
    }
  }

  lemma AtValue(code: seq<byte>, p: seq<Instr>, k: nat)
    requires ValuesProgram(code, p) && k <= |p|
    ensures Off(p, k) + 8 <= |code|
    ensures if k < |p| then ValInstr(code, Off(p, k), p[k]) else WordAt(code, Off(p, k)) == 0
  {
    hide WordAt, ValInstr;
    var n := |code| - 8;
    assert code == code[..n] + code[n..];
    if k < |p| {
      ValInstrKept(code[..n], code[n..], Off(p, k), p[k]);
    }
  }

  /** Where the engine stands: at the start of an instruction, or at the final zero. */
  lemma AtInstr(code: seq<byte>, p: seq<Instr>, k: nat)
    requires ValuesProgram(code, p) && k <= |p|
    ensures var ip := Off(p, k);
            && ip + 8 <= |code|
            && (k == |p| ==> WordAt(code, ip) == 0)
            && (k < |p| ==>
                  && ip + 16 <= |code| && ValInstr(code, ip, p[k]) && WordAt(code, ip) != 0
                  && ip + Advance(WordAt(code, ip), WordAt(code, ip + 8)) == Off(p, k + 1))
  {
    hide WordAt, ValuesProgram, Size, Advance, ValInstr;
    AtValue(code, p, k);
    if k < |p| {
      ValInstrStart(code, Off(p, k), p[k]);
    }
  }

  /** The second loop: writes the bytes, every one of them inside the buffer. */
  method RunValues(code: seq<byte>, m: Match, buf: array<byte>, ghost p: seq<Instr>)
    requires MatchOk(m) && ValuesProgram(code, p) && buf.Length == |Outs(p, |p|, m)|
    modifies buf
    ensures buf[..] == Outs(p, |p|, m)
  {
    hide MatchOk, WordAt, OutOf, ValuesProgram, ValInstr, Size, Advance;
    var ip, pos := 0, 0;
    ghost var k := 0;
    AtInstr(code, p, 0);
    while WordAt(code, ip) != 0
      invariant k <= |p| && ip == Off(p, k) && ip + 8 <= |code|
      invariant pos == |Outs(p, k, m)| && pos <= buf.Length && buf[..pos] == Outs(p, k, m)
      invariant if k < |p| then WordAt(code, ip) != 0 else WordAt(code, ip) == 0
      decreases |p| - k
    {
      OutsGrow(p, k + 1, |p|, m);
      AtInstr(code, p, k);
      pos := Execute(code, ip, m, buf, pos, p[k]);
      ip := ip + Advance(WordAt(code, ip), WordAt(code, ip + 8));
      k := k + 1;
      AtInstr(code, p, k);
    }
  }

  lemma ValInstrStart(code: seq<byte>, ip: nat, x: Instr)
    requires ValInstr(code, ip, x)
    ensures ip + 16 <= |code| && WordAt(code, ip) != 0
    ensures Advance(WordAt(code, ip), WordAt(code, ip + 8)) == Size(x)
  {
  }

  /** How far an opcode of the values program moves on. */
  function Advance(op: nat, arg: nat): nat
  {
    if op == COPY then 16 + Aligned(arg) else 16
  }

  method Execute(code: seq<byte>, ip: nat, m: Match, buf: array<byte>, pos: nat, ghost x: Instr) returns (end: nat)
    requires MatchOk(m) && ValInstr(code, ip, x)
    requires pos + |OutOf(x, m)| <= buf.Length
    modifies buf
    ensures end == pos + |OutOf(x, m)| && buf[..end] == old(buf[..pos]) + OutOf(x, m)
  {
    var op, arg := WordAt(code, ip), WordAt(code, ip + 8);
    if op == COPY {
      end := CopyBytes(buf, pos, code[ip + 16..ip + 16 + arg]);
    } else {
      assert op == CAPTURE;
      GroupArg(x.n);
      end := pos;
      if arg < 2 * m.count {
        assert GroupOk(m, x.n % HALF);
        var a, b := m.offsets[arg], m.offsets[arg + 1];
        if a < b {
          end := CopyBytes(buf, pos, m.subject[a..b]);
        }
      }
    }
  }

  /** What is added to the result for one match: the subject up to the match, then the expansion. */
  method ComplexValue(m: Match, offset: nat, c: Compiled, ghost s: seq<byte>, ghost p: seq<Instr>)
    returns (added: seq<byte>)
    requires MatchOk(m) && m.count >= 1 && offset <= m.offsets[0] <= |m.subject|
    requires CodeFor(c, s, p)
    ensures Parse(s, 0).Some?
    ensures added == m.subject[offset..m.offsets[0]] + Expand(KeptAll(Parse(s, 0).value), m)
    ensures forall ps :: TT.PartsOk(ps) && TT.Spell(ps) == s ==>
              added == m.subject[offset..m.offsets[0]] + TT.ReplacedAll(ps, m)
  {
    forall ps | TT.PartsOk(ps) && TT.Spell(ps) == s
      ensures Parse(s, 0).Some? && Expand(KeptAll(Parse(s, 0).value), m) == TT.ReplacedAll(ps, m)
    {
      TT.TemplateReplaced(ps, m);
    }
    var before := m.subject[offset..m.offsets[0]];
    if c.Plain? {
      PlainText(s, 0, m);
      PlainKept(s, 0);
      return before + c.text;
    }
    var len := RunLengths(c.lengths, m, p);
    var buf := new byte[len];
    RunValues(c.values, m, buf, p);
    OutsExpand(p, m);
    return before + buf[..];
  }

  lemma {:induction false} PlainKept(s: seq<byte>, i: nat)
    requires i <= |s| && DOLLAR !in s
    ensures Parse(s, i).Some? && KeptAll(Parse(s, i).value) == Parse(s, i).value
    decreases |s| - i
  {
    if i < |s| {
      PlainKept(s, i + 1);
    }
  }
}
