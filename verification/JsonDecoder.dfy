/**
 The decoder of bundle/lua-cjson-2.1.0.5/lua_cjson.c: a cursor into the text and one scratch buffer, which is made as
 large as the text, as far as an int can say so.  The decoder stops where C would write outside the buffer.
 */
module JsonDecoder {
  import opened Basics
  import JsonExact
  import JsonGrammar
  import opened JsonRoom
  import opened JsonText
  import opened Strbuf

  /** One turn of the string loop: a piece taken, the text malformed, or no room. */
  datatype Turn = Taken | Malformed | Full

  class Parser {
    const c: Numbers
    const data: seq<byte>
    const tmp: Buffer
    var ptr: nat
    var depth: nat
    var stuck: bool

    /** The decoder stops for want of room only where the text has a string too long for the buffer. */
    ghost predicate Valid()
      reads this, tmp
    {
      ptr <= |data| && tmp.Valid() && (stuck ==> Overran(data, tmp.buf.Length))
    }

    constructor (numbers: Numbers, s: seq<byte>)
      requires Scratch(|s|).Some?
      ensures Valid() && c == numbers && data == s && ptr == 0 && depth == 0 && !stuck
      ensures fresh(tmp) && fresh(tmp.buf) && tmp.buf.Length == Scratch(|s|).value
    {
      c, data, ptr, depth, stuck := numbers, s, 0, 0, false;
      tmp := new Buffer(ToInt(|s|));
    }

    /** The piece is put into the buffer, if it fits. */
    ghost predicate Took(turn: Turn, want: Option<Piece>, at: nat, before: seq<byte>)
      requires Valid()
      reads this, tmp, tmp.buf
    {
      match want
      case None => turn == Malformed
      case Some(p) =>
        if |before| + |p.bytes| > tmp.buf.Length then turn == Full
        else turn == Taken && ptr == at + p.len && tmp.Contents() == before + p.bytes
    }

    method AppendUnicodeEscape() returns (turn: Turn)
      requires Valid() && !stuck && ptr + 2 <= |data|
      modifies `ptr, tmp`length, tmp.buf
      ensures Valid() && ptr >= old(ptr) && Took(turn, UnicodeEscape(data, old(ptr)), old(ptr), old(tmp.Contents()))
    {
      hide Utf8, Hex4;
      var codepoint := Hex4(data, ptr + 2);
      if codepoint < 0 {
        return Malformed;
      }
      var escapeLen := 6;
      if 0xd800 <= codepoint <= 0xdfff {
        if codepoint >= 0xdc00 {
          return Malformed;
        }
        if At(data, ptr + 6) != BACKSLASH || At(data, ptr + 7) != U {
          return Malformed;
        }
        var low := Hex4(data, ptr + 8);
        if !(0xdc00 <= low <= 0xdfff) {
          return Malformed;
        }
        codepoint := (codepoint - 0xd800) * 1024 + (low - 0xdc00) + 0x10000;
        escapeLen := 12;
      }
      if tmp.length + |Utf8(codepoint)| > tmp.buf.Length {
        return Full;
      }
      tmp.AppendMemUnsafe(Utf8(codepoint));
      ptr := ptr + escapeLen;
      return Taken;
    }

    /** One turn of the string loop. */
    method StringTurn() returns (turn: Turn)
      requires Valid() && !stuck && ptr < |data| && data[ptr] != QUOTE
      modifies `ptr, tmp`length, tmp.buf
      ensures Valid() && ptr >= old(ptr) && Took(turn, StringPiece(data, old(ptr)), old(ptr), old(tmp.Contents()))
    {
      var ch := data[ptr];
      if ch == 0 {
        return Malformed;
      }
      if ch == BACKSLASH {
        ch := Unescape(At(data, ptr + 1));
        if ch == U {
          hide UnicodeEscape;
          turn := AppendUnicodeEscape();
          return;
        }
        if ch == 0 {
          return Malformed;
        }
        ptr := ptr + 1;
      }
      if tmp.length == tmp.buf.Length {
        return Full;
      }
      tmp.AppendCharUnsafe(ch);
      ptr := ptr + 1;
      return Taken;
    }

    /** What is left to decode, with what has been decoded put before it. */
    ghost predicate Continues(start: nat)
      requires Valid() && start <= |data|
      reads this, tmp, tmp.buf
    {
      StringFrom(data, start) ==
        match StringFrom(data, ptr)
        case None => None
        case Some(rest) => Some((tmp.Contents() + rest.0, rest.1))
    }

    /** One turn of Overruns. */
    lemma RunsOn(at: nat, held: nat)
      requires Valid() && at < |data| && data[at] != QUOTE
      ensures Overruns(data, at, held, tmp.buf.Length) ==
              match StringPiece(data, at)
              case None => false
              case Some(p) =>
                held + |p.bytes| > tmp.buf.Length
                || Overruns(data, at + p.len, held + |p.bytes|, tmp.buf.Length)
    {
      hide StringPiece;
    }

    /** The string at start is read and fits, as far as the cursor, just if it does from the cursor on. */
    ghost predicate Going(start: nat)
      requires Valid() && start <= |data|
      reads this, tmp, tmp.buf
    {
      && Continues(start)
      && Overruns(data, start, 0, tmp.buf.Length) == Overruns(data, ptr, tmp.length, tmp.buf.Length)
    }

    /** How reading the string at start has ended. */
    ghost predicate Ended(turn: Turn, start: nat)
      requires Valid() && start <= |data|
      reads this, tmp, tmp.buf
    {
      match turn
      case Taken => Going(start)
      case Malformed => StringFrom(data, start).None? && !Overruns(data, start, 0, tmp.buf.Length)
      case Full => Overruns(data, start, 0, tmp.buf.Length)
    }

    method StringStep(ghost start: nat) returns (turn: Turn)
      requires Valid() && !stuck && start <= ptr < |data| && data[ptr] != QUOTE && Going(start)
      modifies `ptr, tmp`length, tmp.buf
      ensures Valid() && ptr >= old(ptr) && Ended(turn, start) && (turn == Taken ==> ptr > old(ptr))
    {
      hide StringPiece, Overruns, StringFrom;
      ghost var before, at := tmp.Contents(), ptr;
      RunsOn(at, tmp.length);
      turn := StringTurn();
      if turn == Malformed {
        ContinuesFail(start, before, at);
      } else if turn == Taken {
        ContinuesNext(start, before, at);
      }
    }

    method StringLoop() returns (turn: Turn)
      requires Valid() && !stuck && tmp.length == 0
      modifies `ptr, tmp`length, tmp.buf
      ensures Valid() && ptr >= old(ptr) && Ended(turn, old(ptr))
      ensures turn == Taken ==> ptr == |data| || data[ptr] == QUOTE
    {
      hide Continues, Overruns;
      ContinuesStart(ptr);
      while ptr < |data| && data[ptr] != QUOTE
        invariant Valid() && !stuck && old(ptr) <= ptr && Going(old(ptr))
        decreases |data| - ptr
      {
        turn := StringStep(old(ptr));
        if turn != Taken {
          return;
        }
      }
      return Taken;
    }

    method NextStringToken() returns (tok: Token)
      requires Valid() && !stuck && ptr < |data| && data[ptr] == QUOTE
      modifies `ptr, `stuck, tmp`length, tmp.buf
      ensures Valid() && ptr >= old(ptr)
      ensures stuck <==> Overruns(data, old(ptr) + 1, 0, tmp.buf.Length)
      ensures stuck ==> tok == Error
      ensures !stuck ==>
                match StringFrom(data, old(ptr) + 1)
                case None => tok == Error
                case Some(r) => tok == TString(r.0) && ptr == r.1
    {
      ptr := ptr + 1;
      tmp.Reset();
      var turn := StringLoop();
      if turn == Taken && ptr < |data| && tmp.length == tmp.buf.Length {
        turn := Full;
      }
      if turn == Full {
        stuck := true;
        return Error;
      }
      if turn == Malformed || ptr == |data| {
        return Error;
      }
      ptr := ptr + 1;
      tmp.EnsureNull();
      tok := TString(tmp.buf[..tmp.length]);
      assert tmp.Contents() + [] == tmp.Contents();
    }

    lemma ContinuesStart(start: nat)
      requires Valid() && ptr == start && tmp.length == 0
      ensures Continues(start)
    {
      hide StringPiece;
      var r := StringFrom(data, start);
      if r.Some? {
        assert [] + r.value.0 == r.value.0;
      }
    }

    lemma ContinuesFail(start: nat, before: seq<byte>, at: nat)
      requires start <= at < |data| && data[at] != QUOTE && StringPiece(data, at).None?
      requires StringFrom(data, start) ==
               match StringFrom(data, at) case None => None case Some(rest) => Some((before + rest.0, rest.1))
      ensures StringFrom(data, start).None?
    {
      hide StringPiece;
    }

    lemma ContinuesNext(start: nat, before: seq<byte>, at: nat)
      requires Valid() && start <= at < |data| && data[at] != QUOTE && StringPiece(data, at).Some?
      requires StringFrom(data, start) ==
               match StringFrom(data, at) case None => None case Some(rest) => Some((before + rest.0, rest.1))
      requires ptr == at + StringPiece(data, at).value.len
      requires tmp.Contents() == before + StringPiece(data, at).value.bytes
      ensures Continues(start)
    {
      hide StringPiece;
      var p := StringPiece(data, at).value;
      var r := StringFrom(data, ptr);
      if r.Some? {
        assert before + (p.bytes + r.value.0) == before + p.bytes + r.value.0;
      }
    }

    method NextNumberToken() returns (tok: Token)
      requires Valid() && ptr < |data|
      modifies `ptr
      ensures Valid() && (tok, ptr) == NumberToken(c, data, old(ptr))
    {
      var r := c.parse(data[ptr..]);
      if r.None? || !(1 <= r.value.1 <= |data| - ptr) {
        return Error;
      }
      ptr := ptr + r.value.1;
      return TNumber(r.value.0);
    }

    method SkipWhitespace()
      requires Valid()
      modifies `ptr
      ensures Valid() && ptr == SkipSpace(data, old(ptr))
    {
      while ptr < |data| && Whitespace(data[ptr])
        invariant Valid() && SkipSpace(data, ptr) == SkipSpace(data, old(ptr))
      {
        ptr := ptr + 1;
      }
    }

    /** The cursor is left alone at an error; nothing reads on from there. */
    method Next() returns (tok: Token)
      requires Valid() && !stuck
      modifies `ptr, `stuck, tmp`length, tmp.buf
      ensures Valid() && ptr >= old(ptr)
      ensures stuck <==> RunsOut(data, old(ptr), tmp.buf.Length)
      ensures stuck ==> tok == Error
      ensures !stuck ==> tok == NextToken(c, data, old(ptr)).0
      ensures tok != Error ==> ptr == NextToken(c, data, old(ptr)).1
    {
      hide StringFrom, NumberToken, Overruns;
      SkipWhitespace();
      var ch := At(data, ptr);
      if ch == 0 {
        return End;
      }
      tok := if ch == 0x7b then ObjBegin else if ch == 0x7d then ObjEnd
             else if ch == 0x5b then ArrBegin else if ch == 0x5d then ArrEnd
             else if ch == COMMA then Comma else if ch == COLON then Colon else Error;
      if tok != Error {
        ptr := ptr + 1;
      } else if ch == QUOTE {
        tok := NextStringToken();
      } else if ch == 0x2d || 0x30 <= ch <= 0x39 {
        tok := NextNumberToken();
      } else if ch in {0x66, 0x69, 0x49, 0x6e, 0x4e, 0x74, 0x2b} {
        tok := NextWord();
      }
    }

    /** true, false, null, and the odd forms of numbers. */
    method NextWord() returns (tok: Token)
      requires Valid() && ptr < |data|
      modifies `ptr
      ensures Valid()
      ensures (tok, ptr) ==
              if Has(data, old(ptr), TRUE) then (TBool(true), old(ptr) + 4)
              else if Has(data, old(ptr), FALSE) then (TBool(false), old(ptr) + 5)
              else if Has(data, old(ptr), NULL) then (TNull, old(ptr) + 4)
              else if OddNumber(data, old(ptr)) then NumberToken(c, data, old(ptr))
              else (Error, old(ptr))
    {
      if Has(data, ptr, TRUE) {
        ptr := ptr + 4;
        return TBool(true);
      }
      if Has(data, ptr, FALSE) {
        ptr := ptr + 5;
        return TBool(false);
      }
      if Has(data, ptr, NULL) {
        ptr := ptr + 4;
        return TNull;
      }
      if OddNumber(data, ptr) {
        tok := NextNumberToken();
        return;
      }
      return Error;
    }

    /** What a context or a value hands back. */
    ghost predicate Result(r: Option<Value>, want: Option<Parsed>, atDepth: nat)
      reads this
    {
      match want
      case None => r.None?
      case Some(p) => r == Some(p.value) && ptr == p.next && depth == atDepth
    }

    method ProcessValue(tok: Token) returns (r: Option<Value>)
      requires Valid() && (stuck ==> tok == Error)
      modifies this, tmp, tmp.buf
      ensures Valid() && tmp.buf == old(tmp.buf) && (old(stuck) ==> stuck) && (stuck ==> r.None?)
      ensures !stuck ==> Result(r, Process(c, data, tok, old(ptr), old(depth)), old(depth))
      decreases |data| - ptr, 1
    {
      match tok
      case TString(text) => r := Some(Str(text));
      case TNumber(x) => r := Some(Number(x));
      case TBool(on) => r := Some(Bool(on));
      case TNull => r := Some(Null);
      case ObjBegin => r := ParseObject();
      case ArrBegin => r := ParseArray();
      case _ => r := None;
    }

    /** The colon and the value after a key. */
    method ParseEntry() returns (r: Option<Value>)
      requires Valid() && !stuck
      modifies this, tmp, tmp.buf
      ensures Valid() && tmp.buf == old(tmp.buf) && (stuck ==> r.None?)
      ensures !stuck ==> Result(r, EntryValue(c, data, old(ptr), old(depth)), old(depth))
      decreases |data| - ptr, 2
    {
      hide NextToken, Process, Overran, RunsOut;
      ErrorStops(c, data, depth);
      var tok := Next();
      if tok != Colon {
        return None;
      }
      tok := Next();
      r := ProcessValue(tok);
    }

    method ParseObject() returns (r: Option<Value>)
      requires Valid() && !stuck
      modifies this, tmp, tmp.buf
      ensures Valid() && tmp.buf == old(tmp.buf) && (stuck ==> r.None?)
      ensures !stuck ==> Result(r, ObjectContext(c, data, old(ptr), old(depth)), old(depth))
      decreases |data| - ptr, 0
    {
      hide NextToken, EntryValue, ObjectLoop, Overran, RunsOut, Put;
      depth := depth + 1;
      if depth > MAX_DEPTH {
        return None;
      }
      var tok := Next();
      if tok == ObjEnd {
        depth := depth - 1;
        return Some(Object([]));
      }
      var entries: seq<Entry> := [];
      ghost var d := depth;
      if !tok.TString? {
        return None;
      }
      while true
        invariant Valid() && tmp.buf == old(tmp.buf) && depth == d == old(depth) + 1
        invariant old(ptr) < ptr && tok.TString? && !stuck
        invariant ObjectContext(c, data, old(ptr), old(depth))
               == ObjectLoop(c, data, tok.text, ptr, d, entries)
        decreases |data| - ptr
      {
        var key := tok.text;
        LoopTurn(c, data, key, ptr, depth, entries);
        var v := ParseEntry();
        if v.None? {
          return None;
        }
        entries := Put(entries, key, v.value);
        tok := Next();
        if tok == ObjEnd {
          depth := depth - 1;
          return Some(Object(entries));
        }
        if tok != Comma {
          return None;
        }
        tok := Next();
        if !tok.TString? {
          return None;
        }
      }
    }

    method ParseArray() returns (r: Option<Value>)
      requires Valid() && !stuck
      modifies this, tmp, tmp.buf
      ensures Valid() && tmp.buf == old(tmp.buf) && (stuck ==> r.None?)
      ensures !stuck ==> Result(r, ArrayContext(c, data, old(ptr), old(depth)), old(depth))
      decreases |data| - ptr, 0
    {
      hide NextToken, Process, Overran, RunsOut, Put;
      ErrorStops(c, data, depth + 1);
      ErrorStopsArray(c, data, depth + 1);
      depth := depth + 1;
      if depth > MAX_DEPTH {
        return None;
      }
      var tok := Next();
      if tok == ArrEnd {
        depth := depth - 1;
        return Some(Object([]));
      }
      if tok == End || tok == Error {
        return None;
      }
      var elems: seq<Value> := [];
      ghost var d := depth;
      while true
        invariant Valid() && tmp.buf == old(tmp.buf) && depth == d == old(depth) + 1
        invariant old(ptr) < ptr && (stuck ==> tok == Error)
        invariant !stuck ==>
                    ArrayContext(c, data, old(ptr), old(depth))
                    == if tok == Error then None else ArrayLoop(c, data, tok, ptr, d, elems)
        decreases |data| - ptr
      {
        var v := ProcessValue(tok);
        if v.None? {
          return None;
        }
        elems := elems + [v.value];
        tok := Next();
        if tok == ArrEnd {
          depth := depth - 1;
          return Some(Array(elems));
        }
        if tok != Comma {
          return None;
        }
        tok := Next();
      }
    }
  }

  /** What ObjectLoop reads after a key. */
  function EntryValue(c: Numbers, s: seq<byte>, i: nat, depth: nat): (r: Option<Parsed>)
    requires i <= |s|
    ensures r.Some? ==> i < r.value.next <= |s|
  {
    var (colon, j) := NextToken(c, s, i);
    if colon != Colon then None else
      var (tok, k) := NextToken(c, s, j);
      Process(c, s, tok, k, depth)
  }

  /** One turn of ObjectLoop. */
  lemma LoopTurn(c: Numbers, s: seq<byte>, key: seq<byte>, i: nat, depth: nat, entries: seq<Entry>)
    requires i <= |s|
    ensures ObjectLoop(c, s, key, i, depth, entries) ==
            match EntryValue(c, s, i, depth)
            case None => None
            case Some(v) =>
              var now := Put(entries, key, v.value);
              var (next, l) := NextToken(c, s, v.next);
              if next == ObjEnd then Some(Parsed(Object(now), l))
              else if next != Comma then None
              else
                var (k2, m) := NextToken(c, s, l);
                if !k2.TString? then None else ObjectLoop(c, s, k2.text, m, depth, now)
  {
    hide NextToken, Process, Put;
  }

  /** Nothing is read after an error, wherever the cursor was left. */
  lemma ErrorStops(c: Numbers, s: seq<byte>, depth: nat)
    ensures forall i: nat :: i <= |s| ==> Process(c, s, Error, i, depth).None?
  {
  }

  lemma ErrorStopsArray(c: Numbers, s: seq<byte>, depth: nat)
    ensures forall i: nat, elems :: i <= |s| ==> ArrayLoop(c, s, Error, i, depth, elems).None?
  {
  }

  /** A value; an error; or the decoder stopped because an int or the scratch buffer was exceeded. */
  datatype Answer = Read(value: Value) | Invalid | OutOfRoom

  /** Below 2^31 - 1 bytes the answer is what the text says. */
  method DecodeText(c: Numbers, s: seq<byte>) returns (r: Answer)
    ensures r != OutOfRoom ==> r == match Decode(c, s) case None => Invalid case Some(v) => Read(v)
    ensures r != OutOfRoom ==> forall v :: r == Read(v) <==> JsonGrammar.TextIs(c, s, v)
    ensures |s| < INT_MAX ==> r != OutOfRoom
    ensures |s| >= 2 && s[0] == QUOTE && s[1] != 0 ==>
              (Scratch(|s|).None? || Overruns(s, 1, 0, Scratch(|s|).value) ==> r == OutOfRoom)
  {
    hide NextToken, Process, Overruns, Scratch, JsonGrammar.TextIs;
    forall v ensures Decode(c, s) == Some(v) <==> JsonGrammar.TextIs(c, s, v) {
      JsonExact.DecodeExactly(c, s, v);
    }
    ErrorStops(c, s, 0);
    ScratchExactly(|s|);
    if |s| >= 2 && (s[0] == 0 || s[1] == 0) {
      return Invalid;
    }
    if Scratch(|s|).None? {
      return OutOfRoom;
    }
    var json := new Parser(c, s);
    var tok := json.Next();
    var v := json.ProcessValue(tok);
    if json.stuck {
      return OutOfRoom;
    }
    if v.None? {
      return Invalid;
    }
    tok := json.Next();
    if json.stuck {
      return OutOfRoom;
    }
    r := if tok == End then Read(v.value) else Invalid;
  }
}
