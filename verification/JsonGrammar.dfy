/**
 JSON texts byte for byte (section 2 of RFC 4627), with what bundle/lua-cjson-2.1.0.5/lua_cjson.c takes beyond them: any
 value at the top, control characters in strings, the numbers that strtod reads, and whatever follows a zero byte.
 */
module JsonGrammar {
  import opened Basics
  import opened JsonText
  import opened JsonRoundTrip

  // ---- white space, words and numbers ----

  predicate Blank(b: byte)
  {
    b == 0x20 || b == 0x09 || b == 0x0a || b == 0x0d
  }

  predicate Blanks(s: seq<byte>, i: nat, j: nat)
  {
    i <= j <= |s| && forall k :: i <= k < j ==> Blank(s[k])
  }

  /** A letter of either case. */
  predicate Letter(b: byte, lower: byte)
  {
    b == lower || (lower >= 0x61 && b == lower - 0x20)
  }

  /** A minus sign, a digit, a plus sign, or "inf" or "nan" in letters of either case. */
  predicate NumberStart(s: seq<byte>, i: nat)
    requires i < |s|
  {
    || s[i] == 0x2d || 0x30 <= s[i] <= 0x39 || s[i] == 0x2b
    || (i + 3 <= |s| && Letter(s[i], 0x69) && Letter(s[i + 1], 0x6e) && Letter(s[i + 2], 0x66))
    || (i + 3 <= |s| && Letter(s[i], 0x6e) && Letter(s[i + 1], 0x61) && Letter(s[i + 2], 0x6e))
  }

  // ---- strings ----

  const HEX: seq<byte> :=
    [0x30, 0x31, 0x32, 0x33, 0x34, 0x35, 0x36, 0x37, 0x38, 0x39, 0x61, 0x62, 0x63, 0x64, 0x65, 0x66]

  /** A backslash, the letter u and four hexadecimal digits. */
  function Unit(u: nat): seq<byte>
    requires u < 0x1_0000
  {
    [0x5c, 0x75, HEX[u / 4096], HEX[u / 256 % 16], HEX[u / 16 % 16], HEX[u % 16]]
  }

  /** The escape of a code point: one unit, or two surrogates. */
  function Escaped(cp: nat): seq<byte>
    requires cp <= 0x10_ffff
  {
    if cp < 0x1_0000 then Unit(cp)
    else Unit(0xd800 + (cp - 0x1_0000) / 1024) + Unit(0xdc00 + (cp - 0x1_0000) % 1024)
  }

  /** The byte after a backslash, and the byte the two stand for. */
  const SHORT: set<(byte, byte)> :=
    {(0x22, 0x22), (0x5c, 0x5c), (0x2f, 0x2f), (0x62, 0x08), (0x66, 0x0c), (0x6e, 0x0a), (0x72, 0x0d), (0x74, 0x09)}

  /** The n bytes at i are one character of a string and stand for the bytes u. */
  ghost predicate CharIs(s: seq<byte>, i: nat, n: nat, u: seq<byte>)
  {
    && i + n <= |s|
    && ( || (n == 1 && s[i] != 0 && s[i] != 0x22 && s[i] != 0x5c && u == [s[i]])
         || (n == 2 && s[i] == 0x5c && |u| == 1 && (s[i + 1], u[0]) in SHORT)
         || (exists cp :: Scalar(cp) && n == |Escaped(cp)| && Has(Folded(s), i, Escaped(cp)) && u == Utf8(cp)))
  }

  /** From i to j there are characters that stand for text, and the closing quote. */
  ghost predicate CharsAre(s: seq<byte>, i: nat, j: nat, text: seq<byte>)
    decreases |text|
  {
    if text == [] then i < |s| && s[i] == 0x22 && j == i + 1
    else exists n, u :: u != [] && CharIs(s, i, n, u) && u <= text && CharsAre(s, i + n, j, text[|u|..])
  }

  ghost predicate StringIs(s: seq<byte>, i: nat, j: nat, text: seq<byte>)
  {
    i < |s| && s[i] == 0x22 && CharsAre(s, i + 1, j, text)
  }

  // ---- values ----

  /** The bytes from i to j are the value v, inside that many tables. */
  ghost predicate ValueIs(c: Numbers, s: seq<byte>, i: nat, j: nat, v: Value, depth: nat)
    decreases j - i, 1
  {
    && i < j <= |s|
    && match v
       case Null => s[i..j] == [0x6e, 0x75, 0x6c, 0x6c]
       case Bool(on) => s[i..j] == if on then [0x74, 0x72, 0x75, 0x65] else [0x66, 0x61, 0x6c, 0x73, 0x65]
       case Number(x) => NumberStart(s, i) && c.parse(s[i..]) == Some((x, j - i))
       case Str(text) => StringIs(s, i, j, text)
       case Array(elems) =>
         depth < 1000 && s[i] == 0x5b && s[j - 1] == 0x5d && i + 1 < j && ElemsAre(c, s, i + 1, j - 1, elems, depth + 1)
       case Object(entries) =>
         && depth < 1000 && i + 1 < j
         && ( || (s[i] == 0x5b && s[j - 1] == 0x5d && Blanks(s, i + 1, j - 1) && entries == [])
              || (s[i] == 0x7b && s[j - 1] == 0x7d && Blanks(s, i + 1, j - 1) && entries == [])
              || (s[i] == 0x7b && s[j - 1] == 0x7d && MembersAre(c, s, i + 1, j - 1, [], entries, depth + 1)))
       case _ => false
  }

  /** Where a value starts and ends, and where the white space after it ends. */
  datatype Place = Place(a: nat, b: nat, d: nat)

  ghost predicate ElemIs(c: Numbers, s: seq<byte>, i: nat, j: nat, p: Place, v: Value, depth: nat)
    decreases j - i, 2
  {
    && i <= p.a < p.b <= p.d <= j
    && Blanks(s, i, p.a) && ValueIs(c, s, p.a, p.b, v, depth) && Blanks(s, p.b, p.d)
  }

  /** From i to j there are these values, at least one, with commas between them. */
  ghost predicate ElemsAre(c: Numbers, s: seq<byte>, i: nat, j: nat, elems: seq<Value>, depth: nat)
    decreases j - i, 3
  {
    && elems != []
    && exists p ::
         && ElemIs(c, s, i, j, p, elems[0], depth)
         && if |elems| == 1 then p.d == j
            else i <= p.d < j <= |s| && s[p.d] == 0x2c && ElemsAre(c, s, p.d + 1, j, elems[1..], depth)
  }

  /** Where a key starts and ends, where the colon is, and the value. */
  datatype Member = Member(a: nat, b: nat, colon: nat, key: seq<byte>, value: Value, p: Place)

  ghost predicate MemberIs(c: Numbers, s: seq<byte>, i: nat, j: nat, m: Member, depth: nat)
    decreases j - i, 2
  {
    && Blanks(s, i, m.a) && StringIs(s, m.a, m.b, m.key) && Blanks(s, m.b, m.colon)
    && i <= m.colon < j <= |s| && s[m.colon] == 0x3a
    && ElemIs(c, s, m.colon + 1, j, m.p, m.value, depth)
  }

  /** A key that is there already keeps its place and gets the new value. */
  ghost predicate Takes(done: seq<Entry>, key: seq<byte>, v: Value, now: seq<Entry>)
  {
    || ((forall k :: 0 <= k < |done| ==> done[k].key != key) && now == done + [Entry(key, v)])
    || (exists k :: 0 <= k < |done| && done[k].key == key && (forall l :: 0 <= l < k ==> done[l].key != key)
                    && now == done[k := Entry(key, v)])
  }

  /** From i to j there are members, at least one, with commas between them, that make entries of what is done. */
  ghost predicate MembersAre(c: Numbers, s: seq<byte>, i: nat, j: nat, done: seq<Entry>, entries: seq<Entry>, depth: nat)
    decreases j - i, 3
  {
    exists m, now ::
      && MemberIs(c, s, i, j, m, depth) && Takes(done, m.key, m.value, now)
      && if m.p.d == j then entries == now
         else i <= m.p.d < j <= |s| && s[m.p.d] == 0x2c && MembersAre(c, s, m.p.d + 1, j, now, entries, depth)
  }

  /** A text for v: white space, the value, white space, and the end of the text or a zero byte. */
  ghost predicate TextIs(c: Numbers, s: seq<byte>, v: Value)
  {
    && !(|s| >= 2 && (s[0] == 0 || s[1] == 0))
    && exists p :: ElemIs(c, s, 0, |s|, p, v, 0) && (p.d == |s| || s[p.d] == 0)
  }

  // ---- strings are read exactly ----

  lemma HexSame(n: nat)
    requires n < 16
    ensures HEX[n] == HexDigit(n)
  {
  }

  lemma UnitSame(u: nat)
    requires u < 0x1_0000
    ensures Unit(u) == HexUnit(u)
  {
    hide HexDigit;
    HexSame(u / 4096);
    HexSame(u / 256 % 16);
    HexSame(u / 16 % 16);
    HexSame(u % 16);
  }

  lemma EscapedSame(cp: nat)
    requires cp <= 0x10_ffff
    ensures Escaped(cp) == Utf16Escape(cp) && |Escaped(cp)| >= 6 && Escaped(cp)[0] == 0x5c && Escaped(cp)[1] == 0x75
  {
    hide HexUnit;
    if cp < 0x1_0000 {
      UnitSame(cp);
    } else {
      UnitSame(0xd800 + (cp - 0x1_0000) / 1024);
      UnitSame(0xdc00 + (cp - 0x1_0000) % 1024);
    }
  }

  /** An escape starts with a backslash and the letter u, folded or not. */
  lemma EscapedThere(s: seq<byte>, i: nat, cp: nat)
    requires cp <= 0x10_ffff && Has(Folded(s), i, Escaped(cp))
    ensures i + 6 <= |s| && s[i] == 0x5c && s[i + 1] == 0x75
  {
    hide Escaped, Has;
    EscapedSame(cp);
    HasLength(Folded(s), i, Escaped(cp));
    HasAt(Folded(s), i, Escaped(cp), 0);
    HasAt(Folded(s), i, Escaped(cp), 1);
  }

  lemma HasLength(s: seq<byte>, i: nat, t: seq<byte>)
    requires Has(s, i, t)
    ensures i + |t| <= |s|
  {
  }

  lemma ShortExactly(a: byte, b: byte)
    ensures (a, b) in SHORT <==> a != 0x75 && b != 0 && Unescape(a) == b
  {
  }

  /** The string loop takes exactly a character. */
  lemma PieceExactly(s: seq<byte>, i: nat, n: nat, u: seq<byte>)
    requires i < |s| && s[i] != 0x22
    ensures StringPiece(s, i) == Some(Piece(u, n)) <==> CharIs(s, i, n, u)
  {
    hide Utf8, Has, Folded, UnicodeEscape, Escaped, Unescape;
    forall cp | Scalar(cp) && Has(Folded(s), i, Escaped(cp)) ensures i + 6 <= |s| && s[i] == 0x5c && s[i + 1] == 0x75 {
      EscapedThere(s, i, cp);
    }
    if s[i] == 0x5c && i + 1 < |s| {
      UnescapeU(s[i + 1]);
      if s[i + 1] == 0x75 {
        UnicodeExactly(s, i, n, u);
        LongEscapes();
      } else if |u| == 1 {
        ShortExactly(s[i + 1], u[0]);
        assert u == [u[0]];
      } else {
        assert !CharIs(s, i, n, u);
      }
    } else {
      UnescapeZero();
    }
  }

  lemma UnescapeU(b: byte)
    ensures Unescape(b) == 0x75 <==> b == 0x75
  {
  }

  lemma UnescapeZero()
    ensures Unescape(0) == 0
  {
  }

  lemma LongEscapes()
    ensures (forall cp :: Scalar(cp) ==> |Escaped(cp)| >= 6) && forall b :: (0x75, b) !in SHORT
  {
    forall cp | Scalar(cp) ensures |Escaped(cp)| >= 6 {
      EscapedSame(cp);
    }
  }

  lemma UnicodeExactly(s: seq<byte>, i: nat, n: nat, u: seq<byte>)
    requires i + 2 <= |s| && s[i] == 0x5c && s[i + 1] == 0x75
    ensures UnicodeEscape(s, i) == Some(Piece(u, n)) <==>
      i + n <= |s| && exists cp :: Scalar(cp) && n == |Escaped(cp)| && Has(Folded(s), i, Escaped(cp)) && u == Utf8(cp)
  {
    hide Utf8, Has, Folded, UnicodeEscape, Escaped, Utf16Escape;
    EscapeExactly(s, i);
    forall cp | Scalar(cp) ensures Escaped(cp) == Utf16Escape(cp) {
      EscapedSame(cp);
    }
  }

  lemma {:induction false} CharsRead(s: seq<byte>, i: nat, j: nat, text: seq<byte>)
    requires i <= |s| && CharsAre(s, i, j, text)
    ensures StringFrom(s, i) == Some((text, j))
    decreases |text|
  {
    hide StringPiece, CharIs;
    if text != [] {
      var n, u :| u != [] && CharIs(s, i, n, u) && u <= text && CharsAre(s, i + n, j, text[|u|..]);
      CharInside(s, i, n, u);
      PieceExactly(s, i, n, u);
      CharsRead(s, i + n, j, text[|u|..]);
      assert u + text[|u|..] == text;
    }
  }

  lemma CharInside(s: seq<byte>, i: nat, n: nat, u: seq<byte>)
    requires CharIs(s, i, n, u) && u != []
    ensures i < i + n <= |s| && s[i] != 0x22
  {
    hide Has, Folded, Escaped, Utf8;
    LongEscapes();
    if n != 1 && n != 2 {
      var cp :| Scalar(cp) && n == |Escaped(cp)| && Has(Folded(s), i, Escaped(cp));
      EscapedThere(s, i, cp);
    }
  }

  lemma {:induction false} CharsOf(s: seq<byte>, i: nat)
    requires i <= |s| && StringFrom(s, i).Some?
    ensures CharsAre(s, i, StringFrom(s, i).value.1, StringFrom(s, i).value.0)
    decreases |s| - i
  {
    hide StringPiece, CharIs;
    if s[i] != 0x22 {
      var p := StringPiece(s, i).value;
      PieceExactly(s, i, p.len, p.bytes);
      CharsOf(s, i + p.len);
      var (text, j) := StringFrom(s, i).value;
      var rest := StringFrom(s, i + p.len).value.0;
      assert text == p.bytes + rest && text[|p.bytes|..] == rest;
    }
  }

  /** A string is read exactly if there is one. */
  lemma StringExactly(s: seq<byte>, i: nat, j: nat, text: seq<byte>)
    requires i < |s| && s[i] == 0x22
    ensures StringFrom(s, i + 1) == Some((text, j)) <==> StringIs(s, i, j, text)
  {
    hide StringFrom, CharsAre;
    if StringFrom(s, i + 1).Some? {
      CharsOf(s, i + 1);
    }
    if StringIs(s, i, j, text) {
      CharsRead(s, i + 1, j, text);
    }
  }

  // ---- tokens ----

  /** Where the white space at i ends. */
  lemma {:induction false} SpaceIsBlank(s: seq<byte>, i: nat)
    requires i <= |s|
    ensures var a := SkipSpace(s, i); Blanks(s, i, a) && (a < |s| ==> !Blank(s[a]))
    decreases |s| - i
  {
    if i < |s| && Whitespace(s[i]) {
      SpaceIsBlank(s, i + 1);
    }
  }

  lemma {:induction false} SpaceSame(s: seq<byte>, i: nat, a: nat)
    requires Blanks(s, i, a)
    ensures SkipSpace(s, i) == SkipSpace(s, a)
    decreases a - i
  {
    if i < a {
      SpaceSame(s, i + 1, a);
      assert Blank(s[i]);
    }
  }

  /** White space changes nothing. */
  lemma BlanksSkipped(c: Numbers, s: seq<byte>, i: nat, a: nat)
    requires Blanks(s, i, a)
    ensures NextToken(c, s, i) == NextToken(c, s, a)
  {
    hide SkipSpace, StringFrom, Has, OddNumber, NumberToken;
    SpaceSame(s, i, a);
  }

  /** What the bytes from a to j are, for each token. */
  ghost predicate TokenIs(c: Numbers, s: seq<byte>, a: nat, j: nat, tok: Token)
  {
    match tok
    case ObjBegin => a < |s| && s[a] == 0x7b && j == a + 1
    case ObjEnd => a < |s| && s[a] == 0x7d && j == a + 1
    case ArrBegin => a < |s| && s[a] == 0x5b && j == a + 1
    case ArrEnd => a < |s| && s[a] == 0x5d && j == a + 1
    case Comma => a < |s| && s[a] == 0x2c && j == a + 1
    case Colon => a < |s| && s[a] == 0x3a && j == a + 1
    case End => a <= |s| && (a == |s| || s[a] == 0) && j == a
    case TString(text) => StringIs(s, a, j, text)
    case TNumber(x) => a < j <= |s| && NumberStart(s, a) && c.parse(s[a..]) == Some((x, j - a))
    case TBool(on) => Has(s, a, if on then [0x74, 0x72, 0x75, 0x65] else [0x66, 0x61, 0x6c, 0x73, 0x65])
                      && j == a + if on then 4 else 5
    case TNull => Has(s, a, [0x6e, 0x75, 0x6c, 0x6c]) && j == a + 4
    case Error => false
  }

  /** The bytes with which words and odd numbers start. */
  lemma WordStarts(s: seq<byte>, a: nat)
    ensures Has(s, a, [0x74, 0x72, 0x75, 0x65]) ==> a + 4 <= |s| && s[a] == 0x74
    ensures Has(s, a, [0x66, 0x61, 0x6c, 0x73, 0x65]) ==> a + 5 <= |s| && s[a] == 0x66
    ensures Has(s, a, [0x6e, 0x75, 0x6c, 0x6c]) ==> a + 4 <= |s| && s[a] == 0x6e && s[a + 1] == 0x75
  {
    var t: seq<byte>, f: seq<byte> := [0x74, 0x72, 0x75, 0x65], [0x66, 0x61, 0x6c, 0x73, 0x65];
    var n: seq<byte> := [0x6e, 0x75, 0x6c, 0x6c];
    if Has(s, a, t) {
      HasAt(s, a, t, 0);
    }
    if Has(s, a, f) {
      HasAt(s, a, f, 0);
    }
    if Has(s, a, n) {
      HasAt(s, a, n, 0);
      HasAt(s, a, n, 1);
    }
  }

  /** Whether a number starts there, when it starts with neither a minus sign nor a digit. */
  lemma OddExactly(s: seq<byte>, a: nat)
    requires a < |s| && s[a] != 0x2d && !(0x30 <= s[a] <= 0x39)
    ensures OddNumber(s, a) <==> NumberStart(s, a)
    ensures NumberStart(s, a) ==> s[a] in {0x69, 0x49, 0x6e, 0x4e, 0x2b}
    ensures NumberStart(s, a) && s[a] == 0x6e ==> a + 1 < |s| && s[a + 1] != 0x75
  {
  }

  lemma NumberExactly(c: Numbers, s: seq<byte>, a: nat, j: nat, x: real)
    requires a < |s|
    ensures NumberToken(c, s, a) == (TNumber(x), j) <==> a < j <= |s| && c.parse(s[a..]) == Some((x, j - a))
    ensures NumberToken(c, s, a).0.TNumber? || NumberToken(c, s, a).0 == Error
  {
  }

  lemma NumberSigns(s: seq<byte>, a: nat)
    requires a < |s|
    ensures s[a] == 0x2d || 0x30 <= s[a] <= 0x39 ==> NumberStart(s, a)
    ensures NumberStart(s, a) ==> s[a] in {0x2d, 0x69, 0x49, 0x6e, 0x4e, 0x2b} || 0x30 <= s[a] <= 0x39
  {
  }

  /** A token is read exactly if it is there. */
  lemma TokenExactly(c: Numbers, s: seq<byte>, a: nat, j: nat, tok: Token)
    requires a <= |s| && (a < |s| ==> !Blank(s[a])) && tok != Error
    ensures NextToken(c, s, a) == (tok, j) <==> TokenIs(c, s, a, j, tok)
  {
    hide Has, StringFrom, CharsAre, OddNumber, NumberStart, NumberToken;
    WordStarts(s, a);
    if a < |s| {
      NumberSigns(s, a);
      if s[a] == 0x22 {
        if tok.TString? {
          StringExactly(s, a, j, tok.text);
        }
      } else if s[a] == 0x2d || 0x30 <= s[a] <= 0x39 {
        NumberExactly(c, s, a, j, if tok.TNumber? then tok.x else 0.0);
      } else if s[a] in {0x66, 0x69, 0x49, 0x6e, 0x4e, 0x74, 0x2b} {
        LetterExactly(c, s, a, j, tok);
      }
    }
  }

  lemma LetterExactly(c: Numbers, s: seq<byte>, a: nat, j: nat, tok: Token)
    requires a < |s| && s[a] in {0x66, 0x69, 0x49, 0x6e, 0x4e, 0x74, 0x2b} && tok != Error
    ensures NextToken(c, s, a) == (tok, j) <==> TokenIs(c, s, a, j, tok)
  {
    hide Has, StringFrom, CharsAre, OddNumber, NumberStart, NumberToken;
    WordStarts(s, a);
    OddExactly(s, a);
    NumberExactly(c, s, a, j, if tok.TNumber? then tok.x else 0.0);
  }
}
