/** Decoding undoes encoding. */
module JsonRoundTrip {
  import opened Basics
  import opened JsonText

  // ---- strings ----

  lemma HexBack(n: nat)
    requires n < 16
    ensures HexValue(HexDigit(n)) == n
  {
  }

  /** What stands for a byte is read back as that byte. */
  lemma ByteBack(s: seq<byte>, i: nat, b: byte)
    requires Has(s, i, EncByte(b))
    ensures i < |s| && s[i] != QUOTE && StringPiece(s, i) == Some(Piece([b], |EncByte(b)|))
  {
    var e := EncByte(b);
    HasAt(s, i, e, 0);
    if |e| >= 2 {
      HasAt(s, i, e, 1);
    }
    if |e| == 6 {
      HasAt(s, i, e, 2);
      HasAt(s, i, e, 3);
      HasAt(s, i, e, 4);
      HasAt(s, i, e, 5);
      HexBack(b / 16);
      HexBack(b % 16);
    }
  }

  /** One turn of the string loop. */
  lemma StringTurn(s: seq<byte>, i: nat, b: byte, n: nat, rest: seq<byte>, end: nat)
    requires i < |s| && s[i] != QUOTE && StringPiece(s, i) == Some(Piece([b], n)) && i + n <= |s|
    requires StringFrom(s, i + n) == Some((rest, end))
    ensures StringFrom(s, i) == Some(([b] + rest, end))
  {
    hide StringPiece;
  }

  lemma StringEnd(s: seq<byte>, i: nat)
    requires i < |s| && s[i] == QUOTE
    ensures StringFrom(s, i) == Some(([], i + 1))
  {
  }

  lemma BytesStep(text: seq<byte>, k: nat)
    requires k < |text|
    ensures |EncBytes(text, k + 1)| == |EncBytes(text, k)| + |EncByte(text[k])|
  {
    hide EncByte;
  }

  lemma {:induction false} StringBack(s: seq<byte>, i: nat, text: seq<byte>, k: nat)
    requires k <= |text| && Has(s, i, EncBytes(text, |text|) + [QUOTE])
    ensures i + |EncBytes(text, k)| <= |s|
    ensures StringFrom(s, i + |EncBytes(text, k)|) == Some((text[k..], i + |EncBytes(text, |text|)| + 1))
    decreases |text| - k
  {
    hide Has, StringPiece, EncByte, EncBytes, StringFrom;
    HasParts(s, i, EncBytes(text, |text|), [QUOTE]);
    var p := i + |EncBytes(text, k)|;
    if k == |text| {
      HasAt(s, p, [QUOTE], 0);
      StringEnd(s, p);
      assert text[k..] == [];
    } else {
      BytesStep(text, k);
      StringBack(s, i, text, k + 1);
      HasBytes(s, i, text, k + 1);
      ByteBack(s, p, text[k]);
      StringTurn(s, p, text[k], |EncByte(text[k])|, text[k + 1..], i + |EncBytes(text, |text|)| + 1);
      assert text[k..] == [text[k]] + text[k + 1..];
    }
  }

  lemma {:induction false} HasBytes(s: seq<byte>, i: nat, text: seq<byte>, k: nat)
    requires 1 <= k <= |text| && Has(s, i, EncBytes(text, |text|))
    ensures Has(s, i, EncBytes(text, k))
    ensures Has(s, i + |EncBytes(text, k - 1)|, EncByte(text[k - 1]))
    decreases |text| - k
  {
    hide Has, EncByte;
    if k < |text| {
      HasBytes(s, i, text, k + 1);
      HasParts(s, i, EncBytes(text, k), EncByte(text[k]));
    }
    HasParts(s, i, EncBytes(text, k - 1), EncByte(text[k - 1]));
  }

  lemma StringTokenBack(c: Numbers, s: seq<byte>, i: nat, text: seq<byte>)
    requires Has(s, i, EncString(text))
    ensures NextToken(c, s, i) == (TString(text), i + |EncString(text)|)
  {
    hide Has, StringFrom, EncBytes;
    var body := EncBytes(text, |text|);
    HasAt(s, i, EncString(text), 0);
    assert EncString(text) == [QUOTE] + (body + [QUOTE]);
    HasParts(s, i, [QUOTE], body + [QUOTE]);
    StringBack(s, i + 1, text, 0);
    assert text[0..] == text;
  }

  // ---- code points ----

  /** The code point that a UTF-8 sequence stands for (section 3 of RFC 3629). */
  function CodePoint(u: seq<byte>): int
    requires 1 <= |u| <= 4
  {
    var a: int := u[0];
    if |u| == 1 then a else
      var b: int := u[1];
      if |u| == 2 then (a - 0xc0) * 64 + (b - 0x80) else
        var c: int := u[2];
        if |u| == 3 then (a - 0xe0) * 4096 + (b - 0x80) * 64 + (c - 0x80) else
          var d: int := u[3];
          (a - 0xf0) * 0x40000 + (b - 0x80) * 4096 + (c - 0x80) * 64 + (d - 0x80)
  }

  /** The lead byte tells the length, and the others are continuation bytes. */
  predicate WellFormed(u: seq<byte>)
  {
    && 1 <= |u| <= 4
    && (|u| == 1 ==> u[0] < 0x80) && (|u| == 2 ==> 0xc0 <= u[0] < 0xe0)
    && (|u| == 3 ==> 0xe0 <= u[0] < 0xf0) && (|u| == 4 ==> 0xf0 <= u[0] < 0xf8)
    && forall i :: 0 < i < |u| ==> 0x80 <= u[i] < 0xc0
  }

  lemma Utf8Back(cp: nat)
    requires cp <= 0x1fffff
    ensures WellFormed(Utf8(cp)) && CodePoint(Utf8(cp)) == cp
    ensures |Utf8(cp)| == if cp < 0x80 then 1 else if cp < 0x800 then 2 else if cp < 0x1_0000 then 3 else 4
  {
    Sixes(cp);
    if cp <= 0x7f {
    } else if cp <= 0x7ff {
      assert Utf8(cp) == [cp / 64 + 0xc0, cp % 64 + 0x80];
    } else if cp <= 0xffff {
      assert Utf8(cp) == [cp / 4096 + 0xe0, cp / 64 % 64 + 0x80, cp % 64 + 0x80];
    }
  }

  lemma Sixes(n: nat)
    ensures n == n / 64 * 64 + n % 64
    ensures n == n / 4096 * 4096 + n / 64 % 64 * 64 + n % 64
    ensures n == n / 0x40000 * 0x40000 + n / 4096 % 64 * 4096 + n / 64 % 64 * 64 + n % 64
  {
    assert n / 4096 == n / 64 / 64;
    assert n / 0x40000 == n / 64 / 64 / 64;
  }

  function HexUnit(u: nat): seq<byte>
    requires u < 0x10000
  {
    [BACKSLASH, U, HexDigit(u / 4096), HexDigit(u / 256 % 16), HexDigit(u / 16 % 16), HexDigit(u % 16)]
  }

  /** The escapes of a code point's UTF-16 form (section 2.5 of RFC 4627). */
  function Utf16Escape(cp: nat): seq<byte>
    requires cp <= 0x10ffff
  {
    if cp < 0x10000 then HexUnit(cp)
    else HexUnit(0xd800 + (cp - 0x10000) / 1024) + HexUnit(0xdc00 + (cp - 0x10000) % 1024)
  }

  lemma Fours(n: nat)
    ensures n == 4096 * (n / 4096) + 256 * (n / 256 % 16) + 16 * (n / 16 % 16) + n % 16
  {
    assert n / 256 == n / 16 / 16 && n / 4096 == n / 16 / 16 / 16;
  }

  lemma HexUnitBack(s: seq<byte>, i: nat, u: nat)
    requires u < 0x10000 && Has(s, i, HexUnit(u))
    ensures i + 6 <= |s| && s[i] == BACKSLASH && s[i + 1] == U && Hex4(s, i + 2) == u
  {
    hide Has, HexValue, HexDigit;
    Fours(u);
    var t := HexUnit(u);
    HasAt(s, i, t, 0);
    HasAt(s, i, t, 1);
    HasAt(s, i, t, 2);
    HasAt(s, i, t, 3);
    HasAt(s, i, t, 4);
    HasAt(s, i, t, 5);
    HexBack(u / 4096);
    HexBack(u / 256 % 16);
    HexBack(u / 16 % 16);
    HexBack(u % 16);
  }

  /** Every Unicode scalar value, escaped as JSON prescribes, is decoded to its UTF-8 form. */
  lemma EscapeBack(s: seq<byte>, i: nat, cp: nat)
    requires cp <= 0x10ffff && !(0xd800 <= cp <= 0xdfff) && Has(s, i, Utf16Escape(cp))
    ensures i + 2 <= |s| && s[i] == BACKSLASH
    ensures StringPiece(s, i) == Some(Piece(Utf8(cp), |Utf16Escape(cp)|))
  {
    hide Utf8, Hex4;
    if cp < 0x10000 {
      HexUnitBack(s, i, cp);
    } else {
      var hi, lo := 0xd800 + (cp - 0x10000) / 1024, 0xdc00 + (cp - 0x10000) % 1024;
      HasParts(s, i, HexUnit(hi), HexUnit(lo));
      HexUnitBack(s, i, hi);
      HexUnitBack(s, i + 6, lo);
    }
  }

  predicate HighSurrogate(u: int)
  {
    0xd800 <= u <= 0xdbff
  }

  predicate LowSurrogate(u: int)
  {
    0xdc00 <= u <= 0xdfff
  }

  /** Four digits are refused exactly if they are a low surrogate, or a high one with no low one right after it. */
  lemma LoneSurrogate(s: seq<byte>, i: nat)
    requires i + 2 <= |s| && Hex4(s, i + 2) >= 0
    ensures UnicodeEscape(s, i).None? <==>
              || LowSurrogate(Hex4(s, i + 2))
              || (HighSurrogate(Hex4(s, i + 2)) && !(Has(s, i + 6, [BACKSLASH, U]) && LowSurrogate(Hex4(s, i + 8))))
  {
    hide Hex4;
    if i + 8 <= |s| {
      assert s[i + 6..i + 8] == [s[i + 6], s[i + 7]];
    }
  }

  /** Hexadecimal digits may be of either case. */
  function Fold(b: byte): byte
  {
    if 0x41 <= b <= 0x46 then b + 0x20 else b
  }

  function Folded(s: seq<byte>): (t: seq<byte>)
    ensures |t| == |s| && forall i :: 0 <= i < |s| ==> t[i] == Fold(s[i])
  {
    seq(|s|, i requires 0 <= i < |s| => Fold(s[i]))
  }

  lemma FoldHex(b: byte)
    ensures HexValue(Fold(b)) == HexValue(b) && (HexValue(b) >= 0 ==> Fold(b) == HexDigit(HexValue(b)))
  {
  }

  lemma FoldHex4(s: seq<byte>, i: nat)
    requires i <= |s|
    ensures Hex4(Folded(s), i) == Hex4(s, i)
  {
    hide HexValue, Fold;
    FoldZero();
    forall b: byte ensures HexValue(Fold(b)) == HexValue(b) {
      FoldHex(b);
    }
  }

  lemma FoldZero()
    ensures HexValue(0) == -1 && Fold(0) == 0
  {
  }

  lemma FoldEscape(s: seq<byte>, i: nat)
    requires i + 2 <= |s|
    ensures UnicodeEscape(Folded(s), i) == UnicodeEscape(s, i)
  {
    hide Hex4, Utf8;
    FoldHex4(s, i + 2);
    if i + 8 <= |s| {
      FoldHex4(s, i + 8);
    }
  }

  lemma UnitThere(s: seq<byte>, i: nat)
    requires i + 2 <= |s| && s[i] == BACKSLASH && s[i + 1] == U && Hex4(s, i + 2) >= 0
    ensures Has(Folded(s), i, HexUnit(Hex4(s, i + 2)))
  {
    hide HexValue, HexDigit;
    var a, b, c, d := s[i + 2], s[i + 3], s[i + 4], s[i + 5];
    FoldZero();
    FoldHex(a);
    FoldHex(b);
    FoldHex(c);
    FoldHex(d);
    Unfours(HexValue(a), HexValue(b), HexValue(c), HexValue(d));
    var t := Folded(s)[i..i + 6];
    assert t == [BACKSLASH, U, Fold(a), Fold(b), Fold(c), Fold(d)];
  }

  lemma Unfours(a: nat, b: nat, c: nat, d: nat)
    requires a < 16 && b < 16 && c < 16 && d < 16
    ensures var n := 4096 * a + 256 * b + 16 * c + d;
            n / 4096 == a && n / 256 % 16 == b && n / 16 % 16 == c && n % 16 == d
  {
    var n := 4096 * a + 256 * b + 16 * c + d;
    assert n / 16 == 256 * a + 16 * b + c;
    assert n / 256 == 16 * a + b;
  }

  /** A code point that is not a surrogate. */
  predicate Scalar(cp: nat)
  {
    cp <= 0x10ffff && !(0xd800 <= cp <= 0xdfff)
  }

  /** An escape is accepted exactly if it is that of a Unicode scalar value, and it is read as that value's UTF-8. */
  lemma EscapeExactly(s: seq<byte>, i: nat)
    requires i + 2 <= |s| && s[i] == BACKSLASH && s[i + 1] == U
    ensures UnicodeEscape(s, i).Some? <==> exists cp :: Scalar(cp) && Has(Folded(s), i, Utf16Escape(cp))
    ensures forall cp :: Scalar(cp) && Has(Folded(s), i, Utf16Escape(cp)) ==>
              UnicodeEscape(s, i) == Some(Piece(Utf8(cp), |Utf16Escape(cp)|))
  {
    hide UnicodeEscape, Utf16Escape, Has, Folded, Utf8;
    FoldEscape(s, i);
    forall cp | Scalar(cp) && Has(Folded(s), i, Utf16Escape(cp))
      ensures UnicodeEscape(s, i) == Some(Piece(Utf8(cp), |Utf16Escape(cp)|))
    {
      EscapeBack(Folded(s), i, cp);
      FoldedPiece(s, i);
    }
    if UnicodeEscape(s, i).Some? {
      var cp := EscapedScalar(s, i);
    }
  }

  lemma FoldedPiece(s: seq<byte>, i: nat)
    requires i + 2 <= |s| && s[i] == BACKSLASH && s[i + 1] == U
    ensures Folded(s)[i] == BACKSLASH && StringPiece(Folded(s), i) == UnicodeEscape(Folded(s), i)
  {
    hide UnicodeEscape;
  }

  lemma EscapedScalar(s: seq<byte>, i: nat) returns (cp: nat)
    requires i + 2 <= |s| && s[i] == BACKSLASH && s[i + 1] == U && UnicodeEscape(s, i).Some?
    ensures Scalar(cp) && Has(Folded(s), i, Utf16Escape(cp))
  {
    hide Hex4, Utf8, HexUnit;
    var hi := Hex4(s, i + 2);
    UnitThere(s, i);
    if HighSurrogate(hi) {
      var lo := Hex4(s, i + 8);
      UnitThere(s, i + 6);
      cp := (hi - 0xd800) * 1024 + (lo - 0xdc00) + 0x10000;
      assert (cp - 0x10000) / 1024 == hi - 0xd800 && (cp - 0x10000) % 1024 == lo - 0xdc00;
      TwoUnits(Folded(s), i, hi, lo);
    } else {
      cp := hi;
    }
  }

  lemma TwoUnits(s: seq<byte>, i: nat, a: nat, b: nat)
    requires a < 0x10000 && b < 0x10000 && Has(s, i, HexUnit(a)) && Has(s, i + 6, HexUnit(b))
    ensures Has(s, i, HexUnit(a) + HexUnit(b))
  {
    hide HexDigit;
    assert s[i..i + 12] == s[i..i + 6] + s[i + 6..i + 12];
  }

  // ---- values ----

  /** What may follow a value: the end of the text, a comma or a closing bracket. */
  predicate Stops(rest: seq<byte>)
  {
    rest == [] || rest[0] == COMMA || rest[0] == 0x5d || rest[0] == 0x7d
  }

  lemma StopsAt(s: seq<byte>, q: nat)
    requires q < |s| && (s[q] == COMMA || s[q] == 0x5d || s[q] == 0x7d)
    ensures Stops(s[q..])
  {
  }

  /** Printing and reading are a pair for x. */
  ghost predicate NumberOk(c: Numbers, x: real)
  {
    var t := c.print_(x);
    && t != [] && (t[0] == 0x2d || 0x30 <= t[0] <= 0x39) && 0 !in t
    && forall rest {:trigger t + rest} :: Stops(rest) ==> c.parse(t + rest) == Some((x, |t|))
  }

  ghost predicate DistinctKeys(entries: seq<Entry>)
  {
    forall i, j :: 0 <= i < j < |entries| ==> entries[i].key != entries[j].key
  }

  /** Values that a text can stand for: tables are arrays with something in them, or have one value for each
      key. */
  ghost predicate Plain(c: Numbers, v: Value)
    decreases v
  {
    match v
    case Number(x) => NumberOk(c, x)
    case Array(elems) => elems != [] && forall i :: 0 <= i < |elems| ==> Plain(c, elems[i])
    case Object(entries) =>
      DistinctKeys(entries) && forall i :: 0 <= i < |entries| ==> Plain(c, entries[i].value)
    case Silent => false
    case _ => true
  }

  /** Every number in the value is printed so that it is read back. */
  ghost predicate NumbersOk(c: Numbers, v: Value)
    decreases v
  {
    match v
    case Number(x) => NumberOk(c, x)
    case Array(elems) => forall i :: 0 <= i < |elems| ==> NumbersOk(c, elems[i])
    case Object(entries) => forall i :: 0 <= i < |entries| ==> NumbersOk(c, entries[i].value)
    case _ => true
  }

  // ---- what the text of a value is read as ----

  /** The value that the encoding of v is read as at that depth; none if it is not a value. */
  function Seen(v: Value, depth: nat): Option<Value>
    decreases v
  {
    match v
    case Array(elems) =>
      if depth >= MAX_DEPTH then None
      else if elems == [] || elems == [Silent] then Some(Object([]))
      else (match SeenElems(elems, |elems|, depth + 1) case None => None case Some(us) => Some(Array(us)))
    case Object(entries) =>
      if depth >= MAX_DEPTH then None
      else (match SeenEntries(entries, |entries|, depth + 1) case None => None case Some(us) => Some(Object(us)))
    case Silent => None
    case Unsupported => None
    case _ => Some(v)
  }

  function SeenElems(elems: seq<Value>, k: nat, depth: nat): Option<seq<Value>>
    requires k <= |elems|
    decreases elems, k
  {
    if k == 0 then Some([]) else
      match SeenElems(elems, k - 1, depth)
      case None => None
      case Some(us) => match Seen(elems[k - 1], depth) case None => None case Some(u) => Some(us + [u])
  }

  /** A key that comes twice keeps its place and has the last value. */
  function SeenEntries(entries: seq<Entry>, k: nat, depth: nat): Option<seq<Entry>>
    requires k <= |entries|
    decreases entries, k
  {
    if k == 0 then Some([]) else
      match SeenEntries(entries, k - 1, depth)
      case None => None
      case Some(us) =>
        match Seen(entries[k - 1].value, depth) case None => None case Some(u) => Some(Put(us, entries[k - 1].key, u))
  }

  lemma {:induction false} SeenElemsStops(elems: seq<Value>, k: nat, n: nat, depth: nat)
    requires k <= n <= |elems| && SeenElems(elems, k, depth).None?
    ensures SeenElems(elems, n, depth).None?
    decreases n
  {
    hide Seen;
    if k < n {
      SeenElemsStops(elems, k, n - 1, depth);
    }
  }

  lemma {:induction false} SeenEntriesStops(entries: seq<Entry>, k: nat, n: nat, depth: nat)
    requires k <= n <= |entries| && SeenEntries(entries, k, depth).None?
    ensures SeenEntries(entries, n, depth).None?
    decreases n
  {
    hide Seen, Put;
    if k < n {
      SeenEntriesStops(entries, k, n - 1, depth);
    }
  }

  /** The text of v is read as Seen says, or not at all. */
  ghost predicate ReadSo(c: Numbers, s: seq<byte>, i: nat, v: Value, depth: nat, end: nat)
    requires i <= |s|
  {
    match Seen(v, depth)
    case Some(u) => ReadAs(c, s, i, u, depth, end)
    case None =>
      var (tok, j) := NextToken(c, s, i);
      (v.Silent? || Opens(tok)) && Process(c, s, tok, j, depth).None?
  }

  /** The text has t at i, and what follows does not run on. */
  predicate Holds(s: seq<byte>, i: nat, t: seq<byte>)
  {
    Has(s, i, t) && Stops(s[i + |t|..])
  }

  predicate Opens(tok: Token)
  {
    tok.TString? || tok.TNumber? || tok.TBool? || tok.TNull? || tok.ObjBegin? || tok.ArrBegin?
  }

  ghost predicate ReadAs(c: Numbers, s: seq<byte>, i: nat, v: Value, depth: nat, end: nat)
    requires i <= |s|
  {
    var (tok, j) := NextToken(c, s, i);
    Opens(tok) && Process(c, s, tok, j, depth) == Some(Parsed(v, end))
  }

  lemma WordToken(c: Numbers, s: seq<byte>, i: nat, v: Value, depth: nat)
    requires v.Null? || v.Bool?
    requires Has(s, i, Encode(c, v))
    ensures ReadAs(c, s, i, v, depth, i + |Encode(c, v)|)
  {
    var t := Encode(c, v);
    HasAt(s, i, t, 0);
    HasAt(s, i, t, 1);
  }

  lemma NumberBack(c: Numbers, s: seq<byte>, i: nat, x: real, depth: nat)
    requires NumberOk(c, x) && Holds(s, i, c.print_(x))
    ensures ReadAs(c, s, i, Number(x), depth, i + |c.print_(x)|)
  {
    var t := c.print_(x);
    HasAt(s, i, t, 0);
    assert s[i..] == t + s[i + |t|..];
  }

  lemma StringValue(c: Numbers, s: seq<byte>, i: nat, text: seq<byte>, depth: nat)
    requires Has(s, i, EncString(text))
    ensures ReadAs(c, s, i, Str(text), depth, i + |EncString(text)|)
  {
    hide NextToken, Has;
    StringTokenBack(c, s, i, text);
  }

  lemma CharToken(c: Numbers, s: seq<byte>, i: nat)
    requires i < |s| && s[i] in {0x7b, 0x7d, 0x5b, 0x5d, COMMA, COLON}
    ensures NextToken(c, s, i).1 == i + 1
    ensures NextToken(c, s, i).0 == if s[i] == 0x7b then ObjBegin else if s[i] == 0x7d then ObjEnd
              else if s[i] == 0x5b then ArrBegin else if s[i] == 0x5d then ArrEnd
              else if s[i] == COMMA then Comma else Colon
  {
  }

  /** Where element k of an array starts, the text after the bracket being at i. */
  function ElemStart(c: Numbers, elems: seq<Value>, k: nat, i: nat): nat
    requires k < |elems|
  {
    i + |EncElems(c, elems, k)| + |Separator(k)|
  }

  /** Element k is there, and after it a comma or the closing bracket. */
  lemma {:induction false} ElemThere(c: Numbers, s: seq<byte>, i: nat, elems: seq<Value>, k: nat)
    requires k < |elems| && Has(s, i, EncElems(c, elems, |elems|) + [0x5d])
    ensures var p := ElemStart(c, elems, k, i);
            var q := i + |EncElems(c, elems, k + 1)|;
            && Holds(s, p, Encode(c, elems[k])) && q == p + |Encode(c, elems[k])| && q < |s|
            && s[q] == if k + 1 < |elems| then COMMA else 0x5d
  {
    hide Encode, Has, Stops;
    HasParts(s, i, EncElems(c, elems, |elems|), [0x5d]);
    HasElems(c, s, i, elems, k);
    var q := i + |EncElems(c, elems, k + 1)|;
    if k + 1 < |elems| {
      HasElems(c, s, i, elems, k + 1);
      HasAt(s, q, [COMMA], 0);
    } else {
      HasAt(s, q, [0x5d], 0);
    }
    StopsAt(s, q);
  }

  lemma {:induction false} HasElems(c: Numbers, s: seq<byte>, i: nat, elems: seq<Value>, k: nat)
    requires k < |elems| && Has(s, i, EncElems(c, elems, |elems|))
    ensures Has(s, i, EncElems(c, elems, k + 1))
    ensures Has(s, i + |EncElems(c, elems, k)|, Separator(k))
    ensures Has(s, ElemStart(c, elems, k, i), Encode(c, elems[k]))
    decreases |elems| - k
  {
    hide Encode, Has, Separator;
    if k + 1 < |elems| {
      HasElems(c, s, i, elems, k + 1);
      HasParts(s, i, EncElems(c, elems, k + 1) + Separator(k + 1), Encode(c, elems[k + 1]));
      HasParts(s, i, EncElems(c, elems, k + 1), Separator(k + 1));
    }
    HasParts(s, i, EncElems(c, elems, k) + Separator(k), Encode(c, elems[k]));
    HasParts(s, i, EncElems(c, elems, k), Separator(k));
  }

  lemma SilentFails(c: Numbers, s: seq<byte>, i: nat, depth: nat)
    requires Holds(s, i, [])
    ensures ReadSo(c, s, i, Silent, depth, i)
  {
    if i < |s| {
      assert s[i..][0] == s[i];
      CharToken(c, s, i);
    }
  }

  function ParsedArray(us: Option<seq<Value>>, end: nat): Option<Parsed>
  {
    match us case None => None case Some(us) => Some(Parsed(Array(us), end))
  }

  /** The array loop reads the elements from k on. */
  lemma {:induction false} ArrayBack(c: Numbers, s: seq<byte>, i: nat, elems: seq<Value>, k: nat, depth: nat,
                                     done: seq<Value>)
    requires k < |elems| && Has(s, i, EncElems(c, elems, |elems|) + [0x5d])
    requires forall l :: 0 <= l < |elems| ==> NumbersOk(c, elems[l]) && Encodable(elems[l], depth)
    requires SeenElems(elems, k, depth) == Some(done)
    ensures var p := ElemStart(c, elems, k, i);
            && p <= |s|
            && var (tok, j) := NextToken(c, s, p);
               && (Opens(tok) || (elems[k].Silent? && p < |s| && s[p] == if k + 1 < |elems| then COMMA else 0x5d))
               && ArrayLoop(c, s, tok, j, depth, done)
                  == ParsedArray(SeenElems(elems, |elems|, depth), i + |EncElems(c, elems, |elems|)| + 1)
    decreases elems, |elems| - k
  {
    hide NextToken, Process, EncElems, Encode, Has, NumbersOk, Encodable, Seen;
    var p := ElemStart(c, elems, k, i);
    ElemThere(c, s, i, elems, k);
    Back(c, s, p, elems[k], depth);
    SilentEmpty(c);
    var q := i + |EncElems(c, elems, k + 1)|;
    CharToken(c, s, q);
    var u := Seen(elems[k], depth);
    if u.None? {
      SeenElemsStops(elems, k + 1, |elems|, depth);
    } else if k + 1 < |elems| {
      ArrayBack(c, s, i, elems, k + 1, depth, done + [u.value]);
    }
  }

  lemma SilentEmpty(c: Numbers)
    ensures Encode(c, Silent) == []
  {
  }

  // objects, in the same way

  function EntryStart(c: Numbers, entries: seq<Entry>, k: nat, i: nat): nat
    requires k < |entries|
  {
    i + |EncEntries(c, entries, k)| + |Separator(k)|
  }

  lemma {:induction false} HasEntries(c: Numbers, s: seq<byte>, i: nat, entries: seq<Entry>, k: nat)
    requires k < |entries| && Has(s, i, EncEntries(c, entries, |entries|))
    ensures Has(s, i, EncEntries(c, entries, k + 1))
    ensures Has(s, i + |EncEntries(c, entries, k)|, Separator(k))
    ensures Has(s, EntryStart(c, entries, k, i), EncEntry(c, entries[k]))
    decreases |entries| - k
  {
    hide EncEntry, Has, Separator;
    if k + 1 < |entries| {
      HasEntries(c, s, i, entries, k + 1);
      HasParts(s, i, EncEntries(c, entries, k + 1) + Separator(k + 1), EncEntry(c, entries[k + 1]));
      HasParts(s, i, EncEntries(c, entries, k + 1), Separator(k + 1));
    }
    HasParts(s, i, EncEntries(c, entries, k) + Separator(k), EncEntry(c, entries[k]));
    HasParts(s, i, EncEntries(c, entries, k), Separator(k));
  }

  lemma EntryEnd(c: Numbers, entries: seq<Entry>, k: nat, i: nat)
    requires k < |entries|
    ensures i + |EncEntries(c, entries, k + 1)| == EntryStart(c, entries, k, i) + |EncEntry(c, entries[k])|
  {
    hide EncEntry, Separator;
  }

  lemma EntryThere(c: Numbers, s: seq<byte>, i: nat, entries: seq<Entry>, k: nat)
    requires k < |entries| && Has(s, i, EncEntries(c, entries, |entries|) + [0x7d])
    ensures var p := EntryStart(c, entries, k, i);
            var q := i + |EncEntries(c, entries, k + 1)|;
            && Holds(s, p, EncEntry(c, entries[k])) && q == p + |EncEntry(c, entries[k])| && q < |s|
            && s[q] == if k + 1 < |entries| then COMMA else 0x7d
  {
    hide EncEntry, EncEntries, EntryStart, Has, Stops;
    HasParts(s, i, EncEntries(c, entries, |entries|), [0x7d]);
    HasEntries(c, s, i, entries, k);
    EntryEnd(c, entries, k, i);
    var q := i + |EncEntries(c, entries, k + 1)|;
    if k + 1 < |entries| {
      HasEntries(c, s, i, entries, k + 1);
      HasAt(s, q, [COMMA], 0);
    } else {
      HasAt(s, q, [0x7d], 0);
    }
    StopsAt(s, q);
  }

  /** An entry is a key, a colon and a value. */
  lemma EntryParts(c: Numbers, s: seq<byte>, p: nat, e: Entry)
    requires Holds(s, p, EncEntry(c, e))
    ensures var q := p + |EncString(e.key)|;
            && NextToken(c, s, p) == (TString(e.key), q) && q < |s| && s[q] == COLON
            && Holds(s, q + 1, Encode(c, e.value)) && q + 1 + |Encode(c, e.value)| == p + |EncEntry(c, e)|
  {
    hide Encode, EncString, Has, NextToken;
    var t := Encode(c, e.value);
    HasParts(s, p, EncString(e.key) + [COLON], t);
    HasParts(s, p, EncString(e.key), [COLON]);
    StringTokenBack(c, s, p, e.key);
    HasAt(s, p + |EncString(e.key)|, [COLON], 0);
  }

  lemma {:induction false} PutNew(entries: seq<Entry>, key: seq<byte>, v: Value)
    requires forall i :: 0 <= i < |entries| ==> entries[i].key != key
    ensures Put(entries, key, v) == entries + [Entry(key, v)]
  {
    if entries != [] {
      PutNew(entries[1..], key, v);
    }
  }

  /** One turn of the object loop, the key having been read. */
  lemma ObjectTurn(c: Numbers, s: seq<byte>, e: Entry, i: nat, depth: nat, done: seq<Entry>, end: nat)
    requires i < |s| && NextToken(c, s, i) == (Colon, i + 1) && ReadSo(c, s, i + 1, e.value, depth, end)
    requires i + 1 <= end <= |s|
    ensures var u := Seen(e.value, depth);
            if u.None? then ObjectLoop(c, s, e.key, i, depth, done).None? else
              var now := Put(done, e.key, u.value);
              && (NextToken(c, s, end) == (ObjEnd, end + 1) ==>
                    ObjectLoop(c, s, e.key, i, depth, done) == Some(Parsed(Object(now), end + 1)))
              && (NextToken(c, s, end) == (Comma, end + 1) && NextToken(c, s, end + 1).0.TString? ==>
                    var (tok, j) := NextToken(c, s, end + 1);
                    ObjectLoop(c, s, e.key, i, depth, done) == ObjectLoop(c, s, tok.text, j, depth, now))
  {
    hide NextToken, Process, Put, Seen;
  }

  function ParsedObject(us: Option<seq<Entry>>, end: nat): Option<Parsed>
  {
    match us case None => None case Some(us) => Some(Parsed(Object(us), end))
  }

  /** The object loop reads the entries from k on. */
  lemma {:induction false} EntriesBack(c: Numbers, s: seq<byte>, i: nat, entries: seq<Entry>, k: nat, depth: nat,
                                       done: seq<Entry>)
    requires k < |entries| && Has(s, i, EncEntries(c, entries, |entries|) + [0x7d])
    requires forall l :: 0 <= l < |entries| ==> NumbersOk(c, entries[l].value) && Encodable(entries[l].value, depth)
    requires SeenEntries(entries, k, depth) == Some(done)
    ensures var p := EntryStart(c, entries, k, i);
            && p <= |s| && NextToken(c, s, p).0 == TString(entries[k].key)
            && ObjectLoop(c, s, entries[k].key, NextToken(c, s, p).1, depth, done)
               == ParsedObject(SeenEntries(entries, |entries|, depth), i + |EncEntries(c, entries, |entries|)| + 1)
    decreases entries, |entries| - k
  {
    hide NextToken, ReadSo, ObjectLoop, EncEntries, EncEntry, EncString, Encode, Has, NumbersOk, Encodable, Seen, Put;
    var p := EntryStart(c, entries, k, i);
    EntryThere(c, s, i, entries, k);
    EntryParts(c, s, p, entries[k]);
    var q := p + |EncString(entries[k].key)|;
    CharToken(c, s, q);
    Back(c, s, q + 1, entries[k].value, depth);
    var e := i + |EncEntries(c, entries, k + 1)|;
    CharToken(c, s, e);
    ObjectTurn(c, s, entries[k], q, depth, done, e);
    var u := Seen(entries[k].value, depth);
    if u.None? {
      SeenEntriesStops(entries, k + 1, |entries|, depth);
    } else if k + 1 < |entries| {
      EntriesBack(c, s, i, entries, k + 1, depth, Put(done, entries[k].key, u.value));
    }
  }

  lemma {:induction false} ObjectBack(c: Numbers, s: seq<byte>, i: nat, entries: seq<Entry>, depth: nat)
    requires 1 <= depth <= MAX_DEPTH && Has(s, i, EncEntries(c, entries, |entries|) + [0x7d])
    requires forall l :: 0 <= l < |entries| ==> NumbersOk(c, entries[l].value) && Encodable(entries[l].value, depth)
    ensures i <= |s| && ObjectContext(c, s, i, depth - 1)
         == ParsedObject(SeenEntries(entries, |entries|, depth), i + |EncEntries(c, entries, |entries|)| + 1)
    decreases entries, |entries| + 1
  {
    hide NextToken, ObjectLoop, EncEntry, NumbersOk, Encodable, Seen, Put;
    if entries == [] {
      HasAt(s, i, EncEntries(c, entries, 0) + [0x7d], 0);
      CharToken(c, s, i);
    } else {
      EntriesBack(c, s, i, entries, 0, depth, []);
    }
  }

  /** An array with nothing between its brackets. */
  lemma EmptyBack(c: Numbers, s: seq<byte>, i: nat, v: Value, depth: nat)
    requires v == Array([]) || v == Array([Silent])
    requires Has(s, i, Encode(c, v))
    ensures ReadSo(c, s, i, v, depth, i + |Encode(c, v)|)
  {
    assert v == Array([Silent]) ==> EncElems(c, v.elems, 1) == EncElems(c, v.elems, 0) + Separator(0) + Encode(c, Silent);
    assert Encode(c, v) == [0x5b, 0x5d];
    HasAt(s, i, [0x5b, 0x5d], 0);
    HasAt(s, i, [0x5b, 0x5d], 1);
    CharToken(c, s, i);
    CharToken(c, s, i + 1);
  }

  lemma {:induction false} ArrayValue(c: Numbers, s: seq<byte>, i: nat, v: Value, depth: nat)
    requires v.Array? && v.elems != [] && v.elems != [Silent]
    requires NumbersOk(c, v) && Encodable(v, depth) && Has(s, i, Encode(c, v))
    ensures ReadSo(c, s, i, v, depth, i + |Encode(c, v)|)
    decreases v, 0
  {
    hide NextToken, ArrayLoop, EncElems, Has, SeenElems;
    var body := EncElems(c, v.elems, |v.elems|);
    assert Encode(c, v) == [0x5b] + (body + [0x5d]);
    HasAt(s, i, Encode(c, v), 0);
    HasParts(s, i, [0x5b], body + [0x5d]);
    CharToken(c, s, i);
    NoElems(c, v.elems);
    NoneSeen(v.elems, depth + 1);
    assert ElemStart(c, v.elems, 0, i + 1) == i + 1;
    ArrayBack(c, s, i + 1, v.elems, 0, depth + 1, []);
    FirstToken(c, s, i + 1, v.elems);
    assert ArrayContext(c, s, i + 1, depth)
        == ParsedArray(SeenElems(v.elems, |v.elems|, depth + 1), i + |Encode(c, v)|);
  }

  /** The text after the opening bracket does not start with the closing one. */
  lemma FirstToken(c: Numbers, s: seq<byte>, i: nat, elems: seq<Value>)
    requires elems != [] && elems != [Silent] && i <= |s|
    requires Opens(NextToken(c, s, i).0) ||
             (i < |s| && elems[0].Silent? && s[i] == if 1 < |elems| then COMMA else 0x5d)
    ensures NextToken(c, s, i).0 !in {ArrEnd, End, Error}
  {
    hide NextToken;
    assert |elems| == 1 && elems[0] == Silent ==> elems == [Silent];
    if !Opens(NextToken(c, s, i).0) {
      CharToken(c, s, i);
    }
  }

  lemma NoneSeen(elems: seq<Value>, depth: nat)
    ensures SeenElems(elems, 0, depth) == Some([])
  {
  }

  lemma NoElems(c: Numbers, elems: seq<Value>)
    ensures EncElems(c, elems, 0) == []
  {
  }

  lemma {:induction false} ObjectValue(c: Numbers, s: seq<byte>, i: nat, v: Value, depth: nat)
    requires v.Object? && NumbersOk(c, v) && Encodable(v, depth) && Has(s, i, Encode(c, v))
    ensures ReadSo(c, s, i, v, depth, i + |Encode(c, v)|)
    decreases v, 0
  {
    hide NextToken, ObjectContext, EncEntries, Has, SeenEntries;
    var body := EncEntries(c, v.entries, |v.entries|);
    assert Encode(c, v) == [0x7b] + (body + [0x7d]);
    HasAt(s, i, Encode(c, v), 0);
    HasParts(s, i, [0x7b], body + [0x7d]);
    CharToken(c, s, i);
    ObjectBack(c, s, i + 1, v.entries, depth + 1);
  }

  /** A text that holds the encoding of v is read as Seen says, and not at all where it says nothing. */
  lemma {:induction false} Back(c: Numbers, s: seq<byte>, i: nat, v: Value, depth: nat)
    requires NumbersOk(c, v) && Encodable(v, depth) && Holds(s, i, Encode(c, v))
    ensures i <= |s| && ReadSo(c, s, i, v, depth, i + |Encode(c, v)|)
    decreases v, 1
  {
    hide ReadAs, Has, Stops, SeenElems, SeenEntries;
    HasInside(s, i, Encode(c, v));
    match v
    case Null => WordToken(c, s, i, v, depth);
    case Bool(_) => WordToken(c, s, i, v, depth);
    case Number(x) => NumberBack(c, s, i, x, depth);
    case Str(text) => StringValue(c, s, i, text, depth);
    case Array(elems) =>
      hide ReadSo, Encode;
      if elems == [] || elems == [Silent] {
        EmptyBack(c, s, i, v, depth);
      } else {
        ArrayValue(c, s, i, v, depth);
      }
    case Object(entries) =>
      hide ReadSo, Encode;
      ObjectValue(c, s, i, v, depth);
    case Silent => SilentFails(c, s, i, depth);
  }

  lemma HasInside(s: seq<byte>, i: nat, t: seq<byte>)
    requires Has(s, i, t)
    ensures i <= |s|
  {
  }

  // ---- the whole text ----

  lemma NoZeroByte(b: byte)
    ensures 0 !in EncByte(b)
  {
  }

  lemma {:induction false} NoZeroBytes(text: seq<byte>, k: nat)
    requires k <= |text|
    ensures 0 !in EncBytes(text, k)
  {
    if k > 0 {
      NoZeroBytes(text, k - 1);
      NoZeroByte(text[k - 1]);
      hide EncByte;
    }
  }

  lemma {:induction false} NoZero(c: Numbers, v: Value)
    requires NumbersOk(c, v)
    ensures 0 !in Encode(c, v)
    decreases v
  {
    match v
    case Str(text) => NoZeroBytes(text, |text|);
    case Array(elems) => NoZeroElems(c, elems, |elems|);
    case Object(entries) => NoZeroEntries(c, entries, |entries|);
    case _ =>
  }

  lemma {:induction false} NoZeroElems(c: Numbers, elems: seq<Value>, k: nat)
    requires k <= |elems| && forall i :: 0 <= i < |elems| ==> NumbersOk(c, elems[i])
    ensures 0 !in EncElems(c, elems, k)
    decreases elems, k
  {
    hide Encode, NumbersOk;
    if k > 0 {
      NoZeroElems(c, elems, k - 1);
      NoZero(c, elems[k - 1]);
    }
  }

  lemma {:induction false} NoZeroEntry(c: Numbers, e: Entry)
    requires NumbersOk(c, e.value)
    ensures 0 !in EncEntry(c, e)
    decreases e
  {
    hide Encode, EncBytes;
    NoZeroBytes(e.key, |e.key|);
    NoZero(c, e.value);
  }

  lemma {:induction false} NoZeroEntries(c: Numbers, entries: seq<Entry>, k: nat)
    requires k <= |entries| && forall i :: 0 <= i < |entries| ==> NumbersOk(c, entries[i].value)
    ensures 0 !in EncEntries(c, entries, k)
    decreases entries, k
  {
    hide EncEntry, NumbersOk;
    if k > 0 {
      NoZeroEntries(c, entries, k - 1);
      NoZeroEntry(c, entries[k - 1]);
    }
  }

  /**
   What decoding makes of an encoding, for every value that is encoded at all: the value that Seen gives, or nothing.
   */
  lemma DecodeEncoded(c: Numbers, v: Value)
    requires NumbersOk(c, v) && Encodable(v, 0)
    ensures Decode(c, Encode(c, v)) == Seen(v, 0)
  {
    hide Encode, NumbersOk, Process, Seen;
    var s := Encode(c, v);
    NoZero(c, v);
    assert s[0..] == s && s[|s|..] == [];
    Back(c, s, 0, v, 0);
  }

  /** Nothing silent but as the only element of an array, and no empty array below the deepest table. */
  predicate Writable(v: Value, depth: nat)
    decreases v
  {
    match v
    case Array(elems) =>
      depth < MAX_DEPTH && (elems == [Silent] || forall i :: 0 <= i < |elems| ==> Writable(elems[i], depth + 1))
    case Object(entries) =>
      depth < MAX_DEPTH && forall i :: 0 <= i < |entries| ==> Writable(entries[i].value, depth + 1)
    case Silent => false
    case Unsupported => false
    case _ => true
  }

  lemma {:induction false} SeenExactly(v: Value, depth: nat)
    ensures Seen(v, depth).Some? <==> Writable(v, depth)
    decreases v, 0
  {
    match v
    case Array(elems) => SeenElemsExactly(elems, |elems|, depth + 1);
    case Object(entries) => SeenEntriesExactly(entries, |entries|, depth + 1);
    case _ =>
  }

  lemma {:induction false} SeenElemsExactly(elems: seq<Value>, k: nat, depth: nat)
    requires k <= |elems|
    ensures SeenElems(elems, k, depth).Some? <==> forall i :: 0 <= i < k ==> Writable(elems[i], depth)
    decreases elems, k
  {
    hide Seen, Writable;
    if k > 0 {
      SeenElemsExactly(elems, k - 1, depth);
      SeenExactly(elems[k - 1], depth);
    }
  }

  lemma {:induction false} SeenEntriesExactly(entries: seq<Entry>, k: nat, depth: nat)
    requires k <= |entries|
    ensures SeenEntries(entries, k, depth).Some? <==> forall i :: 0 <= i < k ==> Writable(entries[i].value, depth)
    decreases entries, k
  {
    hide Seen, Writable, Put;
    if k > 0 {
      SeenEntriesExactly(entries, k - 1, depth);
      SeenExactly(entries[k - 1].value, depth);
    }
  }

  /** The encoder's text is a JSON text exactly for these values. */
  lemma EncodedWellFormed(c: Numbers, v: Value)
    requires NumbersOk(c, v) && Encodable(v, 0)
    ensures Decode(c, Encode(c, v)).Some? <==> Writable(v, 0)
  {
    DecodeEncoded(c, v);
    SeenExactly(v, 0);
  }

  /** A silent value after another one leaves a comma too many. */
  lemma SilentLast(c: Numbers)
    ensures Encode(c, Array([Null, Silent])) == [0x5b] + NULL + [COMMA, 0x5d]
    ensures Decode(c, Encode(c, Array([Null, Silent]))).None?
  {
    hide Decode;
    var v := Array([Null, Silent]);
    assert Encodable(Null, 1) && Encodable(Silent, 1) && Encodable(v, 0);
    assert NumbersOk(c, Null) && NumbersOk(c, Silent) && NumbersOk(c, v);
    DecodeEncoded(c, v);
    assert SeenElems(v.elems, 2, 1).None?;
    assert EncElems(c, v.elems, 1) == NULL;
    assert EncElems(c, v.elems, 2) == NULL + [COMMA];
  }

  /** Alone in an array it goes unnoticed. */
  lemma SilentAlone(c: Numbers)
    ensures Encode(c, Array([Silent])) == [0x5b, 0x5d]
    ensures Decode(c, Encode(c, Array([Silent]))) == Some(Object([]))
  {
    hide Decode;
    var v := Array([Silent]);
    assert Encodable(Silent, 1) && Encodable(v, 0) && NumbersOk(c, Silent) && NumbersOk(c, v);
    DecodeEncoded(c, v);
    assert EncElems(c, v.elems, 1) == [];
  }

  /** The one array that does not come back: Lua has no empty table that is an array. */
  lemma EmptyArray(c: Numbers)
    ensures Encodable(Array([]), 0) && Decode(c, Encode(c, Array([]))) == Some(Object([]))
  {
    DecodeEncoded(c, Array([]));
  }

  lemma {:induction false} PlainSeen(c: Numbers, v: Value, depth: nat)
    requires Plain(c, v) && Encodable(v, depth)
    ensures Seen(v, depth) == Some(v) && NumbersOk(c, v)
    decreases v, 0
  {
    match v
    case Array(elems) =>
      PlainElems(c, elems, |elems|, depth + 1);
      assert elems[..|elems|] == elems;
    case Object(entries) =>
      PlainEntries(c, entries, |entries|, depth + 1);
      assert entries[..|entries|] == entries;
    case _ =>
  }

  lemma {:induction false} PlainElems(c: Numbers, elems: seq<Value>, k: nat, depth: nat)
    requires k <= |elems| && forall i :: 0 <= i < |elems| ==> Plain(c, elems[i]) && Encodable(elems[i], depth)
    ensures SeenElems(elems, k, depth) == Some(elems[..k]) && forall i :: 0 <= i < k ==> NumbersOk(c, elems[i])
    decreases elems, k
  {
    hide Seen, Plain, Encodable, NumbersOk;
    if k > 0 {
      PlainElems(c, elems, k - 1, depth);
      PlainSeen(c, elems[k - 1], depth);
      assert elems[..k - 1] + [elems[k - 1]] == elems[..k];
    }
  }

  lemma {:induction false} PlainEntries(c: Numbers, entries: seq<Entry>, k: nat, depth: nat)
    requires k <= |entries| && DistinctKeys(entries)
    requires forall i :: 0 <= i < |entries| ==> Plain(c, entries[i].value) && Encodable(entries[i].value, depth)
    ensures SeenEntries(entries, k, depth) == Some(entries[..k])
    ensures forall i :: 0 <= i < k ==> NumbersOk(c, entries[i].value)
    decreases entries, k
  {
    hide Seen, Plain, Encodable, NumbersOk, Put;
    if k > 0 {
      var e := entries[k - 1];
      PlainEntries(c, entries, k - 1, depth);
      PlainSeen(c, e.value, depth);
      PutNew(entries[..k - 1], e.key, e.value);
      assert entries[..k - 1] + [Entry(e.key, e.value)] == entries[..k];
    }
  }

  /** Decoding undoes encoding. */
  lemma RoundTrip(c: Numbers, v: Value)
    requires Plain(c, v) && Encodable(v, 0)
    ensures Decode(c, Encode(c, v)) == Some(v)
  {
    PlainSeen(c, v, 0);
    DecodeEncoded(c, v);
  }
}
