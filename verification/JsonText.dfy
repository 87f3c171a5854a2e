/**
 JSON as bundle/lua-cjson-2.1.0.5/lua_cjson.c writes and reads it: what the encoder puts out for a value, and
 what the decoder makes of a text.  A text ends at its first zero byte, or where the Lua string ends.
 */
module JsonText {
  import opened Basics

  const QUOTE: byte := 0x22
  const SLASH: byte := 0x2f
  const BACKSLASH: byte := 0x5c
  const COMMA: byte := 0x2c
  const COLON: byte := 0x3a
  const U: byte := 0x75
  const MAX_DEPTH: nat := 1000

  /** A Lua value.  A table is an array or holds strings as keys, in the order in which lua_next visits them;
      a table with nothing in it is an object, and an array with nothing in it is the empty_array sentinel. */
  datatype Value =
    | Null
    | Bool(on: bool)
    | Number(x: real)
    | Str(text: seq<byte>)
    | Array(elems: seq<Value>)
    | Object(entries: seq<Entry>)
    | Silent                     // a light userdata that is neither null nor the sentinel: nothing is written for it
    | Unsupported                // a function, thread or full userdata

  datatype Entry = Entry(key: seq<byte>, value: Value)

  /** How numbers are printed and read; reading looks at the text from the number on and says how long it is. */
  datatype Numbers = Numbers(print_: real -> seq<byte>, parse: seq<byte> -> Option<(real, nat)>)

  // ---- encoding ----

  function HexDigit(n: nat): byte
    requires n < 16
  {
    if n < 10 then 0x30 + n else 0x57 + n
  }

  /** char2escape: what stands for a byte that cannot stand for itself. */
  function Escape(b: byte): Option<seq<byte>>
  {
    if b == 0x08 then Some([BACKSLASH, 0x62])
    else if b == 0x09 then Some([BACKSLASH, 0x74])
    else if b == 0x0a then Some([BACKSLASH, 0x6e])
    else if b == 0x0c then Some([BACKSLASH, 0x66])
    else if b == 0x0d then Some([BACKSLASH, 0x72])
    else if b == QUOTE || b == SLASH || b == BACKSLASH then Some([BACKSLASH, b])
    else if b < 0x20 || b == 0x7f then Some([BACKSLASH, U, 0x30, 0x30, HexDigit(b / 16), HexDigit(b % 16)])
    else None
  }

  function EncByte(b: byte): (r: seq<byte>)
    ensures 1 <= |r| <= 6
  {
    match Escape(b) case None => [b] case Some(e) => e
  }

  /** The bytes of the string before position k, escaped. */
  function EncBytes(s: seq<byte>, k: nat): (r: seq<byte>)
    requires k <= |s|
    ensures k <= |r| <= 6 * k
  {
    if k == 0 then [] else EncBytes(s, k - 1) + EncByte(s[k - 1])
  }

  function EncString(s: seq<byte>): (r: seq<byte>)
    ensures |s| + 2 <= |r| <= 6 * |s| + 2
  {
    [QUOTE] + EncBytes(s, |s|) + [QUOTE]
  }

  const TRUE: seq<byte> := [0x74, 0x72, 0x75, 0x65]
  const FALSE: seq<byte> := [0x66, 0x61, 0x6c, 0x73, 0x65]
  const NULL: seq<byte> := [0x6e, 0x75, 0x6c, 0x6c]

  function Encode(c: Numbers, v: Value): seq<byte>
    decreases v
  {
    match v
    case Null => NULL
    case Bool(on) => if on then TRUE else FALSE
    case Number(x) => c.print_(x)
    case Str(text) => EncString(text)
    case Array(elems) => [0x5b] + EncElems(c, elems, |elems|) + [0x5d]
    case Object(entries) => [0x7b] + EncEntries(c, entries, |entries|) + [0x7d]
    case Silent => []
    case Unsupported => []
  }

  function Separator(k: nat): seq<byte>
  {
    if k == 0 then [] else [COMMA]
  }

  /** The first k elements, separated by commas. */
  function EncElems(c: Numbers, elems: seq<Value>, k: nat): seq<byte>
    requires k <= |elems|
    decreases elems, k
  {
    if k == 0 then [] else EncElems(c, elems, k - 1) + Separator(k - 1) + Encode(c, elems[k - 1])
  }

  function EncEntries(c: Numbers, entries: seq<Entry>, k: nat): seq<byte>
    requires k <= |entries|
    decreases entries, k
  {
    if k == 0 then []
    else EncEntries(c, entries, k - 1) + Separator(k - 1) + EncEntry(c, entries[k - 1])
  }

  function EncEntry(c: Numbers, e: Entry): seq<byte>
    decreases e
  {
    EncString(e.key) + [COLON] + Encode(c, e.value)
  }

  /** Whether encoding at that depth succeeds: nothing unsupported, and not nested too deeply. */
  predicate Encodable(v: Value, depth: nat)
    decreases v
  {
    match v
    case Array(elems) =>
      elems == [] || (depth < MAX_DEPTH && forall i :: 0 <= i < |elems| ==> Encodable(elems[i], depth + 1))
    case Object(entries) =>
      depth < MAX_DEPTH && forall i :: 0 <= i < |entries| ==> Encodable(entries[i].value, depth + 1)
    case Unsupported => false
    case _ => true
  }

  // ---- decoding: characters ----

  function At(s: seq<byte>, i: nat): byte
    requires i <= |s|
  {
    if i < |s| then s[i] else 0
  }

  function HexValue(c: byte): (r: int)
    ensures -1 <= r < 16
  {
    if 0x30 <= c <= 0x39 then c - 0x30
    else if 0x41 <= c <= 0x46 then c - 0x37
    else if 0x61 <= c <= 0x66 then c - 0x57
    else -1
  }

  /** decode_hex4: four digits, read no further than the first that is none. */
  function Hex4(s: seq<byte>, i: nat): (r: int)
    requires i <= |s|
    ensures -1 <= r < 0x10000
    ensures r >= 0 ==> i + 4 <= |s|
  {
    var a := HexValue(At(s, i));
    if a < 0 then -1 else
      var b := HexValue(At(s, i + 1));
      if b < 0 then -1 else
        var c := HexValue(At(s, i + 2));
        if c < 0 then -1 else
          var d := HexValue(At(s, i + 3));
          if d < 0 then -1 else 4096 * a + 256 * b + 16 * c + d
  }

  function Utf8(cp: nat): (r: seq<byte>)
    requires cp <= 0x1fffff
    ensures 1 <= |r| <= 4 && (cp <= 0xffff ==> |r| <= 3)
  {
    if cp <= 0x7f then [cp]
    else if cp <= 0x7ff then [cp / 64 + 0xc0, cp % 64 + 0x80]
    else if cp <= 0xffff then [cp / 4096 + 0xe0, cp / 64 % 64 + 0x80, cp % 64 + 0x80]
    else [cp / 0x40000 + 0xf0, cp / 4096 % 64 + 0x80, cp / 64 % 64 + 0x80, cp % 64 + 0x80]
  }

  datatype Piece = Piece(bytes: seq<byte>, len: nat)

  /** json_append_unicode_escape at the backslash: the bytes, and how much of the text they stand for. */
  function UnicodeEscape(s: seq<byte>, i: nat): (r: Option<Piece>)
    requires i + 2 <= |s|
    ensures r.Some? ==> i + r.value.len <= |s| && 1 <= |r.value.bytes| <= r.value.len
  {
    var cp := Hex4(s, i + 2);
    if cp < 0 then None
    else if 0xd800 <= cp <= 0xdfff then
      if cp >= 0xdc00 then None
      else if At(s, i + 6) != BACKSLASH || At(s, i + 7) != U then None
      else
        var low := Hex4(s, i + 8);
        if !(0xdc00 <= low <= 0xdfff) then None
        else Some(Piece(Utf8((cp - 0xd800) * 1024 + (low - 0xdc00) + 0x10000), 12))
    else Some(Piece(Utf8(cp), 6))
  }

  /** escape2char; zero is an error. */
  function Unescape(c: byte): byte
  {
    if c == QUOTE || c == BACKSLASH || c == SLASH || c == U then c
    else if c == 0x62 then 0x08
    else if c == 0x74 then 0x09
    else if c == 0x6e then 0x0a
    else if c == 0x66 then 0x0c
    else if c == 0x72 then 0x0d
    else 0
  }

  /** One turn of the string loop at a character that does not end the string. */
  function StringPiece(s: seq<byte>, i: nat): (r: Option<Piece>)
    requires i < |s| && s[i] != QUOTE
    ensures r.Some? ==> i + r.value.len <= |s| && 1 <= |r.value.bytes| <= r.value.len
  {
    if s[i] == 0 then None
    else if s[i] == BACKSLASH then
      var c := Unescape(At(s, i + 1));
      if c == U then UnicodeEscape(s, i)
      else if c == 0 then None
      else Some(Piece([c], 2))
    else Some(Piece([s[i]], 1))
  }

  /** The rest of a string from position i on: its bytes and where the text goes on. */
  function StringFrom(s: seq<byte>, i: nat): (r: Option<(seq<byte>, nat)>)
    requires i <= |s|
    ensures r.Some? ==> i < r.value.1 <= |s| && |r.value.0| < r.value.1 - i
    decreases |s| - i
  {
    if i == |s| then None
    else if s[i] == QUOTE then Some(([], i + 1))
    else match StringPiece(s, i)
      case None => None
      case Some(p) =>
        match StringFrom(s, i + p.len)
        case None => None
        case Some(rest) => Some((p.bytes + rest.0, rest.1))
  }

  // ---- decoding: tokens ----

  datatype Token =
    | ObjBegin | ObjEnd | ArrBegin | ArrEnd | Comma | Colon | End | Error
    | TString(text: seq<byte>) | TNumber(x: real) | TBool(on: bool) | TNull

  predicate Whitespace(c: byte)
  {
    c == 0x20 || c == 0x09 || c == 0x0a || c == 0x0d
  }

  function SkipSpace(s: seq<byte>, i: nat): (j: nat)
    requires i <= |s|
    ensures i <= j <= |s| && !Whitespace(At(s, j))
    decreases |s| - i
  {
    if i < |s| && Whitespace(s[i]) then SkipSpace(s, i + 1) else i
  }

  function Lower(c: byte): byte
  {
    if 0x41 <= c <= 0x5a then c + 0x20 else c
  }

  predicate HasNoCase(s: seq<byte>, i: nat, a: byte, b: byte, c: byte)
  {
    i + 3 <= |s| && Lower(s[i]) == a && Lower(s[i + 1]) == b && Lower(s[i + 2]) == c
  }

  /** json_is_invalid_number, where the text starts with neither a minus sign nor a digit. */
  predicate OddNumber(s: seq<byte>, i: nat)
    requires i < |s|
  {
    s[i] == 0x2b || HasNoCase(s, i, 0x69, 0x6e, 0x66) || HasNoCase(s, i, 0x6e, 0x61, 0x6e)
  }

  function NumberToken(c: Numbers, s: seq<byte>, i: nat): (r: (Token, nat))
    requires i < |s|
    ensures i <= r.1 <= |s| && (r.0 != Error ==> i < r.1) && r.0 != End
  {
    match c.parse(s[i..])
    case None => (Error, i)
    case Some((x, n)) => if 1 <= n <= |s| - i then (TNumber(x), i + n) else (Error, i)
  }

  /** json_next_token with the default configuration: the token, and where the text goes on. */
  function NextToken(c: Numbers, s: seq<byte>, start: nat): (r: (Token, nat))
    requires start <= |s|
    ensures start <= r.1 <= |s|
    ensures r.0 != End && r.0 != Error ==> start < r.1
  {
    var i := SkipSpace(s, start);
    var ch := At(s, i);
    if ch == 0 then (End, i)
    else if ch == 0x7b then (ObjBegin, i + 1)
    else if ch == 0x7d then (ObjEnd, i + 1)
    else if ch == 0x5b then (ArrBegin, i + 1)
    else if ch == 0x5d then (ArrEnd, i + 1)
    else if ch == COMMA then (Comma, i + 1)
    else if ch == COLON then (Colon, i + 1)
    else if ch == QUOTE then
      match StringFrom(s, i + 1) case None => (Error, i) case Some(r) => (TString(r.0), r.1)
    else if ch == 0x2d || 0x30 <= ch <= 0x39 then NumberToken(c, s, i)
    else if ch !in {0x66, 0x69, 0x49, 0x6e, 0x4e, 0x74, 0x2b} then (Error, i)
    else if Has(s, i, TRUE) then (TBool(true), i + 4)
    else if Has(s, i, FALSE) then (TBool(false), i + 5)
    else if Has(s, i, NULL) then (TNull, i + 4)
    else if OddNumber(s, i) then NumberToken(c, s, i)
    else (Error, i)
  }

  // ---- decoding: values ----

  /** lua_rawset: a key that is there already keeps its place. */
  function Put(entries: seq<Entry>, key: seq<byte>, v: Value): seq<Entry>
  {
    if entries == [] then [Entry(key, v)]
    else if entries[0].key == key then [Entry(key, v)] + entries[1..]
    else [entries[0]] + Put(entries[1..], key, v)
  }

  datatype Parsed = Parsed(value: Value, next: nat)

  /** json_process_value: the value a token starts, the text going on at i. */
  function Process(c: Numbers, s: seq<byte>, tok: Token, i: nat, depth: nat): (r: Option<Parsed>)
    requires i <= |s|
    ensures r.Some? ==> i <= r.value.next <= |s|
    decreases |s| - i, 1
  {
    match tok
    case TString(text) => Some(Parsed(Str(text), i))
    case TNumber(x) => Some(Parsed(Number(x), i))
    case TBool(on) => Some(Parsed(Bool(on), i))
    case TNull => Some(Parsed(Null, i))
    case ObjBegin => ObjectContext(c, s, i, depth)
    case ArrBegin => ArrayContext(c, s, i, depth)
    case _ => None
  }

  function ObjectContext(c: Numbers, s: seq<byte>, i: nat, depth: nat): (r: Option<Parsed>)
    requires i <= |s|
    ensures r.Some? ==> i <= r.value.next <= |s|
    decreases |s| - i, 0
  {
    if depth + 1 > MAX_DEPTH then None else
      var (tok, j) := NextToken(c, s, i);
      if tok == ObjEnd then Some(Parsed(Object([]), j))
      else if !tok.TString? then None
      else ObjectLoop(c, s, tok.text, j, depth + 1, [])
  }

  /** The loop of the object context, from where a key has been read. */
  function ObjectLoop(c: Numbers, s: seq<byte>, key: seq<byte>, i: nat, depth: nat, entries: seq<Entry>)
    : (r: Option<Parsed>)
    requires i <= |s|
    ensures r.Some? ==> i <= r.value.next <= |s|
    decreases |s| - i, 2
  {
    var (colon, j) := NextToken(c, s, i);
    if colon != Colon then None else
      var (tok, k) := NextToken(c, s, j);
      match Process(c, s, tok, k, depth)
      case None => None
      case Some(v) =>
        var now := Put(entries, key, v.value);
        var (next, l) := NextToken(c, s, v.next);
        if next == ObjEnd then Some(Parsed(Object(now), l))
        else if next != Comma then None
        else
          var (k2, m) := NextToken(c, s, l);
          if !k2.TString? then None else ObjectLoop(c, s, k2.text, m, depth, now)
  }

  function ArrayContext(c: Numbers, s: seq<byte>, i: nat, depth: nat): (r: Option<Parsed>)
    requires i <= |s|
    ensures r.Some? ==> i <= r.value.next <= |s|
    decreases |s| - i, 0
  {
    if depth + 1 > MAX_DEPTH then None else
      var (tok, j) := NextToken(c, s, i);
      if tok == ArrEnd then Some(Parsed(Object([]), j))
      else if tok == End || tok == Error then None
      else ArrayLoop(c, s, tok, j, depth + 1, [])
  }

  /** The loop of the array context, from where the first token of an element has been read. */
  function ArrayLoop(c: Numbers, s: seq<byte>, tok: Token, i: nat, depth: nat, elems: seq<Value>)
    : (r: Option<Parsed>)
    requires i <= |s|
    ensures r.Some? ==> i <= r.value.next <= |s|
    decreases |s| - i, 2
  {
    match Process(c, s, tok, i, depth)
    case None => None
    case Some(v) =>
      var now := elems + [v.value];
      var (next, l) := NextToken(c, s, v.next);
      if next == ArrEnd then Some(Parsed(Array(now), l))
      else if next != Comma then None
      else
        var (t2, m) := NextToken(c, s, l);
        ArrayLoop(c, s, t2, m, depth, now)
  }

  /** json_decode. */
  function Decode(c: Numbers, s: seq<byte>): Option<Value>
  {
    if |s| >= 2 && (s[0] == 0 || s[1] == 0) then None else
      var (tok, i) := NextToken(c, s, 0);
      match Process(c, s, tok, i, 0)
      case None => None
      case Some(v) => if NextToken(c, s, v.next).0 == End then Some(v.value) else None
  }
}
