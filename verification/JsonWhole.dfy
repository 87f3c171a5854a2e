/**
 The room that a whole value takes while it is encoded by bundle/lua-cjson-2.1.0.5/lua_cjson.c, on the counters of the
 buffer alone, and exactly when an int does not suffice for it.
 */
module JsonWhole {
  import opened Basics
  import opened JsonRoom
  import opened JsonText
  import opened Strbuf

  const NUMBER_SIZE: nat := 32

  /** Printed numbers fit the room that is made for them. */
  ghost predicate PrintsShort(c: Numbers)
  {
    forall x :: |c.print_(x)| <= NUMBER_SIZE
  }

  // ---- the counters ----

  /** An append of n bytes after a reservation of ask. */
  function PutMem(m: Mark, ask: nat, n: nat): (r: Mark)
    requires Good(m) && n <= ask
    ensures r.Mark? ==> Good(r) && r.length == m.length + n
    ensures r != Outside
  {
    var e := Ensured(m, ask);
    if e.Mark? then Mark(e.size, e.length + n) else e
  }

  /** Where the counters are left; or an error was raised. */
  datatype Put = At(m: Mark) | Denied

  predicate Fine(p: Put)
    ensures Fine(p) ==> p.At? && Good(p.m)
  {
    p.At? && Good(p.m)
  }

  function PutSeparator(m: Mark, k: nat): (r: Mark)
    requires Good(m)
    ensures r.Mark? ==> Good(r) && r.length == m.length + |Separator(k)|
  {
    if k == 0 then m else PutMem(m, 1, 1)
  }

  function PutData(c: Numbers, m: Mark, v: Value, depth: nat): (p: Put)
    requires Good(m)
    ensures p.At? && p.m.Mark? ==> Good(p.m)
    decreases v, 0
  {
    match v
    case Null => At(PutMem(m, 4, 4))
    case Bool(on) => if on then At(PutMem(m, 4, 4)) else At(PutMem(m, 5, 5))
    case Number(x) => if |c.print_(x)| <= NUMBER_SIZE then At(PutMem(m, NUMBER_SIZE, |c.print_(x)|)) else At(Outside)
    case Str(text) => At(PutString(m, text))
    case Array(elems) =>
      if elems == [] then PutArray(c, m, elems, depth)
      else if depth + 1 > MAX_DEPTH then Denied
      else PutArray(c, m, elems, depth + 1)
    case Object(entries) => if depth + 1 > MAX_DEPTH then Denied else PutObject(c, m, entries, depth + 1)
    case Silent => At(m)
    case Unsupported => Denied
  }

  function PutArray(c: Numbers, m: Mark, elems: seq<Value>, depth: nat): (p: Put)
    requires Good(m)
    ensures p.At? && p.m.Mark? ==> Good(p.m)
    decreases elems, |elems| + 1
  {
    var a := PutMem(m, 1, 1);
    if !a.Mark? then At(a) else
      var b := PutElems(c, a, elems, |elems|, depth);
      if !Fine(b) then b else At(PutMem(b.m, 1, 1))
  }

  function PutElems(c: Numbers, m: Mark, elems: seq<Value>, k: nat, depth: nat): (p: Put)
    requires Good(m) && k <= |elems|
    ensures p.At? && p.m.Mark? ==> Good(p.m)
    decreases elems, k
  {
    if k == 0 then At(m) else
      var a := PutElems(c, m, elems, k - 1, depth);
      if !Fine(a) then a else
        var b := PutSeparator(a.m, k - 1);
        if !b.Mark? then At(b) else PutData(c, b, elems[k - 1], depth)
  }

  function PutObject(c: Numbers, m: Mark, entries: seq<Entry>, depth: nat): (p: Put)
    requires Good(m)
    ensures p.At? && p.m.Mark? ==> Good(p.m)
    decreases entries, |entries| + 1
  {
    var a := PutMem(m, 1, 1);
    if !a.Mark? then At(a) else
      var b := PutEntries(c, a, entries, |entries|, depth);
      if !Fine(b) then b else At(PutMem(b.m, 1, 1))
  }

  /** The separator, the key and the colon. */
  function PutKey(m: Mark, key: seq<byte>, k: nat): (r: Mark)
    requires Good(m)
    ensures r.Mark? ==> Good(r)
  {
    var a := PutSeparator(m, k);
    if !a.Mark? then a else
      var b := PutString(a, key);
      if !b.Mark? then b else PutMem(b, 1, 1)
  }

  function PutEntries(c: Numbers, m: Mark, entries: seq<Entry>, k: nat, depth: nat): (p: Put)
    requires Good(m) && k <= |entries|
    ensures p.At? && p.m.Mark? ==> Good(p.m)
    decreases entries, k
  {
    if k == 0 then At(m) else
      var a := PutEntries(c, m, entries, k - 1, depth);
      if !Fine(a) then a else
        var b := PutKey(a.m, entries[k - 1].key, k - 1);
        if !b.Mark? then At(b) else PutData(c, b, entries[k - 1].value, depth)
  }

  // ---- the largest size a buffer can grow to ----

  function Top(size: nat): (n: nat)
    requires 1 <= size <= INT_MAX
    ensures size <= n <= INT_MAX < 2 * n
    decreases INT_MAX - size
  {
    if 2 * size > INT_MAX then size else Top(2 * size)
  }

  lemma {:induction false} DoubledTop(size: nat, need: nat)
    requires 1 <= size <= INT_MAX
    ensures Doubled(size, need) <= INT_MAX <==> need <= Top(size)
    ensures Doubled(size, need) <= INT_MAX ==> Top(Doubled(size, need)) == Top(size)
    decreases INT_MAX - size
  {
    if size < need && 2 * size <= INT_MAX {
      DoubledTop(2 * size, need);
    }
  }

  /** A reservation is met exactly if it leaves the buffer within that size, which stays the same. */
  lemma EnsuredTop(m: Mark, ask: nat)
    requires Good(m)
    ensures Ensured(m, ask).Mark? <==> m.length + ask + 1 <= Top(m.size)
    ensures Ensured(m, ask).Mark? ==> Top(Ensured(m, ask).size) == Top(m.size)
    ensures !Ensured(m, ask).Mark? ==> Ensured(m, ask) == Overflow
  {
    hide Doubled, Top;
    DoubledTop(m.size, m.length + ask + 1);
  }

  /** From the default size it is 2^21 times as much. */
  lemma TopOfDefault()
    ensures Top(DEFAULT_SIZE) == 2145386496
  {
    TopFrom(1023);
    TopFrom(1023 * 128);
    TopFrom(1023 * 16384);
  }

  lemma TopFrom(size: nat)
    requires 1 <= size && 128 * size <= INT_MAX
    ensures Top(size) == Top(128 * size)
  {
    assert Top(size) == Top(2 * size) == Top(4 * size) == Top(8 * size);
    assert Top(8 * size) == Top(16 * size) == Top(32 * size) == Top(64 * size);
    assert Top(64 * size) == Top(128 * size);
  }

  /** m grew to a buffer of the same kind with n more bytes in it. */
  predicate Grown(m: Mark, r: Mark, n: nat)
    requires Good(m)
  {
    Good(r) && Top(r.size) == Top(m.size) && r.length == m.length + n
  }

  /** What an append does that writes n bytes and reserves up to peak: as foreseen if that is within reach. */
  predicate Exact(m: Mark, r: Mark, peak: int, n: nat)
    requires Good(m)
  {
    if m.length + peak + 1 <= Top(m.size) then Grown(m, r, n) else r == Overflow
  }

  lemma MemExact(m: Mark, ask: nat, n: nat)
    requires Good(m) && n <= ask
    ensures Exact(m, PutMem(m, ask, n), ask, n)
  {
    hide Ensured, Top;
    EnsuredTop(m, ask);
  }

  /** Strings for which the request fits an int. */
  predicate ShortString(str: seq<byte>)
  {
    6 * |str| + 2 <= INT_MAX
  }

  lemma ShortExactly(str: seq<byte>)
    ensures ShortString(str) <==> |str| <= 357913940
  {
  }

  lemma StringExact(m: Mark, str: seq<byte>)
    requires Good(m) && ShortString(str)
    ensures Exact(m, PutString(m, str), 6 * |str| + 2, |EncString(str)|)
  {
    hide PutString, EncString, Doubled, Top;
    PutStringExact(m, str);
    DoubledTop(m.size, m.length + 6 * |str| + 3);
  }

  function Max(a: int, b: int): int
  {
    if a >= b then a else b
  }

  /** The same of a step that can be refused: it is if its turn comes, and an int may be exceeded before that. */
  predicate ExactPut(m: Mark, p: Put, peak: int, n: nat, can: bool)
    requires Good(m)
  {
    if m.length + peak + 1 <= Top(m.size) then
      if can then p.At? && Grown(m, p.m, n) else p == Denied
    else p == At(Overflow) || (!can && p == Denied)
  }

  lemma ExactAt(m: Mark, r: Mark, peak: int, n: nat)
    requires Good(m) && Exact(m, r, peak, n)
    ensures ExactPut(m, At(r), peak, n, true)
  {
    hide Top;
  }

  /** One step after another. */
  lemma PutThen(m: Mark, a: Put, p: Put, peak: int, n: nat, can: bool, peak': int, n': nat, can': bool)
    requires Good(m) && ExactPut(m, a, peak, n, can)
    requires if Fine(a) then ExactPut(a.m, p, peak', n', can') else p == a
    ensures ExactPut(m, p, Max(peak, n + peak'), n + n', can && can')
  {
    hide Top;
  }

  lemma NothingPut(m: Mark)
    requires Good(m)
    ensures ExactPut(m, At(m), -1, 0, true)
  {
    hide Top;
  }

  // ---- the most that is reserved, counted from where the value starts ----

  /** What stands between brackets, with them. */
  function Bracketed(peak: int, n: nat): int
  {
    Max(Max(1, 1 + peak), 1 + n + 1)
  }

  function PeakSeparator(k: nat): int
  {
    if k == 0 then -1 else 1
  }

  function Peak(c: Numbers, v: Value): int
    decreases v, 0
  {
    match v
    case Null => 4
    case Bool(on) => if on then 4 else 5
    case Number(_) => NUMBER_SIZE
    case Str(text) => 6 * |text| + 2
    case Array(elems) => Bracketed(PeakElems(c, elems, |elems|), |EncElems(c, elems, |elems|)|)
    case Object(entries) => Bracketed(PeakEntries(c, entries, |entries|), |EncEntries(c, entries, |entries|)|)
    case Silent => -1
    case Unsupported => -1
  }

  function PeakElems(c: Numbers, elems: seq<Value>, k: nat): int
    requires k <= |elems|
    decreases elems, k
  {
    if k == 0 then -1 else
      var n := |EncElems(c, elems, k - 1)|;
      Max(Max(PeakElems(c, elems, k - 1), n + PeakSeparator(k - 1)),
          n + |Separator(k - 1)| + Peak(c, elems[k - 1]))
  }

  function PeakKey(key: seq<byte>, k: nat): int
  {
    Max(Max(PeakSeparator(k), |Separator(k)| + (6 * |key| + 2)), |Separator(k)| + |EncString(key)| + 1)
  }

  function PeakEntries(c: Numbers, entries: seq<Entry>, k: nat): int
    requires k <= |entries|
    decreases entries, k
  {
    if k == 0 then -1 else
      var n, e := |EncEntries(c, entries, k - 1)|, entries[k - 1];
      Max(Max(PeakEntries(c, entries, k - 1), n + PeakKey(e.key, k - 1)),
          n + (|Separator(k - 1)| + |EncString(e.key)| + 1) + Peak(c, e.value))
  }

  /** No string or key too long for its own reservation. */
  predicate ShortStrings(v: Value)
    decreases v
  {
    match v
    case Str(text) => ShortString(text)
    case Array(elems) => forall i :: 0 <= i < |elems| ==> ShortStrings(elems[i])
    case Object(entries) =>
      forall i :: 0 <= i < |entries| ==> ShortString(entries[i].key) && ShortStrings(entries[i].value)
    case _ => true
  }

  // ---- exactly when a value is written ----

  lemma SeparatorExact(m: Mark, k: nat)
    requires Good(m)
    ensures ExactPut(m, At(PutSeparator(m, k)), PeakSeparator(k), |Separator(k)|, true)
  {
    hide PutMem, Top;
    if k == 0 {
      NothingPut(m);
    } else {
      MemExact(m, 1, 1);
      ExactAt(m, PutMem(m, 1, 1), 1, 1);
    }
  }

  lemma OneByte(m: Mark)
    requires Good(m)
    ensures ExactPut(m, At(PutMem(m, 1, 1)), 1, 1, true)
  {
    hide PutMem, Top, Exact, ExactPut;
    MemExact(m, 1, 1);
    ExactAt(m, PutMem(m, 1, 1), 1, 1);
  }

  lemma KeyExact(m: Mark, key: seq<byte>, k: nat)
    requires Good(m) && ShortString(key)
    ensures ExactPut(m, At(PutKey(m, key, k)), PeakKey(key, k), |Separator(k)| + |EncString(key)| + 1, true)
  {
    hide ExactPut, Exact, PutMem, PutString, PutSeparator, EncString, Separator, PeakSeparator, ShortString, Max;
    SeparatorExact(m, k);
    var a := PutSeparator(m, k);
    var b := if a.Mark? then PutString(a, key) else a;
    var r := if b.Mark? then PutMem(b, 1, 1) else b;
    if a.Mark? {
      StringExact(a, key);
      ExactAt(a, b, 6 * |key| + 2, |EncString(key)|);
    }
    PutThen(m, At(a), At(b), PeakSeparator(k), |Separator(k)|, true, 6 * |key| + 2, |EncString(key)|, true);
    if b.Mark? {
      OneByte(b);
    }
    PutThen(m, At(b), At(r), Max(PeakSeparator(k), |Separator(k)| + (6 * |key| + 2)), |Separator(k)| + |EncString(key)|,
            true, 1, 1, true);
  }

  /** Brackets around what was put between them. */
  lemma BracketsExact(m: Mark, a: Mark, b: Put, p: Put, peak: int, n: nat, can: bool)
    requires Good(m) && a == PutMem(m, 1, 1)
    requires if a.Mark? then ExactPut(a, b, peak, n, can) else b == At(a)
    requires p == if Fine(b) then At(PutMem(b.m, 1, 1)) else b
    ensures ExactPut(m, p, Bracketed(peak, n), 1 + n + 1, can)
  {
    hide ExactPut, PutMem, Max;
    OneByte(m);
    PutThen(m, At(a), b, 1, 1, true, peak, n, can);
    if Fine(b) {
      OneByte(b.m);
    }
    PutThen(m, b, p, Max(1, 1 + peak), 1 + n, can, 1, 1, true);
  }

  predicate AllEncodable(elems: seq<Value>, k: nat, depth: nat)
    requires k <= |elems|
  {
    forall i :: 0 <= i < k ==> Encodable(elems[i], depth)
  }

  predicate ValuesEncodable(entries: seq<Entry>, k: nat, depth: nat)
    requires k <= |entries|
  {
    forall i :: 0 <= i < k ==> Encodable(entries[i].value, depth)
  }

  lemma {:induction false} ElemsExact(c: Numbers, m: Mark, elems: seq<Value>, k: nat, depth: nat)
    requires Good(m) && PrintsShort(c) && k <= |elems| && forall i :: 0 <= i < |elems| ==> ShortStrings(elems[i])
    ensures ExactPut(m, PutElems(c, m, elems, k, depth), PeakElems(c, elems, k), |EncElems(c, elems, k)|,
                     AllEncodable(elems, k, depth))
    decreases elems, k
  {
    hide ExactPut, PutData, PutSeparator, Encode, Encodable, Separator, Peak, PeakSeparator, PrintsShort, ShortStrings, Max;
    if k == 0 {
      NothingPut(m);
    } else {
      ElemsExact(c, m, elems, k - 1, depth);
      var a, v := PutElems(c, m, elems, k - 1, depth), elems[k - 1];
      var can, n, peak := AllEncodable(elems, k - 1, depth), |EncElems(c, elems, k - 1)|, PeakElems(c, elems, k - 1);
      var b := if Fine(a) then At(PutSeparator(a.m, k - 1)) else a;
      var p := if Fine(b) then PutData(c, b.m, v, depth) else b;
      if Fine(a) {
        SeparatorExact(a.m, k - 1);
      }
      PutThen(m, a, b, peak, n, can, PeakSeparator(k - 1), |Separator(k - 1)|, true);
      if Fine(b) {
        DataExact(c, b.m, v, depth);
      }
      PutThen(m, b, p, Max(peak, n + PeakSeparator(k - 1)), n + |Separator(k - 1)|, can,
              Peak(c, v), |Encode(c, v)|, Encodable(v, depth));
    }
  }

  lemma {:induction false} EntriesExact(c: Numbers, m: Mark, entries: seq<Entry>, k: nat, depth: nat)
    requires Good(m) && PrintsShort(c) && k <= |entries|
    requires forall i :: 0 <= i < |entries| ==> ShortString(entries[i].key) && ShortStrings(entries[i].value)
    ensures ExactPut(m, PutEntries(c, m, entries, k, depth), PeakEntries(c, entries, k), |EncEntries(c, entries, k)|,
                     ValuesEncodable(entries, k, depth))
    decreases entries, k
  {
    hide ExactPut, PutData, PutKey, Encode, EncString, Encodable, Separator, Peak, PeakKey, PrintsShort, ShortString;
    hide ShortStrings, Max;
    if k == 0 {
      NothingPut(m);
    } else {
      EntriesExact(c, m, entries, k - 1, depth);
      var a, e := PutEntries(c, m, entries, k - 1, depth), entries[k - 1];
      var can, n := ValuesEncodable(entries, k - 1, depth), |EncEntries(c, entries, k - 1)|;
      var peak := PeakEntries(c, entries, k - 1);
      var l := |Separator(k - 1)| + |EncString(e.key)| + 1;
      var b := if Fine(a) then At(PutKey(a.m, e.key, k - 1)) else a;
      var p := if Fine(b) then PutData(c, b.m, e.value, depth) else b;
      if Fine(a) {
        KeyExact(a.m, e.key, k - 1);
      }
      PutThen(m, a, b, peak, n, can, PeakKey(e.key, k - 1), l, true);
      if Fine(b) {
        DataExact(c, b.m, e.value, depth);
      }
      PutThen(m, b, p, Max(peak, n + PeakKey(e.key, k - 1)), n + l, can,
              Peak(c, e.value), |Encode(c, e.value)|, Encodable(e.value, depth));
    }
  }

  lemma ArrayExact(c: Numbers, m: Mark, elems: seq<Value>, depth: nat)
    requires Good(m) && PrintsShort(c) && forall i :: 0 <= i < |elems| ==> ShortStrings(elems[i])
    ensures ExactPut(m, PutArray(c, m, elems, depth), Peak(c, Array(elems)), |Encode(c, Array(elems))|,
                     AllEncodable(elems, |elems|, depth))
    decreases elems, |elems| + 1
  {
    hide ExactPut, PutElems, PutMem, PeakElems, EncElems, AllEncodable, PrintsShort, ShortStrings, Bracketed;
    var a := PutMem(m, 1, 1);
    var b := if a.Mark? then PutElems(c, a, elems, |elems|, depth) else At(a);
    if a.Mark? {
      ElemsExact(c, a, elems, |elems|, depth);
    }
    BracketsExact(m, a, b, PutArray(c, m, elems, depth), PeakElems(c, elems, |elems|), |EncElems(c, elems, |elems|)|,
                  AllEncodable(elems, |elems|, depth));
  }

  lemma ObjectExact(c: Numbers, m: Mark, entries: seq<Entry>, depth: nat)
    requires Good(m) && PrintsShort(c)
    requires forall i :: 0 <= i < |entries| ==> ShortString(entries[i].key) && ShortStrings(entries[i].value)
    ensures ExactPut(m, PutObject(c, m, entries, depth), Peak(c, Object(entries)), |Encode(c, Object(entries))|,
                     ValuesEncodable(entries, |entries|, depth))
    decreases entries, |entries| + 1
  {
    hide ExactPut, PutEntries, PutMem, PeakEntries, EncEntries, ValuesEncodable, PrintsShort, ShortString, ShortStrings;
    hide Bracketed;
    var a := PutMem(m, 1, 1);
    var b := if a.Mark? then PutEntries(c, a, entries, |entries|, depth) else At(a);
    if a.Mark? {
      EntriesExact(c, a, entries, |entries|, depth);
    }
    BracketsExact(m, a, b, PutObject(c, m, entries, depth), PeakEntries(c, entries, |entries|),
                  |EncEntries(c, entries, |entries|)|, ValuesEncodable(entries, |entries|, depth));
  }

  lemma LeafExact(c: Numbers, m: Mark, v: Value, depth: nat)
    requires Good(m) && PrintsShort(c) && ShortStrings(v) && !v.Array? && !v.Object?
    ensures ExactPut(m, PutData(c, m, v, depth), Peak(c, v), |Encode(c, v)|, Encodable(v, depth))
  {
    hide ExactPut, Exact, PutMem, PutString, EncString, Top;
    match v
    case Null => MemExact(m, 4, 4); ExactAt(m, PutMem(m, 4, 4), 4, 4);
    case Bool(on) =>
      var n := if on then 4 else 5;
      MemExact(m, n, n);
      ExactAt(m, PutMem(m, n, n), n, n);
    case Number(x) =>
      var n := |c.print_(x)|;
      MemExact(m, NUMBER_SIZE, n);
      ExactAt(m, PutMem(m, NUMBER_SIZE, n), NUMBER_SIZE, n);
    case Str(text) =>
      StringExact(m, text);
      ExactAt(m, PutString(m, text), 6 * |text| + 2, |EncString(text)|);
    case Silent => NothingPut(m);
    case Unsupported => DeniedExact(m, -1, 0);
  }

  /** A number asks for 32 bytes and the terminator, however short it is. */
  lemma NumberRoom(c: Numbers, x: real, size: nat, depth: nat)
    requires |c.print_(x)| <= 32 && 1 <= size <= INT_MAX
    ensures PutData(c, Mark(size, 0), Number(x), depth) == At(Mark(size, |c.print_(x)|)) <==> size >= 33
  {
  }

  lemma DeniedExact(m: Mark, peak: int, n: nat)
    requires Good(m)
    ensures ExactPut(m, Denied, peak, n, false)
  {
  }

  /**
   A value without overlong strings is written, or refused if it cannot be, exactly if what is reserved on the way stays
   within the largest size its buffer can grow to; else an int is exceeded, or a refusal comes first.
   */
  lemma {:induction false} DataExact(c: Numbers, m: Mark, v: Value, depth: nat)
    requires Good(m) && PrintsShort(c) && ShortStrings(v)
    ensures ExactPut(m, PutData(c, m, v, depth), Peak(c, v), |Encode(c, v)|, Encodable(v, depth))
    decreases v, 1
  {
    hide ExactPut, PutArray, PutObject, Peak, Encode, PrintsShort;
    match v
    case Array(elems) =>
      if elems == [] {
        ArrayExact(c, m, elems, depth);
      } else if depth + 1 > MAX_DEPTH {
        DeniedExact(m, Peak(c, v), |Encode(c, v)|);
      } else {
        ArrayExact(c, m, elems, depth + 1);
      }
    case Object(entries) =>
      if depth + 1 > MAX_DEPTH {
        DeniedExact(m, Peak(c, v), |Encode(c, v)|);
      } else {
        ObjectExact(c, m, entries, depth + 1);
      }
    case _ => LeafExact(c, m, v, depth);
  }

  /** What a caller can count on whatever the buffer: a value that needs no more than half an int is written. */
  lemma HalfSuffices(c: Numbers, m: Mark, v: Value, depth: nat)
    requires Good(m) && PrintsShort(c) && ShortStrings(v) && 2 * (m.length + Peak(c, v) + 1) <= INT_MAX + 1
    ensures PutData(c, m, v, depth).Denied? <==> !Encodable(v, depth)
    ensures Encodable(v, depth) ==> Fine(PutData(c, m, v, depth))
  {
    hide PutData, Peak, Encode, Encodable;
    DataExact(c, m, v, depth);
  }
}
