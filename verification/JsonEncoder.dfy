/**
 The encoder of bundle/lua-cjson-2.1.0.5/lua_cjson.c, writing into a buffer whose counters are ints.  It stops where
 C would leave the buffer or exceed an int.
 */
module JsonEncoder {
  import opened Basics
  import opened JsonText
  import opened JsonRoom
  import opened JsonWhole
  import JsonSpelling
  import opened Strbuf

  /** Written; an error raised; or the program stopped because an int or the buffer was exceeded. */
  datatype Outcome = Done | Refused | OutOfInt | OutOfBuffer

  /** The outcome and the counters are those foreseen. */
  predicate Foreseen(r: Outcome, now: Mark, m: Mark)
  {
    match m
    case Mark(_, _) => r == Done && now == m
    case Overflow => r == OutOfInt
    case Outside => r == OutOfBuffer
  }

  method PutUnsafe(json: Buffer, b: byte) returns (r: Outcome)
    requires json.Valid()
    modifies json`length, json.buf
    ensures json.Valid() && Foreseen(r, json.Now(), Unchecked(old(json.Now())))
    ensures r == Done ==> json.Contents() == old(json.Contents()) + [b]
  {
    if json.length == json.buf.Length {
      return OutOfBuffer;
    }
    json.AppendCharUnsafe(b);
    return Done;
  }

  method AppendByte(json: Buffer, b: byte) returns (r: Outcome)
    requires json.Valid()
    modifies json, json.buf
    ensures json.Valid() && (json.buf == old(json.buf) || fresh(json.buf))
    ensures Foreseen(r, json.Now(), PutByte(old(json.Now()), b))
    ensures r == Done ==> json.Contents() == old(json.Contents()) + EncByte(b)
  {
    var e := Escape(b);
    if e.Some? {
      hide CheckedAll;
      var ok := json.AppendString(e.value);
      r := if ok then Done else OutOfInt;
    } else {
      r := PutUnsafe(json, b);
    }
  }

  method AppendBytes(json: Buffer, str: seq<byte>) returns (r: Outcome)
    requires json.Valid()
    modifies json, json.buf
    ensures json.Valid() && (json.buf == old(json.buf) || fresh(json.buf))
    ensures Foreseen(r, json.Now(), PutBytes(old(json.Now()), str, |str|))
    ensures r == Done ==> json.Contents() == old(json.Contents()) + EncBytes(str, |str|)
  {
    hide EncByte, PutByte;
    for i := 0 to |str|
      invariant json.Valid() && (json.buf == old(json.buf) || fresh(json.buf))
      invariant json.Now() == PutBytes(old(json.Now()), str, i)
      invariant json.Contents() == old(json.Contents()) + EncBytes(str, i)
    {
      r := AppendByte(json, str[i]);
      if r != Done {
        PutBytesStops(old(json.Now()), str, i + 1, |str|);
        return;
      }
      Joined(old(json.Contents()), EncBytes(str, i), EncByte(str[i]));
    }
    return Done;
  }

  /**
   After one reservation of six bytes for each byte and two for the quotes, plain bytes are not checked again.
   JsonRoom says what that comes to.
   */
  method AppendJsonString(json: Buffer, str: seq<byte>) returns (r: Outcome)
    requires json.Valid()
    modifies json, json.buf
    ensures json.Valid() && (json.buf == old(json.buf) || fresh(json.buf))
    ensures Foreseen(r, json.Now(), PutString(old(json.Now()), str))
    ensures r == Done ==> json.Contents() == old(json.Contents()) + EncString(str)
  {
    hide PutBytes, EncBytes, Request;
    var ok := json.EnsureEmptyLength(Request(|str|));
    if !ok {
      PutNothing(Overflow, str);
      return OutOfInt;
    }
    r := PutUnsafe(json, QUOTE);
    if r != Done {
      PutNothing(Outside, str);
      return;
    }
    r := AppendBytes(json, str);
    if r != Done {
      return;
    }
    r := PutUnsafe(json, QUOTE);
    ghost var before, body := old(json.Contents()), EncBytes(str, |str|);
    Joined(before, [QUOTE], body);
    Joined(before, [QUOTE] + body, [QUOTE]);
  }

  // ---- values ----

  /** The same of a step that can be refused. */
  predicate ForeseenPut(r: Outcome, now: Mark, p: Put)
  {
    match p case At(m) => Foreseen(r, now, m) case Denied => r == Refused
  }

  method AppendConst(json: Buffer, text: seq<byte>) returns (r: Outcome)
    requires json.Valid()
    modifies json, json.buf
    ensures json.Valid() && (json.buf == old(json.buf) || fresh(json.buf))
    ensures Foreseen(r, json.Now(), PutMem(old(json.Now()), |text|, |text|))
    ensures r == Done ==> json.Contents() == old(json.Contents()) + text
  {
    hide Resized;
    var ok := json.AppendMem(text);
    r := if ok then Done else OutOfInt;
  }

  method AppendMark(json: Buffer, b: byte) returns (r: Outcome)
    requires json.Valid()
    modifies json, json.buf
    ensures json.Valid() && (json.buf == old(json.buf) || fresh(json.buf))
    ensures Foreseen(r, json.Now(), PutMem(old(json.Now()), 1, 1))
    ensures r == Done ==> json.Contents() == old(json.Contents()) + [b]
  {
    hide Resized;
    var ok := json.AppendChar(b);
    r := if ok then Done else OutOfInt;
  }

  method AppendNumber(c: Numbers, json: Buffer, x: real) returns (r: Outcome)
    requires json.Valid() && PrintsShort(c)
    modifies json, json.buf
    ensures json.Valid() && (json.buf == old(json.buf) || fresh(json.buf))
    ensures Foreseen(r, json.Now(), PutMem(old(json.Now()), NUMBER_SIZE, |c.print_(x)|))
    ensures r == Done ==> json.Contents() == old(json.Contents()) + c.print_(x)
  {
    hide Resized;
    var ok := json.EnsureEmptyLength(NUMBER_SIZE);
    if !ok {
      return OutOfInt;
    }
    json.AppendMemUnsafe(c.print_(x));
    return Done;
  }

  /**
   Refuses only values that nest too deeply or hold something that cannot be written.  JsonWhole says exactly when a
   value is written.
   */
  method AppendData(c: Numbers, json: Buffer, v: Value, depth: nat) returns (r: Outcome)
    requires json.Valid() && PrintsShort(c)
    modifies json, json.buf
    ensures json.Valid() && (json.buf == old(json.buf) || fresh(json.buf))
    ensures ForeseenPut(r, json.Now(), PutData(c, old(json.Now()), v, depth))
    ensures (r == Done ==> Encodable(v, depth)) && (r == Refused ==> !Encodable(v, depth))
    ensures r == Done ==> json.Contents() == old(json.Contents()) + Encode(c, v)
    decreases v, 1
  {
    hide PutMem, PutString, PutArray, PutObject, EncString, EncElems, EncEntries;
    match v
    case Null => r := AppendConst(json, NULL);
    case Bool(on) => r := AppendConst(json, if on then TRUE else FALSE);
    case Number(x) => r := AppendNumber(c, json, x);
    case Str(text) => r := AppendJsonString(json, text);
    case Array(elems) =>
      if elems == [] {
        r := AppendArray(c, json, elems, depth);
      } else if depth + 1 > MAX_DEPTH {
        r := Refused;
      } else {
        r := AppendArray(c, json, elems, depth + 1);
      }
    case Object(entries) =>
      if depth + 1 > MAX_DEPTH {
        r := Refused;
      } else {
        r := AppendObject(c, json, entries, depth + 1);
      }
    case Silent =>
      r := Done;
      assert json.Contents() + [] == json.Contents();
    case Unsupported => r := Refused;
  }

  /** The comma before every element but the first. */
  method AppendSeparator(json: Buffer, i: nat) returns (r: Outcome)
    requires json.Valid()
    modifies json, json.buf
    ensures json.Valid() && (json.buf == old(json.buf) || fresh(json.buf))
    ensures Foreseen(r, json.Now(), PutSeparator(old(json.Now()), i))
    ensures r == Done ==> json.Contents() == old(json.Contents()) + Separator(i)
  {
    hide PutMem;
    if i > 0 {
      r := AppendMark(json, COMMA);
    } else {
      r := Done;
    }
  }

  method AppendElement(c: Numbers, json: Buffer, v: Value, i: nat, depth: nat) returns (r: Outcome)
    requires json.Valid() && PrintsShort(c)
    modifies json, json.buf
    ensures json.Valid() && (json.buf == old(json.buf) || fresh(json.buf))
    ensures var m := PutSeparator(old(json.Now()), i);
            ForeseenPut(r, json.Now(), if m.Mark? then PutData(c, m, v, depth) else At(m))
    ensures (r == Done ==> Encodable(v, depth)) && (r == Refused ==> !Encodable(v, depth))
    ensures r == Done ==> json.Contents() == old(json.Contents()) + (Separator(i) + Encode(c, v))
    decreases v, 2
  {
    hide Encode, Encodable, PrintsShort, Separator, PutData, PutSeparator;
    r := AppendSeparator(json, i);
    if r == Done {
      r := AppendData(c, json, v, depth);
      Joined(old(json.Contents()), Separator(i), Encode(c, v));
    }
  }

  method AppendArray(c: Numbers, json: Buffer, elems: seq<Value>, depth: nat) returns (r: Outcome)
    requires json.Valid() && PrintsShort(c)
    modifies json, json.buf
    ensures json.Valid() && (json.buf == old(json.buf) || fresh(json.buf))
    ensures ForeseenPut(r, json.Now(), PutArray(c, old(json.Now()), elems, depth))
    ensures r == Done ==> forall i :: 0 <= i < |elems| ==> Encodable(elems[i], depth)
    ensures r == Refused ==> exists i :: 0 <= i < |elems| && !Encodable(elems[i], depth)
    ensures r == Done ==>
            json.Contents() == old(json.Contents()) + ([0x5b] + EncElems(c, elems, |elems|) + [0x5d])
    decreases elems, 1
  {
    hide EncElems, Encodable, PrintsShort, PutMem, PutElems;
    r := AppendMark(json, 0x5b);
    if r != Done {
      return;
    }
    r := AppendElements(c, json, elems, depth);
    if r != Done {
      return;
    }
    r := AppendMark(json, 0x5d);
    Joined(old(json.Contents()), [0x5b], EncElems(c, elems, |elems|));
    Joined(old(json.Contents()), [0x5b] + EncElems(c, elems, |elems|), [0x5d]);
  }

  method AppendElements(c: Numbers, json: Buffer, elems: seq<Value>, depth: nat) returns (r: Outcome)
    requires json.Valid() && PrintsShort(c)
    modifies json, json.buf
    ensures json.Valid() && (json.buf == old(json.buf) || fresh(json.buf))
    ensures ForeseenPut(r, json.Now(), PutElems(c, old(json.Now()), elems, |elems|, depth))
    ensures r == Done ==> forall i :: 0 <= i < |elems| ==> Encodable(elems[i], depth)
    ensures r == Refused ==> exists i :: 0 <= i < |elems| && !Encodable(elems[i], depth)
    ensures r == Done ==> json.Contents() == old(json.Contents()) + EncElems(c, elems, |elems|)
    decreases elems, 0
  {
    hide Encode, Encodable, Separator, PrintsShort, PutData, PutSeparator;
    for i := 0 to |elems|
      invariant json.Valid() && (json.buf == old(json.buf) || fresh(json.buf))
      invariant forall k :: 0 <= k < i ==> Encodable(elems[k], depth)
      invariant PutElems(c, old(json.Now()), elems, i, depth) == At(json.Now())
      invariant json.Contents() == old(json.Contents()) + EncElems(c, elems, i)
    {
      r := AppendElement(c, json, elems[i], i, depth);
      if r != Done {
        PutElemsStops(c, old(json.Now()), elems, i + 1, |elems|, depth);
        return;
      }
      Joined(old(json.Contents()), EncElems(c, elems, i), Separator(i) + Encode(c, elems[i]));
      Joined(EncElems(c, elems, i), Separator(i), Encode(c, elems[i]));
    }
    return Done;
  }

  lemma {:induction false} PutElemsStops(c: Numbers, m: Mark, elems: seq<Value>, i: nat, k: nat, depth: nat)
    requires Good(m) && i <= k <= |elems| && !Fine(PutElems(c, m, elems, i, depth))
    ensures PutElems(c, m, elems, k, depth) == PutElems(c, m, elems, i, depth)
    decreases k
  {
    hide PutData, PutSeparator;
    if i < k {
      PutElemsStops(c, m, elems, i, k - 1, depth);
    }
  }

  /** The separator, the key and the colon. */
  method AppendKey(json: Buffer, key: seq<byte>, i: nat) returns (r: Outcome)
    requires json.Valid()
    modifies json, json.buf
    ensures json.Valid() && (json.buf == old(json.buf) || fresh(json.buf))
    ensures Foreseen(r, json.Now(), PutKey(old(json.Now()), key, i))
    ensures r == Done ==> json.Contents() == old(json.Contents()) + (Separator(i) + EncString(key) + [COLON])
  {
    hide EncString, Separator, PutSeparator, PutString, PutMem;
    r := AppendSeparator(json, i);
    if r != Done {
      return;
    }
    r := AppendJsonString(json, key);
    if r != Done {
      return;
    }
    r := AppendMark(json, COLON);
    Joined(old(json.Contents()), Separator(i), EncString(key));
    Joined(old(json.Contents()), Separator(i) + EncString(key), [COLON]);
  }

  method AppendEntry(c: Numbers, json: Buffer, e: Entry, i: nat, depth: nat) returns (r: Outcome)
    requires json.Valid() && PrintsShort(c)
    modifies json, json.buf
    ensures json.Valid() && (json.buf == old(json.buf) || fresh(json.buf))
    ensures var m := PutKey(old(json.Now()), e.key, i);
            ForeseenPut(r, json.Now(), if m.Mark? then PutData(c, m, e.value, depth) else At(m))
    ensures (r == Done ==> Encodable(e.value, depth)) && (r == Refused ==> !Encodable(e.value, depth))
    ensures r == Done ==> json.Contents() == old(json.Contents()) + (Separator(i) + EncEntry(c, e))
    decreases e, 2
  {
    hide Encode, Encodable, EncString, PrintsShort, Separator, PutData, PutKey;
    r := AppendKey(json, e.key, i);
    if r == Done {
      r := AppendData(c, json, e.value, depth);
      KeyAndValue(old(json.Contents()), Separator(i), EncString(e.key), Encode(c, e.value));
    }
  }

  lemma KeyAndValue(before: seq<byte>, a: seq<byte>, key: seq<byte>, value: seq<byte>)
    ensures before + (a + key + [COLON]) + value == before + (a + (key + [COLON] + value))
  {
    Joined(before, a + key + [COLON], value);
    Joined(a, key, [COLON]);
    Joined(a, key + [COLON], value);
  }

  method AppendObject(c: Numbers, json: Buffer, entries: seq<Entry>, depth: nat) returns (r: Outcome)
    requires json.Valid() && PrintsShort(c)
    modifies json, json.buf
    ensures json.Valid() && (json.buf == old(json.buf) || fresh(json.buf))
    ensures ForeseenPut(r, json.Now(), PutObject(c, old(json.Now()), entries, depth))
    ensures r == Done ==> forall i :: 0 <= i < |entries| ==> Encodable(entries[i].value, depth)
    ensures r == Refused ==> exists i :: 0 <= i < |entries| && !Encodable(entries[i].value, depth)
    ensures r == Done ==>
            json.Contents() == old(json.Contents()) + ([0x7b] + EncEntries(c, entries, |entries|) + [0x7d])
    decreases entries, 1
  {
    hide EncEntries, Encodable, PrintsShort, PutMem, PutEntries;
    r := AppendMark(json, 0x7b);
    if r != Done {
      return;
    }
    r := AppendEntries(c, json, entries, depth);
    if r != Done {
      return;
    }
    r := AppendMark(json, 0x7d);
    Joined(old(json.Contents()), [0x7b], EncEntries(c, entries, |entries|));
    Joined(old(json.Contents()), [0x7b] + EncEntries(c, entries, |entries|), [0x7d]);
  }

  method AppendEntries(c: Numbers, json: Buffer, entries: seq<Entry>, depth: nat) returns (r: Outcome)
    requires json.Valid() && PrintsShort(c)
    modifies json, json.buf
    ensures json.Valid() && (json.buf == old(json.buf) || fresh(json.buf))
    ensures ForeseenPut(r, json.Now(), PutEntries(c, old(json.Now()), entries, |entries|, depth))
    ensures r == Done ==> forall i :: 0 <= i < |entries| ==> Encodable(entries[i].value, depth)
    ensures r == Refused ==> exists i :: 0 <= i < |entries| && !Encodable(entries[i].value, depth)
    ensures r == Done ==> json.Contents() == old(json.Contents()) + EncEntries(c, entries, |entries|)
    decreases entries, 0
  {
    hide EncEntry, Encodable, Separator, PrintsShort, PutData, PutKey;
    for i := 0 to |entries|
      invariant json.Valid() && (json.buf == old(json.buf) || fresh(json.buf))
      invariant forall k :: 0 <= k < i ==> Encodable(entries[k].value, depth)
      invariant PutEntries(c, old(json.Now()), entries, i, depth) == At(json.Now())
      invariant json.Contents() == old(json.Contents()) + EncEntries(c, entries, i)
    {
      r := AppendEntry(c, json, entries[i], i, depth);
      if r != Done {
        PutEntriesStops(c, old(json.Now()), entries, i + 1, |entries|, depth);
        return;
      }
      Joined(old(json.Contents()), EncEntries(c, entries, i), Separator(i) + EncEntry(c, entries[i]));
      Joined(EncEntries(c, entries, i), Separator(i), EncEntry(c, entries[i]));
    }
    return Done;
  }

  lemma {:induction false} PutEntriesStops(c: Numbers, m: Mark, entries: seq<Entry>, i: nat, k: nat, depth: nat)
    requires Good(m) && i <= k <= |entries| && !Fine(PutEntries(c, m, entries, i, depth))
    ensures PutEntries(c, m, entries, k, depth) == PutEntries(c, m, entries, i, depth)
    decreases k
  {
    hide PutData, PutKey;
    if i < k {
      PutEntriesStops(c, m, entries, i, k - 1, depth);
    }
  }

  /**
   json_encode with the buffer that is kept from call to call.  A value without overlong strings is encoded exactly if
   it can be and an int suffices; one that needs less than half an int always is, if it can be.
   */
  method EncodeValue(c: Numbers, json: Buffer, v: Value) returns (r: Outcome, text: seq<byte>)
    requires json.Valid() && PrintsShort(c)
    modifies json, json.buf
    ensures json.Valid() && (json.buf == old(json.buf) || fresh(json.buf))
    ensures r == Done ==> Encodable(v, 0) && text == Encode(c, v)
    ensures r == Done ==> JsonSpelling.Written(c, v, text)
    ensures r == Done ==> JsonSpelling.Supported(v) && JsonSpelling.Tables(v) <= 1000
    ensures r == Refused ==> !Encodable(v, 0)
    ensures r == Refused ==> !(JsonSpelling.Supported(v) && JsonSpelling.Tables(v) <= 1000)
    ensures ShortStrings(v) && Encodable(v, 0) ==> r == if Peak(c, v) + 1 <= Top(old(json.buf.Length)) then Done else OutOfInt
    ensures ShortStrings(v) && 2 * (Peak(c, v) + 1) <= INT_MAX + 1 ==> r == if Encodable(v, 0) then Done else Refused
  {
    hide PutData, Encode, Encodable, Peak, ShortStrings, PrintsShort, Top;
    hide JsonSpelling.Written, JsonSpelling.Supported, JsonSpelling.Tables;
    JsonSpelling.EncodeWritten(c, v);
    JsonSpelling.EncodableExactly(v, 0);
    json.Reset();
    if ShortStrings(v) {
      DataExact(c, json.Now(), v, 0);
    }
    r := AppendData(c, json, v, 0);
    assert [] + Encode(c, v) == Encode(c, v);
    text := if r == Done then json.buf[..json.length] else [];
  }
}
