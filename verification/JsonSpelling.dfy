/** The encoder's text of a value byte for byte, and how deeply a value may nest. */
module JsonSpelling {
  import opened Basics
  import opened JsonText
  import opened JsonGrammar

  // ---- strings ----

  /** What stands for a byte: a backslash and a letter where there is one, a unit for the other control characters. */
  ghost predicate Stands(b: byte, t: seq<byte>)
  {
    || (|t| == 2 && t[0] == 0x5c && (t[1], b) in SHORT)
    || ((forall a: byte :: (a, b) !in SHORT) && t == if b < 0x20 || b == 0x7f then Unit(b) else [b])
  }

  lemma ShortStands(b: byte, t: seq<byte>)
    requires b in {0x08, 0x09, 0x0a, 0x0c, 0x0d, 0x22, 0x2f, 0x5c}
    ensures EncByte(b) == t <==> |t| == 2 && t[0] == 0x5c && (t[1], b) in SHORT
    ensures |EncByte(b)| == 2 && (EncByte(b)[1], b) in SHORT
  {
    assert |t| == 2 ==> t == [t[0], t[1]];
  }

  lemma LongStands(b: byte, t: seq<byte>)
    requires b !in {0x08, 0x09, 0x0a, 0x0c, 0x0d, 0x22, 0x2f, 0x5c}
    ensures forall a: byte :: (a, b) !in SHORT
    ensures EncByte(b) == if b < 0x20 || b == 0x7f then Unit(b) else [b]
  {
    hide HexDigit;
    HexSame(b / 16);
    HexSame(b % 16);
    assert HEX[0] == 0x30;
  }

  lemma ByteStands(b: byte, t: seq<byte>)
    ensures EncByte(b) == t <==> Stands(b, t)
  {
    hide EncByte, SHORT, Unit;
    if b in {0x08, 0x09, 0x0a, 0x0c, 0x0d, 0x22, 0x2f, 0x5c} {
      ShortStands(b, t);
      var a: byte := EncByte(b)[1];
      assert (a, b) in SHORT;
    } else {
      LongStands(b, t);
    }
  }

  /** Every byte in turn. */
  ghost predicate StandAll(text: seq<byte>, t: seq<byte>)
    decreases text
  {
    if text == [] then t == []
    else exists n :: 0 <= n <= |t| && StandAll(text[..|text| - 1], t[..n]) && Stands(text[|text| - 1], t[n..])
  }

  lemma {:induction false} BytesStand(text: seq<byte>, t: seq<byte>)
    ensures EncBytes(text, |text|) == t <==> StandAll(text, t)
  {
    hide Stands, EncByte;
    if text != [] {
      var k := |text| - 1;
      var b := text[k];
      BytesPrefix(text, text[..k], k);
      var e := EncBytes(text, k);
      BytesStand(text[..k], e);
      ByteStands(b, EncByte(b));
      if EncBytes(text, |text|) == t {
        assert t[..|e|] == e && t[|e|..] == EncByte(b);
      }
      if StandAll(text, t) {
        var n :| 0 <= n <= |t| && StandAll(text[..k], t[..n]) && Stands(b, t[n..]);
        BytesStand(text[..k], t[..n]);
        ByteStands(b, t[n..]);
        assert t == t[..n] + t[n..];
      }
    }
  }

  lemma {:induction false} BytesPrefix(a: seq<byte>, b: seq<byte>, k: nat)
    requires k <= |a| && k <= |b| && a[..k] == b[..k]
    ensures EncBytes(a, k) == EncBytes(b, k)
  {
    if k > 0 {
      assert a[k - 1] == a[..k][k - 1] && b[k - 1] == b[..k][k - 1];
      assert a[..k - 1] == a[..k][..k - 1] && b[..k - 1] == b[..k][..k - 1];
      BytesPrefix(a, b, k - 1);
    }
  }

  ghost predicate Quoted(text: seq<byte>, t: seq<byte>)
  {
    |t| >= 2 && t[0] == 0x22 && t[|t| - 1] == 0x22 && StandAll(text, t[1..|t| - 1])
  }

  lemma StringQuoted(text: seq<byte>)
    ensures Quoted(text, EncString(text))
  {
    hide StandAll, EncBytes;
    var t := EncString(text);
    assert t[1..|t| - 1] == EncBytes(text, |text|);
    BytesStand(text, t[1..|t| - 1]);
  }

  // ---- values ----

  /** The pieces with commas between them. */
  function Commas(ts: seq<seq<byte>>): seq<byte>
  {
    if ts == [] then [] else if |ts| == 1 then ts[0] else ts[0] + [0x2c] + Commas(ts[1..])
  }

  /** t is the text of v, which is empty for what is not written. */
  ghost predicate Written(c: Numbers, v: Value, t: seq<byte>)
    decreases v
  {
    match v
    case Null => t == [0x6e, 0x75, 0x6c, 0x6c]
    case Bool(on) => t == if on then [0x74, 0x72, 0x75, 0x65] else [0x66, 0x61, 0x6c, 0x73, 0x65]
    case Number(x) => t == c.print_(x)
    case Str(text) => Quoted(text, t)
    case Array(elems) =>
      exists ts: seq<seq<byte>> ::
        && |ts| == |elems| && t == [0x5b] + Commas(ts) + [0x5d]
        && forall i :: 0 <= i < |elems| ==> Written(c, elems[i], ts[i])
    case Object(entries) =>
      exists ks: seq<seq<byte>>, vs: seq<seq<byte>> ::
        && |ks| == |vs| == |entries| && t == [0x7b] + Commas(Pairs(ks, vs)) + [0x7d]
        && forall i :: 0 <= i < |entries| ==> Quoted(entries[i].key, ks[i]) && Written(c, entries[i].value, vs[i])
    case Silent => t == []
    case Unsupported => t == []
  }

  /** A key, a colon and a value. */
  function Pairs(ks: seq<seq<byte>>, vs: seq<seq<byte>>): (ts: seq<seq<byte>>)
    requires |ks| == |vs|
    ensures |ts| == |ks| && forall i :: 0 <= i < |ks| ==> ts[i] == ks[i] + [0x3a] + vs[i]
  {
    seq(|ks|, i requires 0 <= i < |ks| => ks[i] + [0x3a] + vs[i])
  }

  lemma {:induction false} CommasSnoc(ts: seq<seq<byte>>, t: seq<byte>)
    ensures Commas(ts + [t]) == if ts == [] then t else Commas(ts) + [0x2c] + t
  {
    if ts == [] {
      assert ts + [t] == [t];
    } else {
      var all := ts + [t];
      assert all[1..] == ts[1..] + [t] && all[0] == ts[0];
      CommasSnoc(ts[1..], t);
      if |ts| > 1 {
        CommasStep(ts[0], Commas(ts[1..]), t);
      }
    }
  }

  lemma CommasStep(a: seq<byte>, b: seq<byte>, t: seq<byte>)
    ensures a + [0x2c] + (b + [0x2c] + t) == a + [0x2c] + b + [0x2c] + t
  {
  }

  /** What the encoder writes of a value is its text. */
  lemma {:induction false} EncodeWritten(c: Numbers, v: Value)
    ensures Written(c, v, Encode(c, v))
    decreases v, 1
  {
    match v
    case Str(text) => StringQuoted(text);
    case Array(elems) => var ts := ElemsWritten(c, elems, |elems|);
    case Object(entries) => var ks, vs := EntriesWritten(c, entries, |entries|);
    case _ =>
  }

  lemma {:induction false} ElemsWritten(c: Numbers, elems: seq<Value>, k: nat) returns (ts: seq<seq<byte>>)
    requires k <= |elems|
    ensures |ts| == k && EncElems(c, elems, k) == Commas(ts)
    ensures forall i :: 0 <= i < k ==> Written(c, elems[i], ts[i])
    decreases elems, k
  {
    hide Written, Encode, Commas;
    if k == 0 {
      ts := [];
      NoCommas();
    } else {
      var before := ElemsWritten(c, elems, k - 1);
      var t := Encode(c, elems[k - 1]);
      EncodeWritten(c, elems[k - 1]);
      CommasSnoc(before, t);
      ts := before + [t];
      NoCommas();
    }
  }

  lemma NoCommas()
    ensures Commas([]) == []
  {
  }

  lemma {:induction false} EntriesWritten(c: Numbers, entries: seq<Entry>, k: nat)
    returns (ks: seq<seq<byte>>, vs: seq<seq<byte>>)
    requires k <= |entries|
    ensures |ks| == |vs| == k && EncEntries(c, entries, k) == Commas(Pairs(ks, vs))
    ensures forall i :: 0 <= i < k ==> Quoted(entries[i].key, ks[i]) && Written(c, entries[i].value, vs[i])
    decreases entries, k
  {
    hide Written, Encode, Commas, EncString, Quoted;
    NoCommas();
    if k == 0 {
      ks, vs := [], [];
      assert Pairs(ks, vs) == [];
    } else {
      var ks0, vs0 := EntriesWritten(c, entries, k - 1);
      var e := entries[k - 1];
      StringQuoted(e.key);
      EncodeWritten(c, e.value);
      ks, vs := ks0 + [EncString(e.key)], vs0 + [Encode(c, e.value)];
      assert Pairs(ks, vs) == Pairs(ks0, vs0) + [EncEntry(c, e)];
      CommasSnoc(Pairs(ks0, vs0), EncEntry(c, e));
    }
  }

  // ---- depth ----

  /** How many tables are inside one another; the sentinel is none. */
  function Tables(v: Value): (n: nat)
    decreases v
  {
    match v
    case Array(elems) => if elems == [] then 0 else 1 + DeepestElem(elems, |elems|)
    case Object(entries) => 1 + DeepestEntry(entries, |entries|)
    case _ => 0
  }

  function DeepestElem(elems: seq<Value>, k: nat): (n: nat)
    requires k <= |elems|
    decreases elems, k
  {
    if k == 0 then 0 else
      var n, m := DeepestElem(elems, k - 1), Tables(elems[k - 1]);
      if n < m then m else n
  }

  function DeepestEntry(entries: seq<Entry>, k: nat): (n: nat)
    requires k <= |entries|
    decreases entries, k
  {
    if k == 0 then 0 else
      var n, m := DeepestEntry(entries, k - 1), Tables(entries[k - 1].value);
      if n < m then m else n
  }

  /** No function, thread or full userdata anywhere. */
  predicate Supported(v: Value)
    decreases v
  {
    match v
    case Array(elems) => forall i :: 0 <= i < |elems| ==> Supported(elems[i])
    case Object(entries) => forall i :: 0 <= i < |entries| ==> Supported(entries[i].value)
    case Unsupported => false
    case _ => true
  }

  /** A value is encoded exactly if all of it can be written and no more than a thousand tables are inside one another. */
  lemma {:induction false} EncodableExactly(v: Value, depth: nat)
    ensures Encodable(v, depth) <==> Supported(v) && (Tables(v) == 0 || depth + Tables(v) <= 1000)
    decreases v, 1
  {
    match v
    case Array(elems) => ElemsEncodable(elems, |elems|, depth + 1);
    case Object(entries) => EntriesEncodable(entries, |entries|, depth + 1);
    case _ =>
  }

  lemma {:induction false} ElemsEncodable(elems: seq<Value>, k: nat, depth: nat)
    requires k <= |elems|
    ensures (forall i :: 0 <= i < k ==> Encodable(elems[i], depth)) <==>
              && (forall i :: 0 <= i < k ==> Supported(elems[i]))
              && (DeepestElem(elems, k) == 0 || depth + DeepestElem(elems, k) <= 1000)
    decreases elems, k
  {
    hide Encodable, Supported, Tables;
    if k > 0 {
      ElemsEncodable(elems, k - 1, depth);
      EncodableExactly(elems[k - 1], depth);
    }
  }

  lemma {:induction false} EntriesEncodable(entries: seq<Entry>, k: nat, depth: nat)
    requires k <= |entries|
    ensures (forall i :: 0 <= i < k ==> Encodable(entries[i].value, depth)) <==>
              && (forall i :: 0 <= i < k ==> Supported(entries[i].value))
              && (DeepestEntry(entries, k) == 0 || depth + DeepestEntry(entries, k) <= 1000)
    decreases entries, k
  {
    hide Encodable, Supported, Tables;
    if k > 0 {
      EntriesEncodable(entries, k - 1, depth);
      EncodableExactly(entries[k - 1].value, depth);
    }
  }
}
