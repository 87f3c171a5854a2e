/** Whatever the decoder accepts can be encoded, and comes back from that. */
module JsonAccepted {
  import opened Basics
  import opened JsonText
  import opened JsonRoundTrip

  /** Tables are arrays with something in them, or have one value for each key. */
  ghost predicate Shaped(v: Value)
    decreases v
  {
    match v
    case Array(elems) => elems != [] && forall i :: 0 <= i < |elems| ==> Shaped(elems[i])
    case Object(entries) =>
      DistinctKeys(entries) && forall i :: 0 <= i < |entries| ==> Shaped(entries[i].value)
    case Silent => false
    case _ => true
  }

  ghost predicate Made(v: Value, depth: nat)
  {
    Shaped(v) && Encodable(v, depth)
  }

  ghost predicate AllMade(elems: seq<Value>, depth: nat)
  {
    forall i :: 0 <= i < |elems| ==> Made(elems[i], depth)
  }

  ghost predicate EntriesMade(entries: seq<Entry>, depth: nat)
  {
    DistinctKeys(entries) && forall i :: 0 <= i < |entries| ==> Made(entries[i].value, depth)
  }

  lemma ArrayMade(elems: seq<Value>, depth: nat)
    requires elems != [] && AllMade(elems, depth + 1) && depth < MAX_DEPTH
    ensures Made(Array(elems), depth)
  {
  }

  lemma ObjectMade(entries: seq<Entry>, depth: nat)
    requires EntriesMade(entries, depth + 1) && depth < MAX_DEPTH
    ensures Made(Object(entries), depth)
  {
  }

  predicate HasKey(entries: seq<Entry>, key: seq<byte>)
  {
    exists i :: 0 <= i < |entries| && entries[i].key == key
  }

  /** Putting an entry brings in no other key. */
  lemma {:induction false} PutKeys(entries: seq<Entry>, key: seq<byte>, v: Value, other: seq<byte>)
    requires other != key && !HasKey(entries, other)
    ensures !HasKey(Put(entries, key, v), other)
  {
    if entries != [] {
      var rest := entries[1..];
      assert forall i :: 0 <= i < |rest| ==> rest[i] == entries[i + 1];
      PutKeys(rest, key, v, other);
    }
  }

  lemma {:induction false} PutMade(entries: seq<Entry>, key: seq<byte>, v: Value, depth: nat)
    requires EntriesMade(entries, depth) && Made(v, depth)
    ensures EntriesMade(Put(entries, key, v), depth)
  {
    hide Made;
    if entries != [] {
      var first, rest := entries[0], entries[1..];
      assert forall i :: 0 <= i < |rest| ==> rest[i] == entries[i + 1];
      assert !HasKey(rest, first.key);
      if first.key != key {
        PutMade(rest, key, v, depth);
        PutKeys(rest, key, v, first.key);
        ConsMade(first, Put(rest, key, v), depth);
      } else {
        ConsMade(Entry(key, v), rest, depth);
      }
    }
  }

  lemma ConsMade(e: Entry, rest: seq<Entry>, depth: nat)
    requires EntriesMade(rest, depth) && Made(e.value, depth) && !HasKey(rest, e.key)
    ensures EntriesMade([e] + rest, depth)
  {
    hide Made;
    var all := [e] + rest;
    assert forall i :: 1 <= i < |all| ==> all[i] == rest[i - 1];
  }

  lemma {:induction false} ProcessMade(c: Numbers, s: seq<byte>, tok: Token, i: nat, depth: nat)
    requires i <= |s| && Process(c, s, tok, i, depth).Some?
    ensures Made(Process(c, s, tok, i, depth).value.value, depth)
    decreases |s| - i, 1
  {
    hide ObjectContext, ArrayContext;
    if tok == ObjBegin {
      ObjectContextMade(c, s, i, depth);
    } else if tok == ArrBegin {
      ArrayContextMade(c, s, i, depth);
    }
  }

  lemma {:induction false} ObjectContextMade(c: Numbers, s: seq<byte>, i: nat, depth: nat)
    requires i <= |s| && ObjectContext(c, s, i, depth).Some?
    ensures Made(ObjectContext(c, s, i, depth).value.value, depth)
    decreases |s| - i, 0
  {
    hide NextToken, ObjectLoop, Made;
    var (tok, j) := NextToken(c, s, i);
    if tok == ObjEnd {
      ObjectMade([], depth);
    } else {
      ObjectLoopMade(c, s, tok.text, j, depth + 1, []);
    }
  }

  lemma {:induction false} ObjectLoopMade(c: Numbers, s: seq<byte>, key: seq<byte>, i: nat, depth: nat,
                                          entries: seq<Entry>)
    requires i <= |s| && 1 <= depth <= MAX_DEPTH && EntriesMade(entries, depth)
    requires ObjectLoop(c, s, key, i, depth, entries).Some?
    ensures Made(ObjectLoop(c, s, key, i, depth, entries).value.value, depth - 1)
    decreases |s| - i, 2
  {
    hide NextToken, Process, Made, EntriesMade, Put;
    var (_, j) := NextToken(c, s, i);
    var (tok, k) := NextToken(c, s, j);
    ProcessMade(c, s, tok, k, depth);
    var v := Process(c, s, tok, k, depth).value;
    var now := Put(entries, key, v.value);
    PutMade(entries, key, v.value, depth);
    var (next, l) := NextToken(c, s, v.next);
    if next == ObjEnd {
      ObjectMade(now, depth - 1);
    } else {
      var (k2, m) := NextToken(c, s, l);
      ObjectLoopMade(c, s, k2.text, m, depth, now);
    }
  }

  lemma {:induction false} ArrayContextMade(c: Numbers, s: seq<byte>, i: nat, depth: nat)
    requires i <= |s| && ArrayContext(c, s, i, depth).Some?
    ensures Made(ArrayContext(c, s, i, depth).value.value, depth)
    decreases |s| - i, 0
  {
    hide NextToken, ArrayLoop, Made;
    var (tok, j) := NextToken(c, s, i);
    if tok == ArrEnd {
      ObjectMade([], depth);
    } else {
      ArrayLoopMade(c, s, tok, j, depth + 1, []);
    }
  }

  lemma {:induction false} ArrayLoopMade(c: Numbers, s: seq<byte>, tok: Token, i: nat, depth: nat, elems: seq<Value>)
    requires i <= |s| && 1 <= depth <= MAX_DEPTH && AllMade(elems, depth)
    requires ArrayLoop(c, s, tok, i, depth, elems).Some?
    ensures Made(ArrayLoop(c, s, tok, i, depth, elems).value.value, depth - 1)
    decreases |s| - i, 2
  {
    hide NextToken, Process, Made;
    ProcessMade(c, s, tok, i, depth);
    var v := Process(c, s, tok, i, depth).value;
    var now := elems + [v.value];
    var (next, l) := NextToken(c, s, v.next);
    if next == ArrEnd {
      ArrayMade(now, depth - 1);
    } else {
      var (t2, m) := NextToken(c, s, l);
      ArrayLoopMade(c, s, t2, m, depth, now);
    }
  }

  lemma {:induction false} ShapedPlain(c: Numbers, v: Value)
    requires Shaped(v) && NumbersOk(c, v)
    ensures Plain(c, v)
    decreases v
  {
    match v
    case Array(elems) =>
      forall i | 0 <= i < |elems| ensures Plain(c, elems[i]) {
        ShapedPlain(c, elems[i]);
      }
    case Object(entries) =>
      forall i | 0 <= i < |entries| ensures Plain(c, entries[i].value) {
        ShapedPlain(c, entries[i].value);
      }
    case _ =>
  }

  /** A decoded value nests no deeper than the encoder allows, holds nothing unsupported, and has one value a key. */
  lemma DecodedMade(c: Numbers, s: seq<byte>)
    requires Decode(c, s).Some?
    ensures Shaped(Decode(c, s).value) && Encodable(Decode(c, s).value, 0)
  {
    hide NextToken, Process;
    var (tok, i) := NextToken(c, s, 0);
    ProcessMade(c, s, tok, i, 0);
  }

  /** What was decoded encodes to a text that decodes to the same, if its numbers do. */
  lemma DecodedComesBack(c: Numbers, s: seq<byte>)
    requires Decode(c, s).Some? && NumbersOk(c, Decode(c, s).value)
    ensures Decode(c, Encode(c, Decode(c, s).value)) == Decode(c, s)
  {
    hide Decode;
    DecodedMade(c, s);
    ShapedPlain(c, Decode(c, s).value);
    RoundTrip(c, Decode(c, s).value);
  }
}
