/** The decoder reads exactly the texts of the grammar, each as the value it stands for. */
module JsonExact {
  import opened Basics
  import opened JsonText
  import opened JsonRoundTrip
  import opened JsonGrammar

  // ---- tokens between white space ----

  lemma TokenRead(c: Numbers, s: seq<byte>, i: nat, a: nat, j: nat, tok: Token)
    requires Blanks(s, i, a) && (a < |s| ==> !Blank(s[a])) && TokenIs(c, s, a, j, tok)
    ensures NextToken(c, s, i) == (tok, j)
  {
    hide NextToken, TokenIs;
    NoErrorIs(c, s, a, j);
    BlanksSkipped(c, s, i, a);
    TokenExactly(c, s, a, j, tok);
  }

  lemma NoErrorIs(c: Numbers, s: seq<byte>, a: nat, j: nat)
    ensures !TokenIs(c, s, a, j, Error)
  {
  }

  lemma TokenThere(c: Numbers, s: seq<byte>, i: nat) returns (a: nat)
    requires i <= |s| && NextToken(c, s, i).0 != Error
    ensures Blanks(s, i, a) && TokenIs(c, s, a, NextToken(c, s, i).1, NextToken(c, s, i).0)
  {
    hide NextToken, TokenIs;
    a := SkipSpace(s, i);
    SpaceIsBlank(s, i);
    BlanksSkipped(c, s, i, a);
    TokenExactly(c, s, a, NextToken(c, s, i).1, NextToken(c, s, i).0);
  }

  lemma CharRead(c: Numbers, s: seq<byte>, i: nat, a: nat)
    requires Blanks(s, i, a) && a < |s|
    ensures s[a] == 0x7b ==> NextToken(c, s, i) == (ObjBegin, a + 1)
    ensures s[a] == 0x7d ==> NextToken(c, s, i) == (ObjEnd, a + 1)
    ensures s[a] == 0x5b ==> NextToken(c, s, i) == (ArrBegin, a + 1)
    ensures s[a] == 0x5d ==> NextToken(c, s, i) == (ArrEnd, a + 1)
    ensures s[a] == 0x2c ==> NextToken(c, s, i) == (Comma, a + 1)
    ensures s[a] == 0x3a ==> NextToken(c, s, i) == (Colon, a + 1)
  {
    hide NextToken;
    if s[a] in {0x7b, 0x7d, 0x5b, 0x5d, 0x2c, 0x3a} {
      var tok := if s[a] == 0x7b then ObjBegin else if s[a] == 0x7d then ObjEnd
                 else if s[a] == 0x5b then ArrBegin else if s[a] == 0x5d then ArrEnd
                 else if s[a] == 0x2c then Comma else Colon;
      TokenRead(c, s, i, a, a + 1, tok);
    }
  }

  // ---- the keys of an object ----

  lemma {:induction false} PutExactly(done: seq<Entry>, key: seq<byte>, v: Value, now: seq<Entry>)
    ensures Put(done, key, v) == now <==> Takes(done, key, v, now)
  {
    if k :| 0 <= k < |done| && done[k].key == key && forall l :: 0 <= l < k ==> done[l].key != key {
      PutOld(done, key, v, k);
    } else {
      NoFirst(done, key, |done|);
      PutNew(done, key, v);
    }
  }

  lemma {:induction false} NoFirst(done: seq<Entry>, key: seq<byte>, n: nat)
    requires n <= |done|
    requires !exists k :: 0 <= k < |done| && done[k].key == key && forall l :: 0 <= l < k ==> done[l].key != key
    ensures forall k :: 0 <= k < n ==> done[k].key != key
  {
    if n > 0 {
      NoFirst(done, key, n - 1);
    }
  }

  lemma {:induction false} PutOld(done: seq<Entry>, key: seq<byte>, v: Value, k: nat)
    requires k < |done| && done[k].key == key && forall l :: 0 <= l < k ==> done[l].key != key
    ensures Put(done, key, v) == done[k := Entry(key, v)]
  {
    if k > 0 {
      assert done[0].key != key;
      PutOld(done[1..], key, v, k - 1);
    }
  }

  // ---- what the grammar allows is read ----

  lemma WordRead(c: Numbers, s: seq<byte>, i: nat, j: nat, v: Value, depth: nat)
    requires ValueIs(c, s, i, j, v, depth) && (v.Null? || v.Bool? || v.Number? || v.Str?)
    ensures ReadAs(c, s, i, v, depth, j)
  {
    hide NextToken, CharsAre;
    var tok := if v.Null? then TNull else if v.Bool? then TBool(v.on)
               else if v.Number? then TNumber(v.x) else TString(v.text);
    if v.Null? || v.Bool? {
      var t := s[i..j];
      assert Has(s, i, t);
      assert s[i] == t[0];
    } else if v.Number? {
      NumberSigns(s, i);
    }
    TokenRead(c, s, i, i, j, tok);
  }

  lemma {:induction false} ValueRead(c: Numbers, s: seq<byte>, i: nat, j: nat, v: Value, depth: nat)
    requires ValueIs(c, s, i, j, v, depth)
    ensures ReadAs(c, s, i, v, depth, j)
    decreases j - i, 1
  {
    hide ReadAs, ValueIs;
    match v
    case Array(_) => ArrayRead(c, s, i, j, v, depth);
    case Object(_) => ObjectRead(c, s, i, j, v, depth);
    case _ =>
      NothingElse(c, s, i, j, v, depth);
      WordRead(c, s, i, j, v, depth);
  }

  lemma NothingElse(c: Numbers, s: seq<byte>, i: nat, j: nat, v: Value, depth: nat)
    requires ValueIs(c, s, i, j, v, depth)
    ensures !v.Silent? && !v.Unsupported?
  {
  }

  lemma {:induction false} ArrayRead(c: Numbers, s: seq<byte>, i: nat, j: nat, v: Value, depth: nat)
    requires ValueIs(c, s, i, j, v, depth) && v.Array?
    ensures ReadAs(c, s, i, v, depth, j)
    decreases j - i, 0
  {
    hide NextToken, ElemsAre, ArrayLoop;
    CharRead(c, s, i, i);
    ElemsRead(c, s, i + 1, j - 1, v.elems, depth + 1, []);
    assert [] + v.elems == v.elems;
    assert ArrayContext(c, s, i + 1, depth) == Some(Parsed(v, j));
  }

  lemma {:induction false} ObjectRead(c: Numbers, s: seq<byte>, i: nat, j: nat, v: Value, depth: nat)
    requires ValueIs(c, s, i, j, v, depth) && v.Object?
    ensures ReadAs(c, s, i, v, depth, j)
    decreases j - i, 0
  {
    hide NextToken, MembersAre, ObjectLoop;
    CharRead(c, s, i, i);
    if Blanks(s, i + 1, j - 1) && v.entries == [] {
      CharRead(c, s, i + 1, j - 1);
      assert s[i] == 0x7b ==> ObjectContext(c, s, i + 1, depth) == Some(Parsed(v, j));
      assert s[i] == 0x5b ==> ArrayContext(c, s, i + 1, depth) == Some(Parsed(v, j));
    } else {
      MembersRead(c, s, i + 1, j - 1, [], v.entries, depth + 1);
      assert ObjectContext(c, s, i + 1, depth) == Some(Parsed(v, j));
    }
  }

  lemma {:induction false} ElemRead(c: Numbers, s: seq<byte>, i: nat, j: nat, p: Place, v: Value, depth: nat)
    requires ElemIs(c, s, i, j, p, v, depth) && p.b <= p.d <= |s|
    ensures ReadAs(c, s, i, v, depth, p.b) && Blanks(s, p.b, p.d)
    decreases j - i, 2
  {
    hide NextToken, Process, ValueIs;
    BlanksSkipped(c, s, i, p.a);
    ValueRead(c, s, p.a, p.b, v, depth);
  }

  lemma {:induction false} ElemsRead(c: Numbers, s: seq<byte>, i: nat, j: nat, elems: seq<Value>, depth: nat,
                                     done: seq<Value>)
    requires ElemsAre(c, s, i, j, elems, depth) && i <= j < |s| && s[j] == 0x5d
    ensures var (tok, k) := NextToken(c, s, i);
            Opens(tok) && ArrayLoop(c, s, tok, k, depth, done) == Some(Parsed(Array(done + elems), j + 1))
    decreases j - i, 3
  {
    hide NextToken, Process, ElemIs;
    var p :| ElemIs(c, s, i, j, p, elems[0], depth)
             && if |elems| == 1 then p.d == j
                else i <= p.d < j <= |s| && s[p.d] == 0x2c && ElemsAre(c, s, p.d + 1, j, elems[1..], depth);
    ElemInside(c, s, i, j, p, elems[0], depth);
    ElemRead(c, s, i, j, p, elems[0], depth);
    CharRead(c, s, p.b, p.d);
    if |elems| == 1 {
      assert elems == [elems[0]];
    } else {
      ElemsRead(c, s, p.d + 1, j, elems[1..], depth, done + [elems[0]]);
      assert done + [elems[0]] + elems[1..] == done + elems;
    }
  }

  lemma ElemInside(c: Numbers, s: seq<byte>, i: nat, j: nat, p: Place, v: Value, depth: nat)
    requires ElemIs(c, s, i, j, p, v, depth)
    ensures i <= p.a < p.b <= p.d <= j && p.d <= |s|
  {
    hide ValueIs;
  }

  /** Where a member and the white space after it are, and what is read of them. */
  ghost predicate Reads(c: Numbers, s: seq<byte>, i: nat, m: Member, depth: nat)
  {
    && i < m.b <= m.colon < m.p.b <= m.p.d < |s|
    && NextToken(c, s, i) == (TString(m.key), m.b)
    && NextToken(c, s, m.b) == (Colon, m.colon + 1)
    && ReadAs(c, s, m.colon + 1, m.value, depth, m.p.b)
    && (s[m.p.d] == 0x7d ==> NextToken(c, s, m.p.b) == (ObjEnd, m.p.d + 1))
    && (s[m.p.d] == 0x2c ==> NextToken(c, s, m.p.b) == (Comma, m.p.d + 1))
  }

  lemma {:induction false} MemberRead(c: Numbers, s: seq<byte>, i: nat, j: nat, m: Member, depth: nat)
    requires MemberIs(c, s, i, j, m, depth) && j < |s|
    ensures Reads(c, s, i, m, depth) && m.p.d <= j
    decreases j - i, 2
  {
    hide NextToken, ReadAs, ElemIs, CharsAre;
    TokenRead(c, s, i, m.a, m.b, TString(m.key));
    CharsInside(s, m.a + 1, m.b, m.key);
    CharRead(c, s, m.b, m.colon);
    ElemInside(c, s, m.colon + 1, j, m.p, m.value, depth);
    ElemRead(c, s, m.colon + 1, j, m.p, m.value, depth);
    CharRead(c, s, m.p.b, m.p.d);
  }

  lemma {:induction false} CharsInside(s: seq<byte>, i: nat, j: nat, text: seq<byte>)
    requires i <= |s| && CharsAre(s, i, j, text)
    ensures i < j <= |s|
  {
    CharsRead(s, i, j, text);
  }

  /** One turn of the object loop. */
  lemma ObjectStep(c: Numbers, s: seq<byte>, i: nat, m: Member, depth: nat, done: seq<Entry>)
    requires Reads(c, s, i, m, depth)
    ensures var now := Put(done, m.key, m.value);
            && (s[m.p.d] == 0x7d ==>
                  ObjectLoop(c, s, m.key, m.b, depth, done) == Some(Parsed(Object(now), m.p.d + 1)))
            && (s[m.p.d] == 0x2c && NextToken(c, s, m.p.d + 1).0.TString? ==>
                  var (tok, k) := NextToken(c, s, m.p.d + 1);
                  ObjectLoop(c, s, m.key, m.b, depth, done) == ObjectLoop(c, s, tok.text, k, depth, now))
  {
    hide NextToken, Process, Put;
  }

  lemma {:induction false} MembersRead(c: Numbers, s: seq<byte>, i: nat, j: nat, done: seq<Entry>, entries: seq<Entry>,
                                       depth: nat)
    requires MembersAre(c, s, i, j, done, entries, depth) && i <= j < |s| && s[j] == 0x7d
    ensures var (tok, k) := NextToken(c, s, i);
            tok.TString? && ObjectLoop(c, s, tok.text, k, depth, done) == Some(Parsed(Object(entries), j + 1))
    decreases j - i, 3
  {
    hide NextToken, ObjectLoop, MemberIs, ReadAs, Put, Takes;
    var m, now :| MemberIs(c, s, i, j, m, depth) && Takes(done, m.key, m.value, now)
                  && if m.p.d == j then entries == now
                     else && i <= m.p.d < j <= |s| && s[m.p.d] == 0x2c
                          && MembersAre(c, s, m.p.d + 1, j, now, entries, depth);
    MemberRead(c, s, i, j, m, depth);
    PutExactly(done, m.key, m.value, now);
    ObjectStep(c, s, i, m, depth, done);
    if m.p.d != j {
      MembersRead(c, s, m.p.d + 1, j, now, entries, depth);
    }
  }

  // ---- what is read is what the grammar allows ----

  /** The value that starts after the white space at i. */
  lemma {:induction false} ValueOf(c: Numbers, s: seq<byte>, i: nat, depth: nat) returns (a: nat)
    requires i <= |s| && Process(c, s, NextToken(c, s, i).0, NextToken(c, s, i).1, depth).Some?
    ensures var r := Process(c, s, NextToken(c, s, i).0, NextToken(c, s, i).1, depth).value;
            Blanks(s, i, a) && ValueIs(c, s, a, r.next, r.value, depth)
    decreases |s| - i, 1
  {
    hide NextToken, CharsAre, ElemsAre, MembersAre, ArrayLoop, ObjectLoop;
    var (tok, k) := NextToken(c, s, i);
    a := TokenThere(c, s, i);
    var r := Process(c, s, tok, k, depth).value;
    match tok
    case ObjBegin => ObjectOf(c, s, k, depth);
    case ArrBegin => ArrayOf(c, s, k, depth);
    case TString(text) => CharsInside(s, a + 1, k, text);
    case _ =>
  }

  lemma {:induction false} ArrayOf(c: Numbers, s: seq<byte>, i: nat, depth: nat)
    requires 0 < i <= |s| && s[i - 1] == 0x5b && ArrayContext(c, s, i, depth).Some?
    ensures var r := ArrayContext(c, s, i, depth).value; ValueIs(c, s, i - 1, r.next, r.value, depth)
    decreases |s| - i, 4
  {
    hide NextToken, ElemsAre, MembersAre, ArrayLoop;
    var (tok, k) := NextToken(c, s, i);
    if tok == ArrEnd {
      var a := TokenThere(c, s, i);
    } else {
      ElemsOf(c, s, i, depth + 1, []);
    }
  }

  lemma {:induction false} ObjectOf(c: Numbers, s: seq<byte>, i: nat, depth: nat)
    requires 0 < i <= |s| && s[i - 1] == 0x7b && ObjectContext(c, s, i, depth).Some?
    ensures var r := ObjectContext(c, s, i, depth).value; ValueIs(c, s, i - 1, r.next, r.value, depth)
    decreases |s| - i, 4
  {
    hide NextToken, ElemsAre, MembersAre, ObjectLoop;
    var (tok, k) := NextToken(c, s, i);
    if tok == ObjEnd {
      var a := TokenThere(c, s, i);
    } else {
      MembersOf(c, s, i, depth + 1, []);
    }
  }

  /** The element at i, when the array loop succeeds. */
  lemma {:induction false} ElemOf(c: Numbers, s: seq<byte>, i: nat, depth: nat, done: seq<Value>)
    returns (p: Place, v: Value)
    requires i <= |s| && ArrayLoop(c, s, NextToken(c, s, i).0, NextToken(c, s, i).1, depth, done).Some?
    ensures p.d < |s| && ElemIs(c, s, i, p.d, p, v, depth)
    ensures var r := ArrayLoop(c, s, NextToken(c, s, i).0, NextToken(c, s, i).1, depth, done);
            || (s[p.d] == 0x5d && r == Some(Parsed(Array(done + [v]), p.d + 1)))
            || ( && s[p.d] == 0x2c
                 && var (tok, k) := NextToken(c, s, p.d + 1); r == ArrayLoop(c, s, tok, k, depth, done + [v]))
    decreases |s| - i, 2
  {
    hide NextToken, Process, ValueIs;
    var (tok, k) := NextToken(c, s, i);
    var r := Process(c, s, tok, k, depth).value;
    var a := ValueOf(c, s, i, depth);
    ValueInside(c, s, a, r.next, r.value, depth);
    var d := TokenThere(c, s, r.next);
    p, v := Place(a, r.next, d), r.value;
  }

  lemma ElemAt(c: Numbers, s: seq<byte>, i: nat, j: nat, p: Place, v: Value, depth: nat)
    requires ElemIs(c, s, i, p.d, p, v, depth) && p.d <= j <= |s|
    ensures ElemIs(c, s, i, j, p, v, depth) && i < p.d
  {
    hide ValueIs;
  }

  lemma {:induction false} ElemsOf(c: Numbers, s: seq<byte>, i: nat, depth: nat, done: seq<Value>)
    requires i <= |s| && ArrayLoop(c, s, NextToken(c, s, i).0, NextToken(c, s, i).1, depth, done).Some?
    ensures var r := ArrayLoop(c, s, NextToken(c, s, i).0, NextToken(c, s, i).1, depth, done).value;
            && i < r.next <= |s| && s[r.next - 1] == 0x5d && r.value.Array? && done <= r.value.elems
            && ElemsAre(c, s, i, r.next - 1, r.value.elems[|done|..], depth)
    decreases |s| - i, 3
  {
    hide NextToken, ArrayLoop, ElemIs;
    var p, v := ElemOf(c, s, i, depth, done);
    ElemAt(c, s, i, p.d, p, v, depth);
    if s[p.d] != 0x5d {
      ElemsOf(c, s, p.d + 1, depth, done + [v]);
    }
    var r := ArrayLoop(c, s, NextToken(c, s, i).0, NextToken(c, s, i).1, depth, done).value;
    ElemAt(c, s, i, r.next - 1, p, v, depth);
    var elems := r.value.elems[|done|..];
    assert elems[0] == v && elems[1..] == r.value.elems[|done| + 1..];
  }

  lemma ValueInside(c: Numbers, s: seq<byte>, i: nat, j: nat, v: Value, depth: nat)
    requires ValueIs(c, s, i, j, v, depth)
    ensures i < j <= |s|
  {
  }

  lemma OpensValue(c: Numbers, s: seq<byte>, tok: Token, i: nat, depth: nat)
    requires i <= |s| && Process(c, s, tok, i, depth).Some?
    ensures Opens(tok)
  {
  }

  /** The member at i, when the object loop succeeds. */
  lemma {:induction false} MemberOf(c: Numbers, s: seq<byte>, i: nat, depth: nat, done: seq<Entry>) returns (m: Member)
    requires i <= |s| && NextToken(c, s, i).0.TString?
    requires ObjectLoop(c, s, NextToken(c, s, i).0.text, NextToken(c, s, i).1, depth, done).Some?
    ensures m.p.d < |s| && MemberIs(c, s, i, m.p.d, m, depth) && Reads(c, s, i, m, depth)
    ensures s[m.p.d] == 0x7d || (s[m.p.d] == 0x2c && NextToken(c, s, m.p.d + 1).0.TString?)
    decreases |s| - i, 2
  {
    hide NextToken, Process, ValueIs, CharsAre, Put;
    var (key, k) := NextToken(c, s, i);
    var a := TokenThere(c, s, i);
    var colon := TokenThere(c, s, k);
    var v := Process(c, s, NextToken(c, s, colon + 1).0, NextToken(c, s, colon + 1).1, depth).value;
    var b := ValueOf(c, s, colon + 1, depth);
    ValueInside(c, s, b, v.next, v.value, depth);
    OpensValue(c, s, NextToken(c, s, colon + 1).0, NextToken(c, s, colon + 1).1, depth);
    var d := TokenThere(c, s, v.next);
    m := Member(a, k, colon, key.text, v.value, Place(b, v.next, d));
  }

  lemma MemberAt(c: Numbers, s: seq<byte>, i: nat, j: nat, m: Member, depth: nat)
    requires MemberIs(c, s, i, m.p.d, m, depth) && m.p.d <= j <= |s|
    ensures MemberIs(c, s, i, j, m, depth)
  {
    hide ValueIs, CharsAre;
  }

  lemma {:induction false} MembersOf(c: Numbers, s: seq<byte>, i: nat, depth: nat, done: seq<Entry>)
    requires i <= |s| && NextToken(c, s, i).0.TString?
    requires ObjectLoop(c, s, NextToken(c, s, i).0.text, NextToken(c, s, i).1, depth, done).Some?
    ensures var r := ObjectLoop(c, s, NextToken(c, s, i).0.text, NextToken(c, s, i).1, depth, done).value;
            && i < r.next <= |s| && s[r.next - 1] == 0x7d && r.value.Object?
            && MembersAre(c, s, i, r.next - 1, done, r.value.entries, depth)
    decreases |s| - i, 3
  {
    hide NextToken, ObjectLoop, MemberIs, ReadAs, Put, Takes;
    var m := MemberOf(c, s, i, depth, done);
    ObjectStep(c, s, i, m, depth, done);
    var now := Put(done, m.key, m.value);
    PutExactly(done, m.key, m.value, now);
    if s[m.p.d] != 0x7d {
      MembersOf(c, s, m.p.d + 1, depth, now);
    }
    var r := ObjectLoop(c, s, m.key, m.b, depth, done).value;
    MemberAt(c, s, i, r.next - 1, m, depth);
  }

  // ---- the whole text ----

  /** A text is decoded as v exactly if it is a text for v. */
  lemma DecodeExactly(c: Numbers, s: seq<byte>, v: Value)
    ensures Decode(c, s) == Some(v) <==> TextIs(c, s, v)
  {
    hide NextToken, Process, ValueIs;
    if Decode(c, s) == Some(v) {
      var r := Process(c, s, NextToken(c, s, 0).0, NextToken(c, s, 0).1, 0).value;
      var a := ValueOf(c, s, 0, 0);
      ValueInside(c, s, a, r.next, v, 0);
      var d := TokenThere(c, s, r.next);
      assert ElemIs(c, s, 0, |s|, Place(a, r.next, d), v, 0);
    }
    if TextIs(c, s, v) {
      var p :| ElemIs(c, s, 0, |s|, p, v, 0) && (p.d == |s| || s[p.d] == 0);
      ElemInside(c, s, 0, |s|, p, v, 0);
      ElemRead(c, s, 0, |s|, p, v, 0);
      TokenRead(c, s, p.b, p.d, p.d, End);
    }
  }
}
