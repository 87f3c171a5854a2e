/** What holds of a shared dictionary over every run of its operations. */
module LruTheorems {
  import opened Basics
  import opened TimedLru

  // ---------------------------------------------------------------- expiry in 64 bits

  /** What expire removes: what has expired within the last 2^63 milliseconds, and what is to expire after as many. */
  lemma DeadExactly(e: Entry, now: millis)
    ensures Dead(e, now) <==> e.expires != 0 && (Far(e, now) || 0 <= now - e.expires <= LONG_MAX + 1)
    ensures Stale(e, now) <==> e.expires != 0 && (Far(e, now) || 0 < now - e.expires <= LONG_MAX + 1)
  {
  }

  /** get and flush_expired agree on an entry exactly if the signed difference is the difference. */
  lemma SignedAgrees(e: Entry, now: millis)
    ensures (Dead(e, now) <==> Past(e, now)) <==> e.expires == 0 || -LONG_MAX - 1 <= e.expires - now <= LONG_MAX
  {
  }

  /**
   An entry expires when it was asked to, and is never too far ahead, exactly if the milliseconds asked for fit a
   signed number and the sum an unsigned one.
   */
  lemma ExpiryExactly(op: StoreOp, now: millis)
    requires op.value.Some? && op.exptime > 0.0
    ensures var e := NewEntry(op, now);
      (e.expires == now + Span(op.exptime) && forall later: millis :: later >= now ==> !Far(e, later))
      <==> Span(op.exptime) <= LONG_MAX && now + Span(op.exptime) < WORD
  {
    var e, d := NewEntry(op, now), Span(op.exptime);
    if now + d < WORD {
      assert (now + d) % WORD == now + d;
      assert d > LONG_MAX ==> Far(e, now);
    }
  }

  // ---------------------------------------------------------------- finding and touching

  lemma FindUnique(es: seq<Entry>, k: Key, i: nat)
    requires DistinctKeys(es) && i < |es| && es[i].key == k
    ensures Find(es, k) == i
  {
  }

  /** The entries under other keys, in order. */
  function Rest(es: seq<Entry>, k: Key): (r: seq<Entry>)
  {
    var i := Find(es, k);
    if i == |es| then es else Without(es, i)
  }

  lemma RestOfHead(t: seq<Entry>)
    requires t != []
    ensures Find(t, t[0].key) == 0 && Rest(t, t[0].key) == t[1..]
  {
    assert t[..0] + t[1..] == t[1..];
  }

  /** In a list of distinct keys, taking a prefix takes a prefix of the entries under other keys. */
  lemma RestOfPrefix(p: seq<Entry>, es: seq<Entry>, k: Key)
    requires DistinctKeys(es) && p <= es
    ensures DistinctKeys(p) && Rest(p, k) <= Rest(es, k)
  {
    var i, j := Find(p, k), Find(es, k);
    if i < |p| {
      FindUnique(es, k, i);
      assert Rest(p, k) == p[..i] + p[i + 1..] && Rest(es, k) == es[..i] + es[i + 1..];
      assert es[..i] == p[..i] && p[i + 1..] <= es[i + 1..];
    } else if j < |es| {
      assert p <= es[..j];
    }
  }

  lemma RestWithout(es: seq<Entry>, k: Key)
    requires DistinctKeys(es)
    ensures DistinctKeys(Rest(es, k)) && forall e :: e in Rest(es, k) ==> e.key != k && e in es
    ensures Rest(Rest(es, k), k) == Rest(es, k)
  {
    var i := Find(es, k);
    if i < |es| {
      var r := Without(es, i);
      assert forall j :: 0 <= j < |r| ==> r[j] == if j < i then es[j] else es[j + 1];
    }
  }

  lemma RestCons(e: Entry, es: seq<Entry>)
    requires DistinctKeys(es) && forall x :: x in es ==> x.key != e.key
    ensures DistinctKeys([e] + es) && Rest([e] + es, e.key) == es
  {
    hide Find, Rest;
    RestOfHead([e] + es);
    assert ([e] + es)[1..] == es;
  }

  lemma RestOfTouch(es: seq<Entry>, k: Key)
    requires DistinctKeys(es) && Find(es, k) < |es|
    ensures var t := Touch(es, Find(es, k));
      DistinctKeys(t) && t[0].key == k && Rest(t, k) == t[1..] == Rest(es, k)
  {
    var i := Find(es, k);
    assert Touch(es, i) == [es[i]] + Rest(es, k);
    RestWithout(es, k);
    hide *;
    RestCons(es[i], Rest(es, k));
  }

  // ---------------------------------------------------------------- one operation

  lemma LookupFacts(es: seq<Entry>, k: Key, now: millis)
    requires DistinctKeys(es)
    ensures var (rc, t) := Lookup(es, k, now);
      && DistinctKeys(t) && Rest(t, k) == Rest(es, k)
      && (rc.Declined? ==> t == es && Rest(es, k) == es && forall e :: e in es ==> e.key != k)
      && (!rc.Declined? ==> t != [] && t[0] in es && t[0].key == k && t[1..] == Rest(es, k) && (rc.Done? <==> Stale(t[0], now)))
  {
    if Find(es, k) < |es| {
      RestOfTouch(es, k);
    }
  }

  /** A lookup reorders, and loses nothing. */
  lemma LookupKeeps(es: seq<Entry>, k: Key, now: millis)
    requires DistinctKeys(es)
    ensures forall e :: e in es ==> e in Lookup(es, k, now).1
  {
    hide Find, Rest;
    LookupFacts(es, k, now);
    var (rc, t) := Lookup(es, k, now);
    if !rc.Declined? {
      forall e | e in es
        ensures e in t
      {
        if e.key == k {
          SameKey(es, e, t[0]);
        } else {
          RestOthers(es, k, e);
        }
      }
    }
  }

  lemma ExpireFacts(es: seq<Entry>, k: Key, now: millis)
    requires DistinctKeys(es)
    ensures var d := DropDead(es, now, 2);
      && DistinctKeys(d) && Rest(d, k) <= Rest(es, k)
      && (forall e :: e in d ==> e in es)
      && (forall e :: e in es && e !in d ==> Dead(e, now))
  {
    var d := DropDead(es, now, 2);
    RestOfPrefix(d, es, k);
    forall e | e in es && e !in d
      ensures Dead(e, now)
    {
      var i :| 0 <= i < |es| && es[i] == e;
      assert i >= |d|;
    }
  }

  /** get: a live entry is always found, a stale one never is, and nothing else comes back. */
  lemma GetCorrect(es: seq<Entry>, k: Key, now: millis)
    requires DistinctKeys(es) && GoodKey(k)
    ensures var r := Get(es, k, false, now).0;
      && (r.Miss? || (r.Hit? && !r.stale))
      && (r.Hit? ==> exists e :: e in es && e.key == k && !Stale(e, now) && r.value == e.value && r.flags == e.flags)
      && (forall e :: e in es && e.key == k && !Dead(e, now) ==> r == Hit(e.value, e.flags, false))
      && ((forall e :: e in es && e.key == k ==> Stale(e, now)) ==> r.Miss?)
  {
    hide Find, Rest, DropDead;
    var d := DropDead(es, now, 2);
    ExpireFacts(es, k, now);
    LookupFacts(d, k, now);
    var (rc, t) := Lookup(d, k, now);
    forall e | e in es && e.key == k && !Dead(e, now)
      ensures Get(es, k, false, now).0 == Hit(e.value, e.flags, false)
    {
      SameKey(es, e, if rc.Declined? then e else t[0]);
    }
  }

  lemma SameKey(es: seq<Entry>, e: Entry, f: Entry)
    requires DistinctKeys(es) && e in es && f in es && e.key == f.key
    ensures e == f
  {
  }

  /** get_stale: every entry held is found, and marked stale exactly when it is. */
  lemma GetStaleCorrect(es: seq<Entry>, k: Key, now: millis)
    requires DistinctKeys(es) && GoodKey(k)
    ensures var r := Get(es, k, true, now).0;
      && (forall e :: e in es && e.key == k ==> r == Hit(e.value, e.flags, Stale(e, now)))
      && ((forall e :: e in es ==> e.key != k) ==> r.Miss?)
  {
    hide Find, Rest;
    LookupFacts(es, k, now);
    var (rc, t) := Lookup(es, k, now);
    forall e | e in es && e.key == k
      ensures Get(es, k, true, now).0 == Hit(e.value, e.flags, Stale(e, now))
    {
      SameKey(es, e, if rc.Declined? then e else t[0]);
    }
  }

  /** The list after an operation on key k: k's entry, if it is there, in front, and of the others the most recent. */
  ghost predicate Keyed(es: seq<Entry>, k: Key, after: seq<Entry>)
  {
    && DistinctKeys(after)
    && Rest(after, k) <= Rest(es, k)
    && (after == Rest(after, k) || (after != [] && after[0].key == k && after[1..] == Rest(after, k)))
  }

  /** Either no entry for k in front of a prefix of the others, or one. */
  lemma KeyedCases(es: seq<Entry>, k: Key, after: seq<Entry>)
    requires DistinctKeys(es)
    requires after <= Rest(es, k) || (after != [] && after[0].key == k && after[1..] <= Rest(es, k))
    ensures Keyed(es, k, after)
  {
    hide Find, Rest, DistinctKeys;
    RestWithout(es, k);
    var r := Rest(es, k);
    var t := if after <= r then after else after[1..];
    RestOfPrefix(t, r, k);
    PrefixIn(t, r);
    if after <= r {
      RestAbsent(after, k);
    } else {
      RestCons(after[0], t);
      assert [after[0]] + t == after;
    }
  }

  lemma PrefixIn(p: seq<Entry>, es: seq<Entry>)
    requires p <= es
    ensures forall e :: e in p ==> e in es
  {
  }

  lemma RestAbsent(es: seq<Entry>, k: Key)
    requires forall e :: e in es ==> e.key != k
    ensures Rest(es, k) == es
  {
  }

  lemma GetKeyed(es: seq<Entry>, k: Key, stale: bool, now: millis)
    requires DistinctKeys(es) && GoodKey(k)
    ensures var t := Get(es, k, stale, now).1;
      && Keyed(es, k, t) && (forall e :: e in t ==> e in es)
      && (forall e :: e in es && e !in t ==> Dead(e, now))
  {
    hide Find, Rest, DropDead, Keyed;
    var d := if stale then es else DropDead(es, now, 2);
    ExpireFacts(es, k, now);
    LookupFacts(d, k, now);
    LookupKeeps(d, k, now);
    var t := Lookup(d, k, now).1;
    assert Get(es, k, stale, now).1 == t;
    hide Lookup, Get;
    KeyedCases(es, k, t);
    RestIn(d, k);
    assert forall e :: e in t ==> e == t[0] || e in t[1..];
  }

  lemma RestIn(es: seq<Entry>, k: Key)
    ensures forall e :: e in Rest(es, k) ==> e in es
  {
  }

  /** incr loses nothing but dead entries. */
  lemma IncrLoses(es: seq<Entry>, k: Key, delta: real, now: millis)
    requires DistinctKeys(es) && GoodKey(k)
    ensures var (r, t) := Incr(es, k, delta, now);
      forall e :: e in es && e !in t && (r.Incremented? ==> e.key != k) ==> Dead(e, now)
  {
    hide Find, Rest, DropDead, DistinctKeys, Dead;
    var d := DropDead(es, now, 2);
    ExpireFacts(es, k, now);
    LookupFacts(d, k, now);
    LookupKeeps(d, k, now);
    var (rc, l) := Lookup(d, k, now);
    hide Lookup;
    if !rc.Declined? {
      assert l == [l[0]] + l[1..];
    }
  }

  lemma IncrFront(es: seq<Entry>, k: Key, delta: real, now: millis)
    requires DistinctKeys(es) && GoodKey(k)
    ensures var (r, t) := Incr(es, k, delta, now);
      && Keyed(es, k, t)
      && (r.Incremented? ==> t != [] && exists e :: IncrementedBy(es, k, delta, now, e, t[0], r.num))
      && (!r.Incremented? ==> forall e :: e in t ==> e in es)
  {
    hide Find, Rest, DropDead, Keyed, DistinctKeys;
    var d := DropDead(es, now, 2);
    ExpireFacts(es, k, now);
    LookupFacts(d, k, now);
    var (rc, l) := Lookup(d, k, now);
    var (r, t) := Incr(es, k, delta, now);
    RestIn(d, k);
    hide Lookup;
    if r.Incremented? {
      assert t[1..] == l[1..];
      KeyedCases(es, k, t);
      assert IncrementedBy(es, k, delta, now, l[0], t[0], r.num);
    } else {
      KeyedCases(es, k, l);
      assert forall e :: e in l ==> e == l[0] || e in l[1..];
    }
  }

  lemma IncrKeyed(es: seq<Entry>, k: Key, delta: real, now: millis)
    requires DistinctKeys(es) && GoodKey(k)
    ensures var (r, t) := Incr(es, k, delta, now);
      && Keyed(es, k, t)
      && (r.Incremented? ==> t != [] && exists e :: IncrementedBy(es, k, delta, now, e, t[0], r.num))
      && (!r.Incremented? ==> forall e :: e in t ==> e in es)
      && (forall e :: e in es && e !in t && (r.Incremented? ==> e.key != k) ==> Dead(e, now))
  {
    hide Incr, Keyed, IncrementedBy, Dead, DistinctKeys;
    IncrFront(es, k, delta, now);
    IncrLoses(es, k, delta, now);
  }

  /** e is k's live numeric entry, and f is e with the sum in place of its value. */
  ghost predicate IncrementedBy(es: seq<Entry>, k: Key, delta: real, now: millis, e: Entry, f: Entry, sum: real)
  {
    && e in es && e.key == k && !Stale(e, now) && e.value.Number?
    && sum == e.value.num + delta && f == e.(value := Number(sum))
  }

  /** A store that gets as far as looking the key up. */
  predicate Proceeds(op: StoreOp)
  {
    GoodKey(op.key) && !(op.value.None? && (op.add || op.replace))
  }

  /** What a store leaves, in terms of the looked-up list and of the others in it. */
  lemma StoreForm(es: seq<Entry>, op: StoreOp, now: millis, mem: Memory, rc: Rc, l: seq<Entry>, rest: seq<Entry>)
    requires Proceeds(op) && (rc, l) == Lookup(DropDead(es, now, 2), op.key, now)
    requires rest == if rc.Declined? then l else l[1..]
    ensures var (r, t) := Store(es, op, now, mem);
      match r
      case Stored(_) => if op.value.None? then t == rest else t != [] && t[0] == NewEntry(op, now) && t[1..] <= rest
      case NoMemory(_) => t <= rest
      case Undefined => if Inserts(es, op, now) then t <= rest else t == l
      case NotFound => t == l
      case Exists => t == l
      case _ => false
  {
    hide Lookup, DropDead, Evict;
    var left := Evict(rest, now, mem.evictions);
    if op.value.Some? {
      assert ([NewEntry(op, now)] + left)[1..] == left;
    }
  }

  lemma StoreKeyed(es: seq<Entry>, op: StoreOp, now: millis, mem: Memory)
    requires DistinctKeys(es) && Proceeds(op)
    ensures var (r, t) := Store(es, op, now, mem);
      && Keyed(es, op.key, t)
      && (r.Stored? && op.value.Some? ==> t != [] && t[0] == NewEntry(op, now))
      && (r.Stored? && op.value.None? ==> forall e :: e in t ==> e.key != op.key)
      && (!r.Stored? ==> forall e :: e in t ==> e in es)
      && (r.NoMemory? ==> forall e :: e in t ==> e.key != op.key)
      && (r.NotFound? || r.Exists? ==> forall e :: e in es && e !in t ==> Dead(e, now))
      && (r.Undefined? ==> if Inserts(es, op, now) then forall e :: e in t ==> e.key != op.key
                           else forall e :: e in es && e !in t ==> Dead(e, now))
  {
    hide Find, Rest, DropDead, Keyed, DistinctKeys, Store, Dead, NewEntry, Inserts;
    var k, d := op.key, DropDead(es, now, 2);
    ExpireFacts(es, k, now);
    LookupFacts(d, k, now);
    LookupKeeps(d, k, now);
    RestWithout(d, k);
    var (rc, l) := Lookup(d, k, now);
    var (r, t) := Store(es, op, now, mem);
    var rest := if rc.Declined? then l else l[1..];
    StoreForm(es, op, now, mem, rc, l, rest);
    hide Lookup;
    KeyedCases(es, k, l);
    assert !rc.Declined? ==> forall e :: e in l ==> e == l[0] || e in l[1..];
    if t != l {
      KeyedCases(es, k, t);
      if t <= rest {
        PrefixIn(t, rest);
      }
    }
  }

  /** What is dropped under other keys is dead, unless the allocator could only be satisfied by force. */
  lemma StoreOthersKept(es: seq<Entry>, op: StoreOp, now: millis, mem: Memory, e: Entry)
    requires DistinctKeys(es) && e in es && e.key != op.key && !Dead(e, now)
    requires Inserts(es, op, now) ==> mem.evictions == 0
    ensures e in Store(es, op, now, mem).1
  {
    if Proceeds(op) {
      hide Find, DropDead, DistinctKeys, Rest;
      var k, d := op.key, DropDead(es, now, 2);
      ExpireFacts(es, k, now);
      LookupFacts(d, k, now);
      RestOthers(d, k, e);
      var (rc, l) := Lookup(d, k, now);
      var rest := if rc.Declined? then l else l[1..];
      assert e in rest;
      StoreShape(es, op, now, mem, l, rest);
      if rc.Declined? {
        assert l == rest;
      } else {
        assert l == [l[0]] + rest;
      }
    }
  }

  /** A store leaves the looked-up list, or the others, or the others with the new entry in front. */
  lemma StoreShape(es: seq<Entry>, op: StoreOp, now: millis, mem: Memory, l: seq<Entry>, rest: seq<Entry>)
    requires Proceeds(op) && (Inserts(es, op, now) ==> mem.evictions == 0)
    requires var (rc, l0) := Lookup(DropDead(es, now, 2), op.key, now);
      l == l0 && rest == if rc.Declined? then l else l[1..]
    ensures var t := Store(es, op, now, mem).1;
      t == l || t == rest || (op.value.Some? && t == [NewEntry(op, now)] + rest)
  {
    hide Find, DropDead, Lookup;
    assert Evict(rest, now, 0) == rest;
  }

  lemma RestOthers(es: seq<Entry>, k: Key, e: Entry)
    requires e in es && e.key != k
    ensures e in Rest(es, k)
  {
    hide Find;
    var i, j := Find(es, k), IndexOf(es, e);
    if i < |es| {
      assert Rest(es, k)[if j < i then j else j - 1] == e;
    }
  }

  ghost function IndexOf(es: seq<Entry>, e: Entry): (i: nat)
    requires e in es
    ensures i < |es| && es[i] == e
  {
    var i :| 0 <= i < |es| && es[i] == e;
    i
  }

  /** A safe store never removes a live entry under another key. */
  lemma SafeStoreKeepsOthers(es: seq<Entry>, op: StoreOp, now: millis, mem: Memory, e: Entry)
    requires DistinctKeys(es) && op.safe
    requires Inserts(es, op, now) ==> MemoryOk(BeforeInsert(es, op, now), now, op.safe, mem)
    requires e in es && e.key != op.key && !Dead(e, now)
    ensures e in Store(es, op, now, mem).1
  {
    StoreOthersKept(es, op, now, mem, e);
  }

  /** add refuses exactly what get would find, and replace exactly what it would not. */
  lemma AddReplaceAgreeWithGet(es: seq<Entry>, op: StoreOp, now: millis, mem: Memory)
    requires DistinctKeys(es) && Proceeds(op)
    ensures Store(es, op, now, mem).0.Exists? <==> op.add && !op.replace && Get(es, op.key, false, now).0.Hit?
    ensures Store(es, op, now, mem).0.NotFound? <==> op.replace && Get(es, op.key, false, now).0.Miss?
  {
  }

  /**
   After flush_all and until something is stored, every plain get misses, at every clock from 2 to 2^63 + 1; before
   and after that, what flush_all left is found again.
   */
  lemma FlushAllThenMiss(es: seq<Entry>, now: millis, k: Key, later: millis)
    requires DistinctKeys(es) && GoodKey(k)
    ensures 1 < later <= LONG_MAX + 2 ==> Get(FlushAll(es, now), k, false, later).0.Miss?
    ensures forall e :: e in FlushAll(es, now) && e.key == k && (later == 0 || later > LONG_MAX + 2) ==>
      Get(FlushAll(es, now), k, false, later).0 == Hit(e.value, e.flags, false)
  {
    hide Get, EvictOne;
    var t := FlushAll(es, now);
    MarkAllKeys(es);
    RestOfPrefix(t, MarkAll(es), k);
    PrefixIn(t, MarkAll(es));
    GetCorrect(t, k, later);
  }

  lemma MarkAllKeys(es: seq<Entry>)
    requires DistinctKeys(es)
    ensures DistinctKeys(MarkAll(es)) && forall e :: e in MarkAll(es) ==> e.expires == 1
  {
  }

  function Live(es: seq<Entry>, now: millis): (r: seq<Entry>)
    ensures forall e :: e in r <==> e in es && !Past(e, now)
  {
    if es == [] then []
    else if Past(es[|es| - 1], now) then Live(es[..|es| - 1], now)
    else Live(es[..|es| - 1], now) + [es[|es| - 1]]
  }

  /** flush_expired without a limit leaves exactly the live entries, in order. */
  lemma {:induction false} FlushExpiredExact(es: seq<Entry>, now: millis)
    ensures FlushExpired(es, now, 0).1 == Live(es, now)
  {
    if es != [] {
      FlushExpiredExact(es[..|es| - 1], now);
    }
  }

  // ---------------------------------------------------------------- every run

  datatype Op =
    | GetOp(key: Key, stale: bool)
    | Storing(store: StoreOp, mem: Memory)
    | IncrOp(key: Key, delta: real)
    | FlushAllOp
    | FlushExpiredOp(attempts: nat)

  datatype Event = Event(op: Op, now: millis)

  function After(es: seq<Entry>, ev: Event): seq<Entry>
  {
    match ev.op
    case GetOp(k, stale) => Get(es, k, stale, ev.now).1
    case Storing(op, mem) => Store(es, op, ev.now, mem).1
    case IncrOp(k, delta) => Incr(es, k, delta, ev.now).1
    case FlushAllOp => FlushAll(es, ev.now)
    case FlushExpiredOp(attempts) => FlushExpired(es, ev.now, attempts).1
  }

  /** What a caller asked to be stored: the value and the flags given, for ever or for that many milliseconds. */
  function Asked(op: StoreOp, now: millis): Entry
    requires op.value.Some?
  {
    var expires: millis :=
      if op.exptime > 0.0 then (now + (op.exptime * 1000.0).Floor) % 0x1_0000_0000_0000_0000 else 0;
    Entry(op.key, op.value.value, expires, op.flags % 0x1_0000_0000)
  }

  /** What callers were told was stored last under each key, in their own terms, whatever has been evicted since. */
  function Record(ref: map<Key, Entry>, es: seq<Entry>, ev: Event): map<Key, Entry>
  {
    match ev.op
    case GetOp(_, _) => ref
    case Storing(op, mem) =>
      var r := Store(es, op, ev.now, mem).0;
      if !r.Stored? then ref
      else if op.value.Some? then ref[op.key := Asked(op, ev.now)]
      else ref - {op.key}
    case IncrOp(k, delta) =>
      var r := Incr(es, k, delta, ev.now).0;
      if r.Incremented? && k in ref && ref[k].value.Number? then
        ref[k := ref[k].(value := Number(ref[k].value.num + delta))]
      else ref
    case FlushAllOp => map k | k in ref :: ref[k].(expires := 1)
    case FlushExpiredOp(_) => ref
  }

  /** The key an operation looks up, if it gets that far. */
  function TouchedKey(op: Op): Option<Key>
  {
    match op
    case GetOp(k, _) => if GoodKey(k) then Some(k) else None
    case Storing(op, _) => if Proceeds(op) then Some(op.key) else None
    case IncrOp(k, _) => if GoodKey(k) then Some(k) else None
    case FlushAllOp => None
    case FlushExpiredOp(_) => None
  }

  /** The dictionary, the record of stores, and the time each key was last touched, in steps. */
  datatype World = World(es: seq<Entry>, ref: map<Key, Entry>, stamp: map<Key, nat>, clock: nat)

  const START := World([], map[], map[], 0)

  function Step(w: World, ev: Event): World
  {
    var k := TouchedKey(ev.op);
    World(After(w.es, ev), Record(w.ref, w.es, ev),
          if k.Some? then w.stamp[k.value := w.clock] else w.stamp, w.clock + 1)
  }

  /** Every entry is what was stored last under its key. */
  ghost predicate Faithful(es: seq<Entry>, ref: map<Key, Entry>)
  {
    forall e :: e in es ==> e.key in ref && ref[e.key] == e
  }

  /** The queue is in most-recently-touched order. */
  ghost predicate Recent(es: seq<Entry>, stamp: map<Key, nat>, clock: nat)
  {
    && (forall i :: 0 <= i < |es| ==> es[i].key in stamp && stamp[es[i].key] < clock)
    && (forall i, j :: 0 <= i < j < |es| ==> stamp[es[i].key] > stamp[es[j].key])
  }

  ghost predicate Inv(w: World)
  {
    DistinctKeys(w.es) && Faithful(w.es, w.ref) && Recent(w.es, w.stamp, w.clock)
  }

  lemma RecentRest(es: seq<Entry>, k: Key, stamp: map<Key, nat>, clock: nat)
    requires Recent(es, stamp, clock)
    ensures Recent(Rest(es, k), stamp, clock)
  {
    var i, rest := Find(es, k), Rest(es, k);
    assert forall j :: 0 <= j < |rest| ==> rest[j] == if j < i then es[j] else es[j + 1];
  }

  lemma RecentPrefix(p: seq<Entry>, es: seq<Entry>, stamp: map<Key, nat>, clock: nat)
    requires Recent(es, stamp, clock) && p <= es
    ensures Recent(p, stamp, clock)
  {
    assert forall j :: 0 <= j < |p| ==> p[j] == es[j];
  }

  lemma RecentTouched(r: seq<Entry>, k: Key, stamp: map<Key, nat>, clock: nat)
    requires Recent(r, stamp, clock) && forall e :: e in r ==> e.key != k
    ensures Recent(r, stamp[k := clock], clock + 1)
  {
  }

  lemma RecentCons(e: Entry, r: seq<Entry>, stamp: map<Key, nat>, clock: nat)
    requires Recent(r, stamp, clock) && forall x :: x in r ==> x.key != e.key
    ensures Recent([e] + r, stamp[e.key := clock], clock + 1)
  {
    assert forall j :: 1 <= j < |[e] + r| ==> ([e] + r)[j] == r[j - 1];
  }

  lemma KeyedRecent(es: seq<Entry>, k: Key, t: seq<Entry>, stamp: map<Key, nat>, clock: nat)
    requires DistinctKeys(es) && Recent(es, stamp, clock) && Keyed(es, k, t)
    ensures Recent(t, stamp[k := clock], clock + 1)
  {
    hide Rest, Find, DistinctKeys, Recent;
    var r := Rest(t, k);
    RestWithout(es, k);
    RecentRest(es, k, stamp, clock);
    RecentPrefix(r, Rest(es, k), stamp, clock);
    PrefixIn(r, Rest(es, k));
    if t == r {
      RecentTouched(r, k, stamp, clock);
    } else {
      assert t == [t[0]] + r;
      RecentCons(t[0], r, stamp, clock);
    }
  }

  lemma KeyedFaithful(es: seq<Entry>, k: Key, t: seq<Entry>, ref: map<Key, Entry>, ref': map<Key, Entry>)
    requires DistinctKeys(es) && Faithful(es, ref) && Keyed(es, k, t)
    requires forall j :: j != k ==> (j in ref <==> j in ref') && (j in ref ==> ref[j] == ref'[j])
    requires t != [] && t[0].key == k ==> k in ref' && ref'[k] == t[0]
    ensures Faithful(t, ref')
  {
    hide Find, Rest, DistinctKeys;
    var r := Rest(t, k);
    RestWithout(es, k);
    PrefixIn(r, Rest(es, k));
    forall e | e in t
      ensures e.key in ref' && ref'[e.key] == e
    {
      if e !in r {
        assert t == [t[0]] + r;
      }
    }
  }

  /** The allocator's answers are ones it can give. */
  ghost predicate Legal(es: seq<Entry>, ev: Event)
  {
    ev.op.Storing? && Inserts(es, ev.op.store, ev.now) ==>
      MemoryOk(BeforeInsert(es, ev.op.store, ev.now), ev.now, ev.op.store.safe, ev.op.mem)
  }

  lemma {:induction false} FlushExpiredSub(es: seq<Entry>, now: millis, attempts: nat, stamp: map<Key, nat>, clock: nat)
    requires DistinctKeys(es) && Recent(es, stamp, clock)
    ensures var t := FlushExpired(es, now, attempts).1;
      DistinctKeys(t) && Recent(t, stamp, clock) && forall e :: e in t ==> e in es
  {
    if es != [] {
      var n := |es| - 1;
      var p := es[..n];
      RecentPrefix(p, es, stamp, clock);
      FlushExpiredSub(p, now, attempts, stamp, clock);
      if Past(es[n], now) {
        FlushExpiredSub(p, now, if attempts == 0 then 0 else attempts - 1, stamp, clock);
      } else {
        var t := FlushExpired(p, now, attempts).1;
        SnocSub(t, p, es[n], stamp, clock);
      }
    }
  }

  lemma SnocSub(t: seq<Entry>, p: seq<Entry>, e: Entry, stamp: map<Key, nat>, clock: nat)
    requires DistinctKeys(p + [e]) && Recent(p + [e], stamp, clock)
    requires DistinctKeys(t) && Recent(t, stamp, clock) && forall x :: x in t ==> x in p
    ensures DistinctKeys(t + [e]) && Recent(t + [e], stamp, clock)
  {
    assert (p + [e])[|p|] == e;
    forall i | 0 <= i < |t|
      ensures t[i].key != e.key && stamp[t[i].key] > stamp[e.key]
    {
      assert t[i] in t;
      var j := IndexOf(p, t[i]);
      assert (p + [e])[j] == t[i];
    }
  }

  lemma MarkedFaithful(es: seq<Entry>, ref: map<Key, Entry>)
    requires Faithful(es, ref)
    ensures Faithful(MarkAll(es), map k | k in ref :: ref[k].(expires := 1))
  {
    var m := MarkAll(es);
    forall e | e in m
      ensures e.key in ref && ref[e.key].(expires := 1) == e
    {
      var i := IndexOf(m, e);
      assert es[i] in es;
    }
  }

  lemma MarkedRecent(es: seq<Entry>, stamp: map<Key, nat>, clock: nat)
    requires Recent(es, stamp, clock)
    ensures Recent(MarkAll(es), stamp, clock)
  {
  }

  lemma FlushAllFaithful(w: World, now: millis)
    requires Inv(w)
    ensures Inv(Step(w, Event(FlushAllOp, now)))
  {
    hide Recent, MarkAll, DistinctKeys, EvictOne;
    var m, t := MarkAll(w.es), FlushAll(w.es, now);
    MarkAllKeys(w.es);
    MarkedRecent(w.es, w.stamp, w.clock);
    MarkedFaithful(w.es, w.ref);
    assert t <= m;
    RestOfPrefix(t, m, []);
    RecentPrefix(t, m, w.stamp, w.clock);
    RecentLater(t, w.stamp, w.clock);
    PrefixIn(t, m);
  }

  lemma GetStepInv(w: World, k: Key, stale: bool, now: millis)
    requires Inv(w)
    ensures Inv(Step(w, Event(GetOp(k, stale), now)))
  {
    hide Find, Rest, DistinctKeys, Recent, Get, Keyed, Dead;
    if GoodKey(k) {
      GetKeyed(w.es, k, stale, now);
      KeyedStep(w, Event(GetOp(k, stale), now), k);
    } else {
      IdleStep(w, Event(GetOp(k, stale), now));
    }
  }

  /** What is stored is what was asked for. */
  lemma NewIsAsked(op: StoreOp, now: millis)
    requires op.value.Some?
    ensures NewEntry(op, now) == Asked(op, now)
  {
  }

  lemma StoreStepInv(w: World, op: StoreOp, mem: Memory, now: millis)
    requires Inv(w)
    ensures Inv(Step(w, Event(Storing(op, mem), now)))
  {
    hide Find, Rest, DistinctKeys, Recent, Store, Keyed, Dead, NewEntry, Asked, Inserts;
    if Proceeds(op) {
      StoreKeyed(w.es, op, now, mem);
      if op.value.Some? {
        NewIsAsked(op, now);
      }
      KeyedStep(w, Event(Storing(op, mem), now), op.key);
    } else {
      IdleStep(w, Event(Storing(op, mem), now));
    }
  }

  lemma IncrStepInv(w: World, k: Key, delta: real, now: millis)
    requires Inv(w)
    ensures Inv(Step(w, Event(IncrOp(k, delta), now)))
  {
    hide Find, Rest, DistinctKeys, Recent, Incr, Keyed, Dead, Stale;
    if GoodKey(k) {
      IncrKeyed(w.es, k, delta, now);
      KeyedStep(w, Event(IncrOp(k, delta), now), k);
    } else {
      IdleStep(w, Event(IncrOp(k, delta), now));
    }
  }

  /** Each operation keeps the invariant. */
  lemma StepInv(w: World, ev: Event)
    requires Inv(w) && Legal(w.es, ev)
    ensures Inv(Step(w, ev))
  {
    hide Find, Rest, DistinctKeys, Recent, Get, Store, Incr, FlushExpired, FlushAll;
    match ev.op
    case GetOp(k, stale) => GetStepInv(w, k, stale, ev.now);
    case Storing(op, mem) => StoreStepInv(w, op, mem, ev.now);
    case IncrOp(k, delta) => IncrStepInv(w, k, delta, ev.now);
    case FlushAllOp => FlushAllFaithful(w, ev.now);
    case FlushExpiredOp(attempts) =>
      FlushExpiredSub(w.es, ev.now, attempts, w.stamp, w.clock);
      RecentLater(After(w.es, ev), w.stamp, w.clock);
  }

  lemma RecentLater(es: seq<Entry>, stamp: map<Key, nat>, clock: nat)
    requires Recent(es, stamp, clock)
    ensures Recent(es, stamp, clock + 1)
  {
  }

  /** An operation refused before it looks anything up changes nothing. */
  lemma IdleStep(w: World, ev: Event)
    requires Inv(w)
    requires match ev.op
      case GetOp(k, _) => !GoodKey(k)
      case Storing(op, _) => !Proceeds(op)
      case IncrOp(k, _) => !GoodKey(k)
      case _ => false
    ensures Inv(Step(w, ev))
  {
    RecentLater(w.es, w.stamp, w.clock);
  }

  lemma KeyedStep(w: World, ev: Event, k: Key)
    requires Inv(w) && TouchedKey(ev.op) == Some(k)
    requires Keyed(w.es, k, After(w.es, ev))
    requires var t, r := After(w.es, ev), Record(w.ref, w.es, ev);
      && (forall j :: j != k ==> (j in w.ref <==> j in r) && (j in w.ref ==> w.ref[j] == r[j]))
      && (t != [] && t[0].key == k ==> k in r && r[k] == t[0])
    ensures Inv(Step(w, ev))
  {
    hide After, Record;
    KeyedRecent(w.es, k, After(w.es, ev), w.stamp, w.clock);
    KeyedFaithful(w.es, k, After(w.es, ev), w.ref, Record(w.ref, w.es, ev));
  }

  ghost predicate LegalRun(w: World, evs: seq<Event>)
    decreases |evs|
  {
    evs == [] || (Legal(w.es, evs[0]) && LegalRun(Step(w, evs[0]), evs[1..]))
  }

  function Run(w: World, evs: seq<Event>): World
    decreases |evs|
  {
    if evs == [] then w else Run(Step(w, evs[0]), evs[1..])
  }

  lemma {:induction false} RunInv(w: World, evs: seq<Event>)
    requires Inv(w) && LegalRun(w, evs)
    ensures Inv(Run(w, evs))
    decreases |evs|
  {
    if evs != [] {
      StepInv(w, evs[0]);
      RunInv(Step(w, evs[0]), evs[1..]);
    }
  }

  /**
   After any run from an empty dictionary, a get answers with what was stored last under its key and has not
   expired, and of what is still held it misses only what expire would remove.
   */
  lemma GetReturnsLastStored(evs: seq<Event>, k: Key, now: millis)
    requires LegalRun(START, evs) && GoodKey(k)
    ensures var w := Run(START, evs);
      var r := Get(w.es, k, false, now).0;
      && (r.Hit? ==> k in w.ref && !Stale(w.ref[k], now) && r == Hit(w.ref[k].value, w.ref[k].flags, false))
      && (r.Miss? ==> forall e :: e in w.es && e.key == k ==> Dead(e, now))
  {
    RunInv(START, evs);
    GetCorrect(Run(START, evs).es, k, now);
  }
}
