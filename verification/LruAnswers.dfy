/** What callers of a shared dictionary are answered, in terms of what they gave and of the entries held alone. */
module LruAnswers {
  import opened Basics
  import opened TimedLru
  import opened LruTheorems

  // ---------------------------------------------------------------- keys

  /** Keys of no byte or of more than 65535 are refused by every operation that takes one, and no others are. */
  lemma KeysRefused(es: seq<Entry>, k: Key, stale: bool, delta: real, op: StoreOp, now: millis, mem: Memory)
    ensures Get(es, k, stale, now).0.BadKey? <==> |k| == 0 || |k| >= 65536
    ensures Incr(es, k, delta, now).0.BadIncrKey? <==> |k| == 0 || |k| >= 65536
    ensures Store(es, op, now, mem).0.BadStoreKey? <==> |op.key| == 0 || |op.key| >= 65536
    ensures Store(es, op, now, mem).0.NilNotAllowed? <==>
              0 < |op.key| < 65536 && op.value.None? && (op.add || op.replace)
  {
    hide Lookup, DropDead, Evict;
  }

  // ---------------------------------------------------------------- a get after a store

  /** Still alive then, as the caller reckons: stored for ever, or for less than 2^63 milliseconds not yet over. */
  predicate AliveAt(op: StoreOp, now: millis, later: millis)
  {
    op.exptime <= 0.0 ||
    (var ms := (op.exptime * 1000.0).Floor;
     ms < 0x8000_0000_0000_0000 && now + ms < 0x1_0000_0000_0000_0000 && 0 < now + ms - later < 0x8000_0000_0000_0000)
  }

  lemma AskedAlive(op: StoreOp, now: millis, later: millis)
    requires op.value.Some? && AliveAt(op, now, later)
    ensures !Dead(Asked(op, now), later)
  {
    if op.exptime > 0.0 {
      var t := now + (op.exptime * 1000.0).Floor;
      assert t % 0x1_0000_0000_0000_0000 == t;
    }
  }

  /** What was stored is got back, with the flags given, until it expires; what was deleted is missed. */
  lemma StoredThenGot(es: seq<Entry>, op: StoreOp, now: millis, mem: Memory, later: millis)
    requires DistinctKeys(es) && Store(es, op, now, mem).0.Stored?
    ensures var t := Store(es, op, now, mem).1;
      match op.value
      case Some(v) => AliveAt(op, now, later) ==> Get(t, op.key, false, later).0 == Hit(v, op.flags % 0x1_0000_0000, false)
      case None => Get(t, op.key, false, later).0 == Miss
  {
    hide Keyed, Get, Dead, AliveAt, Store, Asked;
    StoredProceeds(es, op, now, mem);
    StoreKeyed(es, op, now, mem);
    var t := Store(es, op, now, mem).1;
    KeyedDistinct(es, op.key, t);
    GetCorrect(t, op.key, later);
    if op.value.Some? && AliveAt(op, now, later) {
      NewIsAsked(op, now);
      AskedAlive(op, now, later);
      AskedFields(op, now);
      assert t[0] in t;
    }
  }

  lemma StoredProceeds(es: seq<Entry>, op: StoreOp, now: millis, mem: Memory)
    requires Store(es, op, now, mem).0.Stored?
    ensures Proceeds(op)
  {
    hide Lookup, DropDead, Evict;
  }

  lemma AskedFields(op: StoreOp, now: millis)
    requires op.value.Some?
    ensures var e := Asked(op, now);
      e.key == op.key && e.value == op.value.value && e.flags == op.flags % 0x1_0000_0000
  {
  }

  lemma KeyedDistinct(es: seq<Entry>, k: Key, t: seq<Entry>)
    requires Keyed(es, k, t)
    ensures DistinctKeys(t)
  {
  }

  // ---------------------------------------------------------------- stores that are refused, and room

  function Bytes(v: Value): nat
  {
    match v case Text(b) => |b| case Number(_) => 8 case Flag(_) => 1
  }

  /** Over a live entry whose value takes as many bytes, a store needs no memory; otherwise the allocator decides. */
  lemma ReusesExactly(es: seq<Entry>, op: StoreOp, now: millis, mem: Memory, e: Entry)
    requires DistinctKeys(es) && 0 < |op.key| < 65536 && op.value.Some? && (op.add ==> op.replace)
    requires e in es && e.key == op.key && !Dead(e, now)
    ensures Store(es, op, now, mem).0 ==
      if Bytes(op.value.value) != Bytes(e.value) && !mem.granted then NoMemory(mem.evictions > 0)
      else if op.exptime * 1000.0 >= 18446744073709551616.0 then Undefined
      else Stored(Bytes(op.value.value) != Bytes(e.value) && mem.evictions > 0)
  {
    hide Find, Rest, DropDead, Evict;
    var d := DropDead(es, now, 2);
    ExpireFacts(es, op.key, now);
    LookupFacts(d, op.key, now);
    var (rc, l) := Lookup(d, op.key, now);
    assert !rc.Declined?;
    SameKey(es, e, l[0]);
    LiveFits(op, e, now);
    hide Lookup;
  }

  lemma LiveFits(op: StoreOp, e: Entry, now: millis)
    requires !Dead(e, now)
    ensures (TooLong(op) <==> op.exptime * 1000.0 >= 18446744073709551616.0) && !Stale(e, now)
  {
  }

  /** A store that finds no entry under its key needs memory, and says whether it took it by force. */
  lemma InsertsExactly(es: seq<Entry>, op: StoreOp, now: millis, mem: Memory)
    requires 0 < |op.key| < 65536 && op.value.Some? && !op.replace && forall e :: e in es ==> e.key != op.key
    ensures Inserts(es, op, now)
    ensures Store(es, op, now, mem).0 ==
      if !mem.granted then NoMemory(mem.evictions > 0)
      else if op.exptime * 1000.0 >= 18446744073709551616.0 then Undefined
      else Stored(mem.evictions > 0)
  {
    hide DropDead, Evict;
    var d := DropDead(es, now, 2);
    PrefixIn(d, es);
    assert Find(d, op.key) == |d|;
  }

  /** A safe store takes nothing by force; another gives up after thirty rounds, or with nothing left. */
  lemma GivesUp(es: seq<Entry>, op: StoreOp, now: millis, mem: Memory)
    requires Inserts(es, op, now) && MemoryOk(BeforeInsert(es, op, now), now, op.safe, mem)
    ensures mem.evictions <= 30 && (op.safe ==> mem.evictions == 0)
    ensures Store(es, op, now, mem).0.NoMemory? && !op.safe ==> mem.evictions == 30 || Store(es, op, now, mem).1 == []
  {
    hide Lookup, DropDead, EvictOne;
  }

  // ---------------------------------------------------------------- incr

  /** incr answers by what a get would, and a get afterwards gives the sum with the old flags. */
  lemma IncrAnswers(es: seq<Entry>, k: Key, delta: real, now: millis)
    requires DistinctKeys(es) && 0 < |k| < 65536
    ensures var g, i := Get(es, k, false, now).0, Incr(es, k, delta, now).0;
      match g
      case Hit(Number(n), _, _) => i == Incremented(n + delta)
      case Hit(_, _, _) => i == NotANumber
      case _ => i == IncrNotFound
  {
    hide DropDead;
  }

  lemma IncrThenGot(es: seq<Entry>, k: Key, delta: real, now: millis, e: Entry)
    requires DistinctKeys(es) && 0 < |k| < 65536 && e in es && e.key == k && !Dead(e, now) && e.value.Number?
    ensures Incr(es, k, delta, now).0 == Incremented(e.value.num + delta)
    ensures Get(Incr(es, k, delta, now).1, k, false, now).0 == Hit(Number(e.value.num + delta), e.flags, false)
  {
    hide Incr, Get, Keyed;
    GetCorrect(es, k, now);
    IncrAnswers(es, k, delta, now);
    IncrKeyed(es, k, delta, now);
    var (r, t) := Incr(es, k, delta, now);
    var f :| IncrementedBy(es, k, delta, now, f, t[0], r.num);
    SameKey(es, e, f);
    KeyedDistinct(es, k, t);
    GetCorrect(t, k, now);
    assert t[0] in t;
  }

  // ---------------------------------------------------------------- what is dropped on the way

  /** The dead entries at the back. */
  function DeadBack(es: seq<Entry>, now: millis): nat
  {
    if es == [] || !Dead(es[|es| - 1], now) then 0 else 1 + DeadBack(es[..|es| - 1], now)
  }

  function AtMost(n: nat, limit: nat): nat
  {
    if n <= limit then n else limit
  }

  lemma {:induction false} DropsDead(es: seq<Entry>, now: millis, n: nat)
    ensures |DropDead(es, now, n)| == |es| - AtMost(DeadBack(es, now), n)
    ensures DeadBack(es, now) <= |es|
    decreases n
  {
    if es != [] {
      DeadBackBound(es, now);
      if n > 0 && Dead(es[|es| - 1], now) {
        DropsDead(es[..|es| - 1], now, n - 1);
      }
    }
  }

  lemma {:induction false} DeadBackBound(es: seq<Entry>, now: millis)
    ensures DeadBack(es, now) <= |es|
  {
    if es != [] {
      DeadBackBound(es[..|es| - 1], now);
    }
  }

  /** get and incr drop the dead entries at the back, but no more than two; get_stale drops none. */
  lemma GetDrops(es: seq<Entry>, k: Key, delta: real, now: millis)
    requires 0 < |k| < 65536
    ensures |Get(es, k, false, now).1| == |es| - AtMost(DeadBack(es, now), 2)
    ensures |Get(es, k, true, now).1| == |es|
    ensures |Incr(es, k, delta, now).1| == |es| - AtMost(DeadBack(es, now), 2)
  {
    hide DropDead, Lookup;
    DropsDead(es, now, 2);
  }

  /** So does a store before it looks, one entry more or less being its own. */
  lemma StoreDrops(es: seq<Entry>, op: StoreOp, now: millis, mem: Memory)
    requires DistinctKeys(es) && Proceeds(op) && mem.evictions == 0
    ensures var (r, t) := Store(es, op, now, mem);
      var left := |es| - AtMost(DeadBack(es, now), 2);
      && (r.NotFound? || r.Exists? ==> |t| == left)
      && (r.Stored? && op.value.Some? ==> left <= |t| <= left + 1)
      && (r.Stored? && op.value.None? ==> left - 1 <= |t| <= left)
  {
    hide DropDead;
    DropsDead(es, now, 2);
  }

  /** flush_all leaves at most all but one, and no fewer than all but three. */
  lemma FlushAllDrops(es: seq<Entry>, now: millis)
    ensures es != [] ==>
      |FlushAll(es, now)| == |es| - 1 - AtMost(DeadBack(MarkAll(es)[..|es| - 1], now), 2)
  {
    hide DropDead;
    if es != [] {
      DropsDead(MarkAll(es)[..|es| - 1], now, 2);
    }
  }

  // ---------------------------------------------------------------- lists

  /** From cut on, what has expired is gone, n entries; before it nothing is, and it is 0 unless the limit was met there. */
  ghost predicate FlushedFrom(es: seq<Entry>, now: millis, attempts: nat, cut: nat, n: nat, t: seq<Entry>)
  {
    && cut <= |es|
    && t == es[..cut] + Live(es[cut..], now) && n == |es| - |t|
    && if cut == 0 then attempts == 0 || n <= attempts
       else attempts > 0 && n == attempts && cut < |es| && Past(es[cut], now)
  }

  /** flush_expired with a limit works from the back until it has freed that many. */
  lemma {:induction false} FlushExpiredFrom(es: seq<Entry>, now: millis, attempts: nat) returns (cut: nat)
    ensures var (n, t) := FlushExpired(es, now, attempts); FlushedFrom(es, now, attempts, cut, n, t)
  {
    hide Past, FlushedFrom;
    cut := 0;
    if es == [] {
      FlushedNone(now, attempts);
    } else {
      var m := |es| - 1;
      if !Past(es[m], now) {
        cut := FlushExpiredFrom(es[..m], now, attempts);
        var (n, t) := FlushExpired(es[..m], now, attempts);
        FlushedLive(es, now, attempts, cut, n, t);
      } else if attempts == 1 {
        cut := m;
        FlushedLast(es, now);
      } else {
        var less := if attempts == 0 then 0 else attempts - 1;
        cut := FlushExpiredFrom(es[..m], now, less);
        var (n, t) := FlushExpired(es[..m], now, less);
        FlushedPast(es, now, attempts, cut, n, t);
      }
    }
  }

  lemma FlushedNone(now: millis, attempts: nat)
    ensures FlushedFrom([], now, attempts, 0, 0, [])
  {
  }

  lemma FlushedLast(es: seq<Entry>, now: millis)
    requires es != [] && Past(es[|es| - 1], now)
    ensures FlushedFrom(es, now, 1, |es| - 1, 1, es[..|es| - 1])
  {
    hide Past;
    var m := |es| - 1;
    assert es[m..] == [es[m]] && es[m..][..0] == [];
    assert Live(es[m..], now) == [];
    assert es[..m] + [] == es[..m];
  }

  lemma FlushedLive(es: seq<Entry>, now: millis, attempts: nat, cut: nat, n: nat, t: seq<Entry>)
    requires es != [] && !Past(es[|es| - 1], now) && FlushedFrom(es[..|es| - 1], now, attempts, cut, n, t)
    ensures FlushedFrom(es, now, attempts, cut, n, t + [es[|es| - 1]])
  {
    hide Past, Live;
    LiveSnoc(es, now, cut);
    var p, e := es[..|es| - 1], es[|es| - 1];
    assert p[..cut] == es[..cut];
    assert es[..cut] + Live(p[cut..], now) + [e] == es[..cut] + (Live(p[cut..], now) + [e]);
  }

  lemma FlushedPast(es: seq<Entry>, now: millis, attempts: nat, cut: nat, n: nat, t: seq<Entry>)
    requires es != [] && attempts != 1 && Past(es[|es| - 1], now)
    requires FlushedFrom(es[..|es| - 1], now, if attempts == 0 then 0 else attempts - 1, cut, n, t)
    ensures FlushedFrom(es, now, attempts, cut, n + 1, t)
  {
    hide Past, Live;
    LiveSnoc(es, now, cut);
    assert es[..|es| - 1][..cut] == es[..cut];
  }

  lemma LiveSnoc(es: seq<Entry>, now: millis, cut: nat)
    requires es != [] && cut <= |es| - 1
    ensures var p, e := es[..|es| - 1], es[|es| - 1];
      Live(es[cut..], now) == if Past(e, now) then Live(p[cut..], now) else Live(p[cut..], now) + [e]
  {
    var t := es[cut..];
    assert t[|t| - 1] == es[|es| - 1] && t[..|t| - 1] == es[..|es| - 1][cut..];
  }

  /** The keys of a list from its back. */
  function KeysFromBack(es: seq<Entry>): (r: seq<Key>)
    ensures |r| == |es| && forall i :: 0 <= i < |es| ==> r[i] == es[|es| - 1 - i].key
  {
    seq(|es|, i requires 0 <= i < |es| => es[|es| - 1 - i].key)
  }

  /** get_keys gives the keys that have not expired, from the back, all of them or as many as asked for. */
  lemma {:induction false} GetKeysExactly(es: seq<Entry>, now: millis, attempts: nat)
    ensures var all := KeysFromBack(Live(es, now));
      GetKeys(es, now, attempts) == if attempts == 0 || attempts >= |all| then all else all[..attempts]
  {
    if es != [] {
      var p, e := es[..|es| - 1], es[|es| - 1];
      if Past(e, now) {
        GetKeysExactly(p, now, attempts);
      } else {
        if attempts != 1 {
          GetKeysExactly(p, now, if attempts == 0 then 0 else attempts - 1);
        }
        assert KeysFromBack(Live(es, now)) == [e.key] + KeysFromBack(Live(p, now));
      }
    }
  }
}
