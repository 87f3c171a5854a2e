/** What a shared dictionary keeps: over every run, an entry is held until it dies or is lost by force. */
module LruRetention {
  import opened Basics
  import opened TimedLru
  import opened LruTheorems

  // ---------------------------------------------------------------- what is lost

  /** The keys that go by force when room is made that many times: the last one each time. */
  function Forced(es: seq<Entry>, now: millis, times: nat): set<Key>
  {
    if times == 0 then {} else
      var p := Evict(es, now, times - 1);
      Forced(es, now, times - 1) + if p == [] then {} else {p[|p| - 1].key}
  }

  /** The keys of the entries that went because they were to expire too far ahead. */
  function Strayed(es: seq<Entry>, t: seq<Entry>, now: millis): set<Key>
  {
    set e | e in es && e !in t && Far(e, now) :: e.key
  }

  /** The keys whose entry an operation gives up although it has not expired: evicted by force, removed by a store
      that then found no memory for the new value, or too far ahead. */
  function LostBy(es: seq<Entry>, ev: Event): set<Key>
  {
    match ev.op
    case Storing(op, mem) =>
      (if Inserts(es, op, ev.now) then Forced(BeforeInsert(es, op, ev.now), ev.now, mem.evictions) else {})
      + (if Inserts(es, op, ev.now) && !Store(es, op, ev.now, mem).0.Stored? then {op.key} else {})
      + Strayed(es, After(es, ev), ev.now)
    case FlushAllOp => if es == [] then {} else {es[|es| - 1].key}
    case _ => Strayed(es, After(es, ev), ev.now)
  }

  /** The keys lost so far and not stored again since. */
  function LostNow(lost: set<Key>, es: seq<Entry>, ev: Event): set<Key>
  {
    var l := lost + LostBy(es, ev);
    if ev.op.Storing? && Store(es, ev.op.store, ev.now, ev.op.mem).0.Stored? then l - {ev.op.store.key} else l
  }

  lemma {:induction false} EvictLoses(es: seq<Entry>, now: millis, times: nat)
    ensures forall e :: e in es && e !in Evict(es, now, times) ==> Dead(e, now) || e.key in Forced(es, now, times)
  {
    hide EvictOne, Dead;
    if times > 0 {
      EvictLoses(es, now, times - 1);
      EvictOneLoses(Evict(es, now, times - 1), now);
    }
  }

  lemma EvictOneLoses(es: seq<Entry>, now: millis)
    ensures forall e :: e in es && e !in EvictOne(es, now) ==> Dead(e, now) || e == es[|es| - 1]
  {
    var t := EvictOne(es, now);
    forall e | e in es && e !in t
      ensures Dead(e, now) || e == es[|es| - 1]
    {
      var i := IndexOf(es, e);
      assert i >= |t|;
    }
  }

  lemma LastKeyGone(t: seq<Entry>, p: seq<Entry>, es: seq<Entry>)
    requires DistinctKeys(es) && t <= p <= es && |t| < |p|
    ensures forall e :: e in t ==> e.key != p[|p| - 1].key
  {
    forall e | e in t
      ensures e.key != p[|p| - 1].key
    {
      var i := IndexOf(t, e);
      assert es[i] == e && es[|p| - 1] == p[|p| - 1];
    }
  }

  /** What went by force is gone. */
  lemma {:induction false} ForcedGone(es: seq<Entry>, now: millis, times: nat)
    requires DistinctKeys(es)
    ensures forall e :: e in Evict(es, now, times) ==> e.key !in Forced(es, now, times)
  {
    hide DistinctKeys, EvictOne;
    if times > 0 {
      ForcedGone(es, now, times - 1);
      var p := Evict(es, now, times - 1);
      var t := EvictOne(p, now);
      PrefixIn(t, p);
      if p != [] {
        LastKeyGone(t, p, es);
      }
    }
  }

  /** A store loses, under other keys, expired entries, entries too far ahead, and what goes by force. */
  lemma StoreLoses(es: seq<Entry>, op: StoreOp, now: millis, mem: Memory, e: Entry)
    requires DistinctKeys(es) && Proceeds(op) && e in es && e.key != op.key
    ensures e in Store(es, op, now, mem).1 || Past(e, now) || e.key in LostBy(es, Event(Storing(op, mem), now))
  {
    if Dead(e, now) {
      DeadExactly(e, now);
      hide Store, Inserts, BeforeInsert, Forced;
    } else {
      if Inserts(es, op, now) {
        var rest := BeforeInsert(es, op, now);
        RestKept(es, op.key, now, e);
        EvictLoses(rest, now, mem.evictions);
        StoreInserts(es, op, now, mem);
        hide Inserts, BeforeInsert, Store, Evict, Forced, Dead;
      } else {
        StoreOthersKept(es, op, now, mem, e);
      }
    }
  }

  lemma RestKept(es: seq<Entry>, k: Key, now: millis, e: Entry)
    requires DistinctKeys(es) && e in es && e.key != k && !Dead(e, now)
    ensures var (rc, l) := Lookup(DropDead(es, now, 2), k, now);
      e in if rc.Declined? then l else l[1..]
  {
    hide Find, Rest, DropDead;
    var d := DropDead(es, now, 2);
    ExpireFacts(es, k, now);
    LookupFacts(d, k, now);
    RestOthers(d, k, e);
  }

  lemma StoreInserts(es: seq<Entry>, op: StoreOp, now: millis, mem: Memory)
    requires Inserts(es, op, now)
    ensures var (r, t) := Store(es, op, now, mem);
      var left := Evict(BeforeInsert(es, op, now), now, mem.evictions);
      if !mem.granted then r.NoMemory? && t == left
      else if TooLong(op) then r.Undefined? && t == left
      else r.Stored? && t == [NewEntry(op, now)] + left
  {
    hide Lookup, DropDead, Evict;
  }

  lemma {:induction false} FlushExpiredLoses(es: seq<Entry>, now: millis, attempts: nat)
    ensures forall e :: e in es && e !in FlushExpired(es, now, attempts).1 ==> Past(e, now)
    ensures forall e :: e in FlushExpired(es, now, attempts).1 ==> e in es
  {
    hide Past;
    if es != [] {
      var p := es[..|es| - 1];
      assert es == p + [es[|es| - 1]];
      FlushExpiredLoses(p, now, attempts);
      if attempts != 1 {
        FlushExpiredLoses(p, now, if attempts == 0 then 0 else attempts - 1);
      }
    }
  }

  // ---------------------------------------------------------------- every run

  /** A world, the keys lost, and the time of the last operation. */
  datatype Ledger = Ledger(w: World, lost: set<Key>, time: millis)

  const BEGIN := Ledger(START, {}, 0)

  function Enter(l: Ledger, ev: Event): Ledger
  {
    Ledger(Step(l.w, ev), LostNow(l.lost, l.w.es, ev), ev.now)
  }

  /** Whatever was stored last under a key is held, or expired, or among the lost; and nothing lost is held. */
  ghost predicate Holds(es: seq<Entry>, ref: map<Key, Entry>, lost: set<Key>, time: millis)
  {
    && (forall k :: k in ref ==> ref[k].key == k)
    && (forall k :: k in ref ==> ref[k] in es || Past(ref[k], time) || k in lost)
    && (forall e :: e in es ==> e.key !in lost)
  }

  ghost predicate Retained(l: Ledger)
  {
    Holds(l.w.es, l.w.ref, l.lost, l.time)
  }

  /** What expire removes has expired or is too far ahead. */
  lemma DeadMeans(e: Entry, now: millis)
    requires Dead(e, now)
    ensures Past(e, now) || Far(e, now)
  {
  }

  lemma NotStrayed(es: seq<Entry>, t: seq<Entry>, now: millis, e: Entry)
    requires DistinctKeys(es) && e in es && e in t
    ensures e.key !in Strayed(es, t, now)
  {
    hide Far;
  }

  /** An operation that leaves the record alone and loses only dead entries. */
  lemma QuietStep(l: Ledger, now: millis, t: seq<Entry>)
    requires DistinctKeys(l.w.es) && Retained(l) && now >= l.time
    requires forall e :: e in t ==> e in l.w.es
    requires forall e :: e in l.w.es && e !in t ==> Dead(e, now) || Past(e, now)
    ensures Holds(t, l.w.ref, l.lost + Strayed(l.w.es, t, now), now)
  {
    var ref, lost := l.w.ref, l.lost + Strayed(l.w.es, t, now);
    forall k | k in ref
      ensures ref[k] in t || Past(ref[k], now) || k in lost
    {
      if ref[k] in l.w.es && ref[k] !in t && !Past(ref[k], now) {
        DeadMeans(ref[k], now);
      }
    }
    forall e | e in t
      ensures e.key !in lost
    {
      NotStrayed(l.w.es, t, now, e);
    }
  }

  lemma GetStep(l: Ledger, ev: Event)
    requires Inv(l.w) && Retained(l) && ev.now >= l.time && ev.op.GetOp?
    ensures Retained(Enter(l, ev))
  {
    hide Get, Holds, Recent, Faithful, DistinctKeys, Dead, Past, Strayed;
    if GoodKey(ev.op.key) {
      GetKeyed(l.w.es, ev.op.key, ev.op.stale, ev.now);
    } else {
      GetBad(l.w.es, ev.op.key, ev.op.stale, ev.now);
    }
    QuietStep(l, ev.now, After(l.w.es, ev));
  }

  lemma GetBad(es: seq<Entry>, k: Key, stale: bool, now: millis)
    requires !GoodKey(k)
    ensures Get(es, k, stale, now).1 == es
  {
  }

  lemma FlushExpiredStep(l: Ledger, ev: Event)
    requires Inv(l.w) && Retained(l) && ev.now >= l.time && ev.op.FlushExpiredOp?
    ensures Retained(Enter(l, ev))
  {
    hide FlushExpired, Holds, Recent, Faithful, DistinctKeys, Dead, Past, Strayed;
    FlushExpiredLoses(l.w.es, ev.now, ev.op.attempts);
    QuietStep(l, ev.now, After(l.w.es, ev));
  }

  lemma IncrStep(l: Ledger, ev: Event)
    requires Inv(l.w) && Retained(l) && ev.now >= l.time && ev.op.IncrOp?
    ensures Retained(Enter(l, ev))
  {
    hide Incr, Recent, DistinctKeys, Dead, Past, Strayed;
    var k, es := ev.op.key, l.w.es;
    if !GoodKey(k) {
      IncrBad(es, k, ev.op.delta, ev.now);
      QuietStep(l, ev.now, es);
    } else {
      IncrKeyed(es, k, ev.op.delta, ev.now);
      var (r, t) := Incr(es, k, ev.op.delta, ev.now);
      if r.Incremented? {
        IncrementedStep(l, ev, r.num, t);
      } else {
        QuietStep(l, ev.now, t);
      }
    }
  }

  lemma IncrBad(es: seq<Entry>, k: Key, delta: real, now: millis)
    requires !GoodKey(k)
    ensures Incr(es, k, delta, now) == (BadIncrKey, es)
  {
  }

  lemma IncrementedStep(l: Ledger, ev: Event, num: real, t: seq<Entry>)
    requires Inv(l.w) && Retained(l) && ev.now >= l.time && ev.op.IncrOp?
    requires Incr(l.w.es, ev.op.key, ev.op.delta, ev.now) == (Incremented(num), t) && Keyed(l.w.es, ev.op.key, t)
    requires t != [] && exists e :: IncrementedBy(l.w.es, ev.op.key, ev.op.delta, ev.now, e, t[0], num)
    requires forall e :: e in l.w.es && e !in t && e.key != ev.op.key ==> Dead(e, ev.now)
    ensures Holds(t, Record(l.w.ref, l.w.es, ev), l.lost + Strayed(l.w.es, t, ev.now), ev.now)
  {
    hide Incr, Recent, Rest, DistinctKeys, Keyed;
    var k, es := ev.op.key, l.w.es;
    var e :| IncrementedBy(es, k, ev.op.delta, ev.now, e, t[0], num);
    assert k in l.w.ref && l.w.ref[k] == e && e.key !in l.lost;
    KeyedIn(es, k, t);
    var ref, lost := Record(l.w.ref, es, ev), l.lost + Strayed(es, t, ev.now);
    forall j | j in ref
      ensures ref[j].key == j && (ref[j] in t || Past(ref[j], ev.now) || j in lost)
    {
      if j != k && ref[j] in es && ref[j] !in t && !Past(ref[j], ev.now) {
        DeadMeans(ref[j], ev.now);
      }
    }
    forall f | f in t
      ensures f.key !in lost
    {
      if f.key == k {
        OwnNotStrayed(es, t, ev.now, e);
      } else {
        NotStrayed(es, t, ev.now, f);
      }
    }
  }

  /** An entry that lookup finds is not too far ahead. */
  lemma OwnNotStrayed(es: seq<Entry>, t: seq<Entry>, now: millis, e: Entry)
    requires DistinctKeys(es) && e in es && !Stale(e, now)
    ensures e.key !in Strayed(es, t, now)
  {
  }

  /** Apart from k's own, what is left after an operation on k was there before. */
  lemma KeyedIn(es: seq<Entry>, k: Key, t: seq<Entry>)
    requires DistinctKeys(es) && Keyed(es, k, t)
    ensures forall e :: e in t && e.key != k ==> e in es
  {
    hide Rest, DistinctKeys;
    RestIn(es, k);
    PrefixIn(Rest(t, k), Rest(es, k));
    if t != Rest(t, k) {
      assert t == [t[0]] + t[1..];
    }
  }

  lemma FlushAllEnter(l: Ledger, ev: Event)
    requires ev.op.FlushAllOp?
    ensures var n := Enter(l, ev);
      && n.w.es == FlushAll(l.w.es, ev.now) && n.w.ref == (map k | k in l.w.ref :: l.w.ref[k].(expires := 1))
      && n.lost == LostNow(l.lost, l.w.es, ev) && n.time == ev.now
  {
    hide FlushAll, LostNow;
  }

  lemma FlushAllNotLost(l: Ledger, ev: Event, e: Entry)
    requires Inv(l.w) && Retained(l) && ev.op.FlushAllOp? && e in FlushAll(l.w.es, ev.now)
    ensures e.key !in LostNow(l.lost, l.w.es, ev)
  {
    hide Recent, Faithful, EvictOne;
    FlushAllKept(l.w.es, ev.now, e);
  }

  lemma FlushAllStep(l: Ledger, ev: Event)
    requires Inv(l.w) && Retained(l) && ev.now >= l.time && ev.op.FlushAllOp?
    ensures Retained(Enter(l, ev))
  {
    hide Inv, Enter, FlushAll, LostNow, Past;
    FlushAllEnter(l, ev);
    forall k | k in l.w.ref
      ensures var e := l.w.ref[k].(expires := 1);
              e in FlushAll(l.w.es, ev.now) || Past(e, ev.now) || k in LostNow(l.lost, l.w.es, ev)
    {
      FlushAllHeld(l, ev, k);
    }
    forall e | e in FlushAll(l.w.es, ev.now) ensures e.key !in LostNow(l.lost, l.w.es, ev) {
      FlushAllNotLost(l, ev, e);
    }
  }

  lemma FlushAllHeld(l: Ledger, ev: Event, k: Key)
    requires Inv(l.w) && Retained(l) && ev.now >= l.time && ev.op.FlushAllOp? && k in l.w.ref
    ensures var e := l.w.ref[k].(expires := 1);
      e in FlushAll(l.w.es, ev.now) || Past(e, ev.now) || k in LostNow(l.lost, l.w.es, ev)
  {
    hide Recent, EvictOne, DistinctKeys;
    var e, es := l.w.ref[k], l.w.es;
    var m := MarkAll(es);
    EvictOneLoses(m, ev.now);
    if e in es {
      var i := IndexOf(es, e);
      assert m[i] == e.(expires := 1);
    }
  }

  /** What flush_all leaves is an old entry, and not the last one. */
  lemma FlushAllKept(es: seq<Entry>, now: millis, e: Entry)
    requires DistinctKeys(es) && e in EvictOne(MarkAll(es), now)
    ensures es != [] && e.key != es[|es| - 1].key && exists f :: f in es && f.key == e.key
  {
    hide EvictOne;
    var m := MarkAll(es);
    var t := EvictOne(m, now);
    PrefixIn(t, m);
    MarkAllKeys(es);
    LastKeyGone(t, m, m);
    var i := IndexOf(m, e);
    assert es[i] in es && es[i].key == e.key;
  }

  // stores

  lemma StoreBad(es: seq<Entry>, op: StoreOp, now: millis, mem: Memory)
    requires !Proceeds(op)
    ensures var (r, t) := Store(es, op, now, mem); !r.Stored? && t == es && !Inserts(es, op, now)
  {
    hide Lookup, DropDead;
  }

  /** Under other keys, what a store leaves was there before and is not among the lost. */
  lemma StoreOthers(l: Ledger, op: StoreOp, mem: Memory, now: millis, e: Entry)
    requires Inv(l.w) && Retained(l) && Proceeds(op)
    requires e in Store(l.w.es, op, now, mem).1 && e.key != op.key
    ensures e in l.w.es && e.key !in l.lost + LostBy(l.w.es, Event(Storing(op, mem), now))
  {
    var es := l.w.es;
    hide Recent, Find, Keyed, Store, Inserts, BeforeInsert, Forced, Evict, DistinctKeys;
    StoreKeyed(es, op, now, mem);
    KeyedIn(es, op.key, Store(es, op, now, mem).1);
    if Inserts(es, op, now) {
      StoreInserts(es, op, now, mem);
      BeforeDistinct(es, op, now);
      ForcedGone(BeforeInsert(es, op, now), now, mem.evictions);
    }
    NotStrayed(es, Store(es, op, now, mem).1, now, e);
  }

  lemma BeforeDistinct(es: seq<Entry>, op: StoreOp, now: millis)
    requires DistinctKeys(es)
    ensures DistinctKeys(BeforeInsert(es, op, now))
  {
    RestDistinct(es, op.key, now);
    hide Lookup, DistinctKeys;
  }

  lemma RestDistinct(es: seq<Entry>, k: Key, now: millis)
    requires DistinctKeys(es)
    ensures var (rc, l) := Lookup(DropDead(es, now, 2), k, now);
      DistinctKeys(if rc.Declined? then l else l[1..])
  {
    hide Find, Rest, DropDead, DistinctKeys;
    var d := DropDead(es, now, 2);
    ExpireFacts(es, k, now);
    LookupFacts(d, k, now);
    RestWithout(d, k);
  }

  lemma StoreStep(l: Ledger, ev: Event)
    requires Inv(l.w) && Retained(l) && ev.now >= l.time && ev.op.Storing?
    ensures Retained(Enter(l, ev))
  {
    var es, op, mem := l.w.es, ev.op.store, ev.op.mem;
    if !Proceeds(op) {
      hide Store, Inserts, Inv, Holds;
      StoreBad(es, op, ev.now, mem);
      QuietStep(l, ev.now, es);
    } else {
      hide After, Record, LostNow, Inv, Past;
      var ref := Record(l.w.ref, es, ev);
      forall k | k in ref
        ensures ref[k].key == k
        ensures ref[k] in After(es, ev) || Past(ref[k], ev.now) || k in LostNow(l.lost, es, ev)
      {
        StoreHeld(l, ev, k);
      }
      forall e | e in After(es, ev)
        ensures e.key !in LostNow(l.lost, es, ev)
      {
        StoreUnlost(l, ev, e);
      }
    }
  }

  lemma StoreHeld(l: Ledger, ev: Event, k: Key)
    requires Inv(l.w) && Retained(l) && ev.now >= l.time && ev.op.Storing? && Proceeds(ev.op.store)
    requires k in Record(l.w.ref, l.w.es, ev)
    ensures var e := Record(l.w.ref, l.w.es, ev)[k];
      e.key == k && (e in After(l.w.es, ev) || Past(e, ev.now) || k in LostNow(l.lost, l.w.es, ev))
  {
    hide Store, Recent, Find, Keyed, DistinctKeys, Inserts, BeforeInsert, Forced;
    if k != ev.op.store.key {
      StoreKeeps(l, ev, k);
    } else {
      StoreKeyed(l.w.es, ev.op.store, ev.now, ev.op.mem);
      ProceedsResult(l.w.es, ev.op.store, ev.now, ev.op.mem);
      var e := Record(l.w.ref, l.w.es, ev)[k];
      if e in l.w.es && Dead(e, ev.now) {
        DeadMeans(e, ev.now);
      }
    }
  }

  lemma StoreUnlost(l: Ledger, ev: Event, e: Entry)
    requires Inv(l.w) && Retained(l) && ev.op.Storing? && Proceeds(ev.op.store)
    requires e in After(l.w.es, ev)
    ensures e.key !in LostNow(l.lost, l.w.es, ev)
  {
    hide Store, Inv, Retained, LostBy;
    if e.key != ev.op.store.key {
      StoreOthers(l, ev.op.store, ev.op.mem, ev.now, e);
    } else {
      StoreOwn(l, ev, e);
    }
  }

  lemma ProceedsResult(es: seq<Entry>, op: StoreOp, now: millis, mem: Memory)
    requires Proceeds(op)
    ensures var r := Store(es, op, now, mem).0;
      && (r.Stored? || r.NotFound? || r.Exists? || r.NoMemory? || r.Undefined?)
      && (r.NoMemory? ==> Inserts(es, op, now))
      && (r.NotFound? || r.Exists? ==> !Inserts(es, op, now))
  {
    hide Lookup, DropDead, Evict;
  }

  lemma StoreKeeps(l: Ledger, ev: Event, k: Key)
    requires Inv(l.w) && Retained(l) && ev.now >= l.time && ev.op.Storing? && Proceeds(ev.op.store)
    requires k in l.w.ref && k != ev.op.store.key
    ensures l.w.ref[k] in After(l.w.es, ev) || Past(l.w.ref[k], ev.now) || k in LostNow(l.lost, l.w.es, ev)
  {
    hide Store, Recent, DistinctKeys;
    var e := l.w.ref[k];
    if e in l.w.es {
      assert l.w.ref[e.key] == e;
      StoreLoses(l.w.es, ev.op.store, ev.now, ev.op.mem, e);
    }
  }

  lemma StoreOwn(l: Ledger, ev: Event, e: Entry)
    requires Inv(l.w) && Retained(l) && ev.op.Storing? && Proceeds(ev.op.store)
    requires e in After(l.w.es, ev) && e.key == ev.op.store.key
    ensures e.key !in LostNow(l.lost, l.w.es, ev)
  {
    hide Store, Recent, DistinctKeys, Inserts, Keyed, Strayed;
    StoreKeyed(l.w.es, ev.op.store, ev.now, ev.op.mem);
    ProceedsResult(l.w.es, ev.op.store, ev.now, ev.op.mem);
    if e in l.w.es {
      NotStrayed(l.w.es, After(l.w.es, ev), ev.now, e);
    }
  }

  /** Each operation keeps what it should. */
  lemma StepRetained(l: Ledger, ev: Event)
    requires Inv(l.w) && Retained(l) && ev.now >= l.time
    ensures Retained(Enter(l, ev))
  {
    hide Retained, Inv, Enter;
    match ev.op
    case GetOp(_, _) => GetStep(l, ev);
    case Storing(_, _) => StoreStep(l, ev);
    case IncrOp(_, _) => IncrStep(l, ev);
    case FlushAllOp => FlushAllStep(l, ev);
    case FlushExpiredOp(_) => FlushExpiredStep(l, ev);
  }

  /** A run whose answers the allocator can give and whose clock does not go back. */
  ghost predicate Proper(l: Ledger, evs: seq<Event>)
    decreases |evs|
  {
    evs == [] || (Legal(l.w.es, evs[0]) && evs[0].now >= l.time && Proper(Enter(l, evs[0]), evs[1..]))
  }

  function EnterAll(l: Ledger, evs: seq<Event>): Ledger
    decreases |evs|
  {
    if evs == [] then l else EnterAll(Enter(l, evs[0]), evs[1..])
  }

  lemma {:induction false} RunRetained(l: Ledger, evs: seq<Event>)
    requires Inv(l.w) && Retained(l) && Proper(l, evs)
    ensures Inv(EnterAll(l, evs).w) && Retained(EnterAll(l, evs))
    ensures LegalRun(l.w, evs) && EnterAll(l, evs).w == Run(l.w, evs)
    decreases |evs|
  {
    if evs != [] {
      StepInv(l.w, evs[0]);
      StepRetained(l, evs[0]);
      hide Inv, Retained, Step, LostNow, Legal;
      RunRetained(Enter(l, evs[0]), evs[1..]);
    }
  }

  /**
   After any run from an empty dictionary with a clock that does not go back: a key whose last stored entry has not
   expired is found, with that entry's value and flags, if and only if it is not among the lost and expires less than
   2^63 milliseconds ahead; a key never stored, deleted, or with a stale entry is missed; and whatever is found is what
   was stored last.
   */
  lemma GetHitsExactly(evs: seq<Event>, k: Key, now: millis)
    requires Proper(BEGIN, evs) && GoodKey(k) && now >= EnterAll(BEGIN, evs).time
    ensures var l := EnterAll(BEGIN, evs);
      var r := Get(l.w.es, k, false, now).0;
      && l.w == Run(START, evs)
      && (k in l.w.ref && !Past(l.w.ref[k], now) ==>
            if k in l.lost || l.w.ref[k].expires - now > LONG_MAX then r.Miss?
            else r == Hit(l.w.ref[k].value, l.w.ref[k].flags, false))
      && (k !in l.w.ref || Stale(l.w.ref[k], now) ==> r.Miss?)
      && (r.Hit? ==> r == Hit(l.w.ref[k].value, l.w.ref[k].flags, false))
  {
    RunRetained(BEGIN, evs);
    var l := EnterAll(BEGIN, evs);
    GetCorrect(l.w.es, k, now);
    hide Recent, Get, EnterAll, Run;
    if k in l.w.ref {
      DeadExactly(l.w.ref[k], now);
    }
  }

  /** A live entry, a safe store of another size that the allocator refuses, and the key is gone. */
  lemma RefusedStoreExample()
    ensures var e := Entry([0x6b], Flag(true), 0, 0);
      var op := StoreOp([0x6b], Some(Text([0x61, 0x62])), 0.0, 0, false, false, true);
      && !Dead(e, 5) && MemoryOk([], 5, true, Memory(0, false))
      && Store([e], op, 5, Memory(0, false)) == (NoMemory(false), [])
  {
    var e := Entry([0x6b], Flag(true), 0, 0);
    assert DropDead([e], 5, 2) == [e];
    assert Find([e], [0x6b]) == 0;
    assert Lookup([e], [0x6b], 5).1 == [e];
    assert [e][1..] == [];
  }

  // ---------------------------------------------------------------- what a caller can do about it

  /** Stores that ask for less than 2^63 milliseconds. */
  predicate Bounded(ev: Event)
  {
    ev.op.Storing? ==> Span(ev.op.store.exptime) <= LONG_MAX
  }

  /** Nothing stored last is too far ahead, now or later. */
  ghost predicate Near(l: Ledger)
  {
    forall k :: k in l.w.ref ==> l.w.ref[k].expires - l.time <= LONG_MAX
  }

  lemma StepNear(l: Ledger, ev: Event)
    requires Near(l) && Bounded(ev) && ev.now >= l.time
    ensures Near(Enter(l, ev))
  {
    hide Store, Incr, LostNow, After;
    if ev.op.Storing? {
      ExpiryNear(ev.op.store.exptime, ev.now);
    }
  }

  lemma ExpiryNear(exptime: real, now: millis)
    requires Span(exptime) <= LONG_MAX
    ensures Expiry(exptime, now) - now <= LONG_MAX
  {
    var t := now + Span(exptime);
    assert t % WORD == if t < WORD then t else t - WORD;
  }

  /** With such stores only, no run comes to an entry too far ahead. */
  lemma {:induction false} NeverFar(l: Ledger, evs: seq<Event>)
    requires Near(l) && Proper(l, evs) && forall i :: 0 <= i < |evs| ==> Bounded(evs[i])
    ensures Near(EnterAll(l, evs))
    decreases |evs|
  {
    if evs != [] {
      StepNear(l, evs[0]);
      hide Near, Enter, Legal, Bounded;
      assert forall i :: 0 <= i < |evs[1..]| ==> evs[1..][i] == evs[i + 1];
      NeverFar(Enter(l, evs[0]), evs[1..]);
    }
  }

  /** What an operation must not do for nothing to be lost. */
  predicate Gentle(es: seq<Entry>, ev: Event)
  {
    match ev.op
    case Storing(op, mem) =>
      mem.evictions == 0 && !Store(es, op, ev.now, mem).0.NoMemory? && Span(op.exptime) <= LONG_MAX
    case FlushAllOp => false
    case _ => true
  }

  ghost predicate GentleRun(l: Ledger, evs: seq<Event>)
    decreases |evs|
  {
    evs == [] || (Gentle(l.w.es, evs[0]) && GentleRun(Enter(l, evs[0]), evs[1..]))
  }

  lemma NearNotFar(l: Ledger, t: seq<Entry>, now: millis)
    requires Faithful(l.w.es, l.w.ref) && Near(l) && now >= l.time
    ensures Strayed(l.w.es, t, now) == {}
  {
  }

  lemma GentleLoses(l: Ledger, ev: Event)
    requires Inv(l.w) && Near(l) && ev.now >= l.time && Gentle(l.w.es, ev)
    ensures LostBy(l.w.es, ev) == {}
  {
    NearNotFar(l, After(l.w.es, ev), ev.now);
    hide Inv, Near, Strayed;
    if ev.op.Storing? {
      GentleStore(l.w.es, ev.op.store, ev.now, ev.op.mem);
      hide Store, Inserts, BeforeInsert, After;
    }
  }

  /** A store that fits and is not refused is stored if it comes to inserting. */
  lemma GentleStore(es: seq<Entry>, op: StoreOp, now: millis, mem: Memory)
    requires !Store(es, op, now, mem).0.NoMemory? && Span(op.exptime) <= LONG_MAX
    ensures Inserts(es, op, now) ==> Store(es, op, now, mem).0.Stored?
  {
    hide Lookup, DropDead, Evict;
  }

  /**
   Without forced eviction, refused stores, flush_all and stores for 2^63 milliseconds or more nothing is ever lost, so
   every key that has not expired is found.
   */
  lemma {:induction false} NothingLost(l: Ledger, evs: seq<Event>)
    requires Inv(l.w) && Near(l) && Proper(l, evs) && l.lost == {} && GentleRun(l, evs)
    ensures EnterAll(l, evs).lost == {} && Near(EnterAll(l, evs))
    decreases |evs|
  {
    if evs != [] {
      GentleLoses(l, evs[0]);
      StepNear(l, evs[0]);
      StepInv(l.w, evs[0]);
      hide Inv, Near, Legal, Step, LostBy, Store;
      NothingLost(Enter(l, evs[0]), evs[1..]);
    }
  }

  lemma GentleRunFinds(evs: seq<Event>, k: Key, now: millis)
    requires Proper(BEGIN, evs) && GentleRun(BEGIN, evs) && GoodKey(k) && now >= EnterAll(BEGIN, evs).time
    requires k in Run(START, evs).ref && !Past(Run(START, evs).ref[k], now)
    ensures var w := Run(START, evs);
      Get(w.es, k, false, now).0 == Hit(w.ref[k].value, w.ref[k].flags, false)
  {
    RunRetained(BEGIN, evs);
    NothingLost(BEGIN, evs);
    GetHitsExactly(evs, k, now);
  }

  /** A store for 10^16 seconds. */
  function FarStore(): StoreOp
  {
    StoreOp([0x6b], Some(Flag(true)), 10_000_000_000_000_000.0, 0, false, false, false)
  }

  /** What it leaves at time 5. */
  function FarEntry(): Entry
  {
    Entry([0x6b], Flag(true), 10_000_000_000_000_000_005, 0)
  }

  lemma FarStored()
    ensures Store([], FarStore(), 5, Memory(0, true)) == (Stored(false), [FarEntry()])
  {
    var op := FarStore();
    assert op.exptime * 1000.0 == 10_000_000_000_000_000_000.0;
    assert NewEntry(op, 5) == FarEntry();
    assert [NewEntry(op, 5)] + [] == [FarEntry()];
  }

  lemma FarMissed()
    ensures Get([FarEntry()], [0x6b], false, 6) == (Miss, [])
  {
    var es := [FarEntry()];
    assert Dead(es[0], 6) && es[..0] == [];
    assert DropDead([], 6, 1) == [] && DropDead(es, 6, 2) == [];
  }

  lemma FarListed()
    ensures FlushExpired([FarEntry()], 6, 0) == (0, [FarEntry()]) && GetKeys([FarEntry()], 6, 0) == [[0x6b]]
  {
    var es := [FarEntry()];
    assert !Past(es[0], 6) && es[..0] == [] && [] + es == es;
  }

  /** get misses what was stored for 10^16 seconds and removes it; flush_expired leaves it, and get_keys lists it. */
  lemma FarExample()
    ensures var (r, es) := Store([], FarStore(), 5, Memory(0, true));
      && r == Stored(false) && |es| == 1 && es[0].expires == 10_000_000_000_000_000_005
      && Get(es, [0x6b], false, 6) == (Miss, [])
      && FlushExpired(es, 6, 0) == (0, es) && GetKeys(es, 6, 0) == [[0x6b]]
  {
    hide Store, Get, FlushExpired, GetKeys;
    FarStored();
    FarMissed();
    FarListed();
  }
}
