/**
 What a shared dictionary is, as a value: its entries in queue order, most recently touched first.
 The operations of stream-lua-nginx-module/src/ngx_stream_lua_shdict.c are functions of that list, of the
 clock and of what the slab allocator answered.
 */
module TimedLru {
  import opened Basics

  type Key = seq<byte>

  datatype Value = Text(bytes: seq<byte>) | Number(num: real) | Flag(on: bool)
  {
    /** value_len: the bytes the value takes in its node. */
    function Size(): nat
    {
      match this
      case Text(bytes) => |bytes|
      case Number(_) => 8
      case Flag(_) => 1
    }
  }

  const WORD: int := 0x1_0000_0000_0000_0000

  /** A time in milliseconds, unsigned of 64 bits. */
  type millis = n: int | 0 <= n < WORD

  /** `expires` is 0 for never. */
  datatype Entry = Entry(key: Key, value: Value, expires: millis, flags: int)

  /** What is left until then, a difference modulo 2^64 taken for a signed number. */
  function TimeLeft(expires: millis, now: millis): (ms: int)
    ensures -LONG_MAX - 1 <= ms <= LONG_MAX
  {
    var d: int := expires - now;
    if d > LONG_MAX then d - WORD else if d < -LONG_MAX - 1 then d + WORD else d
  }

  lemma TimeLeftIsSigned(expires: millis, now: millis)
    ensures TimeLeft(expires, now) == ToLong((expires - now) % WORD)
  {
    var d: int := expires - now;
    assert d % WORD == if d < 0 then d + WORD else d;
  }

  /** What lookup calls expired. */
  predicate Stale(e: Entry, now: millis)
  {
    e.expires != 0 && TimeLeft(e.expires, now) < 0
  }

  /** What expire removes: one millisecond earlier than lookup calls it expired. */
  predicate Dead(e: Entry, now: millis)
  {
    e.expires != 0 && TimeLeft(e.expires, now) <= 0
  }

  /** What flush_expired removes and get_keys leaves out, which compare unsigned. */
  predicate Past(e: Entry, now: millis)
  {
    e.expires != 0 && e.expires <= now
  }

  /** So far ahead that the signed difference is negative. */
  predicate Far(e: Entry, now: millis)
  {
    e.expires - now > LONG_MAX
  }

  function Find(es: seq<Entry>, k: Key): (i: nat)
    ensures i <= |es|
    ensures i < |es| ==> es[i].key == k
    ensures forall j :: 0 <= j < i ==> es[j].key != k
  {
    if es == [] || es[0].key == k then 0 else 1 + Find(es[1..], k)
  }

  ghost predicate DistinctKeys(es: seq<Entry>)
  {
    forall i, j :: 0 <= i < j < |es| ==> es[i].key != es[j].key
  }

  function Without<T>(es: seq<T>, i: nat): (r: seq<T>)
    requires i < |es|
    ensures |r| == |es| - 1
  {
    es[..i] + es[i + 1..]
  }

  function Touch<T>(es: seq<T>, i: nat): (r: seq<T>)
    requires i < |es|
    ensures |r| == |es| && r[0] == es[i] && r[1..] == Without(es, i)
  {
    [es[i]] + Without(es, i)
  }

  /** Drop dead entries from the back, at most n of them. */
  function DropDead(es: seq<Entry>, now: millis, n: nat): (r: seq<Entry>)
    ensures r <= es && |es| - |r| <= n
    ensures forall i :: |r| <= i < |es| ==> Dead(es[i], now)
    ensures |es| - |r| < n && r != [] ==> !Dead(r[|r| - 1], now)
  {
    if n > 0 && es != [] && Dead(es[|es| - 1], now) then DropDead(es[..|es| - 1], now, n - 1) else es
  }

  /** expire(0): the last entry by force, and at most two dead ones behind it. */
  function EvictOne(es: seq<Entry>, now: millis): (r: seq<Entry>)
    ensures r <= es
    ensures es != [] ==> |r| < |es| && |es| - |r| <= 3
    ensures forall i :: |r| <= i < |es| - 1 ==> Dead(es[i], now)
    ensures es != [] && |es| - |r| < 3 && r != [] ==> !Dead(r[|r| - 1], now)
  {
    if es == [] then es else DropDead(es[..|es| - 1], now, 2)
  }

  function Evict(es: seq<Entry>, now: millis, times: nat): (r: seq<Entry>)
    ensures r <= es
    ensures times > 0 && es != [] ==> |r| < |es|
  {
    if times == 0 then es else EvictOne(Evict(es, now, times - 1), now)
  }

  datatype Rc = Ok | Done | Declined

  /** lookup: a found entry comes to the front whether or not it has expired. */
  function Lookup(es: seq<Entry>, k: Key, now: millis): (r: (Rc, seq<Entry>))
    ensures (r.0.Declined? <==> Find(es, k) == |es|) && |r.1| == |es|
  {
    var i := Find(es, k);
    if i == |es| then (Declined, es)
    else (if Stale(es[i], now) then Done else Ok, Touch(es, i))
  }

  // ---------------------------------------------------------------- get

  datatype GetResult = Miss | Hit(value: Value, flags: int, stale: bool) | BadKey

  predicate GoodKey(k: Key)
  {
    0 < |k| <= 65535
  }

  function Get(es: seq<Entry>, k: Key, stale: bool, now: millis): (GetResult, seq<Entry>)
  {
    if !GoodKey(k) then (BadKey, es)
    else
      var es1 := if stale then es else DropDead(es, now, 2);
      var (rc, es2) := Lookup(es1, k, now);
      if rc.Declined? || (rc.Done? && !stale) then (Miss, es2)
      else (Hit(es2[0].value, es2[0].flags, rc.Done?), es2)
  }

  // ---------------------------------------------------------------- set, safe_set, add, safe_add, replace, delete

  datatype StoreOp = StoreOp(key: Key, value: Option<Value>, exptime: real, flags: int,
                             add: bool, replace: bool, safe: bool)

  datatype StoreResult =
    | Stored(forcible: bool)
    | NotFound
    | Exists
    | NoMemory(forcible: bool)
    | BadStoreKey
    | NilNotAllowed
    | Undefined

  /** What the slab allocator let happen: how often room was made by force, and whether a node was had in the end. */
  datatype Memory = Memory(evictions: nat, granted: bool)

  /** The milliseconds asked for. */
  function Span(exptime: real): nat
  {
    if exptime > 0.0 then (exptime * 1000.0).Floor else 0
  }

  /** Milliseconds that do not fit 64 bits: C leaves their conversion undefined, and the store ends there. */
  predicate TooLong(op: StoreOp)
  {
    Span(op.exptime) >= WORD
  }

  function Expiry(exptime: real, now: millis): millis
  {
    if exptime > 0.0 then (now + Span(exptime)) % WORD else 0
  }

  function NewEntry(op: StoreOp, now: millis): (e: Entry)
    requires op.value.Some?
    ensures e.key == op.key
  {
    Entry(op.key, op.value.value, Expiry(op.exptime, now), op.flags % 0x1_0000_0000)
  }

  const MAX_EVICTIONS: nat := 30

  /** The ways the allocation can go: a safe store never evicts, and eviction stops when nothing is left or after 30 rounds. */
  ghost predicate MemoryOk(es: seq<Entry>, now: millis, safe: bool, mem: Memory)
  {
    && mem.evictions <= MAX_EVICTIONS
    && (safe ==> mem.evictions == 0)
    && (mem.evictions > 0 ==> Evict(es, now, mem.evictions - 1) != [])
    && (!mem.granted && !safe ==> mem.evictions == MAX_EVICTIONS || Evict(es, now, mem.evictions) == [])
  }

  /** The list that the insertion of a new entry starts from. */
  function BeforeInsert(es: seq<Entry>, op: StoreOp, now: millis): (r: seq<Entry>)
  {
    var (rc, es2) := Lookup(DropDead(es, now, 2), op.key, now);
    if rc.Declined? then es2 else es2[1..]
  }

  /** Whether the store comes to allocating a node. */
  predicate Inserts(es: seq<Entry>, op: StoreOp, now: millis)
  {
    var (rc, es2) := Lookup(DropDead(es, now, 2), op.key, now);
    && GoodKey(op.key)
    && op.value.Some?
    && !(op.replace && !rc.Ok?)
    && !(op.add && !op.replace && rc.Ok?)
    && (rc.Declined? || op.value.value.Size() != es2[0].value.Size())
  }

  function Store(es: seq<Entry>, op: StoreOp, now: millis, mem: Memory): (StoreResult, seq<Entry>)
  {
    if !GoodKey(op.key) then (BadStoreKey, es)
    else if op.value.None? && (op.add || op.replace) then (NilNotAllowed, es)
    else
      var (rc, es2) := Lookup(DropDead(es, now, 2), op.key, now);
      if op.replace && !rc.Ok? then (NotFound, es2)
      else if op.add && !op.replace && rc.Ok? then (Exists, es2)
      else if op.value.None? then (Stored(false), if rc.Declined? then es2 else es2[1..])
      else if !rc.Declined? && op.value.value.Size() == es2[0].value.Size() then
        if TooLong(op) then (Undefined, es2) else (Stored(false), [NewEntry(op, now)] + es2[1..])
      else
        var es3 := if rc.Declined? then es2 else es2[1..];
        var es4 := Evict(es3, now, mem.evictions);
        if !mem.granted then (NoMemory(mem.evictions > 0), es4)
        else if TooLong(op) then (Undefined, es4)
        else (Stored(mem.evictions > 0), [NewEntry(op, now)] + es4)
  }

  // ---------------------------------------------------------------- incr, flush_all, flush_expired, get_keys

  datatype IncrResult = Incremented(num: real) | IncrNotFound | NotANumber | BadIncrKey

  function Incr(es: seq<Entry>, k: Key, delta: real, now: millis): (IncrResult, seq<Entry>)
  {
    if !GoodKey(k) then (BadIncrKey, es)
    else
      var (rc, es2) := Lookup(DropDead(es, now, 2), k, now);
      if !rc.Ok? then (IncrNotFound, es2)
      else if !es2[0].value.Number? then (NotANumber, es2)
      else
        var num := es2[0].value.num + delta;
        (Incremented(num), [es2[0].(value := Number(num))] + es2[1..])
  }

  function MarkAll(es: seq<Entry>): (r: seq<Entry>)
    ensures |r| == |es| && forall i :: 0 <= i < |es| ==> r[i] == es[i].(expires := 1)
  {
    seq(|es|, i requires 0 <= i < |es| => es[i].(expires := 1))
  }

  function FlushAll(es: seq<Entry>, now: millis): seq<Entry>
  {
    EvictOne(MarkAll(es), now)
  }

  /** flush_expired: from the back, remove dead entries, all of them or up to `attempts` if that is not 0. */
  function FlushExpired(es: seq<Entry>, now: millis, attempts: nat): (r: (nat, seq<Entry>))
    ensures attempts == 0 || r.0 <= attempts
    ensures |r.1| + r.0 == |es|
  {
    if es == [] then (0, [])
    else
      var e := es[|es| - 1];
      if !Past(e, now) then
        var (n, rest) := FlushExpired(es[..|es| - 1], now, attempts);
        (n, rest + [e])
      else if attempts == 1 then (1, es[..|es| - 1])
      else
        var (n, rest) := FlushExpired(es[..|es| - 1], now, if attempts == 0 then 0 else attempts - 1);
        (n + 1, rest)
  }

  /** get_keys: the live keys from the back, all of them or the first `attempts` if that is not 0. */
  function GetKeys(es: seq<Entry>, now: millis, attempts: nat): (r: seq<Key>)
    ensures attempts == 0 || |r| <= attempts
  {
    if es == [] then []
    else
      var e := es[|es| - 1];
      if Past(e, now) then GetKeys(es[..|es| - 1], now, attempts)
      else if attempts == 1 then [e.key]
      else [e.key] + GetKeys(es[..|es| - 1], now, if attempts == 0 then 0 else attempts - 1)
  }
}
