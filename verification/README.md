# A verified model of the redis-cluster-ngproxy core

This project models, in Dafny 4.11, the parts of the repository that carry its hardest logic, and proves what
they are for. `dafny verify dfyconfig.toml` checks all of it.

| part | files | what is modelled |
|---|---|---|
| Exact decimal conversion | `Arith`, `Words`, `Bignum`, `Decimal`, `Digits` | The big-number arithmetic of `dtoa.c` on 32-bit words in place, its free lists and its shared chain of powers of five, and the two digit loops with their rounding, from the exact ratio b/S on. |
| Shared dictionary | `TimedLru`, `LruTheorems`, `LruRetention`, `LruAnswers`, `SharedDict` | The tree, the queue and the expiry rules of the shared dictionary with its 64-bit times, refined to a timed list in most-recently-touched order, and theorems over every run of that list: what is answered, and what is still held. |
| Semaphores | `SemaphoreBlocks`, `SemaphoreProtocol`, `PostedEvents` | The block allocator, the wait/post/timeout/cancel protocol under every interleaving with the `int` that holds the resources, and the queue of posted events when a semaphore is handed out again. |
| Replacement templates | `Template`, `TemplateText`, `TemplateCode`, `TemplateCompiler`, `TemplateEngine` | Which texts are templates and what each part of one is replaced by, the byte code it is compiled to, the compiler and the engine. |
| JSON | `JsonText`, `JsonGrammar`, `JsonExact`, `JsonSpelling`, `JsonRoundTrip`, `JsonAccepted`, `Strbuf`, `JsonRoom`, `JsonWhole`, `JsonEncoder`, `JsonDecoder` | What the encoder writes and the decoder reads, each against a grammar with its bytes written out, the growable buffer with its `int` counters, exactly when the room made for a string and for a whole value suffices, and both as they run, unsafe appends included. |
| Redis protocol | `Resp`, `RespWidth`, `RespQuery`, `RespReply`, `RespParser` | Query building, queries and replies byte for byte, and the two copies of the reply parser, each with its own integer widths. |
| Cluster slot | `ClusterSlot` | The table-driven checksum and hash tags. |
| Body filter | `BodyFilter` | The filter that cuts a value out of a stream of chunks. |

`Basics`, `Ascii` and `Memory` hold what several parts share.

Code that updates things in place is modelled by classes and methods over arrays, sequences and maps, each proved
against a function or a predicate; the theorems are lemmas about those functions and predicates. What comes from
outside is a parameter: the clock, the hash function, whether the allocator had memory, how numbers are printed
and read, what a resumed thread does.

Where the code stops because C gives it no meaning any more (a signed integer exceeded, memory outside an object
read or written), the model stops with an outcome that says so.

These things turned out not to hold as one would expect. Each has an input that shows it and the exact condition:

- The room the JSON encoder makes for a string of n bytes is 6*n+2, converted to an `int`. From 357,913,941 bytes on
  it is too little, and unchecked appends leave the buffer (`JsonRoom.FirstWrongLength`). Every shorter string stays
  inside, in every buffer (`JsonRoom.InsideExactly`, `JsonRoom.PutStringExact`). The decoder's scratch buffer is large
  enough for every text just below 2^31 - 1 bytes (`JsonRoom.ScratchExactly`).
- The stream copy of the reply parser reads outside the input after `$9223372036854775806` (`RespQuery.SizeWraps`),
  and does so exactly for the two largest sizes of a signed 64-bit integer; the bundled copy never does
  (`RespWidth.BulkBounds`). The stream copy keeps lengths in an `int`, so that a value of 2^32 - 1 bytes becomes nil
  (`RespQuery.LongReadAsNil`); a value is read whole exactly if its length fits (`RespWidth.BulkExact`).
- `cmp` orders big numbers by value on normal numbers except zero against zero written with a different number of
  words, which `quorem` and `diff` do produce for a one-word divisor (`Bignum.CmpZeros`, `Bignum.Cmp`,
  `Bignum.Quorem`).
- `lshift` of zero by 32 or more, and of nothing else, leaves a number that is not normal (`Bignum.LShiftZero`,
  `Bignum.Store.LShift`).
- A template reference is kept as twice its number in 64 bits, so `$9223372036854775808` is the whole match
  (`Template.LargeReference`); `Template.LargeReferencesExact` says for which templates this makes no difference.
- The body filter's trailer comparison stops at a zero byte, so a reply followed by a zero byte in the same chunk
  is not seen as malformed (`BodyFilter.ZeroByteExample`); `BodyFilter.StepInv` says that no other input drives the
  counters below zero.
- Expiry is the sign of a 64-bit difference in some operations and an unsigned comparison in others. What is stored for
  10^16 seconds is missed and removed by the next get, while flush_expired keeps it and get_keys lists it
  (`LruRetention.FarExample`). An entry that has not expired and was not lost otherwise is found if and only if it
  expires less than 2^63 milliseconds ahead (`LruRetention.GetHitsExactly`); get and flush_expired agree on it exactly
  within that distance (`LruTheorems.SignedAgrees`). Callers who never ask for 2^63 milliseconds are safe
  (`LruRetention.NeverFar`).
- Two posts to a semaphore can exceed its `int` (`SemaphoreProtocol.PostsOverflow`). None does exactly if at each post
  the initial and posted resources, less those taken, and the new ones fit (`SemaphoreProtocol.DefinedExactly`).
  `count()` can come out positive with somebody waiting (`SemaphoreProtocol.CountExample`), and is the resources less
  the waiters exactly if that is an `int` (`SemaphoreProtocol.CountExactly`).
- A semaphore that nobody waits for can be given back while its event is still posted
  (`SemaphoreProtocol.StillPosted`): exactly if the handler was not entered since a post that found somebody waiting
  (`SemaphoreProtocol.PostedExactly`). Handed out again, it has its event cleared in the middle of the queue of posted
  events; these are delivered exactly if its event is not among them (`PostedEvents.ReuseThenProcess`).
- A light userdata that is neither null nor the empty-array mark is written as nothing. A list that ends with one is
  not JSON (`JsonRoundTrip.SilentLast`), one that holds nothing else is an empty table (`JsonRoundTrip.SilentAlone`), and
  `JsonRoundTrip.EncodedWellFormed` says exactly which values are encoded as JSON.
- `redis_parse_replies` gives back a table without the replies if one of them fails midway (`RespWidth.TorsoExample`),
  and only then (`RespWidth.TableExactly`).
- The slot of a key of 2^31 to 2^32 bytes does not depend on the key, because its length is put into an `int`
  (`ClusterSlot.KeptWhole`).
- A store that is refused for want of memory has already removed the live entry under its key
  (`LruRetention.RefusedStoreExample`), so that a later get misses it; with forced evictions and
  expiries too far ahead this is all that is ever lost (`LruRetention.GetHitsExactly`).

The free-format digit loop would not always give the *nearest* shortest decimal: when the upper boundary is exactly
ten and nine would do as well, it answers ten (`Digits.OvershootExample`, `Digits.StopNearest`). No double leads to
such an input, so `dtoa` does give the nearest (`Digits.DtoaNeverOvershoots`, `Digits.DtoaNearest`).

## Model

| member | source | states |
|---|---|---|
| `Words.MulAddLoop` | bundle/lua-cjson-2.1.0.5/dtoa.c:632-655 | The words in place, with the carry out as the next word, are the old value times m plus a; words beyond are untouched; no 64-bit intermediate overflows. |
| `Words.MulLoops` | bundle/lua-cjson-2.1.0.5/dtoa.c:838-860 | The schoolbook loops leave the exact product of the two values, every write inside the result's words. |
| `Words.ShiftInto` | bundle/lua-cjson-2.1.0.5/dtoa.c:975-1032 | The words written are the value times 2^k; the result has no leading zero word exactly when the value is positive or the shift is less than one word. |
| `Words.SubWord` | bundle/lua-cjson-2.1.0.5/dtoa.c:1112-1124 | Bit 32 of the wrapped 64-bit difference is exactly the borrow, and the low word the digit. |
| `Words.DiffInto` | bundle/lua-cjson-2.1.0.5/dtoa.c:1103-1160 | Borrow loops and trimming leave the exact difference with a non-zero top word. |
| `Words.SubMulLoop` | bundle/lua-cjson-2.1.0.5/dtoa.c:2160-2190 | When q times s does not exceed b, the loop leaves b - q*s with no carry or borrow lost. |
| `Words.CompareWords` | bundle/lua-cjson-2.1.0.5/dtoa.c:1035-1066 | Comparing from the top word down orders equally long numbers by value, both directions. |
| `Bignum.Store.Balloc` | bundle/lua-cjson-2.1.0.5/dtoa.c:544-583 | A block of 2^k words that nothing else holds: the head of its free list if there is one, else a new one; the other lists are as before, and free lists and power chain stay disjoint and well formed. |
| `Bignum.Store.Bfree` | bundle/lua-cjson-2.1.0.5/dtoa.c:585-607 | The block goes to the front of the free list of its size, of which there are eight, and nowhere else; the power chain, which uses the same link field, is untouched. |
| `Bignum.Store.MultAdd` | bundle/lua-cjson-2.1.0.5/dtoa.c:612-667 | b*m + a as a normal number, in b's block or, when the carry does not fit, in one twice as large. |
| `Bignum.Store.Mult` | bundle/lua-cjson-2.1.0.5/dtoa.c:805-913 | The exact product as a normal number in a block that holds it; the operands are unchanged. |
| `Bignum.Store.LShift` | bundle/lua-cjson-2.1.0.5/dtoa.c:974-1032 | b*2^k, normal exactly when b is positive or k < 32. |
| `Bignum.LShiftZero` | bundle/lua-cjson-2.1.0.5/dtoa.c:975-1032 | Zero shifted by 32 is zero, and not normal. |
| `Bignum.Store.Diff` | bundle/lua-cjson-2.1.0.5/dtoa.c:1068-1160 | The absolute difference as a normal number of at least one word, the sign telling which operand was smaller. |
| `Bignum.Store.I2b` | bundle/lua-cjson-2.1.0.5/dtoa.c:789-803 | A one-word normal number of the given value. |
| `Bignum.Store.NextPow` | bundle/lua-cjson-2.1.0.5/dtoa.c:955-968 | The chain grows by the square of its last node, so node i stays 625^(2^i); earlier nodes are neither changed nor freed. |
| `Bignum.Store.PowLoop` | bundle/lua-cjson-2.1.0.5/dtoa.c:948-970 | Squaring along the shared chain multiplies by 625^k for every k, extending the chain as far as needed. |
| `Bignum.Store.Pow5Mult` | bundle/lua-cjson-2.1.0.5/dtoa.c:915-972 | value(b)*5^k for every k; over any sequence of calls the chain keeps its powers and never meets the free lists. |
| `Bignum.Cmp` | bundle/lua-cjson-2.1.0.5/dtoa.c:1034-1066 | The sign of the result orders the values exactly on the comparable pairs: an if-and-only-if. |
| `Bignum.CmpZeros` | bundle/lua-cjson-2.1.0.5/dtoa.c:1035-1066 | Zero in no words and zero in one word are equal numbers, and cmp answers -1. |
| `Bignum.QuotientEstimate` | bundle/lua-cjson-2.1.0.5/dtoa.c:2143-2149 | The estimate from the top words never exceeds the quotient and is short by at most one. |
| `Bignum.Quorem` | bundle/lua-cjson-2.1.0.5/dtoa.c:2119-2241 | Returns the exact quotient and leaves the exact remainder in place, and says when a zero remainder has no words. |
| `Bignum.Hi0bits` | bundle/lua-cjson-2.1.0.5/dtoa.c:707-739 | The number of leading zero bits: shifting by it brings the top bit to the top. |
| `Bignum.DShift` | bundle/lua-cjson-2.1.0.5/dtoa.c:2106-2117 | The shift in 0..31 that, added to p2, leaves the top word four leading zero bits. |
| `Bignum.ShiftDivisor` | bundle/lua-cjson-2.1.0.5/dtoa.c:4145-4159 | After the prescribed shift the divisor's top word is in [2^27, 2^28) and its value is scaled by exactly that power of two. |
| `Decimal.RoundUp` | bundle/lua-cjson-2.1.0.5/dtoa.c:4314-4322 | Dropping nines and incrementing gives the numeral plus one, without trailing zeros; a carry into a new digit exactly for all nines. |
| `Decimal.TrimZeros` | bundle/lua-cjson-2.1.0.5/dtoa.c:4323-4329 | The numeral without its trailing zeros has the same value and at least one digit. |
| `Decimal.RoundHalfEven` | bundle/lua-cjson-2.1.0.5/dtoa.c:4306-4313 | Comparing twice the remainder with the divisor, ties to an even digit, picks the nearest integer with ties to even. |
| `Decimal.NearestEvenUnique` | bundle/lua-cjson-2.1.0.5/dtoa.c:4306-4313 | That nearest integer is unique, so the statements below pin their results down. |
| `Digits.NextDigit` | bundle/lua-cjson-2.1.0.5/dtoa.c:4286-4296 | One division step extends the integer part of b/S by its next decimal digit and leaves the remainder. |
| `Digits.RoundLast` | bundle/lua-cjson-2.1.0.5/dtoa.c:4298-4329 | Rounding off yields the nearest decimal of that many digits, ties to even, carries and stripping included. |
| `Digits.FixedDigits` | bundle/lua-cjson-2.1.0.5/dtoa.c:4284-4329 | From any S <= b < 10*S the loop and the rounding give the decimal of at most ilim digits nearest to b/S, ties to an even last digit, with no trailing zero. |
| `Digits.Judge` | bundle/lua-cjson-2.1.0.5/dtoa.c:4201-4272 | The comparisons on big numbers decide exactly as the branches do on the values, the one-word zero included. |
| `Digits.StopInside` | bundle/lua-cjson-2.1.0.5/dtoa.c:4205-4268 | Whichever neighbour the loop stops at lies in the rounding interval, endpoints only for an even mantissa when mode is not 1. |
| `Digits.NoneAtLength` | bundle/lua-cjson-2.1.0.5/dtoa.c:4269-4282 | When the loop goes on, no decimal of that many digits lies in the interval: the answer is shortest. |
| `Digits.OvershootExample` | bundle/lua-cjson-2.1.0.5/dtoa.c:4205-4221 | Three numbers, with equal boundaries, for which the loop would answer ten although nine is inside and nearer; no double gives them. |
| `Digits.OverOnlyFirst` | bundle/lua-cjson-2.1.0.5/dtoa.c:4211-4212 | A nine rounded up on hitting the endpoint happens at the first digit or not at all. |
| `Digits.StopNearest` | bundle/lua-cjson-2.1.0.5/dtoa.c:4205-4268 | The answer is the nearest decimal of its length in the interval if and only if the input is not of the overshooting kind. |
| `Digits.FreeDigits` | bundle/lua-cjson-2.1.0.5/dtoa.c:4181-4283 | The loop terminates; its answer lies in the interval, none shorter does, and it is nearest exactly when not overshooting; stopped by a digit limit, it is the correctly rounded decimal. |
| `Digits.NarrowInterval` | bundle/lua-cjson-2.1.0.5/dtoa.c:4205-4221 | An interval less than half as wide as S on each side, as every normal double has, is never of the overshooting kind. |
| `Digits.DtoaBuilds` | bundle/lua-cjson-2.1.0.5/dtoa.c:4084-4193 | What dtoa sets up, the special case of a power of two included, is a mantissa times two half gaps, with half gap and divisor products of twos and fives. |
| `Digits.DtoaTenfold` | bundle/lua-cjson-2.1.0.5/dtoa.c:4160-4167 | That form survives the correction after the check of k, which multiplies b and the boundaries by ten. |
| `Digits.DtoaNeverOvershoots` | bundle/lua-cjson-2.1.0.5/dtoa.c:4084-4221 | No input built so, normal or subnormal, is of the overshooting kind. |
| `Digits.DtoaNearest` | bundle/lua-cjson-2.1.0.5/dtoa.c:4181-4283 | So for every double the answer lies in the rounding interval, none shorter does, and it is the nearest of its length. |
| `SharedDict.CmpZero` | stream-lua-nginx-module/src/ngx_stream_lua_shdict.c:156-163 | Byte comparison of keys is zero exactly for equal keys. |
| `SharedDict.CmpTrans` | stream-lua-nginx-module/src/ngx_stream_lua_shdict.c:156-163 | The comparison is transitive, so (hash, key) is an order to search by. |
| `SharedDict.KeysDistinct` | stream-lua-nginx-module/src/ngx_stream_lua_shdict.c:139-177 | In every valid state no two nodes have the same key, however many share a hash. |
| `SharedDict.Dict.Search` | stream-lua-nginx-module/src/ngx_stream_lua_shdict.c:180-246 | The descent finds a node exactly if the queue holds one with that key, even when hashes collide. |
| `SharedDict.Dict.LookupNode` | stream-lua-nginx-module/src/ngx_stream_lua_shdict.c:180-246 | Moves what it finds to the front and answers by the sign of the 64-bit difference, as the list model does; tree and queue keep the same nodes. |
| `SharedDict.Dict.Expire` | stream-lua-nginx-module/src/ngx_stream_lua_shdict.c:249-305 | expire(1) drops at most two entries off the back whose signed time left is not positive, expire(0) the last by force and at most two such; the count freed is right. |
| `SharedDict.Dict.GetHelper` | stream-lua-nginx-module/src/ngx_stream_lua_shdict.c:414-577 | get and get_stale refine the list model's. |
| `SharedDict.Dict.InsertPosition` | stream-lua-nginx-module/src/ngx_stream_lua_shdict.c:139-177 | The descent ends where everything before is smaller and everything after larger by (hash, key). |
| `SharedDict.Dict.InsertNode` | stream-lua-nginx-module/src/ngx_stream_lua_shdict.c:1133-1167 | A new node enters the ordered tree and the front of the queue, nothing else changing. |
| `SharedDict.Dict.MakeRoom` | stream-lua-nginx-module/src/ngx_stream_lua_shdict.c:1096-1131 | A safe store evicts nothing; otherwise up to 30 forced evictions, stopping when the allocator is satisfied or nothing is left. |
| `SharedDict.Dict.SetHelper` | stream-lua-nginx-module/src/ngx_stream_lua_shdict.c:852-1170 | set, safe_set, add, safe_add, replace and delete refine the list model's store, error cases and a conversion that C leaves undefined included; `LruAnswers` says what that store answers and what a get finds after it, from the arguments alone. |
| `SharedDict.Dict.IncrHelper` | stream-lua-nginx-module/src/ngx_stream_lua_shdict.c:1173-1276 | incr refines the list model's. |
| `SharedDict.Dict.FlushAllEntries` | stream-lua-nginx-module/src/ngx_stream_lua_shdict.c:598-637 | flush_all refines the list model's. |
| `SharedDict.Dict.FlushExpiredEntries` | stream-lua-nginx-module/src/ngx_stream_lua_shdict.c:640-714 | flush_expired refines the list model's, with its unsigned comparison, with and without a limit. |
| `SharedDict.Dict.GetKeyList` | stream-lua-nginx-module/src/ngx_stream_lua_shdict.c:721-812 | The pass that counts and the pass that collects agree, and give the live keys of the list model. |
| `TimedLru.TimeLeftIsSigned` | stream-lua-nginx-module/src/ngx_stream_lua_shdict.c:226-227 | The time left is the difference modulo 2^64 read as a signed number. |
| `TimedLru.DropDead` | stream-lua-nginx-module/src/ngx_stream_lua_shdict.c:249-305 | What is dropped is a back part of the queue, at most n long, all of it with no signed time left, and it stops only at an entry that has some or at n. |
| `TimedLru.EvictOne` | stream-lua-nginx-module/src/ngx_stream_lua_shdict.c:249-305 | Exactly the least recently touched entry goes by force; at most two more, all dead. |
| `LruTheorems.DeadExactly` | stream-lua-nginx-module/src/ngx_stream_lua_shdict.c:285-290 | expire removes exactly what expired within the last 2^63 milliseconds and what is to expire after as many or more; lookup the same, one millisecond later. |
| `LruTheorems.SignedAgrees` | stream-lua-nginx-module/src/ngx_stream_lua_shdict.c:692 | get and flush_expired judge an entry alike if and only if its expiry is less than 2^63 milliseconds away. |
| `LruTheorems.ExpiryExactly` | stream-lua-nginx-module/src/ngx_stream_lua_shdict.c:1030-1037 | An entry expires when it was asked to and is never too far ahead, if and only if the milliseconds asked for are below 2^63 and the sum below 2^64. |
| `LruTheorems.GetCorrect` | stream-lua-nginx-module/src/ngx_stream_lua_shdict.c:414-577 | An entry that expire would not remove is always found with its value and flags; a stale one never is; nothing else comes back. |
| `LruTheorems.GetStaleCorrect` | stream-lua-nginx-module/src/ngx_stream_lua_shdict.c:414-577 | get_stale finds every entry held and marks it stale exactly when it is. |
| `LruTheorems.ExpireFacts` | stream-lua-nginx-module/src/ngx_stream_lua_shdict.c:249-305 | Making room loses only dead entries and keeps every other entry and the order. |
| `LruTheorems.GetKeyed` | stream-lua-nginx-module/src/ngx_stream_lua_shdict.c:414-577 | A get brings in nothing new, keeps the order of the other keys, and loses dead entries only. |
| `LruTheorems.IncrKeyed` | stream-lua-nginx-module/src/ngx_stream_lua_shdict.c:1173-1276 | incr replaces the value of the one live numeric entry it names, keeping its expiry and flags; all it loses is dead. |
| `LruTheorems.StoreKeyed` | stream-lua-nginx-module/src/ngx_stream_lua_shdict.c:852-1170 | A successful store leaves exactly the new entry at the front under its key, or none for a delete; one refused for want of memory leaves none under its key either; add and replace, refusing, lose dead entries only. |
| `LruTheorems.StoreOthersKept` | stream-lua-nginx-module/src/ngx_stream_lua_shdict.c:852-1170 | Without forced eviction, no entry under another key that has signed time left is lost. |
| `LruTheorems.SafeStoreKeepsOthers` | stream-lua-nginx-module/src/ngx_stream_lua_shdict.c:1096-1107 | A safe store never removes an entry under another key that has signed time left. |
| `LruTheorems.AddReplaceAgreeWithGet` | stream-lua-nginx-module/src/ngx_stream_lua_shdict.c:961-1009 | add refuses exactly what a get would find, replace exactly what it would miss. |
| `LruTheorems.FlushAllThenMiss` | stream-lua-nginx-module/src/ngx_stream_lua_shdict.c:598-637 | After flush_all every plain get misses, whatever the key, at every clock from 2 to 2^63 + 1; at 0 and beyond that, what flush_all left is found. |
| `LruTheorems.FlushExpiredExact` | stream-lua-nginx-module/src/ngx_stream_lua_shdict.c:640-714 | flush_expired without a limit leaves exactly the entries that have not expired by the unsigned comparison, in order. |
| `LruTheorems.NewIsAsked` | stream-lua-nginx-module/src/ngx_stream_lua_shdict.c:1133-1167 | A new entry has the key and value asked for, the flags modulo 2^32, and expires at now plus a thousand times exptime, or never for 0. |
| `LruTheorems.StepInv` | stream-lua-nginx-module/src/ngx_stream_lua_shdict.c:180-1276 | Each operation keeps keys distinct, every entry as the arguments of the last store or incr under its key ask for, and the queue in most-recently-touched order. |
| `LruTheorems.RunInv` | stream-lua-nginx-module/src/ngx_stream_lua_shdict.c:180-1276 | So does every run of operations. |
| `LruTheorems.GetReturnsLastStored` | stream-lua-nginx-module/src/ngx_stream_lua_shdict.c:180-1276 | After any run from an empty dictionary a get that hits answers with the value and flags asked for last under its key, not expired. |
| `LruRetention.StoreLoses` | stream-lua-nginx-module/src/ngx_stream_lua_shdict.c:852-1170 | What a store loses under other keys has expired, is too far ahead, or was evicted by force. |
| `LruRetention.ForcedGone` | stream-lua-nginx-module/src/ngx_stream_lua_shdict.c:1096-1131 | What was evicted by force is gone, so the account of it is exact. |
| `LruRetention.FlushExpiredLoses` | stream-lua-nginx-module/src/ngx_stream_lua_shdict.c:640-714 | flush_expired, with or without a limit, loses expired entries only. |
| `LruRetention.StepRetained` | stream-lua-nginx-module/src/ngx_stream_lua_shdict.c:180-1276 | After each operation whatever was stored last under a key is held, or expired, or lost by force, by a refused store or as too far ahead; and nothing counted as lost is held. |
| `LruRetention.RunRetained` | stream-lua-nginx-module/src/ngx_stream_lua_shdict.c:180-1276 | So after every run whose clock does not go back. |
| `LruRetention.GetHitsExactly` | stream-lua-nginx-module/src/ngx_stream_lua_shdict.c:180-1276 | After every such run a get of a key whose last stored entry has not expired hits, with that value and flags, if and only if the key is not among the lost and the expiry is less than 2^63 milliseconds ahead; it misses what was never stored, deleted or is stale. |
| `LruRetention.NeverFar` | stream-lua-nginx-module/src/ngx_stream_lua_shdict.c:951-953 | If every store asks for less than 2^63 milliseconds, no run comes to an entry too far ahead. |
| `LruRetention.FarExample` | stream-lua-nginx-module/src/ngx_stream_lua_shdict.c:226-231 | Stored for 10^16 seconds at clock 5, the key is missed and removed by a get at clock 6, while flush_expired keeps it and get_keys lists it. |
| `LruRetention.RefusedStoreExample` | stream-lua-nginx-module/src/ngx_stream_lua_shdict.c:1064-1107 | A live entry, a safe store of another size that the allocator refuses, and nothing is left under the key. |
| `LruRetention.NothingLost` | stream-lua-nginx-module/src/ngx_stream_lua_shdict.c:1096-1131 | Without forced evictions, refused stores, flush_all and stores for 2^63 milliseconds or more nothing is lost. |
| `LruRetention.GentleRunFinds` | stream-lua-nginx-module/src/ngx_stream_lua_shdict.c:180-1276 | After such a run every key that has not expired is found, with what was stored last. |
| `LruAnswers.KeysRefused` | stream-lua-nginx-module/src/ngx_stream_lua_shdict.c:458-469 | get, incr and the stores refuse a key exactly if it is empty or of 65536 bytes or more, and nil exactly for add and replace. |
| `LruAnswers.StoredThenGot` | stream-lua-nginx-module/src/ngx_stream_lua_shdict.c:852-1170 | After a store that succeeded, a get of that key hits with that value and those flags for as long as asked for; after a delete it misses. |
| `LruAnswers.ReusesExactly` | stream-lua-nginx-module/src/ngx_stream_lua_shdict.c:1017-1064 | What a store over a live entry answers: it needs no memory exactly if the two values take as many bytes, and has no meaning from 2^64 milliseconds on. |
| `LruAnswers.InsertsExactly` | stream-lua-nginx-module/src/ngx_stream_lua_shdict.c:1088-1131 | What a store under a new key answers: without memory that it failed, and else whether others were evicted by force, or nothing with meaning from 2^64 milliseconds on. |
| `LruAnswers.GivesUp` | stream-lua-nginx-module/src/ngx_stream_lua_shdict.c:1096-1131 | A store that is refused for want of memory and is not a safe one has forced 30 evictions or emptied the dictionary. |
| `LruAnswers.IncrAnswers` | stream-lua-nginx-module/src/ngx_stream_lua_shdict.c:1173-1276 | incr answers with the sum exactly where a get would hit a number, refuses another type, and finds nothing where a get misses. |
| `LruAnswers.IncrThenGot` | stream-lua-nginx-module/src/ngx_stream_lua_shdict.c:1173-1276 | A get right after it finds the sum, with the flags as before. |
| `LruAnswers.DropsDead` | stream-lua-nginx-module/src/ngx_stream_lua_shdict.c:249-305 | Exactly as many entries go as are dead at the back in a row, n at most. |
| `LruAnswers.GetDrops` | stream-lua-nginx-module/src/ngx_stream_lua_shdict.c:414-577 | A get and an incr drop up to two of those, get_stale none. |
| `LruAnswers.FlushExpiredFrom` | stream-lua-nginx-module/src/ngx_stream_lua_shdict.c:640-714 | flush_expired removes exactly the expired entries behind some place in the queue, and goes on until it has as many as asked for or comes to the front. |
| `LruAnswers.GetKeysExactly` | stream-lua-nginx-module/src/ngx_stream_lua_shdict.c:721-812 | get_keys lists the keys that have not expired from the back of the queue, all of them for 0 and otherwise the first so many. |
| `SemaphoreBlocks.Allocator.Alloc` | stream-lua-nginx-module/src/ngx_stream_lua_semaphore.c:48-127 | Hands out a semaphore that is not handed out already, the head of the free queue or the first of a new block; fails only with an empty queue and no memory, changing nothing. |
| `SemaphoreBlocks.Allocator.Free` | stream-lua-nginx-module/src/ngx_stream_lua_semaphore.c:175-226 | Takes back exactly that one; the middle epoch is not negative; the block is released exactly under the load and age condition. |
| `SemaphoreBlocks.Allocator.UnlinkBlock` | stream-lua-nginx-module/src/ngx_stream_lua_semaphore.c:213-217 | Every element the loop unlinks is linked, and afterwards the queue is the old one without that block. |
| `SemaphoreBlocks.Allocator.Cleanup` | stream-lua-nginx-module/src/ngx_stream_lua_semaphore.c:130-172 | Releases blocks until one is in use; with nothing handed out, all of them. |
| `SemaphoreBlocks.AllQueued` | stream-lua-nginx-module/src/ngx_stream_lua_semaphore.c:208-217 | A block with used == 0 has each of its semaphores in the free queue. |
| `SemaphoreBlocks.PopInv` | stream-lua-nginx-module/src/ngx_stream_lua_semaphore.c:64-85 | Taking from the queue keeps total, used, each block's count and the queue in step, and changes the status of that one semaphore only. |
| `SemaphoreBlocks.GrowInv` | stream-lua-nginx-module/src/ngx_stream_lua_semaphore.c:87-126 | So does adding a block, whose first semaphore was never in use. |
| `SemaphoreBlocks.ReturnInv` | stream-lua-nginx-module/src/ngx_stream_lua_semaphore.c:183-204 | So does giving one back, at either end of the queue. |
| `SemaphoreBlocks.ReleaseInv` | stream-lua-nginx-module/src/ngx_stream_lua_semaphore.c:208-225 | Releasing an unused block keeps the invariant, leaves nothing of it queued, and takes no semaphore from anybody. |
| `SemaphoreBlocks.MidEpochOk` | stream-lua-nginx-module/src/ngx_stream_lua_semaphore.c:189 | The middle epoch lies between 0 and the current one: the unsigned subtraction does not wrap. |
| `SemaphoreBlocks.UsedPlusQueued` | stream-lua-nginx-module/src/ngx_stream_lua_semaphore.c:48-226 | In every reachable state, semaphores in use and in the queue add up to the total. |
| `SemaphoreBlocks.UnusedExactly` | stream-lua-nginx-module/src/ngx_stream_lua_semaphore.c:208 | The count of a block is 0 exactly if none of its semaphores is handed out. |
| `SemaphoreBlocks.ReturnedWhere` | stream-lua-nginx-module/src/ngx_stream_lua_semaphore.c:189-204 | A semaphore given back goes to the front if its block is of the newer half, else to the back. |
| `SemaphoreBlocks.ReleasedExactly` | stream-lua-nginx-module/src/ngx_stream_lua_semaphore.c:208-225 | Its block is released exactly if all of it is free, at least half of all semaphores are, and it is of the older half. |
| `SemaphoreBlocks.GrownExactly` | stream-lua-nginx-module/src/ngx_stream_lua_semaphore.c:87-126 | A new block has the next epoch, its first semaphore is handed out and the others are queued in order. |
| `SemaphoreProtocol.StepInv` | stream-lua-nginx-module/src/ngx_stream_lua_semaphore.c:276-495 | Every step keeps conservation, counts, order, single resolution and wake-up together. |
| `SemaphoreProtocol.Reachable` | stream-lua-nginx-module/src/ngx_stream_lua_semaphore.c:276-495 | After any interleaving: initial + posted = resources + grants, wait_count = queue length modulo 2^32, grants in order of arrival, every waiter waiting or resolved and not both, and waiters with resources always have the event posted or the handler running. |
| `SemaphoreProtocol.ResolvedOnce` | stream-lua-nginx-module/src/ngx_stream_lua_semaphore.c:400-495 | A resolved waiter keeps its outcome through every later run, and no timer, cleanup or queue entry is left of it. |
| `SemaphoreProtocol.NeverOversold` | stream-lua-nginx-module/src/ngx_stream_lua_semaphore.c:302-363 | With no negative post the resource count never goes below zero, so grants never exceed resources; as long as no post exceeds an int, neither does the count. |
| `SemaphoreProtocol.DefinedExactly` | stream-lua-nginx-module/src/ngx_stream_lua_semaphore.c:309 | No post of a run exceeds an int if and only if at each post initial + posted - taken + n does not. |
| `SemaphoreProtocol.TotalFits` | stream-lua-nginx-module/src/ngx_stream_lua_semaphore.c:309 | Without negative posts it is enough that the resources there and all posted fit together. |
| `SemaphoreProtocol.PostsOverflow` | stream-lua-nginx-module/src/ngx_stream_lua_semaphore.c:309 | post(2147483647) and post(1) exceed it; the first alone does not. |
| `SemaphoreProtocol.CountExactly` | stream-lua-nginx-module/src/ngx_stream_lua_semaphore.c:393-397 | The difference of an int and an unsigned, given back as an int, is the resources less the waiters if and only if that is not below the least int. |
| `SemaphoreProtocol.CountExample` | stream-lua-nginx-module/src/ngx_stream_lua_semaphore.c:393-397 | With -2147483648 resources and one waiter it is 2147483647. |
| `SemaphoreProtocol.CountMeaning` | stream-lua-nginx-module/src/ngx_stream_lua_semaphore.c:393-397 | When nothing is pending and no more than 2^31 wait, a positive count is the resources with nobody waiting, and a negative one the number of waiters. |
| `SemaphoreProtocol.WaitExactly` | stream-lua-nginx-module/src/ngx_stream_lua_semaphore.c:323-390 | A wait takes a resource exactly if there is one and nobody waits; otherwise it changes nothing for a timeout of 0, and for any other puts the waiter at the end, with a timer and a cleanup. |
| `SemaphoreProtocol.NobodyQueued` | stream-lua-nginx-module/src/ngx_stream_lua_semaphore.c:323-390 | Over every run without a wait that has a timeout nobody is ever queued, given a timer or a cleanup. |
| `SemaphoreProtocol.OutcomeExactly` | stream-lua-nginx-module/src/ngx_stream_lua_semaphore.c:400-495 | After every run a waiter is granted, timed out or cancelled if and only if some step of it was a handler turn with it at the front and a resource there, its timer, or its cleanup. |
| `SemaphoreProtocol.AddedExactly` | stream-lua-nginx-module/src/ngx_stream_lua_semaphore.c:302-320 | What was added over a run is the sum of its posts. |
| `SemaphoreProtocol.HandlerServes` | stream-lua-nginx-module/src/ngx_stream_lua_semaphore.c:423-462 | Left alone, the handler wakes the k oldest waiters, in order, as long as resources last. |
| `SemaphoreProtocol.NoLostWakeup` | stream-lua-nginx-module/src/ngx_stream_lua_semaphore.c:302-462 | From every reachable state with a waiter and a resource, the event loop alone serves as many as the resources allow before the handler can return. |
| `SemaphoreProtocol.RunningExactly` | stream-lua-nginx-module/src/ngx_stream_lua_semaphore.c:423-462 | Over every run the handler runs exactly from a step that enters it to one that leaves it. |
| `SemaphoreProtocol.PostedExactly` | stream-lua-nginx-module/src/ngx_stream_lua_semaphore.c:302-320 | After any run the event is posted exactly if the handler was not entered since a post that found somebody waiting. |
| `SemaphoreProtocol.StillPosted` | stream-lua-nginx-module/src/ngx_stream_lua_semaphore.c:498-516 | A wait, a post and a timeout leave nobody waiting and the event posted, with which the semaphore may be given back. |
| `SemaphoreProtocol.Semaphore.constructor` | stream-lua-nginx-module/src/ngx_stream_lua_semaphore.c:276-299 | A new semaphore is the protocol's start. |
| `SemaphoreProtocol.Semaphore.PostResources` | stream-lua-nginx-module/src/ngx_stream_lua_semaphore.c:302-320 | Takes the protocol's post step, or stops exactly if the sum exceeds an int. |
| `SemaphoreProtocol.Semaphore.WaitResource` | stream-lua-nginx-module/src/ngx_stream_lua_semaphore.c:323-390 | Succeeds if and only if nobody waits and there is a resource, which is taken; declines if and only if there is none to take and the timeout is 0, and then changes nothing; else the caller is put at the end of the queue. |
| `SemaphoreProtocol.Semaphore.Cleanup` | stream-lua-nginx-module/src/ngx_stream_lua_semaphore.c:400-420 | Takes the cancel step. |
| `SemaphoreProtocol.Semaphore.TimeoutHandler` | stream-lua-nginx-module/src/ngx_stream_lua_semaphore.c:465-495 | Takes the timeout step. |
| `SemaphoreProtocol.Semaphore.Handler` | stream-lua-nginx-module/src/ngx_stream_lua_semaphore.c:423-462 | Whatever the woken threads do in between, the handler's loop is a legal run without overflow that ends with no waiter or no resource, unless a thread comes to a post that does not fit. |
| `SemaphoreProtocol.Semaphore.Available` | stream-lua-nginx-module/src/ngx_stream_lua_semaphore.c:393-397 | count() is initial + posted - taken - waiting if and only if that is an int. |
| `PostedEvents.Post` | bundle/nginx-1.11.2/src/event/ngx_event_posted.h:17-28 | Posting puts an event at the end of the ring, once. |
| `PostedEvents.Deliver` | bundle/nginx-1.11.2/src/event/ngx_event_posted.c:23-34 | One turn takes the first event off the ring, or follows a null link exactly at an event that was cleared. |
| `PostedEvents.ReuseThenProcess` | stream-lua-nginx-module/src/ngx_stream_lua_semaphore.c:73 | When a semaphore is handed out again, the events posted before are all delivered, in order, if and only if its own is not among them; else those before it are, and then a null link is followed. |
| `Template.PlainText` | stream-lua-nginx-module/src/ngx_stream_lua_script.c:60-62 | Text without a dollar sign is its own expansion, so the shortcut is right. |
| `Template.ReferenceParsed` | stream-lua-nginx-module/src/ngx_stream_lua_script.c:229-258 | A dollar sign and the digits of any number are one reference to that number. |
| `Template.LargeReference` | stream-lua-nginx-module/src/ngx_stream_lua_script.c:240-241 | The text `$9223372036854775808` is a reference to that group, which should expand to nothing and expands to the whole match. |
| `Template.LargeReferencesExact` | stream-lua-nginx-module/src/ngx_stream_lua_script.c:238-242 | For every match with that many groups the expansion is the intended one if and only if each reference is below 2^63 or wraps to a group that is not there. |
| `TemplateText.ParseExactly` | stream-lua-nginx-module/src/ngx_stream_lua_script.c:181-306 | A text is a template for some tokens if and only if it is made of bytes other than the dollar sign, `$$`, and numbers after `$` with or without braces, each being what its token says. |
| `TemplateText.TemplateReplaced` | stream-lua-nginx-module/src/ngx_stream_lua_script.c:321-471 | The expansion of a template is its parts one by one: bytes as they are, a dollar sign for `$$`, and for a number the bytes of the subject from the start to the end of that group. |
| `TemplateText.ReferenceExpands` | stream-lua-nginx-module/src/ngx_stream_lua_script.c:394-471 | Around one reference to a group that took part, with or without braces, the text stays and the reference becomes the group's bytes of the subject. |
| `TemplateText.UnsetExpands` | stream-lua-nginx-module/src/ngx_stream_lua_script.c:423-471 | A reference below 2^63 to a group that is not there or took no part becomes nothing. |
| `TemplateText.DollarExpands` | stream-lua-nginx-module/src/ngx_stream_lua_script.c:187-199 | `$$` becomes one dollar sign. |
| `TemplateText.NoTemplate` | stream-lua-nginx-module/src/ngx_stream_lua_script.c:183-278 | A dollar sign with neither a dollar sign, a brace nor a digit behind it is refused. |
| `TemplateCompiler.ScanName` | stream-lua-nginx-module/src/ngx_stream_lua_script.c:229-258 | For a number the loop ends where its digits end, a closing bracket taken, with the decimal value modulo 2^64. |
| `TemplateCompiler.Compiler.AddCopyCode` | stream-lua-nginx-module/src/ngx_stream_lua_script.c:321-355 | Both programs grow by one copy instruction whose text is followed by padding of unknown bytes. |
| `TemplateCompiler.Compiler.AddCaptureCode` | stream-lua-nginx-module/src/ngx_stream_lua_script.c:394-420 | Both programs grow by one capture instruction that holds twice the number modulo 2^64. |
| `TemplateCompiler.Compiler.ScanDollar` | stream-lua-nginx-module/src/ngx_stream_lua_script.c:181-287 | Consumes exactly one `$$` or reference of the template, or fails because there is none or for want of memory. |
| `TemplateCompiler.Compiler.ScanText` | stream-lua-nginx-module/src/ngx_stream_lua_script.c:289-306 | Consumes one run of text up to a dollar sign or the end. |
| `TemplateCompiler.Compiler.Scan` | stream-lua-nginx-module/src/ngx_stream_lua_script.c:164-318 | The instructions stand for exactly the tokens of the template, and the lengths program never outgrows what was reserved for it. |
| `TemplateCompiler.CompileComplexValue` | stream-lua-nginx-module/src/ngx_stream_lua_script.c:36-105 | Compiles exactly the texts that are templates, memory permitting; the lengths program fits 48 bytes for each dollar sign plus 8. |
| `TemplateEngine.RunLengths` | stream-lua-nginx-module/src/ngx_stream_lua_script.c:133-140 | Stepping from instruction to instruction, the sum is the length of what the program puts out. |
| `TemplateEngine.AtInstr` | stream-lua-nginx-module/src/ngx_stream_lua_script.c:371-391 | Whatever the padding holds, the engine stands at the start of an instruction or at the final zero, and moves to the next. |
| `TemplateEngine.RunValues` | stream-lua-nginx-module/src/ngx_stream_lua_script.c:147-153 | Into a buffer of the computed length it writes exactly what the program puts out, never past the end. |
| `TemplateEngine.OutsExpand` | stream-lua-nginx-module/src/ngx_stream_lua_script.c:321-471 | What a program puts out is the expansion of the tokens it stands for. |
| `TemplateEngine.ComplexValue` | stream-lua-nginx-module/src/ngx_stream_lua_script.c:108-161 | What is added for a match is the subject up to it and the expansion of the template, on both paths: the parts of the text, each replaced by itself, a dollar sign or its group's bytes. |
| `JsonText.EncString` | bundle/lua-cjson-2.1.0.5/lua_cjson.c:490-514 | At most 6*len+2 bytes, and at least len+2. |
| `JsonText.StringFrom` | bundle/lua-cjson-2.1.0.5/lua_cjson.c:935-993 | Decoded bytes are always fewer than the source bytes consumed, which stay inside the text. |
| `JsonText.UnicodeEscape` | bundle/lua-cjson-2.1.0.5/lua_cjson.c:869-925 | An escape, single or pair, yields no more bytes than it takes, and is not read past the end of the text. |
| `JsonRoundTrip.ByteBack` | bundle/lua-cjson-2.1.0.5/lua_cjson.c:171-203 | What the escape table has for a byte, NUL, controls, quotes, slashes, 0x7f and plain bytes alike, is decoded to that byte. |
| `JsonRoundTrip.StringTokenBack` | bundle/lua-cjson-2.1.0.5/lua_cjson.c:935-993 | Every encoded string is read back whole, wherever it stands in a text. |
| `JsonRoundTrip.Utf8Back` | bundle/lua-cjson-2.1.0.5/lua_cjson.c:823-858 | The bytes produced for a code point are well-formed UTF-8 of the right length that stands for that code point. |
| `JsonRoundTrip.EscapeBack` | bundle/lua-cjson-2.1.0.5/lua_cjson.c:861-925 | Every Unicode scalar value, escaped in its UTF-16 form, is decoded to its UTF-8 form. |
| `JsonRoundTrip.LoneSurrogate` | bundle/lua-cjson-2.1.0.5/lua_cjson.c:888-910 | Four hexadecimal digits are refused if and only if they are a low surrogate, or a high one with no low one right after it. |
| `JsonRoundTrip.EscapeExactly` | bundle/lua-cjson-2.1.0.5/lua_cjson.c:861-925 | An escape is accepted if and only if it is the UTF-16 form of a Unicode scalar value, in digits of either case, and is read as that value. |
| `JsonRoundTrip.Back` | bundle/lua-cjson-2.1.0.5/lua_cjson.c:1064-1301 | Wherever the encoding of a nested value stands in a text, the parser reads what is said of that value and stops right after it, or fails where nothing is said. |
| `JsonRoundTrip.DecodeEncoded` | bundle/lua-cjson-2.1.0.5/lua_cjson.c:694-751 | For every value that is encoded at all, with numbers that print and parse back, what decoding its encoding gives: repeated keys, empty arrays, values that write nothing and the depth limit included. |
| `JsonRoundTrip.EncodedWellFormed` | bundle/lua-cjson-2.1.0.5/lua_cjson.c:738-744 | The encoding is JSON if and only if nothing in the value writes nothing, but as the only element of an array, and no empty-array mark stands below the deepest table. |
| `JsonRoundTrip.SilentLast` | bundle/lua-cjson-2.1.0.5/lua_cjson.c:738-744 | A null and a light userdata of another kind give a text with a comma too many, which is not decoded. |
| `JsonRoundTrip.SilentAlone` | bundle/lua-cjson-2.1.0.5/lua_cjson.c:738-744 | Alone in an array the latter gives an empty table. |
| `JsonRoundTrip.RoundTrip` | bundle/lua-cjson-2.1.0.5/lua_cjson.c:694-751 | Decoding undoes encoding for every value of strings, booleans, nulls, printable numbers, non-empty arrays and string-keyed tables that the encoder accepts. |
| `JsonRoundTrip.EmptyArray` | bundle/lua-cjson-2.1.0.5/lua_cjson.c:738-744 | The one array that does not come back: the empty one becomes an empty table. |
| `JsonAccepted.DecodedMade` | bundle/lua-cjson-2.1.0.5/lua_cjson.c:1183-1301 | Whatever is decoded is a value the encoder accepts: no deeper than it allows, nothing unsupported, arrays not empty, one value for each key. |
| `JsonAccepted.DecodedComesBack` | bundle/lua-cjson-2.1.0.5/lua_cjson.c:1303-1341 | Whatever is decoded, if its numbers print and parse back, encodes to a text that decodes to the same value. |
| `JsonGrammar.PieceExactly` | bundle/lua-cjson-2.1.0.5/lua_cjson.c:935-993 | One turn of the string loop takes exactly a character: a byte that needs no escape, one of the eight two-byte escapes, or the escape of a Unicode scalar value. |
| `JsonGrammar.StringExactly` | bundle/lua-cjson-2.1.0.5/lua_cjson.c:935-993 | A string is read as those bytes, up to that place, if and only if there is a quote, characters that stand for them, and a quote. |
| `JsonGrammar.TokenExactly` | bundle/lua-cjson-2.1.0.5/lua_cjson.c:1060-1141 | A token is read if and only if its bytes are there, for each kind of token; the bytes are written out. |
| `JsonGrammar.BlanksSkipped` | bundle/lua-cjson-2.1.0.5/lua_cjson.c:1068-1076 | Spaces, tabs, line feeds and carriage returns before a token make no difference. |
| `JsonExact.PutExactly` | bundle/lua-cjson-2.1.0.5/lua_cjson.c:1217-1219 | A key that is there already keeps its place and gets the new value; another is added at the end. |
| `JsonExact.ValueRead` | bundle/lua-cjson-2.1.0.5/lua_cjson.c:1273-1301 | Wherever the grammar has a value, within a thousand tables, it is read so and to its end. |
| `JsonExact.ValueOf` | bundle/lua-cjson-2.1.0.5/lua_cjson.c:1273-1301 | Whatever is read as a value is one of the grammar. |
| `JsonExact.DecodeExactly` | bundle/lua-cjson-2.1.0.5/lua_cjson.c:1303-1341 | A text is decoded as v if and only if it is a JSON text for v within a thousand tables: white space, the value, white space, and the end or a zero byte, with no zero byte among the first two. |
| `JsonSpelling.ByteStands` | bundle/lua-cjson-2.1.0.5/lua_cjson.c:171-203 | What the escape table has for a byte, as an if-and-only-if: a backslash and its letter for eight of them, `\u00` and two hexadecimal digits for the other control characters and 0x7f, and else the byte. |
| `JsonSpelling.EncodeWritten` | bundle/lua-cjson-2.1.0.5/lua_cjson.c:694-751 | The encoding of a value byte for byte: words, quoted strings, elements with commas between them inside brackets, and keys, colons and values inside braces. |
| `JsonSpelling.EncodableExactly` | bundle/lua-cjson-2.1.0.5/lua_cjson.c:563-590 | A value is encoded if and only if all of it can be written and no more than a thousand tables are inside one another. |
| `Strbuf.DoublingFits` | bundle/lua-cjson-2.1.0.5/strbuf.c:134-159 | The doubling loop ends within an int exactly if some number of doublings lands between the request and the largest int. |
| `Strbuf.DoublingExample` | bundle/lua-cjson-2.1.0.5/strbuf.c:134-159 | From the default size, 2145386496 bytes are the last that can be had; one more and the size exceeds an int. |
| `Strbuf.Shrinks` | bundle/lua-cjson-2.1.0.5/strbuf.c:142-145 | Asked for less than it has, the buffer shrinks to just that and a terminator. |
| `Strbuf.CheckedExactly` | bundle/lua-cjson-2.1.0.5/strbuf.c:182-198 | A byte appended with a check leaves the buffer where it is if and only if there is room for it and a terminator. |
| `Strbuf.EnsuredWhenSmall` | bundle/lua-cjson-2.1.0.5/strbuf.h:100-104 | A request that leaves the length below half an int is always met. |
| `Strbuf.Buffer.CalculateNewSize` | bundle/lua-cjson-2.1.0.5/strbuf.c:134-159 | Gives the least sufficient doubling, or the exact size when shrinking, or stops exactly if that exceeds an int. |
| `Strbuf.Buffer.Resize` | bundle/lua-cjson-2.1.0.5/strbuf.c:162-180 | Contents are kept and the requested room is there, or an int is exceeded and nothing is changed. |
| `Strbuf.Buffer.EnsureEmptyLength` | bundle/lua-cjson-2.1.0.5/strbuf.h:100-104 | For every int, negative ones included: the room asked for is there, or an int is exceeded; with room enough the buffer does not move. |
| `Strbuf.Buffer.AppendString` | bundle/lua-cjson-2.1.0.5/strbuf.c:182-198 | Appends every byte, making room as it goes, or stops exactly where an int is exceeded. |
| `Strbuf.Buffer.AppendMemUnsafe` | bundle/lua-cjson-2.1.0.5/strbuf.h:139-143 | Inside the buffer it appends the bytes and uses exactly that much. |
| `JsonRoom.PutStringExact` | bundle/lua-cjson-2.1.0.5/lua_cjson.c:490-514 | When 6*len+2 fits an int the string is written inside the buffer: where it was if length + 6*len + 3 fits its size, else in a doubled one if that fits an int; otherwise nothing is written. |
| `JsonRoom.InsideExactly` | bundle/lua-cjson-2.1.0.5/lua_cjson.c:503 | No buffer and no string of n bytes lead outside the buffer, if and only if 6*n+2 fits an int, that is n <= 357,913,940. |
| `JsonRoom.FirstWrongLength` | bundle/lua-cjson-2.1.0.5/lua_cjson.c:503-513 | For 357,913,941 plain bytes the request is -2^31 and a new buffer is written past its end. |
| `JsonEncoder.AppendJsonString` | bundle/lua-cjson-2.1.0.5/lua_cjson.c:490-514 | Appends the encoded string, or stops, exactly as the counters of JsonRoom foresee. |
| `JsonWhole.EnsuredTop` | bundle/lua-cjson-2.1.0.5/strbuf.h:100-104 | A reservation is met if and only if it leaves the buffer within the largest size its doublings reach in an int, and that size stays the same. |
| `JsonWhole.TopOfDefault` | bundle/lua-cjson-2.1.0.5/strbuf.c:134-159 | From the default size that is 2145386496 bytes. |
| `JsonWhole.ShortExactly` | bundle/lua-cjson-2.1.0.5/lua_cjson.c:503 | A string is not overlong if and only if it has at most 357,913,940 bytes. |
| `JsonWhole.DataExact` | bundle/lua-cjson-2.1.0.5/lua_cjson.c:694-751 | A value without overlong strings is written, or refused if it cannot be, if and only if the most that is reserved on the way stays within that size; else an int is exceeded or a refusal comes first. |
| `JsonWhole.HalfSuffices` | bundle/lua-cjson-2.1.0.5/lua_cjson.c:694-751 | Below half an int it is always written, if it can be. |
| `JsonWhole.NumberRoom` | bundle/lua-cjson-2.1.0.5/lua_cjson.c:648-650 | A number makes an empty buffer grow exactly if that has less than 33 bytes. |
| `JsonEncoder.AppendArray` | bundle/lua-cjson-2.1.0.5/lua_cjson.c:593-613 | Appends the elements with commas between them, refuses only if one of them cannot be written, and leaves the counters as JsonWhole foresees. |
| `JsonEncoder.AppendObject` | bundle/lua-cjson-2.1.0.5/lua_cjson.c:653-692 | Appends keys and values likewise. |
| `JsonEncoder.AppendData` | bundle/lua-cjson-2.1.0.5/lua_cjson.c:694-751 | Refuses only values nested deeper than 1000 or holding something unsupported, appends the encoding otherwise, nothing for a light userdata of another kind, and stops exactly where JsonWhole foresees it. |
| `JsonEncoder.EncodeValue` | bundle/lua-cjson-2.1.0.5/lua_cjson.c:753-782 | With the buffer kept from earlier calls, the result is the text of this value alone, byte for byte; a value that can be encoded and has no overlong strings is, if and only if the most it reserves is within the largest size of the buffer. |
| `JsonRoom.ScratchExactly` | bundle/lua-cjson-2.1.0.5/lua_cjson.c:1324-1327 | Every text of n bytes is decoded inside its scratch buffer, if and only if n < 2^31 - 1. |
| `JsonDecoder.Parser.AppendUnicodeEscape` | bundle/lua-cjson-2.1.0.5/lua_cjson.c:869-925 | Puts the UTF-8 form into the scratch buffer, refuses the escape, or stops exactly if it does not fit. |
| `JsonDecoder.Parser.NextStringToken` | bundle/lua-cjson-2.1.0.5/lua_cjson.c:935-993 | Reads the string the text holds, or fails, or stops exactly if the string with its terminator does not fit the scratch buffer. |
| `JsonDecoder.Parser.Next` | bundle/lua-cjson-2.1.0.5/lua_cjson.c:1060-1141 | Reads the next token of the text. |
| `JsonDecoder.Parser.ParseObject` | bundle/lua-cjson-2.1.0.5/lua_cjson.c:1185-1233 | Reads the object the text holds, within the depth limit, and restores the depth. |
| `JsonDecoder.Parser.ParseArray` | bundle/lua-cjson-2.1.0.5/lua_cjson.c:1235-1271 | Reads the array likewise. |
| `JsonDecoder.DecodeText` | bundle/lua-cjson-2.1.0.5/lua_cjson.c:1303-1341 | Answers with v if and only if the text is a JSON text for v, for every text below 2^31 - 1 bytes; longer ones give the same answer or stop for want of room, as a quoted string that is too long does. |
| `Resp.FindCrlf` | bundle/lua-redis-parser-0.13/redis-parser.c:298-324 | The first CRLF: it is one, and there is none before it. |
| `Resp.BulkLocal` | stream-lua-nginx-module/src/ngx_stream_lua_redis_parser.c:174-262 | A bulk string that is accepted is the same whatever follows it. |
| `Resp.ReplyLocal` | bundle/lua-redis-parser-0.13/redis-parser.c:173-295 | An accepted reply is the same reply, of the same length, whatever bytes follow it. |
| `Resp.RepliesSplit` | bundle/lua-redis-parser-0.13/redis-parser.c:124-170 | Any concatenation of n accepted replies, with anything after it, is split into exactly those n. |
| `RespReply.MessageRead` | bundle/lua-redis-parser-0.13/redis-parser.c:173-295 | Every status, error, integer, bulk and multi-bulk reply, nil and mixed elements included, at the front of an input, is read as what was written and takes all of it. |
| `RespReply.MessageOf` | bundle/lua-redis-parser-0.13/redis-parser.c:173-295 | Whatever is read as a reply is one of these, byte for byte. |
| `RespReply.ReplyExactly` | bundle/lua-redis-parser-0.13/redis-parser.c:173-295 | So an input is read as that reply of that length if and only if it starts with a message that means it; type bytes, digits, minus signs, carriage returns and line feeds are written out. |
| `RespReply.QuerySpelled` | bundle/lua-redis-parser-0.13/redis-parser.c:532-660 | A query is a multi-bulk message of its arguments: an asterisk and their number, and for each a dollar sign, its length and its bytes, or a dollar sign and -1 for null. |
| `RespReply.MessagesRead` | bundle/lua-redis-parser-0.13/redis-parser.c:124-170 | Replies written one after the other are read back one by one, whatever follows them. |
| `Ascii.NumBack` | bundle/lua-redis-parser-0.13/redis-parser.c:677-695 | The digits written for a number are read as that number. |
| `RespQuery.GetNumSize` | bundle/lua-redis-parser-0.13/redis-parser.c:663-674 | The number of digits that will be written. |
| `RespQuery.SprintfNum` | bundle/lua-redis-parser-0.13/redis-parser.c:677-695 | Digits filled in from the end of a 20-byte scratch array are the number's, and fit. |
| `RespQuery.TotalSize` | bundle/lua-redis-parser-0.13/redis-parser.c:555-597 | The first pass computes the exact length of the query, and refuses exactly what cannot be sent. |
| `RespQuery.BuildQuery` | bundle/lua-redis-parser-0.13/redis-parser.c:532-660 | The second pass fills exactly the computed length, so the final check never fails; error cases are exactly the empty table and a parameter of another type. `RespReply.QuerySpelled` says what the bytes are. |
| `RespQuery.QueryRead` | stream-lua-nginx-module/src/ngx_stream_lua_redis_parser.c:17-376 | With lengths that fit, a query is read back as the same arguments, null as nil and booleans as "1" and "0", and takes all of the input. |
| `RespQuery.QueryReadBy` | stream-lua-nginx-module/src/ngx_stream_lua_redis_parser.c:17-376 | Each copy of the parser reads it back so, the stream copy if no argument is longer than an int can say. |
| `RespQuery.TextReadBy` | stream-lua-nginx-module/src/ngx_stream_lua_redis_parser.c:237-257 | One argument is read back if and only if its length fits: an int for the stream copy, a long for the bundled one. |
| `RespQuery.LongReadAsNil` | stream-lua-nginx-module/src/ngx_stream_lua_redis_parser.c:237-257 | The stream copy reads an argument of 2^32 - 1 bytes as nil and goes on inside it. |
| `RespQuery.SizeOnly` | stream-lua-nginx-module/src/ngx_stream_lua_redis_parser.c:236-252 | What each copy makes of the first line of a bulk string alone, for every size: refused, read past the input, or an integer exceeded. |
| `RespQuery.SizeWraps` | stream-lua-nginx-module/src/ngx_stream_lua_redis_parser.c:238-246 | The bundled copy refuses `$9223372036854775806` and the stream copy reads past the input. |
| `RespWidth.BulkBounds` | stream-lua-nginx-module/src/ngx_stream_lua_redis_parser.c:238-252 | The bundled copy never reads past the input; the stream copy does if and only if the size is one of the two largest of a signed 64-bit integer. |
| `RespWidth.BulkExact` | bundle/lua-redis-parser-0.13/redis-parser.c:330-415 | Neither copy accepts a malformed bulk string, and each reads a well-formed one whole if and only if its length fits. |
| `RespWidth.HandedExactly` | stream-lua-nginx-module/src/ngx_stream_lua_redis_parser.c:331-367 | What the int of the stream copy makes of every length: -2 is an error, -1 nil, other negative ones are handed to Lua, and of 2^32 bytes or more the excess counts. |
| `RespWidth.LineExactly` | stream-lua-nginx-module/src/ngx_stream_lua_redis_parser.c:17-139 | What either copy answers to a status, an error or an integer of any length. |
| `RespWidth.OverflowExactly` | bundle/lua-redis-parser-0.13/redis-parser.c:365-381 | An integer is exceeded if and only if the digits of a size are more than 2^63 - 1, or those of a count more than 2^31 - 1. |
| `RespWidth.ItemsExact` | stream-lua-nginx-module/src/ngx_stream_lua_redis_parser.c:331-367 | Elements whose lengths fit are read whole. |
| `RespWidth.ReplyExact` | stream-lua-nginx-module/src/ngx_stream_lua_redis_parser.c:17-139 | On inputs below 2^31 bytes each copy answers as the width-free parser does, or is stopped by a size or count too large; only the stream copy can be stopped by reading past the input. |
| `RespWidth.AcceptedExact` | bundle/lua-redis-parser-0.13/redis-parser.c:173-295 | A reply that the width-free parser accepts is read alike by both copies, as long as its count fits an int. |
| `RespWidth.RepliesExact` | bundle/lua-redis-parser-0.13/redis-parser.c:124-170 | So are several replies, unless a size or a count exceeds its integer. |
| `RespParser.ParseLine` | bundle/lua-redis-parser-0.13/redis-parser.c:298-324 | The flag-driven loop finds the first CRLF, also after several carriage returns. |
| `RespParser.ReadSize` | bundle/lua-redis-parser-0.13/redis-parser.c:365-381 | The digits are summed up in a long; it stops exactly if their value exceeds one. |
| `RespParser.ParseBulk` | stream-lua-nginx-module/src/ngx_stream_lua_redis_parser.c:174-262 | Reads a bulk string or nil, with the check of each copy as it is written. |
| `RespParser.ReadCount` | stream-lua-nginx-module/src/ngx_stream_lua_redis_parser.c:265-329 | Reads a count into an int, nil on a minus sign and a digit wherever they come; it stops exactly if the digits exceed an int. |
| `RespParser.ParseMultiBulk` | stream-lua-nginx-module/src/ngx_stream_lua_redis_parser.c:265-376 | Reads as many elements as announced, or fails, leaving on the stack what it had read, or stops where an element does. |
| `RespParser.ParseReplyHelper` | stream-lua-nginx-module/src/ngx_stream_lua_redis_parser.c:17-139 | Reads the reply at the front of the input with the widths of either copy; below 2^31 bytes, what it reads is a message of `RespReply` that is there, and a message that is there is read, unless an integer is exceeded or the input left. |
| `RespWidth.TableExactly` | bundle/lua-redis-parser-0.13/redis-parser.c:124-170 | The table given back holds the n replies at the places from 1 to n, or, if one of them fails midway, nothing but what was read of that one, at place n. |
| `RespWidth.TorsoExample` | bundle/lua-redis-parser-0.13/redis-parser.c:124-170 | Two elements announced and one there, read twice: the table holds that one element at place 2. |
| `RespParser.TorsoSpelled` | bundle/lua-redis-parser-0.13/redis-parser.c:470-529 | A list that ends before all of its elements leaves on the stack those that are there, in order. |
| `RespParser.ParseAll` | bundle/lua-redis-parser-0.13/redis-parser.c:124-170 | Reads n replies one after the other, not stepping over a bad one, and gives back the table that the Lua stack holds in the end. |
| `ClusterSlot.RegisterIsRemainder` | stream-lua-nginx-module/src/ngx_stream_lua_redis.c:47-60 | A register that takes message bits in at the top holds the remainder of the message times x^16 modulo x^16+x^12+x^5+1. |
| `ClusterSlot.TableEntry` | stream-lua-nginx-module/src/ngx_stream_lua_redis.c:62-96 | Each of the 256 entries is the remainder of its index times x^16. |
| `ClusterSlot.ByteStep` | stream-lua-nginx-module/src/ngx_stream_lua_redis.c:104-105 | One look into the table does the work of eight bits. |
| `ClusterSlot.WidenedIs` | stream-lua-nginx-module/src/ngx_stream_lua_redis.c:105 | A signed char from 0x80 on is 256 less. |
| `ClusterSlot.SignIgnored` | stream-lua-nginx-module/src/ngx_stream_lua_redis.c:105 | A char extended with its sign picks the same entry, so the loop is right where char is signed. |
| `ClusterSlot.Crc16` | stream-lua-nginx-module/src/ngx_stream_lua_redis.c:100-107 | For every byte string the checksum is the remainder by definition. |
| `ClusterSlot.SlotIs` | stream-lua-nginx-module/src/ngx_stream_lua_redis.c:122-135 | The slot is the remainder of the message polynomial modulo 16384. |
| `ClusterSlot.KeyHashSlot` | stream-lua-nginx-module/src/ngx_stream_lua_redis.c:116-136 | Below 16384, and the low 14 bits of the checksum of the hashed part of the first len bytes; of none for a negative len. |
| `ClusterSlot.RedisSlot` | stream-lua-nginx-module/src/ngx_stream_lua_redis.c:138-157 | The slot of the whole key for every key shorter than 2^31 bytes, and of what the converted length leaves of a longer one. |
| `ClusterSlot.KeptWhole` | stream-lua-nginx-module/src/ngx_stream_lua_redis.c:155 | The whole key counts if and only if its length fits an int; from 2^31 to 2^32 bytes nothing of it does. |
| `ClusterSlot.TagDecides` | stream-lua-nginx-module/src/ngx_stream_lua_redis.c:126-135 | Only the bytes between the first opening brace and the next closing one count, if there are any. |
| `ClusterSlot.NoTag` | stream-lua-nginx-module/src/ngx_stream_lua_redis.c:123-131 | Otherwise the whole key does. |
| `BodyFilter.Filter.constructor` | bundle/redis-nginx-module-0.3.7/ngx_http_redis_module.c:609-631 | What is to come is the value and its CRLF, or nothing for a missing key. |
| `BodyFilter.Filter.Feed` | bundle/redis-nginx-module-0.3.7/ngx_http_redis_module.c:634-736 | Takes the step of the state machine, or fails for want of a buffer and changes nothing. |
| `BodyFilter.StepInv` | bundle/redis-nginx-module-0.3.7/ngx_http_redis_module.c:634-736 | Whatever arrives, the state is that of the bytes received so far; the counters stay in range exactly unless a zero byte follows the trailer in one chunk. |
| `BodyFilter.ZeroByteExample` | bundle/redis-nginx-module-0.3.7/ngx_http_redis_module.c:634-736 | A value of one byte, its CRLF and a zero byte in one chunk leave both counters at -1. |
| `BodyFilter.WholeValue` | bundle/redis-nginx-module-0.3.7/ngx_http_redis_module.c:634-736 | However value and CRLF are cut into non-empty chunks, exactly the value is passed on, nothing is left to come and the connection is reusable. |
| `BodyFilter.PartOfValue` | bundle/redis-nginx-module-0.3.7/ngx_http_redis_module.c:634-736 | Before that, what is to come is the rest of the value and the rest of the CRLF, and the connection is not reusable. |
| `BodyFilter.KeepaliveExact` | bundle/redis-nginx-module-0.3.7/ngx_http_redis_module.c:667-674 | Over every stream the connection is marked reusable if and only if some of the chunks make up a value of the announced length and its CRLF, nothing more and nothing less. |

## Left out

- The floating-point parts of `dtoa.c` (the quick path, the estimate of k, `strtod`, `ratio`, `ulp`), `gethex`, `s2b`, and the case of no digits at all in mode 3: the model starts from the exact ratio b/S with S <= b < 10*S.
- The locks of `dtoa.c`, its private memory pool, and the width of its `int` counters of words and block sizes.
- The blocks that `dtoa` frees on its way out, and the characters it writes: the model gives digits and a carry.
- `SharedDict.Dict.InsertNode`: the tree keeps its order through an arbitrary rebalancing; the red-black shape and its height are not modelled.
- The slab allocator, whose answers are a parameter, the mutex, and the checksum that hashes keys, also a parameter.
- Numbers in the shared dictionary are reals, expiry times among them; their encoding as eight bytes, the rounding of `exptime * 1000` and the 32-bit value length are not modelled.
- `SharedDict.Dict.SetHelper`: milliseconds of 2^64 or more have no meaning in C; the model gives the store an outcome of its own and leaves the list as it was just before the conversion.
- The FFI entry points of the shared dictionary, which repeat the same logic with other argument types.
- What a handler posts while posted events are delivered, a posted event whose block was released, and the Lua threads and requests behind a waiter, of which only the steps they can take on the semaphore are modelled.
- `TemplateEngine.ComplexValue`: what PCRE promises about group offsets is assumed, and lengths do not wrap.
- Error messages of the template compiler: a failure is a failure.
- `JsonRoundTrip.RoundTrip`: numbers are a print/parse pair assumed to fit together for the numbers in the value; tables with numeric keys that are not arrays, sparse arrays and the options that change the defaults are left out.
- `JsonExact.DecodeExactly`: how many bytes `strtod` takes for a number, and the number it gives, is a parameter; with which bytes a number may start is not.
- Linear growth of the buffer and the formatted appends, which the JSON code does not use.
- `JsonEncoder.EncodeValue`: for a value with a string of 357,913,941 bytes or more the outcome is that of the counters step by step, and no closed condition is given.
- `RespParser.ParseReplyHelper`: integer replies keep their text, which Lua turns into a number; what Lua does with a negative length, and whether it can make a table of the announced size, is left open.
- `BodyFilter.Filter.constructor`: the announced length is unbounded; two more than either of the two largest lengths of 63 bits exceeds an `off_t`, which has no meaning in C.
- `BodyFilter.StepInv`: after more bytes than announced with a zero byte first, the counters are negative and the run is not followed further.
- Sockets, resolver, configuration, regular expressions, coroutines, the lexer, and the rest of the nginx and Lua glue.
