/** The cluster slot of a key: stream-lua-nginx-module/src/ngx_stream_lua_redis.c. */
module ClusterSlot {
  import opened Basics

  type octet = b: bv16 | b < 0x100
  type bits = seq<bool>

  // ---- polynomials over the field of two elements, modulo x^16 + x^12 + x^5 + 1 ----

  /** The sum of two polynomials. */
  function Plus(a: bv16, b: bv16): bv16
  {
    a ^ b
  }

  /** What x^16 leaves, for a register whose top coefficient moves out. */
  function Top(r: bv16): bv16
  {
    if r & 0x8000 == 0 then 0 else 0x1021
  }

  /** The remainder of r * x. */
  function Step(r: bv16): bv16
  {
    Plus(r << 1, Top(r))
  }

  /** The remainder of r * x + b. */
  function Bring(r: bv16, b: bool): bv16
  {
    Plus(Step(r), if b then 1 else 0)
  }

  /** Long division, the remainder so far being r. */
  function Divide(r: bv16, m: bits): bv16
    decreases |m|
  {
    if m == [] then r else Divide(Bring(r, m[0]), m[1..])
  }

  function Zeros(n: nat): bits
  {
    seq(n, _ => false)
  }

  /** The checksum by its definition: the remainder of the message times x^16. */
  function Remainder(m: bits): bv16
  {
    Divide(0, m + Zeros(16))
  }

  /** Taking the next message bit in at the top of the register, as a checksum does. */
  function Feed(r: bv16, b: bool): bv16
  {
    Step(Plus(r, if b then 0x8000 else 0))
  }

  function FeedAll(r: bv16, m: bits): bv16
    decreases |m|
  {
    if m == [] then r else FeedAll(Feed(r, m[0]), m[1..])
  }

  lemma PlusIs(a: bv16, b: bv16)
    ensures Plus(a, b) == a ^ b
  {
  }

  lemma XorShift(r: bv16, s: bv16)
    ensures (r ^ s) << 1 == (r << 1) ^ (s << 1)
  {
  }

  lemma PlusComm(a: bv16, b: bv16)
    ensures Plus(a, b) == Plus(b, a)
  {
  }

  lemma PlusAssoc(a: bv16, b: bv16, c: bv16)
    ensures Plus(Plus(a, b), c) == Plus(a, Plus(b, c))
  {
  }

  lemma ShiftLinear(r: bv16, s: bv16)
    ensures Plus(r, s) << 1 == Plus(r << 1, s << 1)
  {
    hide Plus;
    PlusIs(r, s);
    PlusIs(r << 1, s << 1);
    XorShift(r, s);
  }

  lemma TopBits(r: bv16, s: bv16)
    ensures Plus(r, s) & 0x8000 == 0 <==> (r & 0x8000 == 0 <==> s & 0x8000 == 0)
  {
  }

  lemma PlusDivisor()
    ensures Plus(0, 0) == 0 && Plus(0x1021, 0) == 0x1021 && Plus(0, 0x1021) == 0x1021 && Plus(0x1021, 0x1021) == 0
  {
  }

  lemma TopLinear(r: bv16, s: bv16)
    ensures Top(Plus(r, s)) == Plus(Top(r), Top(s))
  {
    hide Plus;
    TopBits(r, s);
    PlusDivisor();
  }

  lemma PlusSwap(a: bv16, b: bv16, c: bv16, d: bv16)
    ensures Plus(Plus(a, b), Plus(c, d)) == Plus(Plus(a, c), Plus(b, d))
  {
    hide Plus;
    PlusAssoc(a, b, Plus(c, d));
    PlusAssoc(b, c, d);
    PlusComm(b, c);
    PlusAssoc(c, b, d);
    PlusAssoc(a, c, Plus(b, d));
  }

  lemma PlusZero(a: bv16)
    ensures Plus(a, 0) == a && Plus(0, a) == a
  {
  }

  lemma StepLinear(r: bv16, s: bv16)
    ensures Step(Plus(r, s)) == Plus(Step(r), Step(s))
  {
    ShiftLinear(r, s);
    TopLinear(r, s);
    hide Top, Plus;
    PlusSwap(r << 1, s << 1, Top(r), Top(s));
  }

  lemma StepTop()
    ensures Step(0x8000) == 0x1021 && Step(0) == 0
  {
  }

  lemma FeedBit(r: bv16, b: bool)
    ensures Feed(r, b) == Plus(Step(r), if b then 0x1021 else 0)
  {
    StepTop();
    hide Step, Plus;
    StepLinear(r, if b then 0x8000 else 0);
  }

  lemma BringNone(r: bv16)
    ensures Bring(r, false) == Step(r)
  {
    hide Step, Plus;
    PlusZero(Step(r));
  }

  lemma {:induction false} DivideAppend(r: bv16, a: bits, b: bits)
    ensures Divide(r, a + b) == Divide(Divide(r, a), b)
    decreases |a|
  {
    hide Bring;
    if a == [] {
      assert a + b == b;
    } else {
      assert (a + b)[1..] == a[1..] + b;
      DivideAppend(Bring(r, a[0]), a[1..], b);
    }
  }

  lemma {:induction false} FeedAppend(r: bv16, a: bits, b: bits)
    ensures FeedAll(r, a + b) == FeedAll(FeedAll(r, a), b)
    decreases |a|
  {
    hide Feed;
    if a == [] {
      assert a + b == b;
    } else {
      assert (a + b)[1..] == a[1..] + b;
      FeedAppend(Feed(r, a[0]), a[1..], b);
    }
  }

  lemma DivideZeros(r: bv16, n: nat)
    ensures Divide(r, Zeros(n)) == if n == 0 then r else Divide(Step(r), Zeros(n - 1))
  {
    hide Bring, Step;
    if n > 0 {
      BringNone(r);
      assert Zeros(n)[1..] == Zeros(n - 1);
    }
  }

  lemma {:induction false} DivideLinear(r: bv16, s: bv16, n: nat)
    ensures Divide(Plus(r, s), Zeros(n)) == Plus(Divide(r, Zeros(n)), Divide(s, Zeros(n)))
    decreases n
  {
    hide Bring, Step, Plus, Divide;
    DivideZeros(r, n);
    DivideZeros(s, n);
    DivideZeros(Plus(r, s), n);
    if n > 0 {
      StepLinear(r, s);
      DivideLinear(Step(r), Step(s), n - 1);
    }
  }

  /** x^n, as long as it is its own remainder, and then x^16. */
  lemma {:induction false} DivideShift(r: bv16, n: nat)
    requires n <= 15 && r == 1 << (15 - n)
    ensures Divide(r, Zeros(n)) == 0x8000
    decreases n
  {
    DivideZeros(r, n);
    if n > 0 {
      DivideShift(Step(r), n - 1);
    }
  }

  lemma DivideOne()
    ensures Divide(1, Zeros(16)) == 0x1021
  {
    DivideShift(1, 15);
    StepTop();
    hide Bring, Step;
    DivideAppend(1, Zeros(15), Zeros(1));
    assert Zeros(16) == Zeros(15) + Zeros(1);
    DivideZeros(0x8000, 1);
  }

  lemma DivideFirst(r: bv16, b: bool, m: bits)
    ensures Divide(r, [b] + m) == Divide(Bring(r, b), m)
  {
    hide Bring;
    assert ([b] + m)[1..] == m;
  }

  lemma StepAfter(r: bv16)
    ensures Divide(Step(r), Zeros(16)) == Step(Divide(r, Zeros(16)))
  {
    hide Step, Bring, Divide;
    DivideZeros(r, 17);
    assert Zeros(17) == Zeros(16) + Zeros(1);
    DivideAppend(r, Zeros(16), Zeros(1));
    DivideZeros(Divide(r, Zeros(16)), 1);
    DivideZeros(Step(Divide(r, Zeros(16))), 0);
  }

  /** One more message bit, on the side of the definition. */
  lemma RemainderBit(r: bv16, b: bool)
    ensures Divide(r, [b] + Zeros(16)) == Feed(Divide(r, Zeros(16)), b)
  {
    hide Step, Feed, Plus, Divide;
    DivideFirst(r, b, Zeros(16));
    DivideLinear(Step(r), if b then 1 else 0, 16);
    DivideOne();
    DivideNothing(16);
    StepAfter(r);
    FeedBit(Divide(r, Zeros(16)), b);
  }

  lemma {:induction false} DivideNothing(n: nat)
    ensures Divide(0, Zeros(n)) == 0
  {
    StepTop();
    hide Step, Bring;
    DivideZeros(0, n);
    if n > 0 {
      DivideNothing(n - 1);
    }
  }

  lemma FeedNone(r: bv16)
    ensures FeedAll(r, []) == r
  {
  }

  lemma FeedOne(r: bv16, b: bool)
    ensures FeedAll(r, [b]) == Feed(r, b)
  {
    hide Feed;
    assert [b][1..] == [];
  }

  /** The register that takes bits in at the top holds the remainder of the message times x^16. */
  lemma {:induction false} RegisterIsRemainder(m: bits)
    ensures FeedAll(0, m) == Remainder(m)
    decreases |m|
  {
    hide Feed, FeedAll, Divide;
    if m == [] {
      DivideNothing(16);
      FeedNone(0);
      assert m + Zeros(16) == Zeros(16);
    } else {
      var a, b := m[..|m| - 1], m[|m| - 1];
      assert m == a + [b];
      RegisterIsRemainder(a);
      FeedAppend(0, a, [b]);
      FeedOne(FeedAll(0, a), b);
      DivideAppend(0, a, Zeros(16));
      DivideAppend(0, a, [b] + Zeros(16));
      assert m + Zeros(16) == a + ([b] + Zeros(16));
      RemainderBit(Divide(0, a), b);
    }
  }

  // ---- eight bits at a time ----

  function Pick(j: bv16, a: bv16, b: bv16, c: bv16, d: bv16, e: bv16, f: bv16, g: bv16, h: bv16): bv16
  {
    if j == 0 then a else if j == 1 then b else if j == 2 then c else if j == 3 then d
    else if j == 4 then e else if j == 5 then f else if j == 6 then g else h
  }

  /** crc16tab, eight entries to a row. */
  function Table(i: bv16): bv16
  {
    var k, j := i >> 3, i & 7;
    if k == 0 then Pick(j, 0x0000, 0x1021, 0x2042, 0x3063, 0x4084, 0x50a5, 0x60c6, 0x70e7)
    else if k == 1 then Pick(j, 0x8108, 0x9129, 0xa14a, 0xb16b, 0xc18c, 0xd1ad, 0xe1ce, 0xf1ef)
    else if k == 2 then Pick(j, 0x1231, 0x0210, 0x3273, 0x2252, 0x52b5, 0x4294, 0x72f7, 0x62d6)
    else if k == 3 then Pick(j, 0x9339, 0x8318, 0xb37b, 0xa35a, 0xd3bd, 0xc39c, 0xf3ff, 0xe3de)
    else if k == 4 then Pick(j, 0x2462, 0x3443, 0x0420, 0x1401, 0x64e6, 0x74c7, 0x44a4, 0x5485)
    else if k == 5 then Pick(j, 0xa56a, 0xb54b, 0x8528, 0x9509, 0xe5ee, 0xf5cf, 0xc5ac, 0xd58d)
    else if k == 6 then Pick(j, 0x3653, 0x2672, 0x1611, 0x0630, 0x76d7, 0x66f6, 0x5695, 0x46b4)
    else if k == 7 then Pick(j, 0xb75b, 0xa77a, 0x9719, 0x8738, 0xf7df, 0xe7fe, 0xd79d, 0xc7bc)
    else if k == 8 then Pick(j, 0x48c4, 0x58e5, 0x6886, 0x78a7, 0x0840, 0x1861, 0x2802, 0x3823)
    else if k == 9 then Pick(j, 0xc9cc, 0xd9ed, 0xe98e, 0xf9af, 0x8948, 0x9969, 0xa90a, 0xb92b)
    else if k == 10 then Pick(j, 0x5af5, 0x4ad4, 0x7ab7, 0x6a96, 0x1a71, 0x0a50, 0x3a33, 0x2a12)
    else if k == 11 then Pick(j, 0xdbfd, 0xcbdc, 0xfbbf, 0xeb9e, 0x9b79, 0x8b58, 0xbb3b, 0xab1a)
    else if k == 12 then Pick(j, 0x6ca6, 0x7c87, 0x4ce4, 0x5cc5, 0x2c22, 0x3c03, 0x0c60, 0x1c41)
    else if k == 13 then Pick(j, 0xedae, 0xfd8f, 0xcdec, 0xddcd, 0xad2a, 0xbd0b, 0x8d68, 0x9d49)
    else if k == 14 then Pick(j, 0x7e97, 0x6eb6, 0x5ed5, 0x4ef4, 0x3e13, 0x2e32, 0x1e51, 0x0e70)
    else if k == 15 then Pick(j, 0xff9f, 0xefbe, 0xdfdd, 0xcffc, 0xbf1b, 0xaf3a, 0x9f59, 0x8f78)
    else if k == 16 then Pick(j, 0x9188, 0x81a9, 0xb1ca, 0xa1eb, 0xd10c, 0xc12d, 0xf14e, 0xe16f)
    else if k == 17 then Pick(j, 0x1080, 0x00a1, 0x30c2, 0x20e3, 0x5004, 0x4025, 0x7046, 0x6067)
    else if k == 18 then Pick(j, 0x83b9, 0x9398, 0xa3fb, 0xb3da, 0xc33d, 0xd31c, 0xe37f, 0xf35e)
    else if k == 19 then Pick(j, 0x02b1, 0x1290, 0x22f3, 0x32d2, 0x4235, 0x5214, 0x6277, 0x7256)
    else if k == 20 then Pick(j, 0xb5ea, 0xa5cb, 0x95a8, 0x8589, 0xf56e, 0xe54f, 0xd52c, 0xc50d)
    else if k == 21 then Pick(j, 0x34e2, 0x24c3, 0x14a0, 0x0481, 0x7466, 0x6447, 0x5424, 0x4405)
    else if k == 22 then Pick(j, 0xa7db, 0xb7fa, 0x8799, 0x97b8, 0xe75f, 0xf77e, 0xc71d, 0xd73c)
    else if k == 23 then Pick(j, 0x26d3, 0x36f2, 0x0691, 0x16b0, 0x6657, 0x7676, 0x4615, 0x5634)
    else if k == 24 then Pick(j, 0xd94c, 0xc96d, 0xf90e, 0xe92f, 0x99c8, 0x89e9, 0xb98a, 0xa9ab)
    else if k == 25 then Pick(j, 0x5844, 0x4865, 0x7806, 0x6827, 0x18c0, 0x08e1, 0x3882, 0x28a3)
    else if k == 26 then Pick(j, 0xcb7d, 0xdb5c, 0xeb3f, 0xfb1e, 0x8bf9, 0x9bd8, 0xabbb, 0xbb9a)
    else if k == 27 then Pick(j, 0x4a75, 0x5a54, 0x6a37, 0x7a16, 0x0af1, 0x1ad0, 0x2ab3, 0x3a92)
    else if k == 28 then Pick(j, 0xfd2e, 0xed0f, 0xdd6c, 0xcd4d, 0xbdaa, 0xad8b, 0x9de8, 0x8dc9)
    else if k == 29 then Pick(j, 0x7c26, 0x6c07, 0x5c64, 0x4c45, 0x3ca2, 0x2c83, 0x1ce0, 0x0cc1)
    else if k == 30 then Pick(j, 0xef1f, 0xff3e, 0xcf5d, 0xdf7c, 0xaf9b, 0xbfba, 0x8fd9, 0x9ff8)
    else Pick(j, 0x6e17, 0x7e36, 0x4e55, 0x5e74, 0x2e93, 0x3eb2, 0x0ed1, 0x1ef0)
  }

  function Step8(r: bv16): bv16
  {
    Step(Step(Step(Step(Step(Step(Step(Step(r))))))))
  }

  lemma TableQuarter1(i: bv16)
    requires i < 0x40
    ensures Table(i) == Step8(i << 8)
  {
  }

  lemma TableQuarter2(i: bv16)
    requires 0x40 <= i < 0x80
    ensures Table(i) == Step8(i << 8)
  {
  }

  lemma TableQuarter3(i: bv16)
    requires 0x80 <= i < 0xc0
    ensures Table(i) == Step8(i << 8)
  {
  }

  lemma TableQuarter4(i: bv16)
    requires 0xc0 <= i < 0x100
    ensures Table(i) == Step8(i << 8)
  {
  }

  lemma ShiftOut(i: bv16)
    requires i < 0x100
    ensures Step8(i) == i << 8
  {
  }

  lemma DivideEight(r: bv16)
    ensures Divide(r, Zeros(8)) == Step8(r)
  {
    hide Step, Divide;
    DivideZeros(r, 8);
    var a := Step(r);
    DivideZeros(a, 7);
    var b := Step(a);
    DivideZeros(b, 6);
    var c := Step(b);
    DivideZeros(c, 5);
    var d := Step(c);
    DivideZeros(d, 4);
    var e := Step(d);
    DivideZeros(e, 3);
    var f := Step(e);
    DivideZeros(f, 2);
    var g := Step(f);
    DivideZeros(g, 1);
    DivideZeros(Step(g), 0);
  }

  /** A byte's bits, most significant first. */
  function BitsOf(b: bv16, k: nat): bits
    decreases k
  {
    if k == 0 then [] else [b & 0x80 != 0] + BitsOf((b << 1) & 0xff, k - 1)
  }

  function Shifted(b: bv16, k: nat): (r: bv16)
    requires b < 0x100
    ensures r < 0x100
    decreases k
  {
    if k == 0 then b else Shifted((b << 1) & 0xff, k - 1)
  }

  lemma StepByte(b: bv16)
    requires b < 0x100
    ensures Step(b << 8) == Plus(if b & 0x80 != 0 then 0x1021 else 0, ((b << 1) & 0xff) << 8)
  {
  }

  /** Feeding a bit is the same as having put it at the top before. */
  lemma FeedTop(r: bv16, b: bv16)
    requires b < 0x100
    ensures Step(Plus(r, b << 8)) == Plus(Feed(r, b & 0x80 != 0), ((b << 1) & 0xff) << 8)
  {
    StepByte(b);
    hide Step, Plus, Feed;
    var t: bv16 := if b & 0x80 != 0 then 0x1021 else 0;
    StepLinear(r, b << 8);
    FeedBit(r, b & 0x80 != 0);
    PlusAssoc(Step(r), t, ((b << 1) & 0xff) << 8);
  }

  lemma {:induction false} FeedByte(r: bv16, b: bv16, k: nat)
    requires b < 0x100
    ensures Divide(Plus(r, b << 8), Zeros(k)) == Plus(FeedAll(r, BitsOf(b, k)), Shifted(b, k) << 8)
    decreases k
  {
    hide Step, Plus, Feed, Divide;
    DivideZeros(Plus(r, b << 8), k);
    if k > 0 {
      FeedTop(r, b);
      var bit, rest := b & 0x80 != 0, (b << 1) & 0xff;
      FeedByte(Feed(r, bit), rest, k - 1);
      assert BitsOf(b, k)[1..] == BitsOf(rest, k - 1);
    }
  }

  lemma AllOut(b: bv16)
    requires b < 0x100
    ensures Shifted(b, 8) == 0
  {
    var c := (b << 1) & 0xff;
    var d := (c << 1) & 0xff;
    var e := (d << 1) & 0xff;
    var f := (e << 1) & 0xff;
    var g := (f << 1) & 0xff;
    var h := (g << 1) & 0xff;
    var i := (h << 1) & 0xff;
    assert (i << 1) & 0xff == 0;
    assert Shifted(b, 8) == Shifted(d, 6) == Shifted(f, 4) == Shifted(h, 2);
  }

  /** The two bytes of the register, the next message byte having come in at the top. */
  lemma SplitWord(crc: bv16, b: bv16)
    requires b < 0x100
    ensures var hi, lo := Plus(crc >> 8, b) & 0xff, crc & 0xff;
            hi < 0x100 && lo < 0x100 && Plus(crc, b << 8) == Plus(hi << 8, lo) && lo << 8 == crc << 8
  {
    assert crc ^ (b << 8) == ((((crc >> 8) ^ b) & 0xff) << 8) ^ (crc & 0xff);
  }

  /** A signed char, widened. */
  function Widened(b: octet): bv16
  {
    if b < 0x80 then b else b | 0xff00
  }

  /** Bytes from 0x80 on are 256 less. */
  lemma WidenedIs(b: octet)
    ensures if b < 0x80 then Widened(b) == b else Widened(b) + 0x100 == b
  {
    assert b >= 0x80 ==> (b | 0xff00) + 0x100 == b;
  }

  /** A char that the compiler extends with its sign picks the same entry. */
  lemma SignIgnored(crc: bv16, b: octet)
    ensures Plus(crc >> 8, Widened(b)) & 0xff == Plus(crc >> 8, b) & 0xff
  {
    assert ((crc >> 8) ^ (b | 0xff00)) & 0xff == ((crc >> 8) ^ b) & 0xff;
  }

  function TableStep(crc: bv16, b: octet): bv16
  {
    Plus(crc << 8, Table(Plus(crc >> 8, b) & 0xff))
  }

  lemma TableEntry(i: bv16)
    requires i < 0x100
    ensures Table(i) == Divide(i << 8, Zeros(8))
  {
    hide Step8, Table, Divide;
    DivideEight(i << 8);
    if i < 0x40 {
      TableQuarter1(i);
    } else if i < 0x80 {
      TableQuarter2(i);
    } else if i < 0xc0 {
      TableQuarter3(i);
    } else {
      TableQuarter4(i);
    }
  }

  lemma LowByte(i: bv16)
    requires i < 0x100
    ensures Divide(i, Zeros(8)) == i << 8
  {
    hide Step8, Divide;
    DivideEight(i);
    ShiftOut(i);
  }

  lemma WholeByte(r: bv16, b: bv16)
    requires b < 0x100
    ensures Divide(Plus(r, b << 8), Zeros(8)) == FeedAll(r, BitsOf(b, 8))
  {
    hide Plus, Divide, FeedAll, BitsOf, Shifted;
    FeedByte(r, b, 8);
    AllOut(b);
    PlusZero(FeedAll(r, BitsOf(b, 8)));
  }

  /** One look into the table does the work of eight bits. */
  lemma ByteStep(crc: bv16, b: octet)
    ensures TableStep(crc, b) == FeedAll(crc, BitsOf(b, 8))
  {
    hide Plus, Table, Divide, FeedAll, BitsOf;
    SplitWord(crc, b);
    WholeByte(crc, b);
    var hi, lo := Plus(crc >> 8, b) & 0xff, crc & 0xff;
    DivideLinear(hi << 8, lo, 8);
    TableEntry(hi);
    LowByte(lo);
    PlusComm(crc << 8, Table(hi));
  }

  function MessageBits(s: seq<octet>): bits
  {
    if s == [] then [] else MessageBits(s[..|s| - 1]) + BitsOf(s[|s| - 1], 8)
  }

  lemma MessageStep(s: seq<octet>, i: nat)
    requires i < |s|
    ensures FeedAll(0, MessageBits(s[..i + 1])) == TableStep(FeedAll(0, MessageBits(s[..i])), s[i])
  {
    hide FeedAll, BitsOf, TableStep;
    assert s[..i + 1][..i] == s[..i];
    FeedAppend(0, MessageBits(s[..i]), BitsOf(s[i], 8));
    ByteStep(FeedAll(0, MessageBits(s[..i])), s[i]);
  }

  /** The checksum is the remainder of the message times x^16, for every message. */
  method Crc16(buf: seq<octet>) returns (crc: bv16)
    ensures crc == Remainder(MessageBits(buf))
  {
    hide FeedAll, Plus, Table, Remainder, MessageBits, Widened;
    crc := 0;
    EmptyMessage(buf);
    for i := 0 to |buf|
      invariant crc == FeedAll(0, MessageBits(buf[..i]))
    {
      MessageStep(buf, i);
      SignIgnored(crc, buf[i]);
      crc := Plus(crc << 8, Table(Plus(crc >> 8, Widened(buf[i])) & 0xff));
    }
    assert buf[..|buf|] == buf;
    RegisterIsRemainder(MessageBits(buf));
  }

  lemma EmptyMessage(s: seq<octet>)
    ensures FeedAll(0, MessageBits(s[..0])) == 0
  {
  }

  // ---- hash tags ----

  const OPEN: octet := 0x7b
  const CLOSE: octet := 0x7d

  /** Where c first occurs at or after i, or the length. */
  function First(s: seq<octet>, i: nat, c: octet): (k: nat)
    requires i <= |s|
    ensures i <= k <= |s| && (k < |s| ==> s[k] == c)
    ensures forall j :: i <= j < k ==> s[j] != c
    decreases |s| - i
  {
    if i == |s| || s[i] == c then i else First(s, i + 1, c)
  }

  /** What of a key is hashed (section "Hash tags" of the Redis Cluster specification). */
  function Hashed(key: seq<octet>): seq<octet>
  {
    var s := First(key, 0, OPEN);
    if s == |key| then key else
      var e := First(key, s + 1, CLOSE);
      if e == |key| || e == s + 1 then key else key[s + 1..e]
  }

  /** The bytes that a loop up to an int of that value visits. */
  function Kept(len: int): nat
  {
    if len > 0 then len else 0
  }

  method Find(s: seq<octet>, i: nat, len: int, c: octet) returns (k: nat)
    requires len <= |s|
    ensures k == if i <= len then First(s[..len], i, c) else i
  {
    k := i;
    while k < len && s[k] != c
      invariant i <= k && (i < k ==> k <= len)
      invariant i <= len ==> k <= len && First(s[..len], k, c) == First(s[..len], i, c)
    {
      k := k + 1;
    }
  }

  /** What of the first len bytes is hashed; for a negative len, nothing. */
  method HashedPart(key: seq<octet>, len: int) returns (part: seq<octet>)
    requires len <= |key|
    ensures part == Hashed(key[..Kept(len)])
  {
    var s := Find(key, 0, len, OPEN);
    if s == len {
      return key[..len];
    }
    var e := Find(key, s + 1, len, CLOSE);
    if e == len || e == s + 1 {
      return key[..Kept(len)];
    }
    assert key[..len][s + 1..e] == key[s + 1..e];
    return key[s + 1..e];
  }

  /** The low fourteen bits of the checksum. */
  function Slot(part: seq<octet>): (slot: bv16)
    ensures slot < 16384
  {
    Remainder(MessageBits(part)) & 0x3fff
  }

  lemma LowBits(r: bv16)
    ensures r & 0x3fff == r % 16384
  {
  }

  /** The slot is the remainder of the message polynomial, modulo 16384. */
  lemma SlotIs(part: seq<octet>)
    ensures Slot(part) == Remainder(MessageBits(part)) % 16384
  {
    hide Remainder, MessageBits;
    LowBits(Remainder(MessageBits(part)));
  }

  /** The slot is below 16384 and is decided by the hashed part of the first len bytes alone. */
  method KeyHashSlot(key: seq<octet>, len: int) returns (slot: bv16)
    requires len <= |key|
    ensures slot < 16384
    ensures slot == Slot(Hashed(key[..Kept(len)]))
  {
    hide Remainder, MessageBits, Hashed;
    var part := HashedPart(key, len);
    var crc := Crc16(part);
    return crc & 0x3fff;
  }

  /** ngx_redis_slot: the length goes from a size_t into an int. */
  method RedisSlot(key: seq<octet>) returns (slot: bv16)
    ensures slot < 16384
    ensures slot == Slot(Hashed(key[..Kept(ToInt(|key|))]))
    ensures |key| <= INT_MAX ==> slot == Slot(Hashed(key))
  {
    hide Slot, Hashed;
    slot := KeyHashSlot(key, ToInt(|key|));
    assert |key| <= INT_MAX ==> key[..Kept(ToInt(|key|))] == key;
  }

  /** The whole key counts exactly if its length fits an int; from there on to 2^32 bytes none of it does. */
  lemma KeptWhole(n: nat)
    ensures Kept(ToInt(n)) <= n && (Kept(ToInt(n)) == n <==> n <= INT_MAX)
    ensures INT_MAX < n <= 0x1_0000_0000 ==> Kept(ToInt(n)) == 0
  {
  }

  lemma FirstIs(s: seq<octet>, i: nat, c: octet, k: nat)
    requires i <= k <= |s| && (k < |s| ==> s[k] == c) && forall j :: i <= j < k ==> s[j] != c
    ensures First(s, i, c) == k
  {
    var f := First(s, i, c);
    assert f >= k;
  }

  /** Whatever stands before the first opening brace and after the next closing one does not matter. */
  lemma TagDecides(before: seq<octet>, tag: seq<octet>, after: seq<octet>)
    requires 0x7b !in before && 0x7d !in tag && tag != []
    ensures Hashed(before + [0x7b] + tag + [0x7d] + after) == tag
  {
    var key := before + [OPEN] + tag + [CLOSE] + after;
    var s := |before|;
    var e := s + 1 + |tag|;
    FirstIs(key, 0, OPEN, s);
    assert forall j :: s + 1 <= j < e ==> key[j] == tag[j - s - 1];
    assert key[e] == CLOSE;
    FirstIs(key, s + 1, CLOSE, e);
    assert key[s + 1..e] == tag;
  }

  /** With nothing between the first braces, or no closing one, the whole key counts. */
  lemma NoTag(before: seq<octet>, rest: seq<octet>)
    requires 0x7b !in before
    ensures Hashed(before) == before
    ensures 0x7d !in rest || (rest != [] && rest[0] == 0x7d) ==> Hashed(before + [0x7b] + rest) == before + [0x7b] + rest
  {
    FirstIs(before, 0, OPEN, |before|);
    var key := before + [OPEN] + rest;
    var s := |before|;
    FirstIs(key, 0, OPEN, s);
    assert forall j :: s + 1 <= j < |key| ==> key[j] == rest[j - s - 1];
    if CLOSE !in rest {
      FirstIs(key, s + 1, CLOSE, |key|);
    } else if rest[0] == CLOSE {
      FirstIs(key, s + 1, CLOSE, s + 1);
    }
  }
}
