/**
 The room that json_append_string of bundle/lua-cjson-2.1.0.5/lua_cjson.c makes for a string, at the width its
 counters have: the request is a size_t handed over as an int.
 */
module JsonRoom {
  import opened Basics
  import opened JsonText
  import opened Strbuf

  /** Escapes are appended with a check, other bytes without. */
  function PutByte(m: Mark, b: byte): (r: Mark)
    requires m.Mark? ==> Good(m)
    ensures r.Mark? ==> m.Mark? && Good(r) && r.length == m.length + |EncByte(b)|
    ensures !m.Mark? ==> r == m
  {
    if !m.Mark? then m else
      match Escape(b)
      case None => Unchecked(m)
      case Some(e) => CheckedAll(m, |e|)
  }

  function PutBytes(m: Mark, str: seq<byte>, k: nat): (r: Mark)
    requires (m.Mark? ==> Good(m)) && k <= |str|
    ensures r.Mark? ==> m.Mark? && Good(r) && r.length == m.length + |EncBytes(str, k)|
  {
    if k == 0 then m else PutByte(PutBytes(m, str, k - 1), str[k - 1])
  }

  /** What is asked for a string of n bytes. */
  function Request(n: nat): (r: int)
    ensures r == 6 * n + 2 <==> 6 * n + 2 <= INT_MAX
  {
    ToInt(6 * n + 2)
  }

  function PutString(m: Mark, str: seq<byte>): (r: Mark)
    requires Good(m)
    ensures r.Mark? ==> Good(r) && r.length == m.length + |EncString(str)|
  {
    Unchecked(PutBytes(Unchecked(Ensured(m, Request(|str|))), str, |str|))
  }

  lemma {:induction false} PutBytesStops(m: Mark, str: seq<byte>, i: nat, k: nat)
    requires (m.Mark? ==> Good(m)) && i <= k <= |str| && !PutBytes(m, str, i).Mark?
    ensures PutBytes(m, str, k) == PutBytes(m, str, i)
    decreases k
  {
    hide PutByte, EncByte;
    if i < k {
      PutBytesStops(m, str, i, k - 1);
    }
  }

  lemma PutByteFits(m: Mark, b: byte)
    requires Good(m) && m.size - m.length - 1 >= 6
    ensures PutByte(m, b) == Mark(m.size, m.length + |EncByte(b)|)
  {
    var e := Escape(b);
    if e.Some? {
      assert e.value == EncByte(b);
      hide Escape;
      CheckedFits(m, |e.value|);
    }
  }

  lemma PutLetter(m: Mark)
    requires m.Mark? ==> Good(m)
    ensures PutByte(m, 0x61) == Unchecked(m)
  {
  }

  lemma PutControl(m: Mark)
    requires Good(m) && m.size - m.length - 1 >= 6
    ensures PutByte(m, 1) == Mark(m.size, m.length + 6)
  {
    hide CheckedAll;
    CheckedFits(m, 6);
  }

  lemma {:induction false} PutBytesFit(m: Mark, str: seq<byte>, k: nat)
    requires Good(m) && k <= |str| && m.size - m.length - 1 >= 6 * k
    ensures PutBytes(m, str, k) == Mark(m.size, m.length + |EncBytes(str, k)|)
  {
    hide PutByte, EncByte;
    if k > 0 {
      PutBytesFit(m, str, k - 1);
      PutByteFits(PutBytes(m, str, k - 1), str[k - 1]);
    }
  }

  lemma PutNothing(m: Mark, str: seq<byte>)
    requires !m.Mark?
    ensures PutBytes(m, str, |str|) == m
  {
    PutBytesStops(m, str, 0, |str|);
  }

  /**
   As long as the request fits an int, everything is written inside the buffer: where it was if there was room,
   in a larger one if that fits an int too, and otherwise nothing is written.
   */
  lemma PutStringExact(m: Mark, str: seq<byte>)
    requires Good(m) && 6 * |str| + 2 <= INT_MAX
    ensures var need, length := m.length + 6 * |str| + 3, m.length + |EncString(str)|;
            PutString(m, str) ==
              if need <= m.size then Mark(m.size, length)
              else if need <= INT_MAX && Doubled(m.size, need) <= INT_MAX then Mark(Doubled(m.size, need), length)
              else Overflow
  {
    hide PutBytes, EncBytes, Doubled;
    var r := Ensured(m, Request(|str|));
    if r.Mark? {
      PutBytesFit(Unchecked(r), str, |str|);
    } else {
      PutNothing(r, str);
    }
  }

  /** No buffer and no string of that length make the encoder write outside the buffer. */
  ghost predicate StaysInside(n: nat)
  {
    forall m, str :: Good(m) && |str| == n ==> PutString(m, str) != Outside
  }

  /** The limit: 357,913,940 bytes. */
  lemma InsideExactly(n: nat)
    ensures StaysInside(n) <==> 6 * n + 2 <= INT_MAX
    ensures 6 * n + 2 <= INT_MAX <==> n <= 357_913_940
  {
    if 6 * n + 2 <= INT_MAX {
      forall m, str | Good(m) && |str| == n
        ensures PutString(m, str) != Outside
      {
        PutStringExact(m, str);
      }
    } else {
      var m, str := Breaks(n);
    }
  }

  /** A buffer that has exactly the room the truncated request asks for, and a string that needs more. */
  lemma Breaks(n: nat) returns (m: Mark, str: seq<byte>)
    requires 6 * n + 2 > INT_MAX
    ensures Good(m) && |str| == n && PutString(m, str) == Outside
  {
    var w := Request(n);
    if w <= 0 {
      m, str := Mark(1, 0), Mixed(0, n);
      WritesPast(m, str, 0);
    } else {
      var k := (w - 1) / 6;
      RequestSmall(n, w);
      m, str := Mark(w + 1, 0), Mixed(k, n);
      WritesPast(m, str, k);
    }
  }

  lemma RequestSmall(n: nat, w: int)
    requires w == Request(n) && w > 0 && 6 * n + 2 > INT_MAX
    ensures w < INT_MAX && (w - 1) / 6 <= n && n + 5 * ((w - 1) / 6) > w
  {
    var q := (6 * n + 2) / 0x1_0000_0000;
    assert 6 * n + 2 == q * 0x1_0000_0000 + w && q >= 1;
    assert w == 2 * (3 * n + 1 - q * 0x8000_0000);
  }

  /** k control characters, then letters. */
  function Mixed(k: nat, n: nat): (s: seq<byte>)
    requires k <= n
    ensures |s| == n && (forall i :: 0 <= i < k ==> s[i] == 1) && forall i :: k <= i < n ==> s[i] == 0x61
  {
    seq(n, i => if i < k then 1 else 0x61)
  }

  lemma WritesPast(m: Mark, str: seq<byte>, k: nat)
    requires Good(m) && m.length == 0 && k <= |str| && str == Mixed(k, |str|)
    requires Ensured(m, Request(|str|)) == m && 6 * k <= m.size - 2 + (if k == 0 then 1 else 0)
    requires 1 + 6 * k + (|str| - k) > m.size
    ensures PutString(m, str) == Outside
  {
    var one := Unchecked(m);
    PutsEscapes(one, str, k);
    var j := m.size - 1 - 5 * k + 1;
    PutsLetters(one, str, k, j);
    PutBytesStops(one, str, j, |str|);
  }

  lemma {:induction false} PutsEscapes(m: Mark, str: seq<byte>, k: nat)
    requires Good(m) && k <= |str| && (k > 0 ==> 6 * k <= m.size - m.length - 1)
    requires forall i :: 0 <= i < k ==> str[i] == 1
    ensures PutBytes(m, str, k) == Mark(m.size, m.length + 6 * k)
  {
    hide PutByte, EncByte;
    if k > 0 {
      PutsEscapes(m, str, k - 1);
      PutControl(PutBytes(m, str, k - 1));
    }
  }

  lemma {:induction false} PutsLetters(m: Mark, str: seq<byte>, k: nat, j: nat)
    requires Good(m) && k <= j <= |str| && (forall i :: k <= i < j ==> str[i] == 0x61)
    requires PutBytes(m, str, k) == Mark(m.size, m.length + 6 * k)
    requires m.length + 5 * k + j <= m.size + 1
    ensures PutBytes(m, str, j) == if m.length + 5 * k + j <= m.size then Mark(m.size, m.length + 5 * k + j) else Outside
    decreases j
  {
    hide PutByte, EncByte;
    if k < j {
      PutsLetters(m, str, k, j - 1);
      PutLetter(PutBytes(m, str, j - 1));
    }
  }

  /** The first length that goes wrong: the request is negative, and a fresh buffer is written past its end. */
  lemma FirstWrongLength(str: seq<byte>)
    requires |str| == 357_913_941 && forall i :: 0 <= i < |str| ==> str[i] == 0x61
    ensures Request(|str|) == -INT_MAX - 1
    ensures PutString(Mark(DEFAULT_SIZE, 0), str) == Outside
  {
    hide PutString, Doubled;
    assert str == Mixed(0, |str|);
    WritesPast(Mark(DEFAULT_SIZE, 0), str, 0);
  }

  // ---- decoding ----

  /** The size of the scratch buffer made for a text of n bytes; none where the size would not fit an int. */
  function Scratch(n: nat): Option<nat>
  {
    var len := ToInt(n);
    if len <= 0 then Some(DEFAULT_SIZE) else if len == INT_MAX then None else Some(len + 1)
  }

  /** Decoding the string at i, with that many bytes decoded, writes past that many bytes of scratch buffer. */
  predicate Overruns(s: seq<byte>, i: nat, held: nat, size: nat)
    requires i <= |s|
    decreases |s| - i
  {
    if i == |s| then false
    else if s[i] == QUOTE then held >= size
    else match StringPiece(s, i)
      case None => false
      case Some(p) => held + |p.bytes| > size || Overruns(s, i + p.len, held + |p.bytes|, size)
  }

  /** Reading the next token runs out of room. */
  predicate RunsOut(s: seq<byte>, i: nat, size: nat)
    requires i <= |s|
  {
    var j := SkipSpace(s, i);
    j < |s| && s[j] == QUOTE && Overruns(s, j + 1, 0, size)
  }

  ghost predicate Overran(s: seq<byte>, size: nat)
  {
    exists i: nat :: i <= |s| && Overruns(s, i, 0, size)
  }

  /** What is decoded is never longer than what it is decoded from. */
  lemma {:induction false} NeverLonger(s: seq<byte>, i: nat, held: nat, size: nat)
    requires i <= |s| && held + (|s| - i) < size
    ensures !Overruns(s, i, held, size)
    decreases |s| - i
  {
    hide StringPiece;
    if i < |s| && s[i] != QUOTE && StringPiece(s, i).Some? {
      var p := StringPiece(s, i).value;
      NeverLonger(s, i + p.len, held + |p.bytes|, size);
    }
  }

  /** Every text of that length is decoded inside its scratch buffer. */
  ghost predicate ScratchHolds(n: nat)
  {
    Scratch(n).Some? && forall s: seq<byte> :: |s| == n ==> !Overran(s, Scratch(n).value)
  }

  lemma ScratchExactly(n: nat)
    ensures ScratchHolds(n) <==> n < INT_MAX
  {
    if n < INT_MAX {
      forall s: seq<byte>, i: nat | |s| == n && i <= |s|
        ensures !Overruns(s, i, 0, Scratch(n).value)
      {
        NeverLonger(s, i, 0, Scratch(n).value);
      }
    } else if n > INT_MAX && Scratch(n).Some? {
      var s := [QUOTE] + Mixed(0, n - 2) + [QUOTE];
      LettersOverrun(s, 1, 0, Scratch(n).value);
      assert Overran(s, Scratch(n).value);
    }
  }

  lemma {:induction false} LettersOverrun(s: seq<byte>, i: nat, held: nat, size: nat)
    requires 1 <= i < |s| && s == [QUOTE] + Mixed(0, |s| - 2) + [QUOTE] && held + (|s| - 1 - i) >= size
    ensures Overruns(s, i, held, size)
    decreases |s| - i
  {
    if i < |s| - 1 {
      assert StringPiece(s, i) == Some(Piece([0x61], 1));
      LettersOverrun(s, i + 1, held + 1, size);
    }
  }
}
