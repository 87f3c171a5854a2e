/**
 The growable buffer of bundle/lua-cjson-2.1.0.5/strbuf.c and strbuf.h, growing by doubling.  Its counters are
 ints of 32 bits: where an addition or a doubling does not fit one, C gives the program no meaning, and the model
 stops there.
 */
module Strbuf {
  import opened Basics

  const DEFAULT_SIZE: nat := 1023

  /** The size after enough doublings. */
  function Doubled(size: nat, need: nat): (n: nat)
    requires size >= 1
    ensures n >= need && n >= size
    ensures n > size ==> n < 2 * need
    decreases need - size
  {
    if size >= need then size else Doubled(2 * size, need)
  }

  /** The size after k doublings. */
  function Twofold(size: nat, k: nat): (n: nat)
    ensures n >= size
    decreases k
  {
    if k == 0 then size else Twofold(2 * size, k - 1)
  }

  /** The doubling loop stays within an int exactly if some number of doublings lands between the two. */
  lemma DoublingFits(size: nat, need: nat)
    requires size >= 1
    ensures Doubled(size, need) <= INT_MAX <==> exists k: nat :: need <= Twofold(size, k) <= INT_MAX
  {
    var k := DoubledReaches(size, need);
    forall k: nat | need <= Twofold(size, k)
      ensures Doubled(size, need) <= Twofold(size, k)
    {
      DoubledLeast(size, need, k);
    }
  }

  lemma {:induction false} DoubledReaches(size: nat, need: nat) returns (k: nat)
    requires size >= 1
    ensures Doubled(size, need) == Twofold(size, k)
    decreases need - size
  {
    if size >= need {
      k := 0;
    } else {
      k := DoubledReaches(2 * size, need);
      k := k + 1;
    }
  }

  lemma {:induction false} DoubledLeast(size: nat, need: nat, k: nat)
    requires size >= 1 && need <= Twofold(size, k)
    ensures Doubled(size, need) <= Twofold(size, k)
    decreases k
  {
    if size < need {
      DoubledLeast(2 * size, need, k - 1);
    }
  }

  // ---- the counters alone ----

  /** Size and length; or an int was exceeded; or a byte was written outside the buffer. */
  datatype Mark = Mark(size: nat, length: nat) | Overflow | Outside

  predicate Good(m: Mark)
  {
    m.Mark? && 1 <= m.size <= INT_MAX && m.length <= m.size
  }

  /** strbuf_resize: exact when shrinking, doubling when growing. */
  function Resized(m: Mark, len: int): (r: Mark)
    requires Good(m) && len >= m.length && len > 0
    ensures r.Mark? ==> Good(r) && r.length == m.length && r.size >= len + 1
    ensures r != Outside
  {
    if len + 1 > INT_MAX then Overflow
    else if m.size > len + 1 then m.(size := len + 1)
    else if Doubled(m.size, len + 1) > INT_MAX then Overflow
    else m.(size := Doubled(m.size, len + 1))
  }

  /** strbuf_ensure_empty_length. */
  function Ensured(m: Mark, ask: int): (r: Mark)
    requires Good(m)
    ensures r.Mark? ==> Good(r) && r.length == m.length && r.size - r.length - 1 >= ask
    ensures r != Outside
  {
    if ask <= m.size - m.length - 1 then m else Resized(m, m.length + ask)
  }

  /** One byte of strbuf_append_string. */
  function Checked(m: Mark): (r: Mark)
    requires m.Mark? ==> Good(m)
    ensures r.Mark? ==> m.Mark? && Good(r) && r.length == m.length + 1
  {
    if !m.Mark? then m else
      var n := if m.size - m.length - 1 < 1 then Resized(m, m.length + 1) else m;
      if n.Mark? then n.(length := n.length + 1) else n
  }

  function CheckedAll(m: Mark, k: nat): (r: Mark)
    requires m.Mark? ==> Good(m)
    ensures r.Mark? ==> m.Mark? && Good(r) && r.length == m.length + k
    decreases k
  {
    if k == 0 then m else Checked(CheckedAll(m, k - 1))
  }

  /** An append that does not look. */
  function Unchecked(m: Mark): (r: Mark)
    requires m.Mark? ==> Good(m)
    ensures r.Mark? ==> m.Mark? && Good(r) && r.length == m.length + 1
  {
    if !m.Mark? then m else if m.length < m.size then m.(length := m.length + 1) else Outside
  }

  /** Asked for less than it has, the buffer shrinks to just that and a terminator. */
  lemma Shrinks(m: Mark, len: int)
    requires Good(m) && m.length <= len && 0 < len < m.size
    ensures Resized(m, len) == Mark(len + 1, m.length)
  {
  }

  /** A checked byte leaves the buffer where it is exactly if there is room for it and a terminator. */
  lemma CheckedExactly(m: Mark)
    requires Good(m)
    ensures Checked(m) == Mark(m.size, m.length + 1) <==> m.length + 2 <= m.size
  {
  }

  /** With room enough, checked appends do not move the buffer. */
  lemma {:induction false} CheckedFits(m: Mark, k: nat)
    requires Good(m) && m.size - m.length - 1 >= k
    ensures CheckedAll(m, k) == Mark(m.size, m.length + k)
  {
    if k > 0 {
      CheckedFits(m, k - 1);
    }
  }

  /** A request that stays below half an int is always met. */
  lemma EnsuredWhenSmall(m: Mark, ask: int)
    requires Good(m) && 2 * (m.length + ask + 1) <= INT_MAX
    ensures Ensured(m, ask).Mark?
  {
  }

  /** The doubling loop exceeds an int from the default size on just above 2^31 - 2^21. */
  lemma DoublingExample()
    ensures Resized(Mark(DEFAULT_SIZE, 0), 2145386495) == Mark(2145386496, 0)
    ensures Resized(Mark(DEFAULT_SIZE, 0), 2145386496) == Overflow
  {
    DoubledFrom(1023, 2145386496);
    DoubledFrom(1023 * 128, 2145386496);
    DoubledFrom(1023 * 16384, 2145386496);
    DoubledFrom(1023, 2145386497);
    DoubledFrom(1023 * 128, 2145386497);
    DoubledFrom(1023 * 16384, 2145386497);
    assert Doubled(2145386496, 2145386497) >= 2145386497;
  }

  /** Seven doublings at a time. */
  lemma DoubledFrom(size: nat, need: nat)
    requires size >= 1 && 64 * size < need
    ensures Doubled(size, need) == Doubled(128 * size, need)
  {
    assert Doubled(size, need) == Doubled(2 * size, need) == Doubled(4 * size, need) == Doubled(8 * size, need);
    assert Doubled(8 * size, need) == Doubled(16 * size, need) == Doubled(32 * size, need) == Doubled(64 * size, need);
  }

  // ---- the buffer ----

  class Buffer {
    var buf: array<byte>
    var length: nat

    ghost function Now(): Mark
      reads this
    {
      Mark(buf.Length, length)
    }

    ghost predicate Valid()
      reads this
    {
      Good(Now())
    }

    ghost function Contents(): seq<byte>
      requires Valid()
      reads this, buf
    {
      buf[..length]
    }

    constructor (len: int)
      requires len < INT_MAX
      ensures Valid() && fresh(buf) && Contents() == []
      ensures buf.Length == if len <= 0 then DEFAULT_SIZE else len + 1
    {
      var size := if len <= 0 then DEFAULT_SIZE else len + 1;
      length := 0;
      buf := new byte[size];
      new;
      EnsureNull();
    }

    function EmptyLength(): int
      reads this
    {
      buf.Length - length - 1
    }

    method Reset()
      requires Valid()
      modifies `length
      ensures Valid() && Contents() == [] && length == 0
    {
      length := 0;
    }

    method EnsureNull()
      requires Valid() && length < buf.Length
      modifies buf
      ensures Valid() && Contents() == old(Contents())
      ensures buf[length] == 0
    {
      buf[length] := 0;
    }

    method CalculateNewSize(len: int) returns (r: Option<nat>)
      requires Valid() && len >= length && len > 0
      ensures match Resized(Now(), len) case Mark(size, _) => r == Some(size) case _ => r.None?
    {
      if len + 1 > INT_MAX {
        return None;
      }
      var need := len + 1;
      if buf.Length > need {
        return Some(need);
      }
      var size := buf.Length;
      while size < need
        invariant buf.Length <= size <= INT_MAX && Doubled(size, need) == Doubled(buf.Length, need)
        decreases need - size
      {
        if size > INT_MAX / 2 {
          assert Doubled(size, need) == Doubled(2 * size, need);
          return None;
        }
        size := size * 2;
      }
      return Some(size);
    }

    method Resize(len: int) returns (ok: bool)
      requires Valid() && len >= length && len > 0
      modifies this
      ensures ok <==> Resized(old(Now()), len).Mark?
      ensures ok ==> Now() == Resized(old(Now()), len) && fresh(buf)
      ensures !ok ==> Now() == old(Now()) && buf == old(buf)
      ensures Valid() && Contents() == old(Contents())
    {
      var size := CalculateNewSize(len);
      if size.None? {
        return false;
      }
      var moved := new byte[size.value];
      var i := 0;
      while i < length
        invariant i <= length == old(length) && buf == old(buf) && fresh(moved)
        invariant unchanged(buf) && moved[..i] == buf[..i]
      {
        moved[i] := buf[i];
        i := i + 1;
      }
      buf := moved;
      return true;
    }

    method EnsureEmptyLength(len: int) returns (ok: bool)
      requires Valid()
      modifies this
      ensures ok <==> Ensured(old(Now()), len).Mark?
      ensures ok ==> Now() == Ensured(old(Now()), len)
      ensures !ok ==> Now() == old(Now()) && buf == old(buf)
      ensures Valid() && (buf == old(buf) || fresh(buf)) && Contents() == old(Contents())
    {
      ok := true;
      if len > EmptyLength() {
        ok := Resize(length + len);
      }
    }

    /** Appends without looking: inside the buffer if the caller has seen to it. */
    method AppendCharUnsafe(c: byte)
      requires Valid() && length < buf.Length
      modifies `length, buf
      ensures Valid() && Contents() == old(Contents()) + [c]
      ensures Now() == Unchecked(old(Now()))
    {
      buf[length] := c;
      length := length + 1;
    }

    method AppendChar(c: byte) returns (ok: bool)
      requires Valid()
      modifies this, buf
      ensures Valid() && (buf == old(buf) || fresh(buf))
      ensures ok <==> Ensured(old(Now()), 1).Mark?
      ensures ok ==> Now() == Mark(Ensured(old(Now()), 1).size, old(length) + 1) && Contents() == old(Contents()) + [c]
    {
      ok := EnsureEmptyLength(1);
      if ok {
        AppendCharUnsafe(c);
      }
    }

    method AppendMemUnsafe(c: seq<byte>)
      requires Valid() && length + |c| <= buf.Length
      modifies `length, buf
      ensures Valid() && Contents() == old(Contents()) + c
      ensures Now() == Mark(old(buf.Length), old(length) + |c|)
    {
      var i := 0;
      while i < |c|
        invariant i <= |c| && buf == old(buf) && length == old(length)
        invariant buf[..length + i] == old(buf[..length]) + c[..i]
      {
        buf[length + i] := c[i];
        i := i + 1;
      }
      length := length + |c|;
    }

    method AppendMem(c: seq<byte>) returns (ok: bool)
      requires Valid()
      modifies this, buf
      ensures Valid() && (buf == old(buf) || fresh(buf))
      ensures ok <==> Ensured(old(Now()), |c|).Mark?
      ensures ok ==> Now() == Mark(Ensured(old(Now()), |c|).size, old(length) + |c|) && Contents() == old(Contents()) + c
    {
      ok := EnsureEmptyLength(|c|);
      if ok {
        AppendMemUnsafe(c);
      }
    }

    /** One turn of the loop of strbuf_append_string; the source keeps the free space in a variable beside it. */
    method AppendChecked(c: byte) returns (ok: bool)
      requires Valid()
      modifies this, buf
      ensures Valid() && (buf == old(buf) || fresh(buf))
      ensures ok ==> Now() == Checked(old(Now())) && Contents() == old(Contents()) + [c]
      ensures !ok ==> Checked(old(Now())) == Overflow
    {
      ok := true;
      if EmptyLength() < 1 {
        ok := Resize(length + 1);
      }
      if ok {
        AppendCharUnsafe(c);
      }
    }

    /** Appends byte by byte, making room as it goes. */
    method AppendString(c: seq<byte>) returns (ok: bool)
      requires Valid()
      modifies this, buf
      ensures Valid() && (buf == old(buf) || fresh(buf))
      ensures ok ==> Now() == CheckedAll(old(Now()), |c|) && Contents() == old(Contents()) + c
      ensures !ok ==> CheckedAll(old(Now()), |c|) == Overflow
    {
      hide Checked;
      for i := 0 to |c|
        invariant Valid() && (buf == old(buf) || fresh(buf))
        invariant Contents() == old(Contents()) + c[..i] && Now() == CheckedAll(old(Now()), i)
      {
        ok := AppendChecked(c[i]);
        if !ok {
          CheckedStops(old(Now()), i + 1, |c|);
          return;
        }
        Joined(old(Contents()), c[..i], [c[i]]);
        assert c[..i] + [c[i]] == c[..i + 1];
      }
      assert c[..|c|] == c;
      return true;
    }
  }

  lemma {:induction false} CheckedStops(m: Mark, i: nat, k: nat)
    requires (m.Mark? ==> Good(m)) && i <= k && CheckedAll(m, i) == Overflow
    ensures CheckedAll(m, k) == Overflow
    decreases k
  {
    if i < k {
      CheckedStops(m, i, k - 1);
    }
  }
}
