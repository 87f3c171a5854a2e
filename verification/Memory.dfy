/** Copying bytes into a buffer. */
module Memory {
  import opened Basics

  method CopyBytes(buf: array<byte>, pos: nat, s: seq<byte>) returns (end: nat)
    requires pos + |s| <= buf.Length
    modifies buf
    ensures end == pos + |s| && buf[..end] == old(buf[..pos]) + s
  {
    end := pos;
    for i := 0 to |s|
      invariant end == pos + i && buf[..end] == old(buf[..pos]) + s[..i]
    {
      buf[end] := s[i];
      end := end + 1;
    }
    assert s[..|s|] == s;
  }
}
