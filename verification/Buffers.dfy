/** Filling byte buffers. */
module Buffers {
  import opened Bytes

  /** Copy bytes over a buffer of the same length. */
  method Fill(buf: array<Byte>, s: seq<Byte>)
    requires |s| == buf.Length
    modifies buf
    ensures buf[..] == s
  {
    for i := 0 to buf.Length
      invariant buf[..i] == s[..i]
    {
      buf[i] := s[i];
    }
  }

  /** memcpy into the middle of a buffer. */
  method CopyInto(buf: array<Byte>, at: nat, s: seq<Byte>)
    requires at + |s| <= buf.Length
    modifies buf
    ensures buf[..] == old(buf[..at]) + s + old(buf[at + |s|..])
  {
    for i := 0 to |s|
      invariant forall j :: 0 <= j < i ==> buf[at + j] == s[j]
      invariant forall j :: 0 <= j < buf.Length && !(at <= j < at + i) ==> buf[j] == old(buf[j])
    {
      buf[at + i] := s[i];
    }
  }
}
