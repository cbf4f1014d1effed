/** Zero-terminated strings in byte buffers. */
module CStrings {
  import opened Bytes

  /** The string at the start of a buffer: the bytes before the first zero. */
  function Text(b: seq<Byte>): (s: seq<Byte>)
    ensures |s| <= |b| && s == b[..|s|] && 0 !in s
    ensures |s| < |b| ==> b[|s|] == 0
    ensures 0 in b ==> |s| < |b|
  {
    if b == [] || b[0] == 0 then [] else [b[0]] + Text(b[1..])
  }

  lemma {:induction false} TextOf(s: seq<Byte>, rest: seq<Byte>)
    requires 0 !in s
    ensures Text(s + [0] + rest) == s
  {
    var b := s + [0] + rest;
    if s != [] {
      assert b[1..] == s[1..] + [0] + rest;
      TextOf(s[1..], rest);
    }
  }

  /** The value of a byte as a signed char. */
  function Signed(b: Byte): int {
    if b < 0x80 then b else b - 0x100
  }

  /** It is the only value of a signed char that is the byte modulo 256. */
  lemma SignedByte(b: Byte, c: int)
    ensures Signed(b) == c <==> -0x80 <= c < 0x80 && c % 0x100 == b
  {
  }

  /** strcmp. */
  method StrCmp(s1: seq<Byte>, s2: seq<Byte>) returns (ret: int)
    requires 0 in s1 && 0 in s2
    ensures ret == 0 <==> Text(s1) == Text(s2)
    ensures ret != 0 ==>
      exists i :: 0 <= i <= |Text(s1)| && i <= |Text(s2)| && Text(s1)[..i] == Text(s2)[..i] && ret == Signed(s1[i]) - Signed(s2[i])
  {
    ret := 0;
    var i := 0;
    while ret == 0 && (s1[i] != 0 || s2[i] != 0)
      invariant 0 <= i <= |Text(s1)| + 1 && i <= |Text(s2)| + 1
      invariant ret == 0 ==> i <= |Text(s1)| && i <= |Text(s2)| && Text(s1)[..i] == Text(s2)[..i]
      invariant ret != 0 ==> Text(s1) != Text(s2) && i > 0 && i - 1 <= |Text(s1)| && i - 1 <= |Text(s2)|
      invariant ret != 0 ==> Text(s1)[..i - 1] == Text(s2)[..i - 1] && ret == Signed(s1[i - 1]) - Signed(s2[i - 1])
      decreases |s1| - i
    {
      assert i < |Text(s1)| ==> s1[i] == Text(s1)[i] != 0;
      assert i < |Text(s2)| ==> s2[i] == Text(s2)[i] != 0;
      ret := Signed(s1[i]) - Signed(s2[i]);
      i := i + 1;
    }
  }
}
