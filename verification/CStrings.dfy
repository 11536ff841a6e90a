/** C strings as byte sequences without a zero byte, and the buffers that hold them. */
module CStrings {
  import opened Memory

  type Str = seq<Byte>

  const SLASH: Byte := 47

  predicate NoZero(s: Str) { forall i :: 0 <= i < |s| ==> s[i] != 0 }

  /** The string a buffer holds: its bytes up to the first zero. */
  function CString(buffer: seq<Byte>): (s: Str)
    ensures |s| <= |buffer|
  {
    if buffer == [] || buffer[0] == 0 then [] else [buffer[0]] + CString(buffer[1..])
  }

  /** A terminated string reads back, whatever follows the terminator. */
  lemma {:induction false} CStringReads(s: Str, rest: seq<Byte>)
    requires NoZero(s)
    ensures CString(s + [0] + rest) == s
  {
    var b := s + [0] + rest;
    if s == [] {
      assert b[0] == 0;
    } else {
      assert b[1..] == s[1..] + [0] + rest;
      CStringReads(s[1..], rest);
    }
  }

  /** `strcmp` (kernel/clib/string.cpp:62-73): true means equal. */
  method StrCmp(a: Str, b: Str) returns (same: bool)
    ensures same <==> a == b
  {
    if |a| != |b| { return false; }
    for i := 0 to |a|
      invariant a[..i] == b[..i]
    {
      if a[i] != b[i] { return false; }
    }
    same := true;
  }
}
