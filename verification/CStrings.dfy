/**
 C strings, as byte sequences without their terminating NUL.
 */
module CStrings {
  type Byte = bv8

  const LF: Byte := 10
  const BACKSLASH: Byte := 92

  predicate NulFree(s: seq<Byte>) {
    forall i :: 0 <= i < |s| ==> s[i] != 0
  }

  predicate Without(s: seq<Byte>, b: Byte) {
    forall i :: 0 <= i < |s| ==> s[i] != b
  }

  /** *p, for p pointing at offset i */
  function CharAt(s: seq<Byte>, i: nat): Byte
    requires i <= |s|
  {
    if i < |s| then s[i] else 0
  }

  /** The bytes up to the first NUL. */
  function CString(buffer: seq<Byte>): seq<Byte> {
    if buffer == [] || buffer[0] == 0 then [] else [buffer[0]] + CString(buffer[1..])
  }

  lemma {:induction false} CStringNulFree(s: seq<Byte>)
    requires NulFree(s)
    ensures CString(s) == s
  {
    if s != [] {
      CStringNulFree(s[1..]);
    }
  }

  lemma {:induction false} CStringIsNulFree(s: seq<Byte>)
    ensures NulFree(CString(s))
  {
    if s != [] && s[0] != 0 {
      CStringIsNulFree(s[1..]);
    }
  }
}
