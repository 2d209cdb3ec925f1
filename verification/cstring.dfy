/** Byte strings and the C-string view of them (`c_str()`, `strlen`, `strcmp`). */
module CString {

  newtype byte = x: int | 0 <= x < 256

  /** The contents of a `std::string`: any bytes, NUL included. */
  type Bytes = seq<byte>

  /** The C terminator. */
  const NUL: byte := 0

  /** `strlen(s.c_str())`: the number of bytes before the first NUL, or all of them. */
  function StrLen(s: Bytes): (n: nat)
    ensures n <= |s|
    ensures forall i :: 0 <= i < n ==> s[i] != NUL
    ensures n < |s| ==> s[n] == NUL
  {
    if |s| == 0 || s[0] == NUL then 0 else 1 + StrLen(s[1..])
  }

  /** The text a C function sees through `s.c_str()`: the bytes before the first NUL. */
  function CStr(s: Bytes): Bytes
  {
    s[..StrLen(s)]
  }

  /** No NUL byte occurs in `s`. */
  predicate NulFree(s: Bytes)
  {
    forall i :: 0 <= i < |s| ==> s[i] != NUL
  }

  /** The two properties of `StrLen` determine it: it is the position of the first NUL. */
  lemma StrLenUnique(s: Bytes, n: nat)
    requires n <= |s|
    requires forall i :: 0 <= i < n ==> s[i] != NUL
    requires n < |s| ==> s[n] == NUL
    ensures StrLen(s) == n
  {
  }

  /** A string without NUL is seen whole through `c_str()`. */
  lemma CStrOfNulFree(s: Bytes)
    requires NulFree(s)
    ensures StrLen(s) == |s|
    ensures CStr(s) == s
  {
    StrLenUnique(s, |s|);
  }

  /** `c_str()` stops at an embedded NUL: whatever follows it is invisible. */
  lemma CStrStopsAtNul(a: Bytes, rest: Bytes)
    requires NulFree(a)
    ensures StrLen(a + [NUL] + rest) == |a|
    ensures CStr(a + [NUL] + rest) == a
  {
    var s := a + [NUL] + rest;
    assert forall i :: 0 <= i < |a| ==> s[i] == a[i];
    StrLenUnique(s, |a|);
    assert s[..|a|] == a;
  }
}
