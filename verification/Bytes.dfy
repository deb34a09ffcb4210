/** Bytes and C strings. */
module Bytes {

  type Byte = b: int | 0 <= b < 256

  /** The bytes of a string, without the terminator. */
  type Text = seq<Byte>

  predicate NulFree(s: Text) {
    0 !in s
  }

  /** Index of the first NUL, or the length. */
  function NulIndex(s: seq<Byte>): (n: nat)
    ensures n <= |s|
    ensures NulFree(s[..n])
    ensures n < |s| ==> s[n] == 0
  {
    if s == [] || s[0] == 0 then 0 else 1 + NulIndex(s[1..])
  }

  /** The C string at the start of a buffer. */
  function CString(buf: seq<Byte>): Text {
    buf[..NulIndex(buf)]
  }

  lemma {:induction false} NulIndexOf(s: Text, rest: seq<Byte>)
    requires NulFree(s)
    ensures NulIndex(s + [0] + rest) == |s|
    decreases |s|
  {
    if s != [] {
      NulIndexOf(s[1..], rest);
      assert (s + [0] + rest)[1..] == s[1..] + [0] + rest;
      assert s[0] in s;
    }
  }

  lemma CStringOf(s: Text, rest: seq<Byte>)
    requires NulFree(s)
    ensures CString(s + [0] + rest) == s
  {
    NulIndexOf(s, rest);
  }
}
