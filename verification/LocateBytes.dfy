/** Streams and the front coding that both database formats share. */
module LocateBytes {
  import opened Bytes

  type Path = Text

  // ---------------------------------------------------------------- streams

  const EOF: int := -1

  /** `getc`. */
  function GetC(input: seq<Byte>): (int, seq<Byte>) {
    if input == [] then (EOF, []) else (input[0], input[1..])
  }

  /** What `locate` has still to look at: the byte already fetched, and the rest. */
  function Ahead(c: int, input: seq<Byte>): seq<Byte>
    requires EOF <= c < 256
  {
    if c == EOF then [] else [c] + input
  }

  lemma GetCAhead(input: seq<Byte>)
    ensures var (c, rest) := GetC(input); Ahead(c, rest) == input
  {
  }

  /** A buffer in which data has been written over what it held, from one place on. */
  function Overlay(buf: seq<Byte>, at: nat, data: seq<Byte>): seq<Byte>
    requires at <= |buf|
  {
    buf[..at] + data + if at + |data| < |buf| then buf[at + |data|..] else []
  }

  // ---------------------------------------------------------------- prefixes

  /** The longest common prefix of two strings. */
  function Common(s: Path, t: Path): (n: nat)
    ensures n <= |s| && n <= |t| && s[..n] == t[..n]
    ensures n < |s| && n < |t| ==> s[n] != t[n]
  {
    if s == [] || t == [] || s[0] != t[0] then 0
    else
      var n := 1 + Common(s[1..], t[1..]);
      assert s[..n] == [s[0]] + s[1..][..n - 1];
      assert t[..n] == [t[0]] + t[1..][..n - 1];
      n
  }

  /** `prefix_length` on NUL-terminated buffers. */
  method PrefixLength(s: Path, t: Path) returns (n: nat)
    ensures n == Common(s, t)
  {
    n := 0;
    while n < |s| && n < |t| && s[n] == t[n]
      invariant n <= |s| && n <= |t|
      invariant Common(s, t) == n + Common(s[n..], t[n..])
    {
      assert s[n..][1..] == s[n + 1..] && t[n..][1..] == t[n + 1..];
      n := n + 1;
    }
  }
}
