/** The LOCATE02 database format: `frcode` writes it, `visit_locate02_format` reads it. */
module Locate02 {
  import opened Wrappers
  import opened Bytes
  import opened LocateBytes

  const ESCAPE: Byte := 0x80
  const ONEBYTE_MIN: int := -127
  const ONEBYTE_MAX: int := 127
  const SHRT_MIN: int := -32768
  const SHRT_MAX: int := 32767
  const INT_MAX: int := 0x7FFF_FFFF

  /** "\0LOCATE02" with its terminating NUL. */
  const MAGIC: seq<Byte> := [0, 76, 79, 67, 65, 84, 69, 48, 50, 0]

  // ---------------------------------------------------------------- frcode

  /** frcode's `prefix_length`, which stops one short of `INT_MAX`. */
  function PrefixCount(prior: Path, path: Path): nat {
    var n := Common(prior, path);
    if n < INT_MAX then n else INT_MAX - 1
  }

  predicate FitsShort(x: int) {
    SHRT_MIN <= x <= SHRT_MAX
  }

  /** The prefix length an entry is written with: none when the difference to the one before
      would not fit into a short. */
  function KeptCount(prior: Path, priorCount: nat, path: Path): nat {
    var count := PrefixCount(prior, path);
    if FitsShort(count - priorCount) then count else 0
  }

  function LowByte(x: int): Byte {
    x % 256
  }

  /** `put_short`: high byte first. The shift rounds down. */
  function ShortBytes(x: int): seq<Byte> {
    [LowByte(x / 256), LowByte(x)]
  }

  /** A count difference: one byte, or the escape and two. */
  function DiffBytes(diff: int): seq<Byte> {
    if diff < ONEBYTE_MIN || diff > ONEBYTE_MAX then [ESCAPE] + ShortBytes(diff)
    else [LowByte(diff)]
  }

  function After(bytes: seq<Byte>, rest: Option<seq<Byte>>): Option<seq<Byte>> {
    if rest.None? then None else Some(bytes + rest.value)
  }

  /** One entry: the count difference, the rest of the name, and its NUL. */
  function EntryBytes(diff: int, suffix: Path): seq<Byte> {
    DiffBytes(diff) + suffix + [0]
  }

  /** One entry after another; `None` when the assertion in `put_short` fails. */
  function Encode(entries: seq<Path>, prior: Path, priorCount: nat): Option<seq<Byte>>
    decreases |entries|
  {
    if entries == [] then Some([])
    else
      var path := entries[0];
      var count := KeptCount(prior, priorCount, path);
      if !FitsShort(count - priorCount) then None
      else After(EntryBytes(count - priorCount, path[count..]), Encode(entries[1..], path, count))
  }

  method PutShort(c: int) returns (ok: bool, bytes: seq<Byte>)
    ensures ok == FitsShort(c)
    ensures ok ==> bytes == ShortBytes(c)
  {
    bytes := [];
    ok := c <= SHRT_MAX && c >= SHRT_MIN;
    if ok {
      bytes := [LowByte(c / 256)];
      bytes := bytes + [LowByte(c)];
    }
  }

  /** The difference as one byte, or as an escape and a short. */
  method PutCount(diffcount: int) returns (ok: bool, bytes: seq<Byte>)
    ensures ok == FitsShort(diffcount)
    ensures ok ==> bytes == DiffBytes(diffcount)
  {
    if diffcount < ONEBYTE_MIN || diffcount > ONEBYTE_MAX {
      bytes := [ESCAPE];
      var short;
      ok, short := PutShort(diffcount);
      bytes := bytes + short;
    } else {
      ok, bytes := true, [LowByte(diffcount)];
    }
  }

  /** How much of the previous path to keep, and by how much that differs from last time. */
  method DifferentialCount(oldpath: Path, oldcount: nat, path: Path) returns (count: int, diffcount: int)
    ensures count == KeptCount(oldpath, oldcount, path) && diffcount == count - oldcount
  {
    var common := PrefixLength(oldpath, path);
    count := if common < INT_MAX then common else INT_MAX - 1;
    diffcount := count - oldcount;
    if diffcount > SHRT_MAX || diffcount < SHRT_MIN {
      count := 0;
      diffcount := 0 - oldcount;
    }
  }

  /** The loop of `main` in frcode.c, from the entries to the bytes written behind the magic
      string. */
  method WriteEntries(entries: seq<Path>) returns (ok: bool, out: seq<Byte>)
    ensures ok == Encode(entries, [], 0).Some?
    ensures ok ==> out == Encode(entries, [], 0).value
  {
    var oldpath: Path, oldcount: int := [], 0;
    out := [];
    var i := 0;
    NothingBefore(Encode(entries, [], 0));
    assert entries[0..] == entries;
    hide Encode, After, KeptCount, FitsShort, EntryBytes, DiffBytes;
    while i < |entries|
      invariant 0 <= i <= |entries| && oldcount >= 0
      invariant Encode(entries, [], 0) == After(out, Encode(entries[i..], oldpath, oldcount))
    {
      var path := entries[i];
      var count, diffcount := DifferentialCount(oldpath, oldcount, path);
      EncodeStep(entries, i, oldpath, oldcount, out);
      oldcount := count;
      var fits, bytes := PutCount(diffcount);
      if !fits {
        return false, out;
      }
      OutGrows(out, diffcount, path[count..]);
      out := out + bytes;
      out := out + path[count..];
      out := out + [0];
      oldpath := path;
      i := i + 1;
    }
    assert entries[i..] == [];
    NothingBehind(entries, i, oldpath, oldcount, out);
    return true, out;
  }

  method Frcode(entries: seq<Path>) returns (ok: bool, out: seq<Byte>)
    ensures ok == Encode(entries, [], 0).Some?
    ensures ok ==> out == MAGIC + Encode(entries, [], 0).value
  {
    out := MAGIC;
    var body;
    ok, body := WriteEntries(entries);
    out := out + body;
  }

  lemma OutGrows(out: seq<Byte>, diff: int, suffix: Path)
    ensures out + DiffBytes(diff) + suffix + [0] == out + EntryBytes(diff, suffix)
  {
  }

  lemma NothingBefore(rest: Option<seq<Byte>>)
    ensures After([], rest) == rest
  {
    if rest.Some? {
      assert [] + rest.value == rest.value;
    }
  }

  lemma NothingBehind(entries: seq<Path>, i: nat, prior: Path, priorCount: nat, body: seq<Byte>)
    requires i == |entries|
    ensures After(body, Encode(entries[i..], prior, priorCount)) == Some(body)
  {
    assert body + [] == body;
  }

  lemma EncodeStep(entries: seq<Path>, i: nat, prior: Path, priorCount: nat, body: seq<Byte>)
    requires i < |entries|
    ensures var count := KeptCount(prior, priorCount, entries[i]);
      After(body, Encode(entries[i..], prior, priorCount))
      == if !FitsShort(count - priorCount) then None
         else After(body + EntryBytes(count - priorCount, entries[i][count..]),
           Encode(entries[i + 1..], entries[i], count))
  {
    assert entries[i..][1..] == entries[i + 1..];
    var count := KeptCount(prior, priorCount, entries[i]);
    var rest := Encode(entries[i + 1..], entries[i], count);
    if FitsShort(count - priorCount) && rest.Some? {
      var bytes := EntryBytes(count - priorCount, entries[i][count..]);
      assert body + (bytes + rest.value) == body + bytes + rest.value;
    }
  }

  // ---------------------------------------------------------------- locate

  /** The fields of `process_data` this format uses. `input` is what is left of the file behind
      the byte `c`; the first `len` bytes of `buf` have been written. */
  datatype Reader = Reader(c: int, count: int, len: nat, buf: seq<Byte>, input: seq<Byte>)

  predicate Valid(r: Reader) {
    EOF <= r.c < 256 && r.len <= |r.buf|
  }

  function SignedChar(c: int): int {
    if c > 127 then c - 256 else c
  }

  /** `get_short`, also past the end of the file. */
  function GetShort(input: seq<Byte>): (int, seq<Byte>) {
    var (hi, rest) := GetC(input);
    var (lo, rest2) := GetC(rest);
    (SignedChar(hi) * 256 + LowByte(lo), rest2)
  }

  /** `getdelim` up to and including a NUL; nothing when there is no more input. */
  function ReadRecord(input: seq<Byte>): (seq<Byte>, seq<Byte>) {
    var n := NulIndex(input);
    if n < |input| then (input[..n + 1], input[n + 1..]) else (input, [])
  }

  /** What a visitor answers: go on with the next entry, stop, or end the program because the
      database is corrupt. */
  datatype Visit = Continue(r: Reader) | Abort | Corrupt

  /** The count read for the next entry, and the input behind it. */
  function NextCount(r: Reader): (int, seq<Byte>) {
    if r.c == ESCAPE then
      var (x, rest) := GetShort(r.input);
      (r.count + x, rest)
    else (r.count + SignedChar(r.c), r.input)
  }

  /** `visit_locate02_format` on a database that is not slocate's. */
  function VisitEntry(r: Reader): (v: Visit)
    requires Valid(r)
    ensures v.Continue? ==> Valid(v.r) && |v.r.input| <= |r.input| && (v.r.c != EOF ==> |v.r.input| < |r.input|)
  {
    var (count, rest) := NextCount(r);
    if count > r.len || count < 0 then Corrupt
    else if rest == [] then Abort
    else
      var (data, rest2) := ReadRecord(rest);
      var (c, rest3) := GetC(rest2);
      Continue(Reader(c, count, count + |data|, Overlay(r.buf, count, data), rest3))
  }

  /** The names handed to the other visitors by the loop of `search_one_database`, and whether
      the database was found corrupt. */
  function Search(r: Reader): (seq<Path>, bool)
    requires Valid(r)
    decreases |r.input|, r.c != EOF
  {
    if r.c == EOF then ([], false)
    else
      match VisitEntry(r)
      case Corrupt => ([], true)
      case Abort => ([], false)
      case Continue(r') =>
        var (names, corrupt) := Search(r');
        ([CString(r'.buf)] + names, corrupt)
  }

  /** The reader once the magic string has been read into its buffer. */
  function Start(file: seq<Byte>): Reader
    requires |file| >= |MAGIC|
  {
    var (c, rest) := GetC(file[|MAGIC|..]);
    Reader(c, 0, 0, file[..|MAGIC|], rest)
  }
}
