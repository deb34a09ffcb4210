/** Reading what frcode wrote gives the entries back. */
module Locate02Theorem {
  import opened Wrappers
  import opened Bytes
  import opened LocateBytes
  import opened Locate02

  // ---------------------------------------------------------------- numbers

  lemma LowByteSigned(x: int)
    requires -128 <= x <= 127
    ensures SignedChar(LowByte(x)) == x
  {
    if x >= 0 {
      assert LowByte(x) == x;
    } else {
      assert x % 256 == x + 256;
    }
  }

  /** `get_short` undoes `put_short`, two's complement included. */
  lemma ShortRoundTrip(x: int, rest: seq<Byte>)
    requires FitsShort(x)
    ensures GetShort(ShortBytes(x) + rest) == (x, rest)
  {
    var s := ShortBytes(x) + rest;
    assert s[0] == LowByte(x / 256) && s[1..][0] == LowByte(x) && s[1..][1..] == rest;
    LowByteSigned(x / 256);
    assert LowByte(LowByte(x)) == LowByte(x);
    assert x == 256 * (x / 256) + x % 256;
  }

  /** A count difference is read back, whether it took one byte or three; the one-byte form is
      never the escape. */
  lemma CountReadBack(r: Reader, diff: int, rest: seq<Byte>)
    requires Valid(r) && FitsShort(diff)
    requires Ahead(r.c, r.input) == DiffBytes(diff) + rest
    ensures NextCount(r) == (r.count + diff, rest)
  {
    var all := DiffBytes(diff) + rest;
    assert r.c == all[0] && r.input == all[1..];
    if diff < ONEBYTE_MIN || diff > ONEBYTE_MAX {
      assert all[1..] == ShortBytes(diff) + rest;
      ShortRoundTrip(diff, rest);
    } else {
      LowByteSigned(diff);
      assert LowByte(diff) != ESCAPE;
      assert all[1..] == rest;
    }
  }

  lemma RecordReadBack(suffix: Path, rest: seq<Byte>)
    requires NulFree(suffix)
    ensures ReadRecord(suffix + [0] + rest) == (suffix + [0], rest)
  {
    NulIndexOf(suffix, rest);
    var s := suffix + [0] + rest;
    assert s[..|suffix| + 1] == suffix + [0] && s[|suffix| + 1..] == rest;
  }

  // ---------------------------------------------------------------- one entry

  /** The reader is where the writer was after the entry `prior`. */
  ghost predicate InStep(r: Reader, prior: Path, priorCount: nat) {
    && Valid(r) && r.count == priorCount
    && |prior| <= r.len && r.buf[..|prior|] == prior
  }

  lemma OverlayEntry(buf: seq<Byte>, prior: Path, count: nat, path: Path)
    requires |prior| <= |buf| && buf[..|prior|] == prior
    requires count <= |prior| && count <= |path| && prior[..count] == path[..count] && NulFree(path)
    ensures var after := Overlay(buf, count, path[count..] + [0]);
      CString(after) == path && |path| + 1 <= |after| && after[..|path|] == path
  {
    var data := path[count..] + [0];
    var after := Overlay(buf, count, data);
    assert buf[..count] == prior[..count];
    assert path == path[..count] + path[count..];
    var tail := if count + |data| < |buf| then buf[count + |data|..] else [];
    assert after == path + [0] + tail;
    CStringOf(path, tail);
  }

  lemma KeptCountFacts(prior: Path, priorCount: nat, path: Path)
    ensures var n := KeptCount(prior, priorCount, path);
      n <= |prior| && n <= |path| && prior[..n] == path[..n]
  {
    var m := Common(prior, path);
    var n := KeptCount(prior, priorCount, path);
    assert prior[..m][..n] == path[..m][..n];
  }

  lemma ReadsEntry(r: Reader, prior: Path, priorCount: nat, path: Path, rest: seq<Byte>)
    requires InStep(r, prior, priorCount) && NulFree(path)
    requires var count := KeptCount(prior, priorCount, path);
      FitsShort(count - priorCount)
      && Ahead(r.c, r.input) == EntryBytes(count - priorCount, path[count..]) + rest
    ensures var count := KeptCount(prior, priorCount, path);
      var v := VisitEntry(r);
      r.c != EOF && v.Continue? && InStep(v.r, path, count) && CString(v.r.buf) == path
        && Ahead(v.r.c, v.r.input) == rest
  {
    var count := KeptCount(prior, priorCount, path);
    var suffix := path[count..];
    KeptCountFacts(prior, priorCount, path);
    var behind := suffix + [0] + rest;
    assert EntryBytes(count - priorCount, suffix) + rest == DiffBytes(count - priorCount) + behind;
    CountReadBack(r, count - priorCount, behind);
    assert forall b | b in suffix :: b in path;
    RecordReadBack(suffix, rest);
    OverlayEntry(r.buf, prior, count, path);
    GetCAhead(rest);
  }

  // ---------------------------------------------------------------- whole databases

  lemma {:induction false} ReadsAll(entries: seq<Path>, prior: Path, priorCount: nat, r: Reader)
    requires Valid(r)
    requires InStep(r, prior, priorCount) && forall p | p in entries :: NulFree(p)
    requires Encode(entries, prior, priorCount) == Some(Ahead(r.c, r.input))
    ensures Search(r) == (entries, false)
    decreases |entries|
  {
    hide EntryBytes, InStep, VisitEntry, Encode, Search, Ahead, CString;
    if entries == [] {
      EncodeNil(prior, priorCount);
      SearchNil(r);
    } else {
      var path, others := entries[0], entries[1..];
      assert path in entries && forall p | p in others :: p in entries;
      EncodeCons(entries, prior, priorCount);
      var count := KeptCount(prior, priorCount, path);
      ReadsEntry(r, prior, priorCount, path, Encode(others, path, count).value);
      SearchCons(r);
      ReadsAll(others, path, count, VisitEntry(r).r);
      assert entries == [path] + others;
    }
  }

  lemma SearchNil(r: Reader)
    requires Valid(r) && Ahead(r.c, r.input) == []
    ensures Search(r) == ([], false)
  {
  }

  lemma SearchCons(r: Reader)
    requires Valid(r) && r.c != EOF && VisitEntry(r).Continue?
    ensures var r' := VisitEntry(r).r;
      var (names, corrupt) := Search(r');
      Valid(r') && Search(r) == ([CString(r'.buf)] + names, corrupt)
  {
  }

  lemma EncodeNil(prior: Path, priorCount: nat)
    ensures Encode([], prior, priorCount) == Some([])
  {
  }

  lemma EncodeCons(entries: seq<Path>, prior: Path, priorCount: nat)
    requires entries != [] && Encode(entries, prior, priorCount).Some?
    ensures var count := KeptCount(prior, priorCount, entries[0]);
      var rest := Encode(entries[1..], entries[0], count);
      && FitsShort(count - priorCount) && rest.Some?
      && Encode(entries, prior, priorCount).value == EntryBytes(count - priorCount, entries[0][count..]) + rest.value
  {
  }

  /** Round trip: whatever frcode manages to write, locate reads back entry for entry, in any
      order and of any length, and never finds it corrupt. */
  lemma RoundTrip(entries: seq<Path>)
    requires forall p | p in entries :: NulFree(p)
    requires Encode(entries, [], 0).Some?
    ensures Search(Start(MAGIC + Encode(entries, [], 0).value)) == (entries, false)
  {
    var body := Encode(entries, [], 0).value;
    var file := MAGIC + body;
    assert file[|MAGIC|..] == body;
    GetCAhead(body);
    ReadsAll(entries, [], 0, Start(file));
  }

  // ---------------------------------------------------------------- when frcode can write

  /** An entry stops frcode exactly when its prefix would have to be dropped to nothing from a
      prefix too long to say so in a short. */
  predicate TooFarBack(prior: Path, priorCount: nat, path: Path) {
    priorCount > 32768 && !FitsShort(PrefixCount(prior, path) - priorCount)
  }

  predicate NeverTooFar(entries: seq<Path>, prior: Path, priorCount: nat)
    decreases |entries|
  {
    entries == [] ||
    (!TooFarBack(prior, priorCount, entries[0])
     && NeverTooFar(entries[1..], entries[0], KeptCount(prior, priorCount, entries[0])))
  }

  lemma {:induction false} EncodeExact(entries: seq<Path>, prior: Path, priorCount: nat)
    requires priorCount <= |prior|
    ensures Encode(entries, prior, priorCount).Some? <==> NeverTooFar(entries, prior, priorCount)
    decreases |entries|
  {
    if entries != [] {
      KeptCountFacts(prior, priorCount, entries[0]);
      EncodeExact(entries[1..], entries[0], KeptCount(prior, priorCount, entries[0]));
    }
  }

  lemma CommonOfPrefix(p: Path, q: Path)
    requires p <= q
    ensures Common(p, q) == |p| && PrefixCount(p, q) == if |p| < INT_MAX then |p| else INT_MAX - 1
  {
    assert forall i | 0 <= i < |p| :: p[i] == q[i];
  }

  /** frcode does stop. The prefix kept can be brought above 32768 bytes in two steps, by names
      that extend each other and a repetition; a name that shares too little then ends it. */
  lemma LongPrefixStops(p: Path, q: Path, r: Path)
    requires p <= q && |p| <= SHRT_MAX && 32768 < |q| <= |p| + SHRT_MAX
    requires Common(q, r) + 32768 < |q|
    ensures Encode([p, q, q, r], [], 0).None?
  {
    CommonOfPrefix(p, q);
    CommonOfPrefix(q, q);
    assert [p, q, q, r][1..] == [q, q, r] && [q, q, r][1..] == [q, r] && [q, r][1..] == [r];
    assert KeptCount([], 0, p) == 0;
    assert KeptCount(p, 0, q) == |p| && KeptCount(q, |p|, q) == |q|;
    assert KeptCount(q, |q|, r) == 0;
    assert Encode([r], q, |q|).None?;
    assert Encode([q, r], q, |p|).None?;
    assert Encode([q, q, r], p, 0).None?;
  }

  /** Names made of one byte over and over are enough. */
  lemma RepeatedByteStops(x: Byte, y: Byte, m: nat, n: nat)
    requires x != y && 0 !in {x, y} && m <= SHRT_MAX && 32768 < n <= m + SHRT_MAX
    ensures var p, q: Path := seq(m, i => x), seq(n, i => x);
      && (forall s | s in [p, q, q, [y]] :: NulFree(s))
      && Encode([p, q, q, [y]], [], 0).None? && !NeverTooFar([p, q, q, [y]], [], 0)
  {
    var p, q: Path := seq(m, i => x), seq(n, i => x);
    assert p == q[..m];
    LongPrefixStops(p, q, [y]);
    EncodeExact([p, q, q, [y]], [], 0);
  }

  lemma {:induction false} ShortEntriesEncode(entries: seq<Path>, prior: Path, priorCount: nat)
    requires priorCount <= |prior| <= 32768 && forall p | p in entries :: |p| <= 32768
    ensures Encode(entries, prior, priorCount).Some?
    decreases |entries|
  {
    if entries != [] {
      assert entries[0] in entries;
      KeptCountFacts(prior, priorCount, entries[0]);
      ShortEntriesEncode(entries[1..], entries[0], KeptCount(prior, priorCount, entries[0]));
    }
  }

  /** Entries of up to 32768 bytes always make the round trip. */
  lemma ShortEntriesRoundTrip(entries: seq<Path>)
    requires forall p | p in entries :: NulFree(p) && |p| <= 32768
    ensures Encode(entries, [], 0).Some?
    ensures Search(Start(MAGIC + Encode(entries, [], 0).value)) == (entries, false)
  {
    ShortEntriesEncode(entries, [], 0);
    RoundTrip(entries);
  }

  /** The length the reader keeps counts the terminator: the byte it calls the last of the name, and
      asserts not to be NUL, is one exactly when the record is complete. */
  lemma LengthCountsTerminator(r: Reader)
    requires Valid(r) && VisitEntry(r).Continue?
    ensures var r' := VisitEntry(r).r;
      r'.len >= 1 && (r'.buf[r'.len - 1] == 0 <==> 0 in NextCount(r).1)
  {
    var rest := NextCount(r).1;
    if 0 in rest {
      NulIndexFinds(rest);
    } else {
      NulIndexMisses(rest);
      assert rest[|rest| - 1] in rest;
    }
  }

  lemma {:induction false} NulIndexFinds(s: seq<Byte>)
    requires 0 in s
    ensures NulIndex(s) < |s|
  {
    if s[0] != 0 {
      NulIndexFinds(s[1..]);
    }
  }

  lemma {:induction false} NulIndexMisses(s: seq<Byte>)
    requires 0 !in s
    ensures NulIndex(s) == |s|
  {
    if s != [] {
      assert s[0] in s;
      NulIndexMisses(s[1..]);
    }
  }

  /** Every record as frcode writes it is complete, so it fails the assertion. */
  lemma RecordFailsAssertion(r: Reader, prior: Path, priorCount: nat, path: Path, rest: seq<Byte>)
    requires InStep(r, prior, priorCount) && NulFree(path)
    requires var count := KeptCount(prior, priorCount, path);
      FitsShort(count - priorCount)
      && Ahead(r.c, r.input) == EntryBytes(count - priorCount, path[count..]) + rest
    ensures var v := VisitEntry(r);
      v.Continue? && v.r.len >= 1 && v.r.buf[v.r.len - 1] == 0
  {
    hide DiffBytes, NextCount, VisitEntry, Ahead, KeptCount, FitsShort;
    var count := KeptCount(prior, priorCount, path);
    KeptCountFacts(prior, priorCount, path);
    ReadsEntry(r, prior, priorCount, path, rest);
    var diff, suffix := count - priorCount, path[count..];
    var behind := suffix + [0] + rest;
    assert EntryBytes(diff, suffix) + rest == DiffBytes(diff) + behind;
    CountReadBack(r, diff, behind);
    assert behind[|suffix|] == 0;
    LengthCountsTerminator(r);
  }

  /** So every database that frcode writes, unless it is empty, fails it at its first record. */
  lemma FirstRecordFailsAssertion(entries: seq<Path>)
    requires entries != [] && NulFree(entries[0]) && Encode(entries, [], 0).Some?
    ensures var v := VisitEntry(Start(MAGIC + Encode(entries, [], 0).value));
      v.Continue? && v.r.len >= 1 && v.r.buf[v.r.len - 1] == 0
  {
    hide Encode, EntryBytes, NextCount, VisitEntry, Ahead, KeptCount, FitsShort;
    var body := Encode(entries, [], 0).value;
    var file := MAGIC + body;
    assert file[|MAGIC|..] == body;
    GetCAhead(body);
    EncodeCons(entries, [], 0);
    var count := KeptCount([], 0, entries[0]);
    RecordFailsAssertion(Start(file), [], 0, entries[0], Encode(entries[1..], entries[0], count).value);
  }

  // ---------------------------------------------------------------- what is written

  /** A difference of counts: one signed byte, or 128 and two bytes of two's complement, the high
      one first. */
  predicate DiffWritten(diff: int, out: seq<Byte>) {
    if -127 <= diff <= 127 then out == [if diff < 0 then diff + 256 else diff]
    else |out| == 3 && out[0] == 128 && (out[1] as int) * 256 + out[2] == if diff < 0 then diff + 65536 else diff
  }

  /** One entry keeps as much of the one before as they have in common and an int can tell, or
      nothing where the difference is no short; the rest follows with its NUL. */
  ghost predicate EntryWritten(prior: Path, priorCount: nat, path: Path, count: nat, out: seq<Byte>) {
    && Kept(prior, priorCount, path, count) && count <= |path|
    && exists k: nat | k <= |out| :: DiffWritten(count - priorCount, out[..k]) && out[k..] == path[count..] + [0]
  }

  predicate Kept(prior: Path, priorCount: nat, path: Path, count: nat) {
    var common := if Common(prior, path) < 0x7FFF_FFFF then Common(prior, path) else 0x7FFF_FFFE;
    count == if -32768 <= common - priorCount <= 32767 then common else 0
  }

  ghost predicate ListWritten(entries: seq<Path>, prior: Path, priorCount: nat, out: seq<Byte>)
    decreases |entries|
  {
    if entries == [] then out == []
    else exists k: nat, count: nat | k <= |out| ::
        && EntryWritten(prior, priorCount, entries[0], count, out[..k])
        && ListWritten(entries[1..], entries[0], count, out[k..])
  }

  lemma DiffIsWritten(diff: int)
    requires FitsShort(diff)
    ensures DiffWritten(diff, DiffBytes(diff))
  {
  }

  lemma EntryIsWritten(prior: Path, priorCount: nat, path: Path)
    ensures var count := KeptCount(prior, priorCount, path);
      count <= |path| && (FitsShort(count - priorCount) ==>
        EntryWritten(prior, priorCount, path, count, EntryBytes(count - priorCount, path[count..])))
  {
    var count := KeptCount(prior, priorCount, path);
    assert Kept(prior, priorCount, path, count) && count <= |path|;
    if FitsShort(count - priorCount) {
      DiffIsWritten(count - priorCount);
      hide DiffBytes, DiffWritten, Kept, KeptCount;
      var head, rest := DiffBytes(count - priorCount), path[count..] + [0];
      HeadAndRest(head, path[count..]);
      assert DiffWritten(count - priorCount, (head + path[count..] + [0])[..|head|]);
    }
  }

  lemma HeadAndRest(head: seq<Byte>, suffix: Path)
    ensures (head + suffix + [0])[..|head|] == head && (head + suffix + [0])[|head|..] == suffix + [0]
  {
  }

  /** What frcode writes behind the magic string, entry by entry. */
  lemma {:induction false} ListIsWritten(entries: seq<Path>, prior: Path, priorCount: nat)
    requires Encode(entries, prior, priorCount).Some?
    ensures ListWritten(entries, prior, priorCount, Encode(entries, prior, priorCount).value)
    decreases |entries|
  {
    if entries != [] {
      hide EntryWritten, EntryBytes, KeptCount, ListWritten;
      EncodeCons(entries, prior, priorCount);
      var path := entries[0];
      var count := KeptCount(prior, priorCount, path);
      EntryIsWritten(prior, priorCount, path);
      ListIsWritten(entries[1..], path, count);
      OneMoreWritten(entries, prior, priorCount, count, EntryBytes(count - priorCount, path[count..]),
                     Encode(entries[1..], path, count).value);
    } else {
      NoneWritten(prior, priorCount);
    }
  }

  lemma NoneWritten(prior: Path, priorCount: nat)
    ensures ListWritten([], prior, priorCount, [])
  {
  }

  lemma OneMoreWritten(entries: seq<Path>, prior: Path, priorCount: nat, count: nat, a: seq<Byte>, b: seq<Byte>)
    requires entries != [] && EntryWritten(prior, priorCount, entries[0], count, a)
    requires ListWritten(entries[1..], entries[0], count, b)
    ensures ListWritten(entries, prior, priorCount, a + b)
  {
    hide EntryWritten;
    assert (a + b)[..|a|] == a && (a + b)[|a|..] == b;
    assert EntryWritten(prior, priorCount, entries[0], count, (a + b)[..|a|]);
  }
}
