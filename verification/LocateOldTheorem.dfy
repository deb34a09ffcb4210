/** Reading an old-format database back, and exactly when that works. */
module LocateOldTheorem {
  import opened Bytes
  import opened LocateWord
  import opened Words
  import opened LocateBytes
  import opened LocateOld

  // ---------------------------------------------------------------- text

  predicate AllPrintable(s: Path) {
    forall b | b in s :: Printable(b)
  }

  lemma SquelchPrints(path: Path)
    ensures AllPrintable(Squelch(path)) && NulFree(Squelch(path))
  {
    var s := Squelch(path);
    forall b | b in s
      ensures Printable(b)
    {
      var i :| 0 <= i < |s| && s[i] == b;
    }
  }

  /** What can follow a name: nothing, or a byte that only a count begins with. */
  predicate EndsText(rest: seq<Byte>) {
    rest == [] || rest[0] <= OLD_ESCAPE
  }

  lemma ReadPlain(table: Table, a: Byte, rest: seq<Byte>)
    requires OLD_ESCAPE < a < 128
    ensures var (text, c, tail) := ReadText(table, rest);
      ReadText(table, [a] + rest) == ([a] + text, c, tail)
  {
    assert ([a] + rest)[1..] == rest;
  }

  lemma ReadCode(table: Table, k: nat, rest: seq<Byte>)
    requires k < 128
    ensures var (text, c, tail) := ReadText(table, rest);
      ReadText(table, [128 + k] + rest) == ([table[2 * k], table[2 * k + 1]] + text, c, tail)
  {
    assert ([128 + k] + rest)[1..] == rest;
  }

  /** A pair comes back, whether it went out as a code or as two letters. */
  lemma ReadPair(table: Table, a: Byte, b: Byte, rest: seq<Byte>)
    requires Printable(a) && Printable(b)
    ensures var (text, c, tail) := ReadText(table, rest);
      ReadText(table, PairBytes(table, a, b) + rest) == ([a, b] + text, c, tail)
  {
    var k := StrIndex(table, a, b, 0);
    if k >= 0 && k % 2 == 0 {
      ReadCode(table, k / 2, rest);
    } else {
      ReadPlain(table, b, rest);
      ReadPlain(table, a, [b] + rest);
      assert [a, b] + rest == [a] + ([b] + rest);
      var (text, c, tail) := ReadText(table, rest);
      assert [a] + ([b] + text) == [a, b] + text;
    }
  }

  /** Text bytes, codes and count bytes are never taken for one another. */
  lemma {:induction false} TextReadBack(table: Table, text: Path, rest: seq<Byte>)
    requires AllPrintable(text) && EndsText(rest)
    ensures var (c, tail) := GetC(rest);
      ReadText(table, TextBytes(table, text) + rest) == (text, c, tail)
    decreases |text|
  {
    if |text| == 0 {
      assert TextBytes(table, text) + rest == rest;
    } else if |text| == 1 {
      assert text[0] in text;
      ReadPlain(table, text[0], rest);
      assert text == [text[0]] + [];
    } else {
      var a, b, others := text[0], text[1], text[2..];
      assert a in text && b in text && forall x | x in others :: x in text;
      TextReadBack(table, others, rest);
      ReadPair(table, a, b, TextBytes(table, others) + rest);
      SplitsText(table, text, rest);
    }
  }

  lemma SplitsText(table: Table, text: Path, rest: seq<Byte>)
    requires |text| >= 2
    ensures TextBytes(table, text) + rest
         == PairBytes(table, text[0], text[1]) + (TextBytes(table, text[2..]) + rest)
    ensures text == [text[0], text[1]] + text[2..]
  {
    hide PairBytes;
    var a, b := PairBytes(table, text[0], text[1]), TextBytes(table, text[2..]);
    assert TextBytes(table, text) == a + b;
    assert (a + b) + rest == a + (b + rest);
  }

  // ---------------------------------------------------------------- counts

  /** The word an entry is written with, against the bound it is read with. */
  function EntryWord(prior: Path, priorCount: nat, count: nat): Word
    requires priorCount <= MAX_NAME && count <= MAX_NAME
  {
    var at := priorCount - OLD_OFFSET;
    Word(count - priorCount + OLD_OFFSET, if at >= 0 then |prior| - at else |prior|)
  }

  /** The byte order believed after an entry. */
  function NextState(prior: Path, priorCount: nat, count: nat, state: State): State
    requires priorCount <= MAX_NAME && count <= MAX_NAME
  {
    if state == Native || (!OneByte(count - priorCount) && ConfirmsNative(EntryWord(prior, priorCount, count)))
    then Native else Initial
  }

  /** The entry is taken to be of the other byte order. */
  predicate EntryMisleads(prior: Path, priorCount: nat, count: nat, state: State)
    requires priorCount <= MAX_NAME && count <= MAX_NAME
  {
    state == Initial && !OneByte(count - priorCount) && Misleads(EntryWord(prior, priorCount, count))
  }

  ghost predicate InStep(r: Reader, prior: Path, priorCount: nat) {
    && Valid(r) && r.count == priorCount && r.len == |prior| && r.buf[..|prior|] == prior
    && priorCount <= |prior| <= MAX_NAME
  }

  lemma OneByteReadBack(r: Reader, prior: Path, priorCount: nat, count: nat, rest: seq<Byte>, host: Endian)
    requires InStep(r, prior, priorCount) && count <= MAX_NAME && OneByte(count - priorCount)
    requires Ahead(r.c, r.input) == CountBytes(count - priorCount, host) + rest
    ensures r.c != EOF && NextCount(r, host) == Read(count, rest, r.state)
  {
    var all := CountBytes(count - priorCount, host) + rest;
    assert r.c == all[0] && r.input == all[1..];
    assert all[1..] == rest;
  }

  lemma WordReadBack(r: Reader, prior: Path, priorCount: nat, count: nat, rest: seq<Byte>, host: Endian)
    requires InStep(r, prior, priorCount) && r.state != Swab && count <= MAX_NAME && !OneByte(count - priorCount)
    requires Ahead(r.c, r.input) == CountBytes(count - priorCount, host) + rest
    ensures var w := EntryWord(prior, priorCount, count);
      && r.c != EOF
      && NextCount(r, host) ==
         if EntryMisleads(prior, priorCount, count, r.state)
         then Read(priorCount - OLD_OFFSET + Bswap(w.value), rest, Swab)
         else Read(count, rest, NextState(prior, priorCount, count, r.state))
  {
    hide WordBytes, Value, Bswap;
    var w := EntryWord(prior, priorCount, count);
    var four := WordBytes(w.value, host);
    var all := [OLD_ESCAPE] + four + rest;
    assert r.c == all[0] && r.input == all[1..];
    assert all[1..] == four + rest;
    assert (four + rest)[..4] == four && (four + rest)[4..] == rest;
    ReadBack(w.value, host, host);
  }

  // ---------------------------------------------------------------- one entry

  lemma OverlayEntry(buf: seq<Byte>, prior: Path, at: nat, text: Path)
    requires |prior| <= |buf| && buf[..|prior|] == prior && at <= |prior|
    requires NulFree(prior) && NulFree(text)
    ensures var after := Overlay(buf, at, text + [0]);
      var name := prior[..at] + text;
      CString(after) == name && |name| < |after| && after[..|name|] == name && after[|name|] == 0
  {
    var name := prior[..at] + text;
    var after := Overlay(buf, at, text + [0]);
    assert buf[..at] == prior[..at];
    var tail := if at + |text + [0]| < |buf| then buf[at + |text + [0]|..] else [];
    assert after == name + [0] + tail;
    CStringOf(name, tail);
  }

  /** What the next entry looks like to the reader, in a database of the order `writer`. */
  ghost predicate FacesEntry(table: Table, r: Reader, prior: Path, priorCount: nat, path: Path, rest: seq<Byte>,
                             writer: Endian)
  {
    && InStep(r, prior, priorCount) && NulFree(prior) && NulFree(path) && AllPrintable(path) && |path| <= MAX_NAME
    && EndsText(rest)
    && Ahead(r.c, r.input) == EntryBytes(table, prior, priorCount, path, writer) + rest
  }

  lemma VisitsEntry(table: Table, r: Reader, prior: Path, priorCount: nat, path: Path, rest: seq<Byte>, at: int,
                    state: State, writer: Endian, host: Endian)
    requires FacesEntry(table, r, prior, priorCount, path, rest, writer)
    requires var suffix := path[Common(prior, path)..];
      r.c != EOF && NextCount(r, host) == Read(at, TextBytes(table, suffix) + rest, state)
    requires at <= |prior|
    ensures var v := VisitEntry(table, r, host);
      var suffix := path[Common(prior, path)..];
      if at < 0 then v.Exit?
      else
        var name := prior[..at] + suffix;
        v.Continue? && Valid(v.r) && CString(v.r.buf) == name
        && v.r.count == at && v.r.len == |name| < |v.r.buf| && v.r.buf[..|name|] == name && v.r.buf[|name|] == 0
        && v.r.state == state
        && Ahead(v.r.c, v.r.input) == rest
  {
    if at >= 0 {
      var suffix := path[Common(prior, path)..];
      assert forall b | b in suffix :: b in path;
      TextReadBack(table, suffix, rest);
      OverlayEntry(r.buf, prior, at, suffix);
      GetCAhead(rest);
    }
  }

  lemma SplitsEntry(table: Table, prior: Path, priorCount: nat, path: Path, rest: seq<Byte>, host: Endian)
    requires |path| <= MAX_NAME && priorCount <= MAX_NAME
    ensures var count := Common(prior, path);
      EntryBytes(table, prior, priorCount, path, host) + rest
      == CountBytes(count - priorCount, host) + (TextBytes(table, path[count..]) + rest)
  {
    hide CountBytes, TextBytes;
    var count := Common(prior, path);
    var a, b := CountBytes(count - priorCount, host), TextBytes(table, path[count..]);
    assert (a + b) + rest == a + (b + rest);
  }

  lemma ReadsEntry(table: Table, r: Reader, prior: Path, priorCount: nat, path: Path, rest: seq<Byte>, host: Endian)
    requires FacesEntry(table, r, prior, priorCount, path, rest, host) && r.state != Swab
    requires !EntryMisleads(prior, priorCount, Common(prior, path), r.state)
    ensures var count := Common(prior, path);
      var v := VisitEntry(table, r, host);
      && r.c != EOF && v.Continue? && InStep(v.r, path, count) && CString(v.r.buf) == path
      && Ahead(v.r.c, v.r.input) == rest && v.r.state == NextState(prior, priorCount, count, r.state) != Swab
  {
    hide CountBytes, TextBytes, EntryBytes, NextCount, VisitEntry, Ahead;
    var count := Common(prior, path);
    var behind := TextBytes(table, path[count..]) + rest;
    SplitsEntry(table, prior, priorCount, path, rest, host);
    if OneByte(count - priorCount) {
      OneByteReadBack(r, prior, priorCount, count, behind, host);
    } else {
      WordReadBack(r, prior, priorCount, count, behind, host);
    }
    VisitsEntry(table, r, prior, priorCount, path, rest, count, NextState(prior, priorCount, count, r.state), host,
      host);
    assert prior[..count] + path[count..] == path;
  }

  lemma MisreadCount(prior: Path, priorCount: nat, count: nat, state: State)
    requires priorCount <= MAX_NAME && count <= MAX_NAME && priorCount <= |prior|
    requires EntryMisleads(prior, priorCount, count, state)
    ensures var at := priorCount - OLD_OFFSET + Bswap(EntryWord(prior, priorCount, count).value);
      at != count && at <= |prior|
  {
    hide Bswap;
  }

  /** A misleading entry comes out with the wrong length, or ends the program. */
  lemma MisreadsEntry(table: Table, r: Reader, prior: Path, priorCount: nat, path: Path, rest: seq<Byte>, host: Endian)
    requires FacesEntry(table, r, prior, priorCount, path, rest, host)
    requires EntryMisleads(prior, priorCount, Common(prior, path), r.state)
    ensures var v := VisitEntry(table, r, host);
      r.c != EOF && (v.Exit? || (v.Continue? && Valid(v.r) && |CString(v.r.buf)| != |path|))
  {
    hide CountBytes, TextBytes, EntryBytes, NextCount, VisitEntry, Ahead, Bswap;
    var count := Common(prior, path);
    var at := priorCount - OLD_OFFSET + Bswap(EntryWord(prior, priorCount, count).value);
    SplitsEntry(table, prior, priorCount, path, rest, host);
    WordReadBack(r, prior, priorCount, count, TextBytes(table, path[count..]) + rest, host);
    MisreadCount(prior, priorCount, count, r.state);
    VisitsEntry(table, r, prior, priorCount, path, rest, at, Swab, host, host);
  }

  // ---------------------------------------------------------------- whole databases

  function Squelched(entries: seq<Path>): seq<Path> {
    if entries == [] then [] else [Squelch(entries[0])] + Squelched(entries[1..])
  }

  /** No entry is taken to be of the other byte order before the order is settled. */
  predicate NeverMisread(entries: seq<Path>, prior: Path, priorCount: nat, state: State)
    requires Manageable(entries) && priorCount <= MAX_NAME
    decreases |entries|
  {
    if entries == [] then true
    else
      assert entries[0] in entries;
      var path := Squelch(entries[0]);
      var count := Common(prior, path);
      && !EntryMisleads(prior, priorCount, count, state)
      && NeverMisread(entries[1..], path, count, NextState(prior, priorCount, count, state))
  }

  lemma {:induction false} NativeNeverMisread(entries: seq<Path>, prior: Path, priorCount: nat)
    requires Manageable(entries) && priorCount <= MAX_NAME
    ensures NeverMisread(entries, prior, priorCount, Native)
    decreases |entries|
  {
    if entries != [] {
      assert entries[0] in entries;
      var path := Squelch(entries[0]);
      NativeNeverMisread(entries[1..], path, Common(prior, path));
    }
  }

  lemma EncodeEnds(table: Table, entries: seq<Path>, prior: Path, priorCount: nat, host: Endian)
    requires Manageable(entries) && priorCount <= MAX_NAME
    ensures EndsText(Encode(table, entries, prior, priorCount, host))
    ensures entries == [] <==> Encode(table, entries, prior, priorCount, host) == []
  {
  }

  lemma SearchCons(table: Table, r: Reader, host: Endian)
    requires Valid(r) && r.c != EOF
    ensures var v := VisitEntry(table, r, host);
      v.Continue? ==>
        && Valid(v.r)
        && var (names, end) := Search(table, v.r, host);
          Search(table, r, host) == ([CString(v.r.buf)] + names, end)
    ensures VisitEntry(table, r, host).Exit? ==> Search(table, r, host) == ([], Exited)
  {
    if VisitEntry(table, r, host).Continue? {
      VisitShrinks(table, r, host);
    }
  }

  lemma DifferentHead(a: Path, names: seq<Path>, b: Path, rest: seq<Path>)
    requires |a| != |b|
    ensures [a] + names != [b] + rest
  {
    assert ([a] + names)[0] == a && ([b] + rest)[0] == b;
  }

  lemma SameHead(a: Path, names: seq<Path>, rest: seq<Path>)
    ensures [a] + names == [a] + rest <==> names == rest
  {
    assert ([a] + names)[1..] == names && ([a] + rest)[1..] == rest;
  }

  /** Reading back what `code` wrote, from the middle of a database. */
  lemma {:induction false} ReadsAllExact(table: Table, entries: seq<Path>, prior: Path, priorCount: nat, r: Reader,
                                         host: Endian)
    requires Valid(r)
    requires Manageable(entries) && InStep(r, prior, priorCount) && r.state != Swab && NulFree(prior)
    requires Ahead(r.c, r.input) == Encode(table, entries, prior, priorCount, host)
    ensures Search(table, r, host) == (Squelched(entries), Done)
        <==> NeverMisread(entries, prior, priorCount, r.state)
    decreases |entries|
  {
    hide Encode, EntryBytes, Search, VisitEntry, Ahead, CString;
    EncodeEnds(table, entries, prior, priorCount, host);
    if entries == [] {
      SearchNil(table, r, host);
    } else {
      var path, others := Squelch(entries[0]), entries[1..];
      SquelchPrints(entries[0]);
      EncodeCons(table, entries, prior, priorCount, host);
      var count := Common(prior, path);
      var rest := Encode(table, others, path, count, host);
      EncodeEnds(table, others, path, count, host);
      if EntryMisleads(prior, priorCount, count, r.state) {
        MisreadsEntry(table, r, prior, priorCount, path, rest, host);
        SearchCons(table, r, host);
        var v := VisitEntry(table, r, host);
        if v.Continue? {
          DifferentHead(CString(v.r.buf), Search(table, v.r, host).0, path, Squelched(others));
        }
      } else {
        ReadsEntry(table, r, prior, priorCount, path, rest, host);
        SearchCons(table, r, host);
        var v := VisitEntry(table, r, host);
        ReadsAllExact(table, others, path, count, v.r, host);
        SameHead(path, Search(table, v.r, host).0, Squelched(others));
      }
    }
  }

  lemma SearchNil(table: Table, r: Reader, host: Endian)
    requires Valid(r) && Ahead(r.c, r.input) == []
    ensures Search(table, r, host) == ([], Done)
  {
  }

  /** Round trip: a database written on this kind of host comes back name for name, with
      unprintable bytes as question marks, exactly when no word of it misleads the reader while
      the byte order is open. */
  lemma RoundTripExact(table: Table, entries: seq<Path>, state: State, host: Endian)
    requires Manageable(entries) && state != Swab
    ensures var body := Encode(table, entries, [], 0, host);
      Search(table, Start(table, body, state), host) == (Squelched(entries), Done)
      <==> NeverMisread(entries, [], 0, state)
  {
    var body := Encode(table, entries, [], 0, host);
    GetCAhead(body);
    ReadsAllExact(table, entries, [], 0, Start(table, body, state), host);
  }

  /** With the order known to be native the round trip holds for every table and every list. */
  lemma NativeRoundTrip(table: Table, entries: seq<Path>, host: Endian)
    requires Manageable(entries)
    ensures var body := Encode(table, entries, [], 0, host);
      Search(table, Start(table, body, Native), host) == (Squelched(entries), Done)
  {
    NativeNeverMisread(entries, [], 0);
    RoundTripExact(table, entries, Native, host);
  }

  // ---------------------------------------------------------------- which names are at risk

  lemma SmallBswap(x: Int32)
    requires 0 < x < 128
    ensures Bswap(x) == 16777216 * x
  {
    assert LittleBytes(x) == [x, 0, 0, 0];
  }

  lemma {:induction false} ShortNamesNeverMisread(entries: seq<Path>, prior: Path, priorCount: nat, state: State)
    requires |prior| <= 113 && priorCount <= |prior| && forall p | p in entries :: |p| <= 113
    ensures NeverMisread(entries, prior, priorCount, state)
    decreases |entries|
  {
    if entries != [] {
      assert entries[0] in entries;
      var path := Squelch(entries[0]);
      var count := Common(prior, path);
      if EntryMisleads(prior, priorCount, count, state) {
        var w := EntryWord(prior, priorCount, count);
        assert 0 < w.value < 128;
        SmallBswap(w.value);
        assert false;
      }
      ShortNamesNeverMisread(entries[1..], path, count, NextState(prior, priorCount, count, state));
    }
  }

  /** Names of up to 113 bytes always come back, whatever is known of the byte order. */
  lemma ShortNamesRoundTrip(table: Table, entries: seq<Path>, host: Endian)
    requires forall p | p in entries :: |p| <= 113
    ensures var body := Encode(table, entries, [], 0, host);
      Search(table, Start(table, body, Initial), host) == (Squelched(entries), Done)
  {
    ShortNamesNeverMisread(entries, [], 0, Initial);
    RoundTripExact(table, entries, Initial, host);
  }

  /** The names at risk: a name of at most 127 bytes followed by one that shares at least 114 of
      them with it and all but 13 at most. The second one's word exceeds the bound it is read
      with, and swapped it is negative. */
  lemma LongSharedPrefixMisread(table: Table, p: Path, q: Path, host: Endian)
    requires AllPrintable(p) && AllPrintable(q) && |p| <= 127 && |q| <= MAX_NAME
    requires Common(p, q) >= 114 && Common(p, q) + 14 > |p|
    ensures var body := Encode(table, [p, q], [], 0, host);
      Search(table, Start(table, body, Initial), host) != (Squelched([p, q]), Done)
  {
    PrintableStays(p);
    PrintableStays(q);
    assert [p, q][1..] == [q];
    NegativeBswap(Common(p, q) + 14);
    hide Bswap;
    assert !NeverMisread([q], p, 0, Initial);
    assert Common([], p) == 0 && NextState([], 0, 0, Initial) == Initial;
    assert !NeverMisread([p, q], [], 0, Initial);
    RoundTripExact(table, [p, q], Initial, host);
  }

  lemma PrintableStays(s: Path)
    requires AllPrintable(s)
    ensures Squelch(s) == s
  {
    assert forall i | 0 <= i < |s| :: s[i] in s;
  }

  lemma NegativeBswap(x: Int32)
    requires 128 <= x < 256
    ensures Bswap(x) < 0
  {
    assert LittleBytes(x) == [x, 0, 0, 0];
  }
}
