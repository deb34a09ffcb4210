/** Reading an old-format database that was written on a host of the other byte order, and exactly
    when that works. */
module LocateForeign {
  import opened Bytes
  import opened LocateWord
  import opened Words
  import opened LocateBytes
  import opened LocateOld
  import opened LocateOldTheorem

  // ---------------------------------------------------------------- one word

  /** What a word of the other order is read as, and the order believed afterwards. */
  function Reading(w: Word, state: State): Int32 {
    if state == Swab || (state == Initial && w.value <= w.limit < Bswap(w.value)) then w.value else Bswap(w.value)
  }

  function StateAfter(w: Word, state: State): State {
    if state != Initial then state
    else if w.value <= w.limit < Bswap(w.value) then Swab
    else if Bswap(w.value) <= w.limit < w.value then Native
    else Initial
  }

  /** The word is read as it stands, and that makes a difference. */
  predicate Astray(w: Word, state: State) {
    && Bswap(w.value) != w.value
    && (state == Native || (state == Initial && (Bswap(w.value) <= w.limit || w.limit < w.value)))
  }

  lemma ReadingIsRight(w: Word, state: State)
    ensures Reading(w, state) == w.value <==> !Astray(w, state)
  {
  }

  lemma ForeignWord(r: Reader, prior: Path, priorCount: nat, count: nat, rest: seq<Byte>, writer: Endian, host: Endian)
    requires InStep(r, prior, priorCount) && writer != host && count <= MAX_NAME && !OneByte(count - priorCount)
    requires Ahead(r.c, r.input) == CountBytes(count - priorCount, writer) + rest
    ensures var w := EntryWord(prior, priorCount, count);
      && r.c != EOF
      && NextCount(r, host) == Read(priorCount - OLD_OFFSET + Reading(w, r.state), rest, StateAfter(w, r.state))
  {
    hide WordBytes, Value, Bswap;
    var w := EntryWord(prior, priorCount, count);
    var four := WordBytes(w.value, writer);
    var all := [OLD_ESCAPE] + four + rest;
    assert r.c == all[0] && r.input == all[1..];
    assert all[1..] == four + rest;
    assert (four + rest)[..4] == four && (four + rest)[4..] == rest;
    ReadBack(w.value, writer, host);
  }

  // ---------------------------------------------------------------- one entry

  predicate EntryAstray(prior: Path, priorCount: nat, count: nat, state: State)
    requires priorCount <= MAX_NAME && count <= MAX_NAME
  {
    !OneByte(count - priorCount) && Astray(EntryWord(prior, priorCount, count), state)
  }

  function NextForeign(prior: Path, priorCount: nat, count: nat, state: State): State
    requires priorCount <= MAX_NAME && count <= MAX_NAME
  {
    if OneByte(count - priorCount) then state else StateAfter(EntryWord(prior, priorCount, count), state)
  }

  /** Behind a name the buffer holds a NUL. */
  predicate Ended(r: Reader, prior: Path) {
    prior != [] ==> |prior| < |r.buf| && r.buf[|prior|] == 0
  }

  lemma ReadsForeignEntry(table: Table, r: Reader, prior: Path, priorCount: nat, path: Path, rest: seq<Byte>,
                          writer: Endian, host: Endian)
    requires FacesEntry(table, r, prior, priorCount, path, rest, writer) && writer != host
    requires !EntryAstray(prior, priorCount, Common(prior, path), r.state)
    ensures var count := Common(prior, path);
      var v := VisitEntry(table, r, host);
      && r.c != EOF && v.Continue? && InStep(v.r, path, count) && Ended(v.r, path) && CString(v.r.buf) == path
      && Ahead(v.r.c, v.r.input) == rest && v.r.state == NextForeign(prior, priorCount, count, r.state)
  {
    hide CountBytes, TextBytes, EntryBytes, NextCount, VisitEntry, Ahead, Bswap;
    var count := Common(prior, path);
    var behind := TextBytes(table, path[count..]) + rest;
    SplitsEntry(table, prior, priorCount, path, rest, writer);
    if OneByte(count - priorCount) {
      CountIsOneByte(count - priorCount, writer, host);
      OneByteReadBack(r, prior, priorCount, count, behind, host);
    } else {
      ForeignWord(r, prior, priorCount, count, behind, writer, host);
      ReadingIsRight(EntryWord(prior, priorCount, count), r.state);
    }
    VisitsEntry(table, r, prior, priorCount, path, rest, count, NextForeign(prior, priorCount, count, r.state), writer,
      host);
    assert prior[..count] + path[count..] == path;
  }

  lemma CountIsOneByte(diff: int, writer: Endian, host: Endian)
    requires FitsWord(diff + OLD_OFFSET) && OneByte(diff)
    ensures CountBytes(diff, writer) == CountBytes(diff, host)
  {
  }

  /** Written over a place behind the end of a name, the text does not show. */
  lemma OverlayBeyond(buf: seq<Byte>, prior: Path, at: nat, data: seq<Byte>)
    requires |prior| < at <= |buf| && buf[..|prior|] == prior && buf[|prior|] == 0 && NulFree(prior)
    ensures CString(Overlay(buf, at, data)) == prior
  {
    var after := Overlay(buf, at, data);
    assert after == prior + [0] + after[|prior| + 1..];
    CStringOf(prior, after[|prior| + 1..]);
  }

  /** Going astray shows, unless the name is the one before it once more: then the wrong count may
      lead behind the end of that name, which is what is shown. */
  lemma AstrayShows(table: Table, r: Reader, prior: Path, priorCount: nat, path: Path, rest: seq<Byte>,
                    writer: Endian, host: Endian)
    requires FacesEntry(table, r, prior, priorCount, path, rest, writer) && Ended(r, prior) && writer != host
    requires EntryAstray(prior, priorCount, Common(prior, path), r.state) && prior != path
    ensures var v := VisitEntry(table, r, host);
      r.c != EOF && (v.Exit? || v.Unwritten? || (v.Continue? && Valid(v.r) && CString(v.r.buf) != path))
  {
    hide CountBytes, TextBytes, EntryBytes, Ahead, Bswap, CString, ReadText, NextCount;
    var count := Common(prior, path);
    var w := EntryWord(prior, priorCount, count);
    var at := priorCount - OLD_OFFSET + Reading(w, r.state);
    var behind := TextBytes(table, path[count..]) + rest;
    SplitsEntry(table, prior, priorCount, path, rest, writer);
    ForeignWord(r, prior, priorCount, count, behind, writer, host);
    ReadingIsRight(w, r.state);
    assert at != count;
    if at <= |prior| {
      VisitsEntry(table, r, prior, priorCount, path, rest, at, StateAfter(w, r.state), writer, host);
      if at >= 0 {
        assert |prior[..at] + path[count..]| != |path|;
      }
    } else if at <= |r.buf| {
      assert prior != [];
      OverlayBeyond(r.buf, prior, at, ReadText(table, behind).0 + [0]);
      VisitShrinks(table, r, host);
    }
  }

  // ---------------------------------------------------------------- whole databases

  /** Every word is told to be of the other order before one is read as it stands. */
  predicate NeverAstray(entries: seq<Path>, prior: Path, priorCount: nat, state: State)
    requires Manageable(entries) && priorCount <= MAX_NAME
    decreases |entries|
  {
    if entries == [] then true
    else
      assert entries[0] in entries;
      var path := Squelch(entries[0]);
      var count := Common(prior, path);
      && !EntryAstray(prior, priorCount, count, state)
      && NeverAstray(entries[1..], path, count, NextForeign(prior, priorCount, count, state))
  }

  /** No name, as it will be printed, is the same as the one before it. */
  predicate NoRepeats(entries: seq<Path>, prior: Path)
    decreases |entries|
  {
    entries == [] ||
    ((prior == [] || Squelch(entries[0]) != prior) && NoRepeats(entries[1..], Squelch(entries[0])))
  }

  lemma {:induction false} ReadsAllForeign(table: Table, entries: seq<Path>, prior: Path, priorCount: nat, r: Reader,
                                           writer: Endian, host: Endian)
    requires Valid(r) && writer != host
    requires Manageable(entries) && InStep(r, prior, priorCount) && Ended(r, prior) && NulFree(prior)
    requires Ahead(r.c, r.input) == Encode(table, entries, prior, priorCount, writer)
    ensures NeverAstray(entries, prior, priorCount, r.state) ==> Search(table, r, host) == (Squelched(entries), Done)
    ensures NoRepeats(entries, prior) && Search(table, r, host) == (Squelched(entries), Done) ==>
      NeverAstray(entries, prior, priorCount, r.state)
    decreases |entries|
  {
    hide Encode, EntryBytes, Search, VisitEntry, Ahead, CString, EntryAstray, NextForeign;
    EncodeEnds(table, entries, prior, priorCount, writer);
    if entries == [] {
      SearchNil(table, r, host);
    } else {
      var path, others := Squelch(entries[0]), entries[1..];
      SquelchPrints(entries[0]);
      EncodeCons(table, entries, prior, priorCount, writer);
      var count := Common(prior, path);
      var rest := Encode(table, others, path, count, writer);
      EncodeEnds(table, others, path, count, writer);
      var v := VisitEntry(table, r, host);
      if EntryAstray(prior, priorCount, count, r.state) {
        NotAtFirst(prior, priorCount, count, r.state);
        if prior != path {
          AstrayShows(table, r, prior, priorCount, path, rest, writer, host);
          FirstNameShows(table, r, path, Squelched(others), host);
        }
      } else {
        ReadsForeignEntry(table, r, prior, priorCount, path, rest, writer, host);
        SearchCons(table, r, host);
        ReadsAllForeign(table, others, path, count, v.r, writer, host);
        SameHead(path, Search(table, v.r, host).0, Squelched(others));
      }
    }
  }

  /** Behind an empty name, as at the start, the count is one byte. */
  lemma NotAtFirst(prior: Path, priorCount: nat, count: nat, state: State)
    requires priorCount <= |prior| <= MAX_NAME && count <= |prior| && EntryAstray(prior, priorCount, count, state)
    ensures prior != []
  {
  }

  lemma FirstNameShows(table: Table, r: Reader, path: Path, others: seq<Path>, host: Endian)
    requires Valid(r) && r.c != EOF
    requires var v := VisitEntry(table, r, host);
      v.Exit? || v.Unwritten? || (v.Continue? && Valid(v.r) && CString(v.r.buf) != path)
    ensures Search(table, r, host) != ([path] + others, Done)
  {
    var v := VisitEntry(table, r, host);
    if v.Continue? {
      SearchCons(table, r, host);
      assert ([CString(v.r.buf)] + Search(table, v.r, host).0)[0] != ([path] + others)[0];
    }
  }

  /** A database from a host of the other order comes back name for name if every word is told
      from a native one; and for lists without repetitions only then. */
  lemma ForeignRoundTrip(table: Table, entries: seq<Path>, state: State, writer: Endian, host: Endian)
    requires Manageable(entries) && writer != host
    ensures var body := Encode(table, entries, [], 0, writer);
      var good := Search(table, Start(table, body, state), host) == (Squelched(entries), Done);
      && (NeverAstray(entries, [], 0, state) ==> good)
      && (NoRepeats(entries, []) ==> (good <==> NeverAstray(entries, [], 0, state)))
  {
    var body := Encode(table, entries, [], 0, writer);
    GetCAhead(body);
    ReadsAllForeign(table, entries, [], 0, Start(table, body, state), writer, host);
  }

  lemma {:induction false} SwabNeverAstray(entries: seq<Path>, prior: Path, priorCount: nat)
    requires Manageable(entries) && priorCount <= MAX_NAME
    ensures NeverAstray(entries, prior, priorCount, Swab)
    decreases |entries|
  {
    if entries != [] {
      assert entries[0] in entries;
      var path := Squelch(entries[0]);
      SwabNeverAstray(entries[1..], path, Common(prior, path));
    }
  }

  /** With the order known to be the other one the round trip holds for every table and list. */
  lemma SwabRoundTrip(table: Table, entries: seq<Path>, writer: Endian, host: Endian)
    requires Manageable(entries) && writer != host
    ensures var body := Encode(table, entries, [], 0, writer);
      Search(table, Start(table, body, Swab), host) == (Squelched(entries), Done)
  {
    SwabNeverAstray(entries, [], 0);
    ForeignRoundTrip(table, entries, Swab, writer, host);
  }

  // ---------------------------------------------------------------- names at risk

  lemma SmallBswapDiffers(x: Int32)
    requires 0 < x < 256
    ensures Bswap(x) != x
  {
    assert LittleBytes(x) == [x, 0, 0, 0];
  }

  lemma SecondAstray(p: Path, q: Path)
    requires AllPrintable(p) && AllPrintable(q) && |p| <= MAX_NAME && |q| <= MAX_NAME
    requires 15 <= Common(p, q) < 242 && Common(p, q) + 14 > |p|
    ensures !NeverAstray([p, q], [], 0, Initial)
  {
    PrintableStays(p);
    PrintableStays(q);
    assert [p, q][1..] == [q];
    SmallBswapDiffers(Common(p, q) + 14);
    hide Bswap;
    assert !NeverAstray([q], p, 0, Initial);
    assert Common([], p) == 0 && NextForeign([], 0, 0, Initial) == Initial;
  }

  lemma TwoWithoutRepeats(p: Path, q: Path)
    requires AllPrintable(p) && AllPrintable(q) && p != q && p != []
    ensures NoRepeats([p, q], [])
  {
    PrintableStays(p);
    PrintableStays(q);
    assert [p, q][1..] == [q] && [q][1..] == [];
    assert NoRepeats([q][1..], q) && NoRepeats([q], p);
    assert NoRepeats([p, q][1..], Squelch([p, q][0]));
  }

  /** Two ordinary names are enough: the second shares at least 15 bytes with the first, and all
      but 13 of the bytes of that at most. Its word exceeds the bound it is read with, so that it is never
      told to be swapped. */
  lemma SharedPrefixAstray(table: Table, p: Path, q: Path, writer: Endian, host: Endian)
    requires AllPrintable(p) && AllPrintable(q) && |p| <= MAX_NAME && |q| <= MAX_NAME && p != q && writer != host
    requires 15 <= Common(p, q) < 242 && Common(p, q) + 14 > |p|
    ensures var body := Encode(table, [p, q], [], 0, writer);
      Search(table, Start(table, body, Initial), host) != (Squelched([p, q]), Done)
  {
    hide NeverAstray, NoRepeats, Encode, Search;
    SecondAstray(p, q);
    TwoWithoutRepeats(p, q);
    ForeignRoundTrip(table, [p, q], Initial, writer, host);
  }
}
