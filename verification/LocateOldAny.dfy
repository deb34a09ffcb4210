/** What locate makes of any file in the old format, damaged or not. */
module LocateOldAny {
  import opened Bytes
  import opened LocateWord
  import opened Words
  import opened LocateBytes
  import opened LocateOld

  /** A file ends, ends the program, or tells of a name longer than the one before it was. */
  datatype Finish = Complete | Stopped | Beyond

  /** The number of letters kept, the byte order believed then, and the input behind the count; `kept`
      is how many were kept last time. */
  datatype Lead = Kept(count: int, state: State, rest: seq<Byte>) | NoWord

  /** One byte tells the difference, 14 standing for none; 30 says that a word does. Until the order is
      known, a word counts as it stands if no more would be kept than there is, else swapped if no more
      would be kept then, else as it stands. Where fewer than 14 were kept last time the word itself is
      compared. */
  function Counted(length: nat, kept: int, input: seq<Byte>, state: State, host: Endian): Lead
    requires input != []
  {
    if input[0] != 30 then Kept(kept + input[0] - 14, state, input[1..])
    else if |input| < 5 then NoWord
    else
      var native := Value(input[1..5], host);
      var swapped := Bswap(native);
      var spare := if kept >= 14 then kept - 14 else 0;
      if state == Swab then Kept(kept - 14 + swapped, Swab, input[5..])
      else if state == Native then Kept(kept - 14 + native, Native, input[5..])
      else if spare + native <= length then
        Kept(kept - 14 + native, if spare + swapped <= length then Initial else Native, input[5..])
      else if spare + swapped <= length then Kept(kept - 14 + swapped, Swab, input[5..])
      else Kept(kept - 14 + native, Initial, input[5..])
  }

  /** The names in a file, without a buffer. */
  function Names(table: Table, prior: Path, kept: int, input: seq<Byte>, state: State, host: Endian)
    : (seq<Path>, Finish)
    decreases |input|
  {
    if input == [] then ([], Complete)
    else
      var lead := Counted(|prior|, kept, input, state, host);
      if lead.NoWord? || lead.count < 0 then ([], Stopped)
      else if lead.count > |prior| then ([], Beyond)
      else
        ReadTextShrinks(table, lead.rest);
        var (text, c, more) := ReadText(table, lead.rest);
        var record := prior[..lead.count] + text;
        var (names, finish) := Names(table, record, lead.count, Ahead(c, more), lead.state, host);
        ([CString(record)] + names, finish)
  }

  /** The reader stands in front of `input`, with `prior` in its buffer. */
  ghost predicate Faces(r: Reader, prior: seq<Byte>, input: seq<Byte>) {
    Valid(r) && r.len == |prior| && r.buf[..r.len] == prior && Ahead(r.c, r.input) == input
  }

  lemma CountedIs(r: Reader, prior: seq<Byte>, input: seq<Byte>, host: Endian)
    requires Faces(r, prior, input) && input != []
    ensures var n := NextCount(r, host);
      Counted(|prior|, r.count, input, r.state, host)
      == if n.Truncated? then NoWord else Kept(n.count, n.state, n.rest)
  {
    hide Value, Bswap;
    assert input == [r.c] + r.input;
    if r.c == OLD_ESCAPE && |r.input| >= 4 {
      assert input[1..5] == r.input[..4] && input[5..] == r.input[4..];
    }
  }

  lemma {:induction false} CStringEnds(record: seq<Byte>, more: seq<Byte>)
    ensures CString(record + [0] + more) == CString(record)
  {
    NulIndexEnds(record, more);
    var n := NulIndex(record);
    assert (record + [0] + more)[..n] == record[..n];
  }

  lemma {:induction false} NulIndexEnds(record: seq<Byte>, more: seq<Byte>)
    ensures NulIndex(record + [0] + more) == NulIndex(record)
  {
    if record != [] && record[0] != 0 {
      assert (record + [0] + more)[1..] == record[1..] + [0] + more;
      NulIndexEnds(record[1..], more);
    }
  }

  /** One entry whose count is within the name before it. */
  lemma ReadsRecord(table: Table, r: Reader, prior: seq<Byte>, input: seq<Byte>, host: Endian)
    requires Faces(r, prior, input) && input != []
    ensures r.c != EOF
    ensures var v, lead := VisitEntry(table, r, host), Counted(|prior|, r.count, input, r.state, host);
      if lead.NoWord? || lead.count < 0 then v.Exit?
      else lead.count <= |prior| ==> ReadsOn(table, v, prior, lead)
  {
    hide Value, Bswap, NulIndex;
    CountedIs(r, prior, input, host);
    var lead := Counted(|prior|, r.count, input, r.state, host);
    if lead.Kept? && 0 <= lead.count <= |prior| {
      ReadTextShrinks(table, lead.rest);
      BufferAfter(r.buf, prior, lead.count, ReadText(table, lead.rest).0);
    }
  }

  /** The visit hands on the name and leaves the reader in front of what follows it. */
  ghost predicate ReadsOn(table: Table, v: Visit, prior: seq<Byte>, lead: Lead) {
    && v.Continue? && lead.Kept? && 0 <= lead.count <= |prior|
    && var (text, c, more) := ReadText(table, lead.rest);
      && v.r.count == lead.count && v.r.state == lead.state && EOF <= c < 256
      && CString(v.r.buf) == CString(prior[..lead.count] + text)
      && Faces(v.r, prior[..lead.count] + text, Ahead(c, more))
  }

  lemma BufferAfter(buf: seq<Byte>, prior: seq<Byte>, count: nat, text: Path)
    requires |prior| <= |buf| && buf[..|prior|] == prior && count <= |prior|
    ensures var record, after := prior[..count] + text, Overlay(buf, count, text + [0]);
      CString(after) == CString(record) && |record| <= |after| && after[..|record|] == record
  {
    var record := prior[..count] + text;
    assert buf[..count] == prior[..count];
    var tail := if count + |text + [0]| < |buf| then buf[count + |text + [0]|..] else [];
    assert Overlay(buf, count, text + [0]) == record + [0] + tail;
    CStringEnds(record, tail);
  }

  ghost predicate AsNamed(got: (seq<Path>, End), expected: (seq<Path>, Finish)) {
    match expected.1
    case Complete => got == (expected.0, Done)
    case Stopped => got == (expected.0, Exited)
    case Beyond => expected.0 <= got.0
  }

  lemma NamedFirst(name: Path, got: (seq<Path>, End), expected: (seq<Path>, Finish))
    requires AsNamed(got, expected)
    ensures AsNamed(([name] + got.0, got.1), ([name] + expected.0, expected.1))
  {
  }

  lemma {:induction false} SearchIsNames(table: Table, r: Reader, prior: seq<Byte>, input: seq<Byte>, host: Endian)
    requires Faces(r, prior, input)
    ensures AsNamed(Search(table, r, host), Names(table, prior, r.count, input, r.state, host))
    decreases |input|
  {
    if input != [] {
      hide VisitEntry, Faces, AsNamed, Counted;
      ReadsRecord(table, r, prior, input, host);
      var v := VisitEntry(table, r, host);
      var lead := Counted(|prior|, r.count, input, r.state, host);
      if lead.NoWord? || lead.count < 0 || lead.count > |prior| {
        AtOnce(Search(table, r, host));
      } else {
        ReadTextShrinks(table, lead.rest);
        CountedShrinks(|prior|, r.count, input, r.state, host);
        var (text, c, more) := ReadText(table, lead.rest);
        var record := prior[..lead.count] + text;
        SearchIsNames(table, v.r, record, Ahead(c, more), host);
        NamedFirst(CString(record), Search(table, v.r, host),
                   Names(table, record, lead.count, Ahead(c, more), lead.state, host));
      }
    } else {
      AtOnce(Search(table, r, host));
    }
  }

  lemma CountedShrinks(length: nat, kept: int, input: seq<Byte>, state: State, host: Endian)
    requires input != []
    ensures var lead := Counted(length, kept, input, state, host); lead.Kept? ==> |lead.rest| < |input|
  {
  }

  lemma AtOnce(got: (seq<Path>, End))
    ensures got == ([], Done) ==> AsNamed(got, ([], Complete))
    ensures got == ([], Exited) ==> AsNamed(got, ([], Stopped))
    ensures AsNamed(got, ([], Beyond))
  {
  }

  /** On every file, whatever byte order it was written in and whatever is believed about that, locate
      hands on exactly these names and ends exactly so, up to a count that leads behind a name. */
  lemma AnyFile(table: Table, body: seq<Byte>, state: State, host: Endian)
    ensures AsNamed(Search(table, Start(table, body, state), host), Names(table, [], 0, body, state, host))
  {
    GetCAhead(body);
    SearchIsNames(table, Start(table, body, state), [], body, host);
  }
}
