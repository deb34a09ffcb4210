/** The old locate database format, with its table of common pairs: `code` writes it,
    `visit_old_format` reads it. */
module LocateOld {
  import opened Bytes
  import opened LocateWord
  import opened Words
  import opened LocateBytes

  const OLD_ESCAPE: Byte := 30
  const OLD_OFFSET: int := 14
  const QUESTION: Byte := 63

  /** The 128 pairs, one after another, padded with NULs. */
  type Table = t: seq<Byte> | |t| == 256 witness seq(256, _ => 0)

  // ---------------------------------------------------------------- code

  predicate Printable(b: Byte) {
    32 <= b < 127
  }

  /** Unprintable bytes become question marks. */
  function Squelch(path: Path): (s: Path)
    ensures |s| == |path|
    ensures forall i | 0 <= i < |s| :: s[i] == if Printable(path[i]) then path[i] else QUESTION
  {
    if path == [] then []
    else [if Printable(path[0]) then path[0] else QUESTION] + Squelch(path[1..])
  }

  /** `strindex`: the first place of the pair in the table, at an even offset or not, before the
      padding; -1 when there is none. */
  function StrIndex(table: Table, a: Byte, b: Byte, from: nat): (k: int)
    ensures k >= 0 ==> from <= k < 255 && table[k] == a && table[k + 1] == b
    ensures k < 0 ==> k == -1
    decreases 256 - from
  {
    if from >= 256 || table[from] == 0 then -1
    else if table[from] == a && from + 1 < 256 && table[from + 1] == b then from
    else StrIndex(table, a, b, from + 1)
  }

  /** Two bytes as one code, or as they are. */
  function PairBytes(table: Table, a: Byte, b: Byte): seq<Byte> {
    var k := StrIndex(table, a, b, 0);
    if k >= 0 && k % 2 == 0 then [128 + k / 2] else [a, b]
  }

  function TextBytes(table: Table, text: Path): seq<Byte> {
    if |text| < 2 then text
    else PairBytes(table, text[0], text[1]) + TextBytes(table, text[2..])
  }

  predicate OneByte(diff: int) {
    -OLD_OFFSET <= diff <= OLD_OFFSET
  }

  predicate FitsWord(x: int) {
    -0x8000_0000 <= x < 0x8000_0000
  }

  function CountBytes(diff: int, host: Endian): seq<Byte>
    requires FitsWord(diff + OLD_OFFSET)
  {
    if OneByte(diff) then [diff + OLD_OFFSET] else [OLD_ESCAPE] + WordBytes(diff + OLD_OFFSET, host)
  }

  /** Names short enough for the C code's counters. */
  const MAX_NAME: nat := 0x7FFF_FFF0

  predicate Manageable(entries: seq<Path>) {
    forall p | p in entries :: |p| <= MAX_NAME
  }

  /** One entry behind the entry `prior`, itself already squelched. */
  function EntryBytes(table: Table, prior: Path, priorCount: nat, path: Path, host: Endian): seq<Byte>
    requires |path| <= MAX_NAME && priorCount <= MAX_NAME
  {
    var count := Common(prior, path);
    CountBytes(count - priorCount, host) + TextBytes(table, path[count..])
  }

  function Encode(table: Table, entries: seq<Path>, prior: Path, priorCount: nat, host: Endian): seq<Byte>
    requires Manageable(entries) && priorCount <= MAX_NAME
    decreases |entries|
  {
    if entries == [] then []
    else
      assert entries[0] in entries;
      var path := Squelch(entries[0]);
      EntryBytes(table, prior, priorCount, path, host)
      + Encode(table, entries[1..], path, Common(prior, path), host)
  }

  lemma EncodeCons(table: Table, entries: seq<Path>, prior: Path, priorCount: nat, host: Endian)
    requires Manageable(entries) && priorCount <= MAX_NAME && entries != []
    ensures Manageable(entries[1..]) && |Squelch(entries[0])| <= MAX_NAME
    ensures var path := Squelch(entries[0]);
      Encode(table, entries, prior, priorCount, host)
      == EntryBytes(table, prior, priorCount, path, host)
         + Encode(table, entries[1..], path, Common(prior, path), host)
  {
    assert entries[0] in entries;
  }

  // ---------------------------------------------------------------- locate

  datatype Reader = Reader(c: int, count: int, len: nat, buf: seq<Byte>, input: seq<Byte>, state: State)

  predicate Valid(r: Reader) {
    EOF <= r.c < 256 && r.len <= |r.buf|
  }

  /** Read text until a count byte or the end: the text, the byte that ended it, the rest. */
  function ReadText(table: Table, input: seq<Byte>): (Path, int, seq<Byte>)
    decreases |input|
  {
    if input == [] then ([], EOF, [])
    else if input[0] <= OLD_ESCAPE then ([], input[0], input[1..])
    else
      var (text, c, rest) := ReadText(table, input[1..]);
      var head := if input[0] < 128 then [input[0]]
                  else [table[2 * (input[0] - 128)], table[2 * (input[0] - 128) + 1]];
      (head + text, c, rest)
  }

  /** Besides going on and stopping: the program ends with a message, or the name would begin with
      bytes nobody has written. */
  datatype Visit = Continue(r: Reader) | Abort | Exit | Unwritten

  datatype Count = Read(count: int, rest: seq<Byte>, state: State) | Truncated

  /** The bound `visit_old_format` gives for the word. */
  function WordLimit(r: Reader): int {
    if r.count - OLD_OFFSET >= 0 then r.len - (r.count - OLD_OFFSET) else r.len
  }

  function NextCount(r: Reader, host: Endian): Count {
    if r.c != OLD_ESCAPE then Read(r.count + r.c - OLD_OFFSET, r.input, r.state)
    else if |r.input| < 4 then Truncated
    else
      var (word, state) := Decode(r.input[..4], WordLimit(r), r.state, host);
      Read(r.count - OLD_OFFSET + word, r.input[4..], state)
  }

  /** `visit_old_format`. */
  function VisitEntry(table: Table, r: Reader, host: Endian): (v: Visit)
    requires Valid(r)
  {
    if r.c == EOF then Abort
    else
      match NextCount(r, host)
      case Truncated => Exit
      case Read(count, rest, state) =>
        if count < 0 then Exit
        else if count > |r.buf| then Unwritten
        else
          var (text, c, rest2) := ReadText(table, rest);
          Continue(Reader(c, count, count + |text|, Overlay(r.buf, count, text + [0]), rest2, state))
  }

  lemma {:induction false} ReadTextShrinks(table: Table, input: seq<Byte>)
    ensures var (text, c, rest) := ReadText(table, input);
      && EOF <= c < 256 && |rest| <= |input|
      && (c != EOF ==> |rest| < |input|)
    decreases |input|
  {
    if input != [] && input[0] > OLD_ESCAPE {
      ReadTextShrinks(table, input[1..]);
    }
  }

  lemma VisitShrinks(table: Table, r: Reader, host: Endian)
    requires Valid(r) && VisitEntry(table, r, host).Continue?
    ensures var r' := VisitEntry(table, r, host).r;
      Valid(r') && |r'.input| <= |r.input| && (r'.c != EOF ==> |r'.input| < |r.input|)
  {
    ReadTextShrinks(table, NextCount(r, host).rest);
  }

  datatype End = Done | Exited | Lost

  /** The names handed on by the loop of `search_one_database`, and how it ended. */
  function Search(table: Table, r: Reader, host: Endian): (seq<Path>, End)
    requires Valid(r)
    decreases |r.input|, r.c != EOF
  {
    if r.c == EOF then ([], Done)
    else
      match VisitEntry(table, r, host)
      case Abort => ([], Done)
      case Exit => ([], Exited)
      case Unwritten => ([], Lost)
      case Continue(r') =>
        VisitShrinks(table, r, host);
        var (names, end) := Search(table, r', host);
        ([CString(r'.buf)] + names, end)
  }

  /** The reader behind the table, which it has read into its buffer. */
  function Start(table: Table, body: seq<Byte>, state: State): Reader {
    var (c, rest) := GetC(body);
    Reader(c, 0, 0, table, rest, state)
  }
}
