/** The loops of `code` and of `visit_old_format`, proved against the functions of LocateOld. */
module LocateOldPrograms {
  import opened Bytes
  import opened LocateWord
  import opened Words
  import opened LocateBytes
  import opened LocateOld
  import opened LocateOldText

  // ---------------------------------------------------------------- code

  method StrIndexLoop(table: Table, a: Byte, b: Byte) returns (k: int)
    ensures k == StrIndex(table, a, b, 0)
    ensures if k >= 0 then First(table, a, b, k) else k == -1 && forall i: nat :: !First(table, a, b, i)
  {
    forall i: nat
      ensures StrIndex(table, a, b, 0) == i <==> First(table, a, b, i)
    {
      StrIndexFirst(table, a, b, i);
    }
    hide First;
    var s := 0;
    while s < 256 && table[s] != 0
      invariant s <= 256 && StrIndex(table, a, b, 0) == StrIndex(table, a, b, s)
    {
      if table[s] == a && s + 1 < 256 && table[s + 1] == b {
        return s;
      }
      s := s + 1;
    }
    return -1;
  }

  /** The printable name, byte by byte in place. */
  method SquelchInPlace(path: array<Byte>)
    modifies path
    ensures path[..] == Squelch(old(path[..]))
  {
    var pp := 0;
    while pp < path.Length
      invariant pp <= path.Length
      invariant forall i | 0 <= i < pp :: path[i] == if Printable(old(path[i])) then old(path[i]) else QUESTION
      invariant forall i | pp <= i < path.Length :: path[i] == old(path[i])
    {
      if !Printable(path[pp]) {
        path[pp] := QUESTION;
      }
      pp := pp + 1;
    }
  }

  method SquelchLine(entry: Path) returns (path: Path)
    ensures path == Squelch(entry)
  {
    var line := new Byte[|entry|](k requires 0 <= k < |entry| => entry[k]);
    assert line[..] == entry;
    SquelchInPlace(line);
    path := line[..];
  }

  /** The remainder of a name, two bytes at a time. */
  method WriteText(table: Table, text: Path) returns (out: seq<Byte>)
    ensures out == TextBytes(table, text) && InPairs(table, text, out)
  {
    hide InPairs, First, StrIndex;
    TextInPairs(table, text);
    out := [];
    var pp := 0;
    assert text[0..] == text;
    while pp < |text|
      invariant pp <= |text|
      invariant TextBytes(table, text) == out + TextBytes(table, text[pp..])
    {
      TextStep(table, text, pp, out);
      if pp + 1 == |text| {
        out := out + [text[pp]];
        pp := pp + 1;
        break;
      }
      var code := StrIndexLoop(table, text[pp], text[pp + 1]);
      if code >= 0 && code % 2 == 0 {
        out := out + [128 + code / 2];
      } else {
        out := out + [text[pp], text[pp + 1]];
      }
      pp := pp + 2;
    }
    assert text[|text|..] == [];
  }

  lemma TextStep(table: Table, text: Path, pp: nat, out: seq<Byte>)
    requires pp < |text|
    ensures pp + 1 == |text| ==> out + TextBytes(table, text[pp..]) == out + [text[pp]] + TextBytes(table, [])
    ensures pp + 1 < |text| ==>
      out + TextBytes(table, text[pp..])
        == out + PairBytes(table, text[pp], text[pp + 1]) + TextBytes(table, text[pp + 2..])
  {
    if pp + 1 == |text| {
      assert text[pp..] == [text[pp]];
    } else {
      assert text[pp..][2..] == text[pp + 2..];
      var a, b := PairBytes(table, text[pp], text[pp + 1]), TextBytes(table, text[pp + 2..]);
      assert out + (a + b) == out + a + b;
    }
  }

  method WriteCount(diffcount: int, host: Endian) returns (out: seq<Byte>)
    requires FitsWord(diffcount + OLD_OFFSET)
    ensures out == CountBytes(diffcount, host)
  {
    if diffcount < -OLD_OFFSET || diffcount > OLD_OFFSET {
      out := [OLD_ESCAPE];
      out := out + WordBytes(diffcount + OLD_OFFSET, host);
    } else {
      out := [diffcount + OLD_OFFSET];
    }
  }

  /** `main` of code.c, over the lines read: what it writes behind the table. */
  method WriteEntries(table: Table, entries: seq<Path>, host: Endian) returns (out: seq<Byte>)
    requires Manageable(entries)
    ensures out == Encode(table, entries, [], 0, host)
  {
    out := [];
    var oldpath: Path, oldcount: nat := [], 0;
    var i := 0;
    assert entries[0..] == entries;
    assert [] + Encode(table, entries, [], 0, host) == Encode(table, entries, [], 0, host);
    hide Encode, CountBytes, TextBytes, Common;
    while i < |entries|
      invariant i <= |entries| && oldcount <= |oldpath| <= MAX_NAME
      invariant Manageable(entries[i..])
      invariant Encode(table, entries, [], 0, host) == out + Encode(table, entries[i..], oldpath, oldcount, host)
    {
      assert entries[i] in entries;
      var path := SquelchLine(entries[i]);
      var count := PrefixLength(oldpath, path);
      var diffcount := count - oldcount;
      assert entries[i..][1..] == entries[i + 1..];
      EntryStep(table, entries[i..], oldpath, oldcount, path, out, host);
      oldcount := count;
      var head := WriteCount(diffcount, host);
      out := out + head;
      var text := WriteText(table, path[count..]);
      out := out + text;
      oldpath := path;
      i := i + 1;
    }
    NothingLeft(table, entries[i..], oldpath, oldcount, out, host);
  }

  method Code(table: Table, entries: seq<Path>, host: Endian) returns (out: seq<Byte>)
    requires Manageable(entries)
    ensures out == table + Encode(table, entries, [], 0, host)
    ensures ListWritten(table, entries, [], 0, out[256..], host)
  {
    ListIsWritten(table, entries, [], 0, host);
    assert (table + Encode(table, entries, [], 0, host))[256..] == Encode(table, entries, [], 0, host);
    hide ListWritten;
    out := table;
    var body := WriteEntries(table, entries, host);
    out := out + body;
  }

  lemma NothingLeft(table: Table, entries: seq<Path>, prior: Path, priorCount: nat, out: seq<Byte>, host: Endian)
    requires entries == [] && priorCount <= MAX_NAME
    ensures out + Encode(table, entries, prior, priorCount, host) == out
  {
    assert out + [] == out;
  }

  lemma EntryStep(table: Table, here: seq<Path>, prior: Path, priorCount: nat, path: Path, out: seq<Byte>, host: Endian)
    requires here != [] && Manageable(here) && priorCount <= MAX_NAME && path == Squelch(here[0])
    ensures Manageable(here[1..]) && |path| <= MAX_NAME
    ensures var count := Common(prior, path);
      out + Encode(table, here, prior, priorCount, host)
      == out + CountBytes(count - priorCount, host) + TextBytes(table, path[count..])
         + Encode(table, here[1..], path, count, host)
  {
    hide CountBytes, TextBytes, Common, Encode;
    EncodeCons(table, here, prior, priorCount, host);
    var count := Common(prior, path);
    Reassociate(out, CountBytes(count - priorCount, host), TextBytes(table, path[count..]),
                Encode(table, here[1..], path, count, host));
  }

  lemma Reassociate(out: seq<Byte>, a: seq<Byte>, b: seq<Byte>, c: seq<Byte>)
    ensures out + ((a + b) + c) == out + a + b + c
  {
  }

  // ---------------------------------------------------------------- locate

  datatype VisitResult = VISIT_CONTINUE | VISIT_ABORT | EXIT | UNWRITTEN

  class ProcessData {
    const table: Table
    const host: Endian
    var c: int
    var count: int
    var len: nat
    var originalFilename: seq<Byte>
    var fp: seq<Byte>
    var endianState: State

    ghost function View(): Reader
      reads this
    {
      Reader(c, count, len, originalFilename, fp, endianState)
    }

    ghost predicate Ready()
      reads this
    {
      Valid(View())
    }

    constructor (table: Table, body: seq<Byte>, state: State, host: Endian)
      ensures Ready() && View() == Start(table, body, state)
      ensures this.table == table && this.host == host
    {
      this.table, this.host := table, host;
      var (first, rest) := GetC(body);
      c, count, len := first, 0, 0;
      originalFilename, fp, endianState := table, rest, state;
    }

    method Getc() returns (x: int)
      modifies this`fp
      ensures (x, fp) == GetC(old(fp))
      ensures EOF <= x < 256 && Ahead(x, fp) == old(fp)
      ensures if x == EOF then fp == [] && old(fp) == [] else |fp| < |old(fp)|
    {
      if |fp| == 0 {
        x := EOF;
      } else {
        x := fp[0];
        fp := fp[1..];
      }
    }

    /** The count for the next entry, read into `count`; false when the program ends. */
    method ReadCount() returns (ok: bool)
      requires Ready() && c != EOF
      modifies this`count, this`fp, this`endianState
      ensures match NextCount(old(View()), host)
              case Truncated => !ok
              case Read(n, rest, state) => ok == (n >= 0) && (ok ==> count == n && fp == rest && endianState == state)
    {
      if c == OLD_ESCAPE {
        count := count - OLD_OFFSET;
        var maxval := if count >= 0 then len - count else len;
        if |fp| < 4 {
          return false;
        }
        var word;
        word, endianState := DecodeValue(fp[..4], maxval, endianState, host);
        fp := fp[4..];
        count := count + word;
      } else {
        count := count + (c - OLD_OFFSET);
      }
      return count >= 0;
    }

    /** The loop that reads text until a count byte or the end; `c` is the byte that ended it. */
    method ReadTextLoop() returns (text: Path)
      modifies this`c, this`fp
      ensures (text, c, fp) == ReadText(table, old(fp))
    {
      hide GetC, ReadText, Prefixed, Ahead;
      ghost var input := fp;
      text := [];
      c := Getc();
      TextStarts(table, input);
      while c > OLD_ESCAPE
        invariant EOF <= c < 256 && (c == EOF ==> fp == [])
        invariant ReadText(table, input) == Prefixed(text, ReadText(table, Ahead(c, fp)))
        decreases |fp|, c != EOF
      {
        TextGoesOn(table, text, c, fp);
        if c < 128 {
          text := text + [c];
        } else {
          c := c - 128;
          text := text + [table[2 * c], table[2 * c + 1]];
        }
        c := Getc();
      }
      TextEnds(table, text, c, fp);
    }

    method VisitOldFormat() returns (result: VisitResult)
      requires Ready()
      modifies this
      ensures result == match VisitEntry(table, old(View()), host)
                        case Continue(_) => VISIT_CONTINUE
                        case Abort => VISIT_ABORT
                        case Exit => EXIT
                        case Unwritten => UNWRITTEN
      ensures result == VISIT_CONTINUE ==> Ready() && View() == VisitEntry(table, old(View()), host).r
    {
      if c == EOF {
        return VISIT_ABORT;
      }
      var ok := ReadCount();
      if !ok {
        return EXIT;
      }
      if count > |originalFilename| {
        return UNWRITTEN;
      }
      ReadTextShrinks(table, fp);
      var text := ReadTextLoop();
      originalFilename := Overlay(originalFilename, count, text + [0]);
      len := count + |text|;
      return VISIT_CONTINUE;
    }
  }

  function Prefixed(text: Path, r: (Path, int, seq<Byte>)): (Path, int, seq<Byte>) {
    (text + r.0, r.1, r.2)
  }

  lemma TextStarts(table: Table, input: seq<Byte>)
    ensures ReadText(table, input) == Prefixed([], ReadText(table, input))
  {
    assert [] + ReadText(table, input).0 == ReadText(table, input).0;
  }

  lemma TextGoesOn(table: Table, text: Path, c: int, fp: seq<Byte>)
    requires OLD_ESCAPE < c < 256
    ensures c < 128 ==>
      Prefixed(text, ReadText(table, Ahead(c, fp))) == Prefixed(text + [c], ReadText(table, fp))
    ensures c >= 128 ==>
      Prefixed(text, ReadText(table, Ahead(c, fp)))
      == Prefixed(text + [table[2 * (c - 128)], table[2 * (c - 128) + 1]], ReadText(table, fp))
  {
    assert Ahead(c, fp)[1..] == fp;
    var head: Path := if c < 128 then [c] else [table[2 * (c - 128)], table[2 * (c - 128) + 1]];
    var more := ReadText(table, fp).0;
    assert text + (head + more) == text + head + more;
  }

  lemma TextEnds(table: Table, text: Path, c: int, fp: seq<Byte>)
    requires EOF <= c <= OLD_ESCAPE && (c == EOF ==> fp == [])
    ensures Prefixed(text, ReadText(table, Ahead(c, fp))) == (text, c, fp)
  {
    assert c != EOF ==> Ahead(c, fp)[1..] == fp;
    assert text + [] == text;
  }

  function Named(names: seq<Path>, s: (seq<Path>, End)): (seq<Path>, End) {
    (names + s.0, s.1)
  }

  lemma NamedNothing(s: (seq<Path>, End))
    ensures Named([], s) == s
  {
    assert [] + s.0 == s.0;
  }

  lemma SearchGoesOn(table: Table, r: Reader, host: Endian, names: seq<Path>)
    requires Valid(r) && r.c != EOF
    ensures match VisitEntry(table, r, host)
            case Abort => Named(names, Search(table, r, host)) == (names, Done)
            case Exit => Named(names, Search(table, r, host)) == (names, Exited)
            case Unwritten => Named(names, Search(table, r, host)) == (names, Lost)
            case Continue(r') =>
              Valid(r')
                && Named(names, Search(table, r, host)) == Named(names + [CString(r'.buf)], Search(table, r', host))
  {
    hide VisitEntry, CString;
    assert names + [] == names;
    match VisitEntry(table, r, host)
    case Continue(r') =>
      VisitShrinks(table, r, host);
      var more := Search(table, r', host).0;
      assert names + ([CString(r'.buf)] + more) == names + [CString(r'.buf)] + more;
    case _ =>
  }

  lemma SearchEnds(table: Table, r: Reader, host: Endian, names: seq<Path>)
    requires Valid(r) && r.c == EOF
    ensures Named(names, Search(table, r, host)) == (names, Done)
  {
    assert names + [] == names;
  }

  method SearchOneDatabase(table: Table, body: seq<Byte>, state: State, host: Endian)
    returns (names: seq<Path>, end: End)
    ensures (names, end) == Search(table, Start(table, body, state), host)
  {
    hide Search, VisitEntry, Named, CString, Start;
    var procdata := new ProcessData(table, body, state, host);
    ghost var all := Search(table, procdata.View(), host);
    names, end := [], Done;
    NamedNothing(all);
    while procdata.c != EOF
      invariant procdata.Ready() && end == Done && procdata.table == table && procdata.host == host
      invariant all == Named(names, Search(table, procdata.View(), host))
      decreases |procdata.fp|, procdata.c != EOF
    {
      ghost var before := procdata.View();
      SearchGoesOn(table, before, host, names);
      var result := procdata.VisitOldFormat();
      match result {
        case VISIT_ABORT => return;
        case EXIT => return names, Exited;
        case UNWRITTEN => return names, Lost;
        case VISIT_CONTINUE =>
          VisitShrinks(table, before, host);
          names := names + [CString(procdata.originalFilename)];
      }
    }
    SearchEnds(table, procdata.View(), host, names);
  }
}
