/** What locate makes of any file behind the magic string, damaged or not. */
module Locate02Any {
  import opened Bytes
  import opened LocateBytes
  import opened Locate02
  import opened Locate02Theorem

  /** A file ends behind a record, shows that it is damaged, or is cut short inside a record. */
  datatype Finish = Complete | Damaged | CutShort

  /** The difference of counts in front of a record: one signed byte, or 128 and a signed short, whose
      missing bytes count as 255. */
  function Difference(input: seq<Byte>): (r: (int, seq<Byte>))
    requires input != []
    ensures |r.1| < |input|
  {
    if input[0] != 128 then (if input[0] < 128 then input[0] else input[0] as int - 256, input[1..])
    else
      var high: int := if |input| > 1 then input[1] else 255;
      var low: int := if |input| > 2 then input[2] else 255;
      ((if high < 128 then high else high - 256) * 256 + low, if |input| > 3 then input[3..] else [])
  }

  /** The names in a file, without a buffer: each record keeps the start of the record before it, of
      which it must not keep more than there is. */
  function Names(prior: seq<Byte>, count: int, input: seq<Byte>): (seq<Path>, Finish)
    decreases |input|
  {
    if input == [] then ([], Complete)
    else
      var (diff, rest) := Difference(input);
      var kept := count + diff;
      if kept < 0 || kept > |prior| then ([], Damaged)
      else if rest == [] then ([], Complete)
      else if NulFree(rest) then ([], CutShort)
      else
        var n := NulIndex(rest);
        var record := prior[..kept] + rest[..n + 1];
        var (names, finish) := Names(record, kept, rest[n + 1..]);
        ([CString(record)] + names, finish)
  }

  lemma DifferenceIs(r: Reader)
    requires EOF < r.c < 256
    ensures NextCount(r) == (r.count + Difference([r.c] + r.input).0, Difference([r.c] + r.input).1)
  {
    assert ([r.c] + r.input)[1..] == r.input;
    if r.c == 128 {
      var all := [r.c] + r.input;
      if |r.input| > 0 {
        assert all[1] == r.input[0];
      }
      if |r.input| > 1 {
        assert all[2] == r.input[1] && r.input[1..][0] == r.input[1];
        assert r.input[1..][1..] == r.input[2..] == all[3..];
      }
    }
  }

  lemma {:induction false} CStringBehind(record: seq<Byte>, more: seq<Byte>)
    requires !NulFree(record)
    ensures CString(record + more) == CString(record)
  {
    NulIndexBehind(record, more);
    var n := NulIndex(record);
    assert (record + more)[..n] == record[..n];
  }

  lemma {:induction false} NulIndexBehind(record: seq<Byte>, more: seq<Byte>)
    requires !NulFree(record)
    ensures NulIndex(record + more) == NulIndex(record) < |record|
  {
    if record[0] != 0 {
      assert record == [record[0]] + record[1..];
      assert (record + more)[1..] == record[1..] + more;
      NulIndexBehind(record[1..], more);
    }
  }

  /** The reader stands in front of `input`, with `prior` in its buffer. */
  ghost predicate Faces(r: Reader, prior: seq<Byte>, input: seq<Byte>) {
    Valid(r) && r.len == |prior| && r.buf[..r.len] == prior && Ahead(r.c, r.input) == input
  }

  /** One record: as the file says it, or the last one, which is cut short. */
  lemma ReadsRecord(r: Reader, prior: seq<Byte>, input: seq<Byte>)
    requires Faces(r, prior, input) && input != []
    ensures r.c != EOF
    ensures var (diff, rest) := Difference(input);
      var kept := r.count + diff;
      var v := VisitEntry(r);
      if kept < 0 || kept > |prior| then v == Corrupt
      else if rest == [] then v == Abort
      else if NulFree(rest) then v.Continue? && v.r.c == EOF
      else
        var n := NulIndex(rest);
        v.Continue? && n < |rest| && v.r.count == kept
        && CString(v.r.buf) == CString(prior[..kept] + rest[..n + 1])
        && Faces(v.r, prior[..kept] + rest[..n + 1], rest[n + 1..])
  {
    assert input == [r.c] + r.input;
    DifferenceIs(r);
    var (diff, rest) := Difference(input);
    var kept := r.count + diff;
    if 0 <= kept <= |prior| && rest != [] {
      var (data, rest2) := ReadRecord(rest);
      if NulFree(rest) {
        NulIndexMisses(rest);
      } else {
        NulIndexFinds(rest);
        var record := prior[..kept] + data;
        assert r.buf[..kept] == prior[..kept];
        var more := if kept + |data| < |r.buf| then r.buf[kept + |data|..] else [];
        assert Overlay(r.buf, kept, data) == record + more;
        assert record[|record| - 1] == 0;
        CStringBehind(record, more);
        GetCAhead(rest2);
      }
    }
  }

  ghost predicate AsNamed(got: (seq<Path>, bool), expected: (seq<Path>, Finish)) {
    && (got.1 <==> expected.1 == Damaged)
    && if expected.1 == CutShort then |got.0| == |expected.0| + 1 && expected.0 <= got.0 else got.0 == expected.0
  }

  lemma NamedFirst(name: Path, got: (seq<Path>, bool), expected: (seq<Path>, Finish))
    requires AsNamed(got, expected)
    ensures AsNamed(([name] + got.0, got.1), ([name] + expected.0, expected.1))
  {
  }

  lemma {:induction false} SearchIsNames(r: Reader, prior: seq<Byte>, input: seq<Byte>)
    requires Faces(r, prior, input)
    ensures AsNamed(Search(r), Names(prior, r.count, input))
    decreases |input|
  {
    if input != [] {
      hide VisitEntry, Faces, AsNamed;
      ReadsRecord(r, prior, input);
      var (diff, rest) := Difference(input);
      var kept := r.count + diff;
      var v := VisitEntry(r);
      if kept < 0 || kept > |prior| || rest == [] {
        Stopped(v == Corrupt);
      } else if NulFree(rest) {
        LastOne(CString(v.r.buf));
      } else {
        var n := NulIndex(rest);
        var record := prior[..kept] + rest[..n + 1];
        SearchIsNames(v.r, record, rest[n + 1..]);
        NamedFirst(CString(record), Search(v.r), Names(record, kept, rest[n + 1..]));
      }
    } else {
      Stopped(false);
    }
  }

  lemma Stopped(corrupt: bool)
    ensures AsNamed(([], corrupt), ([], if corrupt then Damaged else Complete))
  {
  }

  lemma LastOne(name: Path)
    ensures AsNamed(([name] + [], false), ([], CutShort))
  {
  }

  /** On every file locate hands on exactly these names, and reports the damaged ones. Only where the
      last record is cut short, one more follows. */
  lemma AnyFile(body: seq<Byte>)
    ensures AsNamed(Search(Start(MAGIC + body)), Names([], 0, body))
  {
    assert (MAGIC + body)[|MAGIC|..] == body;
    GetCAhead(body);
    SearchIsNames(Start(MAGIC + body), [], body);
  }
}
