/** What `code` writes for a name, said from the table alone. */
module LocateOldText {
  import opened Bytes
  import opened LocateWord
  import opened Words
  import opened LocateBytes
  import opened LocateOld

  /** The pair stands at `k`, in front of the padding. */
  predicate Occurs(table: Table, a: Byte, b: Byte, k: nat) {
    k < 255 && table[k] == a && table[k + 1] == b && forall j | 0 <= j <= k :: table[j] != 0
  }

  predicate First(table: Table, a: Byte, b: Byte, k: nat) {
    Occurs(table, a, b, k) && forall j: nat | j < k :: !Occurs(table, a, b, j)
  }

  lemma {:induction false} StrIndexFrom(table: Table, a: Byte, b: Byte, from: nat, k: nat)
    requires from <= 256 && (forall j: nat | j < from :: table[j] != 0 && !Occurs(table, a, b, j))
    ensures StrIndex(table, a, b, from) == k <==> First(table, a, b, k)
    decreases 256 - from
  {
    if from < 256 && table[from] != 0 {
      if table[from] == a && from + 1 < 256 && table[from + 1] == b {
        assert Occurs(table, a, b, from);
      } else {
        StrIndexFrom(table, a, b, from + 1, k);
      }
    } else if from < 256 {
      assert Occurs(table, a, b, k) ==> k < from;
    }
  }

  /** `strindex` finds the first place, or there is none. */
  lemma StrIndexFirst(table: Table, a: Byte, b: Byte, k: nat)
    ensures StrIndex(table, a, b, 0) == k <==> First(table, a, b, k)
  {
    StrIndexFrom(table, a, b, 0, k);
  }

  /** The pair has the code `code`. */
  predicate HasCode(table: Table, a: Byte, b: Byte, code: Byte) {
    code >= 128 && First(table, a, b, 2 * (code - 128))
  }

  ghost predicate Coded(table: Table, a: Byte, b: Byte) {
    exists code: Byte :: HasCode(table, a, b, code)
  }

  /** How many of the first `i` pairs have a code. */
  ghost function Saved(table: Table, text: Path, i: nat): (n: nat)
    requires 2 * i <= |text|
    ensures n <= i
  {
    if i == 0 then 0
    else Saved(table, text, i - 1) + if Coded(table, text[2 * i - 2], text[2 * i - 1]) then 1 else 0
  }

  /** Where the `i`-th pair is written, and what for it. */
  ghost predicate PairAt(table: Table, text: Path, out: seq<Byte>, i: nat)
    requires 2 * i + 1 < |text|
  {
    var a, b, at := text[2 * i], text[2 * i + 1], 2 * i - Saved(table, text, i);
    && at < |out|
    && (forall code: Byte | HasCode(table, a, b, code) :: out[at] == code)
    && (!Coded(table, a, b) ==> at + 1 < |out| && out[at] == a && out[at + 1] == b)
  }

  /** Every pair has its code or its two letters at its place, a single letter at the end is itself,
      and each code makes what is written one byte shorter than the text. */
  ghost predicate InPairs(table: Table, text: Path, out: seq<Byte>) {
    && |out| == |text| - Saved(table, text, |text| / 2)
    && (forall i: nat | 2 * i + 1 < |text| :: PairAt(table, text, out, i))
    && (|text| % 2 == 1 ==> |out| > 0 && out[|out| - 1] == text[|text| - 1])
  }

  lemma PairIs(table: Table, a: Byte, b: Byte)
    ensures forall code: Byte | HasCode(table, a, b, code) :: PairBytes(table, a, b) == [code]
    ensures !Coded(table, a, b) ==> PairBytes(table, a, b) == [a, b]
    ensures Coded(table, a, b) ==> |PairBytes(table, a, b)| == 1
  {
    forall code: Byte | HasCode(table, a, b, code)
      ensures PairBytes(table, a, b) == [code]
    {
      StrIndexFirst(table, a, b, 2 * (code - 128));
    }
    var k := StrIndex(table, a, b, 0);
    if k >= 0 && k % 2 == 0 {
      StrIndexFirst(table, a, b, k);
      assert HasCode(table, a, b, 128 + k / 2);
    }
  }

  lemma {:induction false} SavedBehind(table: Table, text: Path, i: nat)
    requires 2 * i + 2 <= |text|
    ensures Saved(table, text, i + 1)
         == (if Coded(table, text[0], text[1]) then 1 else 0) + Saved(table, text[2..], i)
  {
    hide Coded;
    if i > 0 {
      SavedBehind(table, text, i - 1);
      assert text[2..][2 * i - 2] == text[2 * i] && text[2..][2 * i - 1] == text[2 * i + 1];
    } else {
      assert Saved(table, text, 0) == 0;
    }
  }

  lemma FirstPairAt(table: Table, text: Path, rest: seq<Byte>)
    requires |text| >= 2
    ensures PairAt(table, text, PairBytes(table, text[0], text[1]) + rest, 0)
  {
    hide Coded, HasCode, PairBytes;
    PairIs(table, text[0], text[1]);
    HeadLength(table, text);
  }

  lemma NextPairAt(table: Table, text: Path, rest: seq<Byte>, i: nat)
    requires 2 * i + 3 < |text| && PairAt(table, text[2..], rest, i)
    ensures PairAt(table, text, PairBytes(table, text[0], text[1]) + rest, i + 1)
  {
    hide Coded, HasCode, PairBytes;
    var head := PairBytes(table, text[0], text[1]);
    HeadLength(table, text);
    SavedBehind(table, text, i);
    assert text[2..][2 * i] == text[2 * (i + 1)] && text[2..][2 * i + 1] == text[2 * (i + 1) + 1];
    var at := 2 * i - Saved(table, text[2..], i);
    assert 2 * (i + 1) - Saved(table, text, i + 1) == |head| + at;
    assert (head + rest)[|head| + at] == rest[at];
    assert at + 1 < |rest| ==> (head + rest)[|head| + at + 1] == rest[at + 1];
  }

  lemma PairInFront(table: Table, text: Path, rest: seq<Byte>)
    requires |text| >= 2 && InPairs(table, text[2..], rest)
    ensures InPairs(table, text, PairBytes(table, text[0], text[1]) + rest)
  {
    hide Coded, HasCode, PairBytes, PairAt;
    var more, out := text[2..], PairBytes(table, text[0], text[1]) + rest;
    HeadLength(table, text);
    SavedBehind(table, text, |more| / 2);
    forall i: nat | 2 * i + 1 < |text|
      ensures PairAt(table, text, out, i)
    {
      if i == 0 {
        FirstPairAt(table, text, rest);
      } else {
        assert PairAt(table, more, rest, i - 1);
        NextPairAt(table, text, rest, i - 1);
      }
    }
  }

  /** `code` writes a text in pairs. */
  lemma {:induction false} TextInPairs(table: Table, text: Path)
    ensures InPairs(table, text, TextBytes(table, text))
    decreases |text|
  {
    if |text| >= 2 {
      hide InPairs, PairBytes;
      TextInPairs(table, text[2..]);
      PairInFront(table, text, TextBytes(table, text[2..]));
    }
  }

  lemma HeadLength(table: Table, text: Path)
    requires |text| >= 2
    ensures |PairBytes(table, text[0], text[1])| == if Coded(table, text[0], text[1]) then 1 else 2
  {
    PairIs(table, text[0], text[1]);
  }

  /** One byte for a small difference of counts, five for another. */
  predicate CountWritten(diff: int, out: seq<Byte>, host: Endian) {
    if -14 <= diff <= 14 then out == [diff + 14] else |out| == 5 && out[0] == 30 && Value(out[1..], host) == diff + 14
  }

  lemma CountIsWritten(diff: int, host: Endian)
    requires FitsWord(diff + OLD_OFFSET)
    ensures CountWritten(diff, CountBytes(diff, host), host)
  {
    if !OneByte(diff) {
      hide WordBytes, Value;
      assert ([OLD_ESCAPE] + WordBytes(diff + OLD_OFFSET, host))[1..] == WordBytes(diff + OLD_OFFSET, host);
      ReadBack(diff + OLD_OFFSET, host, host);
    }
  }

  /** A whole entry: the difference of the counts, then what is left of the name in pairs. */
  ghost predicate EntryWritten(table: Table, prior: Path, priorCount: nat, path: Path, out: seq<Byte>, host: Endian) {
    var count := Common(prior, path);
    exists k: nat | k <= |out| ::
      CountWritten(count - priorCount, out[..k], host) && InPairs(table, path[count..], out[k..])
  }

  lemma EntryIsWritten(table: Table, prior: Path, priorCount: nat, path: Path, host: Endian)
    requires |path| <= MAX_NAME && priorCount <= MAX_NAME
    ensures EntryWritten(table, prior, priorCount, path, EntryBytes(table, prior, priorCount, path, host), host)
  {
    hide InPairs, TextBytes, CountWritten, CountBytes;
    var count := Common(prior, path);
    TextInPairs(table, path[count..]);
    CountIsWritten(count - priorCount, host);
    var head, text := CountBytes(count - priorCount, host), TextBytes(table, path[count..]);
    var k := |head|;
    assert (head + text)[k..] == text && (head + text)[..k] == head;
    assert CountWritten(count - priorCount, (head + text)[..k], host);
  }

  /** A whole list, one entry behind the other, each against the printable form of the one before. */
  ghost predicate ListWritten(table: Table, entries: seq<Path>, prior: Path, priorCount: nat, out: seq<Byte>,
                              host: Endian)
    decreases |entries|
  {
    if entries == [] then out == []
    else
      var path := Squelch(entries[0]);
      exists k: nat | k <= |out| ::
        && EntryWritten(table, prior, priorCount, path, out[..k], host)
        && ListWritten(table, entries[1..], path, Common(prior, path), out[k..], host)
  }

  lemma {:induction false} ListIsWritten(table: Table, entries: seq<Path>, prior: Path, priorCount: nat, host: Endian)
    requires Manageable(entries) && priorCount <= MAX_NAME
    ensures ListWritten(table, entries, prior, priorCount, Encode(table, entries, prior, priorCount, host), host)
    decreases |entries|
  {
    if entries != [] {
      hide EntryWritten, EntryBytes;
      EncodeCons(table, entries, prior, priorCount, host);
      var path := Squelch(entries[0]);
      var count := Common(prior, path);
      EntryIsWritten(table, prior, priorCount, path, host);
      ListIsWritten(table, entries[1..], path, count, host);
      OneMoreWritten(table, entries, prior, priorCount, EntryBytes(table, prior, priorCount, path, host),
                     Encode(table, entries[1..], path, count, host), host);
    }
  }

  lemma OneMoreWritten(table: Table, entries: seq<Path>, prior: Path, priorCount: nat, a: seq<Byte>, b: seq<Byte>,
                       host: Endian)
    requires entries != []
    requires EntryWritten(table, prior, priorCount, Squelch(entries[0]), a, host)
    requires ListWritten(table, entries[1..], Squelch(entries[0]), Common(prior, Squelch(entries[0])), b, host)
    ensures ListWritten(table, entries, prior, priorCount, a + b, host)
  {
    hide EntryWritten;
    assert (a + b)[..|a|] == a && (a + b)[|a|..] == b;
    assert EntryWritten(table, prior, priorCount, Squelch(entries[0]), (a + b)[..|a|], host);
  }
}
