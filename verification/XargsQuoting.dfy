/** Every way of quoting an argument for xargs is read back as that argument. */
module XargsQuoting {
  import opened Wrappers
  import opened Bytes
  import opened XargsRead

  /** A byte as it is, a byte behind a backslash, or a stretch between quotes. */
  datatype Piece = Plain(b: Byte) | Escaped(b: Byte) | Quoted(q: Byte, s: Text)

  type Word = seq<Piece>

  predicate Special(b: Byte) {
    b in {NEWLINE, TAB, BLANK, BACKSLASH, SINGLE, DOUBLE}
  }

  /** White space: tab, newline, vertical tab, form feed, carriage return, blank. */
  predicate White(b: Byte) {
    b in {9, 10, 11, 12, 13, 32}
  }

  /** Between quotes everything stands for itself but the quote and the newline. */
  predicate WellQuoted(p: Piece) {
    match p
    case Plain(b) => !Special(b)
    case Escaped(_) => true
    case Quoted(q, s) => (q == SINGLE || q == DOUBLE) && q !in s && NEWLINE !in s
  }

  /** A word does not begin with a byte that is skipped. */
  predicate GoodStart(w: Word) {
    (forall p | p in w :: WellQuoted(p)) && (w != [] && w[0].Plain? ==> !White(w[0].b))
  }

  /** And it is not nothing. */
  predicate GoodWord(w: Word) {
    w != [] && GoodStart(w)
  }

  function PieceBytes(p: Piece): seq<Byte> {
    match p
    case Plain(b) => [b]
    case Escaped(b) => [BACKSLASH, b]
    case Quoted(q, s) => [q] + s + [q]
  }

  function PieceValue(p: Piece): Text {
    match p
    case Plain(b) => [b]
    case Escaped(b) => [b]
    case Quoted(_, s) => s
  }

  function Spell(w: Word): seq<Byte> {
    if w == [] then [] else PieceBytes(w[0]) + Spell(w[1..])
  }

  function Value(w: Word): Text {
    if w == [] then [] else PieceValue(w[0]) + Value(w[1..])
  }

  // ---------------------------------------------------------------- reading one word

  lemma {:induction false} ReadsInQuotes(st: St, s: Text, q: Byte, tail: seq<Byte>, cfg: Config)
    requires st.mode == QUOTE(q) && q !in s && NEWLINE !in s
    ensures Go(st, s + tail, cfg)
         == if |st.buf| + |s| > cfg.limit && s != [] then STUCK else Go(st.(buf := st.buf + s), tail, cfg)
    decreases |s|
  {
    var input := s + tail;
    if s == [] {
      assert input == tail;
      assert st.buf + s == st.buf;
    } else {
      assert s[0] in s && input[0] == s[0];
      assert input[1..] == s[1..] + tail;
      if |st.buf| < cfg.limit {
        ReadsInQuotes(st.(buf := st.buf + [s[0]]), s[1..], q, tail, cfg);
        assert st.buf + [s[0]] + s[1..] == st.buf + s;
      }
    }
  }

  lemma ReadsEscaped(st: St, b: Byte, tail: seq<Byte>, cfg: Config)
    requires st.mode == NORM && st.seenArg
    ensures Go(st, [BACKSLASH, b] + tail, cfg)
         == if |st.buf| >= cfg.limit then STUCK else Go(st.(buf := st.buf + [b]), tail, cfg)
  {
    var input := [BACKSLASH, b] + tail;
    var behind := St(BACKSLASHED, st.buf, st.first, true);
    assert input[1..] == [b] + tail;
    assert Go(st, input, cfg) == GoNorm(st, input, cfg) == Go(behind, [b] + tail, cfg);
    assert ([b] + tail)[1..] == tail;
  }

  lemma ReadsStretch(st: St, q: Byte, s: Text, tail: seq<Byte>, cfg: Config)
    requires st.mode == NORM && st.seenArg && WellQuoted(Quoted(q, s)) && |st.buf| <= cfg.limit
    ensures Go(st, [q] + s + [q] + tail, cfg)
         == if |st.buf| + |s| > cfg.limit then STUCK else Go(st.(buf := st.buf + s), tail, cfg)
  {
    var inside := St(QUOTE(q), st.buf, st.first, true);
    var input := [q] + s + [q] + tail;
    assert input[0] == q && input[1..] == s + [q] + tail;
    assert Go(st, input, cfg) == GoNorm(st, input, cfg) == Go(inside, s + [q] + tail, cfg);
    assert s + [q] + tail == s + ([q] + tail) && ([q] + tail)[1..] == tail;
    ReadsInQuotes(inside, s, q, [q] + tail, cfg);
  }

  /** In the middle of a word. */
  lemma ReadsPiece(st: St, p: Piece, tail: seq<Byte>, cfg: Config)
    requires st.mode == NORM && st.seenArg && WellQuoted(p) && |st.buf| <= cfg.limit
    ensures Go(st, PieceBytes(p) + tail, cfg)
         == if |st.buf| + |PieceValue(p)| > cfg.limit then STUCK
            else Go(st.(buf := st.buf + PieceValue(p)), tail, cfg)
  {
    match p
    case Plain(b) =>
      var input := [b] + tail;
      assert input[1..] == tail;
      assert Go(st, input, cfg) == GoNorm(st, input, cfg);
    case Escaped(b) => ReadsEscaped(st, b, tail, cfg);
    case Quoted(q, s) => ReadsStretch(st, q, s, tail, cfg);
  }

  lemma {:induction false} ReadsWord(st: St, w: Word, tail: seq<Byte>, cfg: Config)
    requires st.mode == NORM && st.seenArg && |st.buf| <= cfg.limit && forall p | p in w :: WellQuoted(p)
    ensures Go(st, Spell(w) + tail, cfg)
         == if |st.buf| + |Value(w)| > cfg.limit then STUCK
            else Go(st.(buf := st.buf + Value(w)), tail, cfg)
    decreases |w|
  {
    if w == [] {
      assert Spell(w) + tail == tail;
      assert st.buf + [] == st.buf;
    } else {
      var p, rest := w[0], w[1..];
      assert p in w && forall x | x in rest :: x in w;
      WordSlices(st.buf, w, tail);
      hide Go, PieceBytes, PieceValue, WellQuoted;
      ReadsPiece(st, p, Spell(rest) + tail, cfg);
      if |st.buf| + |PieceValue(p)| <= cfg.limit {
        ReadsWord(st.(buf := st.buf + PieceValue(p)), rest, tail, cfg);
      }
    }
  }

  lemma WordSlices(buf: Text, w: Word, tail: seq<Byte>)
    requires w != []
    ensures Spell(w) + tail == PieceBytes(w[0]) + (Spell(w[1..]) + tail)
    ensures buf + Value(w) == buf + PieceValue(w[0]) + Value(w[1..])
    ensures |Value(w)| == |PieceValue(w[0])| + |Value(w[1..])|
  {
    hide PieceBytes, PieceValue;
    var a, b := PieceBytes(w[0]), Spell(w[1..]);
    assert (a + b) + tail == a + (b + tail);
    var c, d := PieceValue(w[0]), Value(w[1..]);
    assert buf + (c + d) == buf + c + d;
  }

  /** At the start of a word the state is still SPACE. */
  lemma StartsWord(st: St, w: Word, tail: seq<Byte>, cfg: Config)
    requires st.mode == SPACE && GoodStart(w)
    requires w == [] ==> tail != [] && (tail[0] == BACKSLASH || tail[0] == SINGLE || tail[0] == DOUBLE)
    ensures Go(st, Spell(w) + tail, cfg) == Go(st.(mode := NORM, seenArg := true), Spell(w) + tail, cfg)
  {
    var input := Spell(w) + tail;
    if w != [] {
      assert w[0] in w;
      assert Spell(w) == PieceBytes(w[0]) + Spell(w[1..]);
      assert input[0] == PieceBytes(w[0])[0];
    } else {
      assert input == tail;
    }
    assert !IsSpace(input[0]);
    assert Go(st, input, cfg) == GoNorm(st, input, cfg);
    var norm := st.(mode := NORM, seenArg := true);
    assert Go(norm, input, cfg) == GoNorm(norm, input, cfg);
  }

  // ---------------------------------------------------------------- whole inputs

  /** A word and the white space behind it: a blank or a newline first. */
  datatype Entry = Entry(word: Word, gap: seq<Byte>)

  predicate GoodGap(gap: seq<Byte>) {
    gap != [] && gap[0] in {BLANK, TAB, NEWLINE} && AllSpace(gap[1..])
  }

  predicate AllSpace(s: seq<Byte>) {
    forall b | b in s :: White(b)
  }

  predicate GoodInput(entries: seq<Entry>) {
    forall x | x in entries :: GoodWord(x.word) && GoodGap(x.gap)
  }

  function Written(entries: seq<Entry>): seq<Byte> {
    if entries == [] then [] else Spell(entries[0].word) + entries[0].gap + Written(entries[1..])
  }

  /** What may follow the last white space: nothing; a word that ends with the input; the same with
      a backslash behind it; or a quote that is not closed in front of a newline or of the end. */
  datatype Tail = Nothing | Unended(word: Word) | Stray(word: Word)
                | Opened(word: Word, q: Byte, s: Text, rest: seq<Byte>)

  predicate GoodTail(t: Tail) {
    match t
    case Nothing => true
    case Unended(w) => GoodWord(w)
    case Stray(w) => GoodStart(w)
    case Opened(w, q, s, rest) =>
      && GoodStart(w) && (q == SINGLE || q == DOUBLE) && q !in s && NEWLINE !in s
      && (rest == [] || rest[0] == NEWLINE)
  }

  function TailBytes(t: Tail): seq<Byte> {
    match t
    case Nothing => []
    case Unended(w) => Spell(w) + []
    case Stray(w) => Spell(w) + [BACKSLASH]
    case Opened(w, q, s, rest) => Spell(w) + ([q] + s + rest)
  }

  /** What comes of it. `first` says that no word stands before it on its line. */
  function TailResult(t: Tail, first: bool, cfg: Config): (seq<Text>, Finish) {
    if t.Nothing? then ([], Done)
    else
      var v := Value(t.word) + if t.Opened? then t.s else [];
      if |v| > cfg.limit then ([], LineTooLong)
      else if t.Opened? then ([], if v == [] && t.rest == [] then Done else BadQuote)
      else if v == [] || (first && cfg.eofStr == Some(CString(v))) then ([], Done)
      else ([CString(v)], Done)
  }

  predicate LineEnds(gap: seq<Byte>) {
    gap != [] && gap[0] == NEWLINE
  }

  /** What should come out: the values, as C strings, up to the end-of-file string, or to one that is
      too long. */
  function Expected(entries: seq<Entry>, tail: Tail, first: bool, cfg: Config): (seq<Text>, Finish) {
    if entries == [] then TailResult(tail, first, cfg)
    else
      var v := Value(entries[0].word);
      if |v| > cfg.limit then ([], LineTooLong)
      else if cfg.eofStr == Some(CString(v)) then ([], Done)
      else
        var (more, finish) := Expected(entries[1..], tail, LineEnds(entries[0].gap), cfg);
        ([CString(v)] + more, finish)
  }

  lemma {:induction false} SkipsSpace(st: St, s: seq<Byte>, tail: seq<Byte>, cfg: Config)
    requires st.mode == SPACE && AllSpace(s)
    ensures Go(st, s + tail, cfg) == Go(st, tail, cfg)
    decreases |s|
  {
    if s == [] {
      assert s + tail == tail;
    } else {
      assert s[0] in s;
      assert (s + tail)[1..] == s[1..] + tail;
      SkipsSpace(st, s[1..], tail, cfg);
    }
  }

  lemma CStringIs(v: Text)
    requires NulFree(v)
    ensures CString(v) == v
  {
    NulFreeIndex(v);
  }

  lemma {:induction false} NulFreeIndex(v: Text)
    requires NulFree(v)
    ensures NulIndex(v) == |v|
  {
    if v != [] {
      assert v[0] in v;
      NulFreeIndex(v[1..]);
    }
  }

  /** The white space behind a word ends it. */
  lemma EndsWord(st: St, v: Text, gap: seq<Byte>, tail: seq<Byte>, cfg: Config)
    requires st.mode == NORM && st.seenArg && st.buf == v && GoodGap(gap)
    ensures Go(st, gap + tail, cfg) ==
      if IsEofStr(cfg, v) then Outcome([], if st.first then MinusOne else Length(|v| + 1), gap[1..] + tail, true)
      else if gap[0] == NEWLINE then Outcome([CString(v)], Length(|v| + 1), gap[1..] + tail, false)
      else Push(CString(v), Go(St(SPACE, [], false, true), tail, cfg))
  {
    var input := gap + tail;
    assert Go(st, input, cfg) == GoNorm(st, input, cfg);
    assert input[0] == gap[0] && input[1..] == gap[1..] + tail;
    SkipsSpace(St(SPACE, [], false, true), gap[1..], tail, cfg);
  }

  /** The word up to what follows it. */
  lemma ReadsStart(st: St, w: Word, tail: seq<Byte>, cfg: Config)
    requires st.mode == SPACE && st.buf == [] && GoodStart(w)
    requires w == [] ==> tail != [] && (tail[0] == BACKSLASH || tail[0] == SINGLE || tail[0] == DOUBLE)
    ensures Go(st, Spell(w) + tail, cfg)
         == if |Value(w)| > cfg.limit then STUCK else Go(St(NORM, Value(w), st.first, true), tail, cfg)
  {
    hide Go, Spell, Value, IsSpace, Special, WellQuoted;
    StartsWord(st, w, tail, cfg);
    ReadsWord(St(NORM, [], st.first, true), w, tail, cfg);
    assert [] + Value(w) == Value(w);
  }

  lemma EndsInput(st: St, cfg: Config)
    requires st.mode.NORM?
    ensures var o := Go(st, [], cfg);
      && (o.ret.Length? ==> o.eof)
      && Carry(o, [], cfg) == if st.buf == [] || (st.first && IsEofStr(cfg, st.buf)) then ([], Done)
                              else ([CString(st.buf)], Done)
    ensures Go(st.(mode := BACKSLASHED), [], cfg) == Go(st, [], cfg)
  {
  }

  lemma EndsInQuotes(st: St, q: Byte, s: Text, rest: seq<Byte>, cfg: Config)
    requires st.mode.NORM? && (q == SINGLE || q == DOUBLE) && q !in s && NEWLINE !in s
    requires (rest == [] || rest[0] == NEWLINE) && |st.buf| <= cfg.limit
    ensures var o, v := Go(st, [q] + s + rest, cfg), st.buf + s;
      && !o.ret.Length?
      && Carry(o, [q] + s + rest, cfg).0 == []
      && Carry(o, [q] + s + rest, cfg).1 == if |v| > cfg.limit then LineTooLong
                                            else if v == [] && rest == [] then Done else BadQuote
  {
    var input := [q] + s + rest;
    var inside := st.(mode := QUOTE(q), seenArg := true);
    assert input[0] == q && input[1..] == s + rest;
    assert Go(st, input, cfg) == GoNorm(st, input, cfg) == Go(inside, s + rest, cfg);
    ReadsInQuotes(inside, s, q, rest, cfg);
  }

  lemma ReadsTail(st: St, t: Tail, cfg: Config)
    requires st.mode == SPACE && st.buf == [] && GoodTail(t)
    ensures var o := Go(st, TailBytes(t), cfg);
      (o.ret.Length? ==> o.eof) && Carry(o, TailBytes(t), cfg) == TailResult(t, st.first, cfg)
  {
    hide Spell, Value, IsSpace, GoodStart, White, CString;
    if !t.Nothing? {
      var tail := if t.Unended? then [] else if t.Stray? then [BACKSLASH] else [t.q] + t.s + t.rest;
      ReadsStart(st, t.word, tail, cfg);
      var behind := St(NORM, Value(t.word), st.first, true);
      assert Value(t.word) + [] == Value(t.word);
      EndsInput(behind, cfg);
      if t.Opened? && |Value(t.word)| <= cfg.limit {
        EndsInQuotes(behind, t.q, t.s, t.rest, cfg);
      } else if t.Stray? {
        assert Go(behind, tail, cfg) == GoNorm(behind, tail, cfg) == Go(behind.(mode := BACKSLASHED), [], cfg);
      }
    }
  }

  /** One call of `read_line` from a state between words, with the calls behind it. */
  lemma {:induction false} ReadsEntries(entries: seq<Entry>, t: Tail, st: St, input: seq<Byte>, cfg: Config)
    requires GoodInput(entries) && GoodTail(t) && st.mode == SPACE && st.buf == []
    requires input == Written(entries) + TailBytes(t)
    ensures var o := Go(st, input, cfg);
      (o.ret.Length? && !o.eof ==> |o.rest| < |input|) && Carry(o, input, cfg) == Expected(entries, t, st.first, cfg)
    decreases |entries|, 0
  {
    GoShrinks(st, input, cfg);
    hide Go, Spell, Value, IsSpace, GoodGap, GoodWord, GoodTail, TailBytes, TailResult;
    if entries == [] {
      assert input == TailBytes(t);
      ReadsTail(st, t, cfg);
    } else {
      var x, others := entries[0], entries[1..];
      assert x in entries && forall y | y in others :: y in entries;
      var v := Value(x.word);
      var tail := Written(others) + TailBytes(t);
      assert input == Spell(x.word) + x.gap + tail;
      ReadsEntry(x, st, input, tail, cfg);
      if |v| <= cfg.limit && !IsEofStr(cfg, v) {
        if x.gap[0] == NEWLINE {
          NextCall(others, t, x.gap[1..], cfg);
        } else {
          var between := St(SPACE, [], false, true);
          ReadsEntries(others, t, between, tail, cfg);
          CarryPush(CString(v), Go(between, tail, cfg), tail, input, cfg);
        }
      }
    }
  }

  /** One word with the white space behind it. */
  lemma ReadsEntry(x: Entry, st: St, input: seq<Byte>, tail: seq<Byte>, cfg: Config)
    requires GoodWord(x.word) && GoodGap(x.gap)
    requires st.mode == SPACE && st.buf == [] && input == Spell(x.word) + x.gap + tail
    ensures AllSpace(x.gap[1..]) && x.gap != []
    ensures var v := Value(x.word);
      Go(st, input, cfg) ==
      if |v| > cfg.limit then STUCK
      else if IsEofStr(cfg, v) then
        Outcome([], if st.first then MinusOne else Length(|v| + 1), x.gap[1..] + tail, true)
      else if x.gap[0] == NEWLINE then Outcome([CString(v)], Length(|v| + 1), x.gap[1..] + tail, false)
      else Push(CString(v), Go(St(SPACE, [], false, true), tail, cfg))
  {
    hide Go, Spell, Value, IsSpace, Special, WellQuoted;
    var v := Value(x.word);
    var behind := x.gap + tail;
    assert input == Spell(x.word) + behind;
    ReadsStart(st, x.word, behind, cfg);
    if |v| <= cfg.limit {
      EndsWord(St(NORM, v, st.first, true), v, x.gap, tail, cfg);
    }
  }

  lemma {:induction false} NextCall(others: seq<Entry>, t: Tail, skip: seq<Byte>, cfg: Config)
    requires GoodInput(others) && GoodTail(t) && AllSpace(skip)
    ensures ReadAll(skip + (Written(others) + TailBytes(t)), cfg) == Expected(others, t, true, cfg)
    decreases |others|, 1
  {
    var tail := Written(others) + TailBytes(t);
    ReadsEntries(others, t, START, tail, cfg);
    SkipsSpace(START, skip, tail, cfg);
    GoShrinks(START, skip + tail, cfg);
    var o := Go(START, tail, cfg);
    CarrySame(o, tail, skip + tail, cfg);
  }

  lemma CarrySame(o: Outcome, a: seq<Byte>, b: seq<Byte>, cfg: Config)
    requires o.ret.Length? && !o.eof ==> |o.rest| < |a| && |o.rest| < |b|
    ensures Carry(o, a, cfg) == Carry(o, b, cfg)
  {
  }

  lemma CarryPush(v: Text, o: Outcome, a: seq<Byte>, b: seq<Byte>, cfg: Config)
    requires o.ret.Length? && !o.eof ==> |o.rest| < |a| && |o.rest| < |b|
    ensures var (more, finish) := Carry(o, a, cfg);
      Carry(Push(v, o), b, cfg) == ([v] + more, finish)
  {
    if o.ret.Length? && !o.eof {
      var (more, finish) := ReadAll(o.rest, cfg);
      assert [v] + o.pushed + more == [v] + (o.pushed + more);
    }
  }

  /** However each argument is quoted, and whatever white space separates them, xargs pushes
      exactly the arguments: up to the logical end of file, up to the first one that is too long, or
      up to a quote that is not closed, which ends the program. A word at the very end of the input
      needs nothing behind it. */
  lemma QuotingExact(lead: seq<Byte>, entries: seq<Entry>, t: Tail, cfg: Config)
    requires AllSpace(lead) && GoodInput(entries) && GoodTail(t)
    ensures ReadAll(lead + (Written(entries) + TailBytes(t)), cfg) == Expected(entries, t, true, cfg)
  {
    NextCall(entries, t, lead, cfg);
  }

  // ---------------------------------------------------------------- every input is of this form

  predicate AllWellQuoted(w: Word) {
    forall p | p in w :: WellQuoted(p)
  }

  /** The stretch up to the closing quote or the newline in front of which it is missing. */
  lemma {:induction false} UpToQuote(q: Byte, input: seq<Byte>) returns (s: Text, rest: seq<Byte>)
    ensures input == s + rest && q !in s && NEWLINE !in s
    ensures rest == [] || rest[0] == q || rest[0] == NEWLINE
  {
    if input == [] || input[0] == q || input[0] == NEWLINE {
      return [], input;
    }
    s, rest := UpToQuote(q, input[1..]);
    assert input == [input[0]] + input[1..];
    s := [input[0]] + s;
  }

  /** What stands behind the pieces of a word: the input from the white space on, where `t` is
      Nothing, or what the tail has there. */
  function Behind(t: Tail, rest: seq<Byte>): seq<Byte> {
    match t
    case Nothing => rest
    case Unended(_) => []
    case Stray(_) => [BACKSLASH]
    case Opened(_, q, s, r) => [q] + s + r
  }

  predicate Ends(t: Tail, rest: seq<Byte>) {
    match t
    case Nothing => rest != [] && (IsBlank(rest[0]) || rest[0] == NEWLINE)
    case Unended(_) => true
    case Stray(_) => true
    case Opened(_, q, s, r) =>
      (q == SINGLE || q == DOUBLE) && q !in s && NEWLINE !in s && (r == [] || r[0] == NEWLINE)
  }

  /** The pieces up to white space or to the end of all words. */
  ghost predicate InPieces(input: seq<Byte>, w: Word, t: Tail, rest: seq<Byte>) {
    && AllWellQuoted(w) && (input != [] && w != [] && w[0].Plain? ==> w[0].b == input[0])
    && (!t.Nothing? ==> t.word == w) && input == Spell(w) + Behind(t, rest) && Ends(t, rest)
  }

  lemma OnePieceMore(p: Piece, input: seq<Byte>, w: Word, t: Tail, rest: seq<Byte>)
    requires WellQuoted(p) && InPieces(input, w, t, rest)
    ensures InPieces(PieceBytes(p) + input, [p] + w, if t.Nothing? then t else t.(word := [p] + w), rest)
  {
    hide WellQuoted;
    var t1 := if t.Nothing? then t else t.(word := [p] + w);
    assert Behind(t1, rest) == Behind(t, rest) && Ends(t1, rest) by { hide Spell, AllWellQuoted; }
    hide Behind, Ends, Spell;
    assert ([p] + w)[1..] == w;
    WordSlices([], [p] + w, Behind(t, rest));
  }

  lemma {:induction false} Pieces(input: seq<Byte>) returns (w: Word, t: Tail, rest: seq<Byte>)
    ensures InPieces(input, w, t, rest)
    decreases |input|
  {
    if input == [] {
      return [], Unended([]), [];
    }
    var c, more := input[0], input[1..];
    assert input == [c] + more;
    if c == NEWLINE || IsBlank(c) {
      return [], Nothing, input;
    }
    if c == BACKSLASH && more == [] {
      return [], Stray([]), [];
    }
    var p;
    if c == BACKSLASH {
      p := Escaped(more[0]);
      assert input == PieceBytes(p) + more[1..];
      w, t, rest := Pieces(more[1..]);
      OnePieceMore(p, more[1..], w, t, rest);
    } else if c == SINGLE || c == DOUBLE {
      var s, end := UpToQuote(c, more);
      if end == [] || end[0] != c {
        assert input == [] + ([c] + s + end);
        return [], Opened([], c, s, end), [];
      }
      p := Quoted(c, s);
      assert end == [c] + end[1..];
      assert input == PieceBytes(p) + end[1..];
      w, t, rest := Pieces(end[1..]);
      OnePieceMore(p, end[1..], w, t, rest);
    } else {
      p := Plain(c);
      w, t, rest := Pieces(more);
      OnePieceMore(p, more, w, t, rest);
    }
    w, t := [p] + w, if t.Nothing? then t else t.(word := [p] + w);
  }

  lemma {:induction false} UpToWord(input: seq<Byte>) returns (gap: seq<Byte>, rest: seq<Byte>)
    ensures input == gap + rest && AllSpace(gap) && (rest != [] ==> !IsSpace(rest[0]))
    ensures input != [] && IsSpace(input[0]) ==> gap != []
  {
    if input == [] || !IsSpace(input[0]) {
      return [], input;
    }
    gap, rest := UpToWord(input[1..]);
    assert input == [input[0]] + input[1..];
    gap := [input[0]] + gap;
  }

  lemma {:induction false} InEntries(input: seq<Byte>) returns (entries: seq<Entry>, t: Tail)
    requires input == [] || !IsSpace(input[0])
    ensures input == Written(entries) + TailBytes(t) && GoodInput(entries) && GoodTail(t)
    decreases |input|
  {
    hide InPieces, GoodWord, GoodGap, GoodTail, TailBytes, Spell, IsSpace;
    if input == [] {
      NoTail();
      return [], Nothing;
    }
    var w, end, rest := Pieces(input);
    if !end.Nothing? {
      LastTail(input, w, end, rest);
      return [], end;
    }
    BeforeGap(input, w, end, rest);
    var gap, more := UpToWord(rest);
    var x := Entry(w, gap);
    FirstGap(input, x, end, rest);
    entries, t := InEntries(more);
    EntryInFront(x, entries, more, t);
    assert input == Spell(w) + gap + more;
    entries := [x] + entries;
  }

  lemma NoTail()
    ensures GoodTail(Nothing) && TailBytes(Nothing) == []
  {
  }

  lemma LastTail(input: seq<Byte>, w: Word, end: Tail, rest: seq<Byte>)
    requires input != [] && !IsSpace(input[0]) && InPieces(input, w, end, rest) && !end.Nothing?
    ensures GoodTail(end) && input == Written([]) + TailBytes(end)
  {
    assert Spell(w) + [] == Spell(w);
    assert [] + TailBytes(end) == TailBytes(end);
  }

  lemma BeforeGap(input: seq<Byte>, w: Word, end: Tail, rest: seq<Byte>)
    requires InPieces(input, w, end, rest) && end.Nothing?
    ensures input == Spell(w) + rest && rest != [] && IsSpace(rest[0]) && |input| >= |rest|
  {
  }

  lemma EntryInFront(x: Entry, entries: seq<Entry>, more: seq<Byte>, t: Tail)
    requires more == Written(entries) + TailBytes(t)
    ensures Spell(x.word) + x.gap + more == Written([x] + entries) + TailBytes(t)
  {
    hide TailBytes, Spell;
    assert ([x] + entries)[1..] == entries;
    assert Spell(x.word) + x.gap + (Written(entries) + TailBytes(t))
        == (Spell(x.word) + x.gap + Written(entries)) + TailBytes(t);
  }

  lemma FirstGap(input: seq<Byte>, x: Entry, end: Tail, rest: seq<Byte>)
    requires input != [] && !IsSpace(input[0]) && InPieces(input, x.word, end, rest) && end.Nothing?
    requires x.gap != [] && x.gap <= rest && AllSpace(x.gap)
    ensures GoodWord(x.word) && GoodGap(x.gap)
  {
    assert [] + rest == rest;
    forall b | b in x.gap[1..]
      ensures b in x.gap
    {
    }
  }

  /** Whatever bytes xargs reads, they are words, white space and a tail, so that `QuotingExact`
      tells what comes of them. */
  lemma EveryInput(input: seq<Byte>) returns (lead: seq<Byte>, entries: seq<Entry>, t: Tail)
    ensures input == lead + (Written(entries) + TailBytes(t))
    ensures AllSpace(lead) && GoodInput(entries) && GoodTail(t)
  {
    var rest;
    lead, rest := UpToWord(input);
    entries, t := InEntries(rest);
  }

  // ---------------------------------------------------------------- the plain way

  /** A backslash before every byte; two quotes for an empty argument. */
  function Protect(a: Text): Word {
    if a == [] then [Quoted(SINGLE, [])] else Escape(a)
  }

  function Escape(a: Text): Word {
    if a == [] then [] else [Escaped(a[0])] + Escape(a[1..])
  }

  lemma {:induction false} EscapeFacts(a: Text)
    ensures Value(Escape(a)) == a && forall p | p in Escape(a) :: p.Escaped?
  {
    if a != [] {
      EscapeFacts(a[1..]);
    }
  }

  function ProtectAll(args: seq<Text>, gaps: seq<Byte>): seq<Entry>
    requires |gaps| == |args|
  {
    if args == [] then [] else [Entry(Protect(args[0]), [gaps[0]])] + ProtectAll(args[1..], gaps[1..])
  }

  /** Arguments that fit and are not the end-of-file string, and a separator for each. */
  predicate Plainly(args: seq<Text>, gaps: seq<Byte>, cfg: Config) {
    && |gaps| == |args| && (forall g | g in gaps :: g == BLANK || g == TAB || g == NEWLINE)
    && (forall a | a in args :: NulFree(a) && |a| <= cfg.limit && cfg.eofStr != Some(a))
  }

  lemma {:induction false} ProtectedInput(args: seq<Text>, gaps: seq<Byte>, cfg: Config)
    requires |gaps| == |args| && Plainly(args, gaps, cfg)
    ensures GoodInput(ProtectAll(args, gaps)) && AsExpected(ProtectAll(args, gaps), args, cfg)
    decreases |args|
  {
    hide Plainly, GoodWord, GoodInput, GoodGap, AsExpected, Protect, Value, NulFree;
    if args == [] {
      NothingProtected(cfg);
    } else {
      PlainlyRest(args, gaps, cfg);
      ProtectedInput(args[1..], gaps[1..], cfg);
      ProtectedWord(args[0]);
      ProtectedMore(Entry(Protect(args[0]), [gaps[0]]), ProtectAll(args[1..], gaps[1..]), args[0], args[1..], cfg);
      assert [args[0]] + args[1..] == args;
    }
  }

  ghost predicate AsExpected(entries: seq<Entry>, args: seq<Text>, cfg: Config) {
    forall first :: Expected(entries, Nothing, first, cfg) == (args, Done)
  }

  lemma NothingProtected(cfg: Config)
    ensures GoodInput([]) && AsExpected([], [], cfg)
  {
  }

  lemma PlainlyRest(args: seq<Text>, gaps: seq<Byte>, cfg: Config)
    requires Plainly(args, gaps, cfg) && args != []
    ensures |gaps| == |args| && GoodGap([gaps[0]]) && Plainly(args[1..], gaps[1..], cfg)
    ensures NulFree(args[0]) && |args[0]| <= cfg.limit && cfg.eofStr != Some(args[0])
  {
    assert args[0] in args && gaps[0] in gaps;
    assert forall a | a in args[1..] :: a in args;
    assert forall g | g in gaps[1..] :: g in gaps;
  }

  lemma ProtectedMore(x: Entry, others: seq<Entry>, a: Text, args: seq<Text>, cfg: Config)
    requires GoodInput(others) && AsExpected(others, args, cfg)
    requires GoodWord(x.word) && GoodGap(x.gap) && NulFree(a) && Value(x.word) == a
    requires |a| <= cfg.limit && cfg.eofStr != Some(a)
    ensures GoodInput([x] + others) && AsExpected([x] + others, [a] + args, cfg)
  {
    CStringIs(a);
    assert ([x] + others)[1..] == others;
  }

  lemma ProtectedWord(a: Text)
    ensures GoodWord(Protect(a)) && Value(Protect(a)) == a
  {
    EscapeFacts(a);
    var quotes: Word := [Quoted(SINGLE, [])];
    assert Value(quotes) == PieceValue(quotes[0]) + Value(quotes[1..]);
  }

  /** Arguments within the size limit, each byte behind a backslash and each argument followed by
      a blank, a tab or a newline, come out as they are. */
  lemma RoundTrip(args: seq<Text>, gaps: seq<Byte>, cfg: Config)
    requires Plainly(args, gaps, cfg)
    ensures ReadAll(Written(ProtectAll(args, gaps)), cfg) == (args, Done)
  {
    ProtectedInput(args, gaps, cfg);
    QuotingExact([], ProtectAll(args, gaps), Nothing, cfg);
    assert [] + (Written(ProtectAll(args, gaps)) + []) == Written(ProtectAll(args, gaps));
  }
}
