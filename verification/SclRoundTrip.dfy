/** What is queued is what is read: no later read in the packet spoils an earlier result. */
module SclRoundTrip {
  import opened Wrappers
  import opened Bytes
  import opened Words
  import opened SclCodec

  lemma IntReadsBack(done: seq<Byte>, n: Int32, rest: seq<Byte>)
    ensures IntAt(done + LittleBytes(n) + rest, |done|) == n
  {
    var packet := done + LittleBytes(n) + rest;
    assert packet[|done|..|done| + SCL_LEN_LEN] == LittleBytes(n);
    LittleRoundTrip(n);
  }

  const ZEROS: seq<Byte> := [0, 0, 0, 0]

  lemma ZeroedLen(done: seq<Byte>, n: Int32, rest: seq<Byte>)
    ensures Zeroed(done + LittleBytes(n) + rest, |done|) == done + ZEROS + rest
  {
    var packet := done + LittleBytes(n) + rest;
    assert packet[..|done|] == done && packet[|done| + SCL_LEN_LEN..] == rest;
  }

  /** The text of a string, empty for NULL. */
  function TextOf(s: Chars): Text {
    if s.None? then [] else s.value
  }

  lemma CountedIs(s: Chars)
    requires GoodChars(s)
    ensures Counted(s) == LittleBytes(StrLen(s)) + TextOf(s)
  {
    assert LittleBytes(0) + [] == LittleBytes(0);
  }

  /** The pointer the loop sets for a string whose length is at `at`. */
  function PointerTo(at: nat, s: Chars): Option<nat> {
    if StrLen(s) == 0 then None else Some(at + SCL_LEN_LEN)
  }

  /** What the loop leaves of the bytes of the first string. */
  function Spent(s: Chars): seq<Byte> {
    ZEROS + TextOf(s)
  }

  /** One turn of the loop. */
  lemma FirstString(done: seq<Byte>, s: Chars, tail: seq<Byte>, n: nat)
    requires GoodChars(s)
    ensures var r := GetStrings(done + Spent(s) + tail, |done + Spent(s)|, n);
      r.Some? ==>
        GetStrings(done + Counted(s) + tail, |done|, n + 1)
          == Some(([PointerTo(|done|, s)] + r.value.0, r.value.1, r.value.2))
  {
    hide LittleBytes, LittleValue, IntAt, Zeroed;
    var len, text := StrLen(s), TextOf(s);
    CountedIs(s);
    Rebracket(done, LittleBytes(len), text, tail);
    Rebracket(done, ZEROS, text, tail);
    IntReadsBack(done, len, text + tail);
    ZeroedLen(done, len, text + tail);
  }

  /** Behind `done`, the loop makes `seen` of the bytes `written` and sets the pointers `ps`. */
  ghost predicate Reads(done: seq<Byte>, written: seq<Byte>, rest: seq<Byte>, ps: seq<Option<nat>>, seen: seq<Byte>) {
    GetStrings(done + written + rest, |done|, |ps|) == Some((ps, done + seen + rest, |done| + |seen|))
  }

  lemma NoStrings(done: seq<Byte>, rest: seq<Byte>)
    ensures Reads(done, [], rest, [], [])
  {
  }

  lemma StringsStep(done: seq<Byte>, s: Chars, written: seq<Byte>, rest: seq<Byte>, ps: seq<Option<nat>>,
                    seen: seq<Byte>)
    requires GoodChars(s) && Reads(done + Spent(s), written, rest, ps, seen)
    ensures Reads(done, Counted(s) + written, rest, [PointerTo(|done|, s)] + ps, Spent(s) + seen)
  {
    hide GetStrings, Counted, PointerTo, Spent;
    assert done + (Counted(s) + written) + rest == done + Counted(s) + (written + rest) by {
      Rebracket(done, Counted(s), written, rest);
    }
    assert done + Spent(s) + written + rest == done + Spent(s) + (written + rest) by {
      Rebracket(done, Spent(s), written, rest);
    }
    assert done + (Spent(s) + seen) + rest == done + Spent(s) + seen + rest
      && |done + Spent(s)| + |seen| == |done| + |Spent(s) + seen| by {
      Rebracket(done, Spent(s), seen, rest);
    }
    FirstString(done, s, written + rest, |ps|);
  }

  lemma Rebracket(a: seq<Byte>, b: seq<Byte>, c: seq<Byte>, d: seq<Byte>)
    ensures a + (b + c) + d == a + b + (c + d) == a + b + c + d
    ensures |a + b| + |c| == |a| + |b + c|
  {
  }

  /** The loop reads each string where it was written; the packet changes only there, and the
      zeroed length of each string ends the one before. */
  ghost predicate StringsBack(done: seq<Byte>, texts: seq<Chars>, rest: seq<Byte>, ps: seq<Option<nat>>,
                              seen: seq<Byte>)
    requires forall s | s in texts :: GoodChars(s)
  {
    && |seen| == |CountedAll(texts)| && |ps| == |texts|
    && Reads(done, CountedAll(texts), rest, ps, seen)
    && (if texts != [] then ZEROS <= seen else seen == [])
    && ShowsAll(done + seen + [0], ps, texts)
  }

  lemma OneStringBack(done: seq<Byte>, s: Chars, texts: seq<Chars>, rest: seq<Byte>, ps: seq<Option<nat>>,
                      seen: seq<Byte>)
    requires GoodChars(s) && (forall x | x in texts :: GoodChars(x)) && (forall x | x in [s] + texts :: GoodChars(x))
    requires StringsBack(done + Spent(s), texts, rest, ps, seen)
    ensures StringsBack(done, [s] + texts, rest, [PointerTo(|done|, s)] + ps, Spent(s) + seen)
  {
    hide Reads, ShowsAll, Counted, GoodChars, Spent;
    assert ([s] + texts)[1..] == texts;
    assert CountedAll([s] + texts) == Counted(s) + CountedAll(texts);
    hide CountedAll;
    StringsStep(done, s, CountedAll(texts), rest, ps, seen);
    OneMore(done, s, ps, texts, seen);
    CountedLen(s);
  }

  lemma {:induction false} StringsReadBack(done: seq<Byte>, texts: seq<Chars>, rest: seq<Byte>)
    returns (ps: seq<Option<nat>>, seen: seq<Byte>)
    requires forall s | s in texts :: GoodChars(s)
    ensures StringsBack(done, texts, rest, ps, seen)
    decreases |texts|
  {
    if texts == [] {
      ps, seen := [], [];
      NoStrings(done, rest);
    } else {
      hide StringsBack, GoodChars, Spent;
      var s, more := texts[0], texts[1..];
      assert texts == [s] + more;
      ps, seen := StringsReadBack(done + Spent(s), more, rest);
      OneStringBack(done, s, more, rest, ps, seen);
      ps, seen := [PointerTo(|done|, s)] + ps, Spent(s) + seen;
    }
  }

  lemma CountedLen(s: Chars)
    requires GoodChars(s)
    ensures |Counted(s)| == |Spent(s)| && forall more :: ZEROS <= Spent(s) + more
  {
  }

  lemma FirstShown(done: seq<Byte>, s: Chars, seen: seq<Byte>)
    requires seen == [] || ZEROS <= seen
    ensures Shows(done + Spent(s) + seen + [0], PointerTo(|done|, s), s)
  {
    var text, at := TextOf(s), |done| + SCL_LEN_LEN;
    var memory := done + Spent(s) + seen + [0];
    assert memory == (done + ZEROS) + text + (seen + [0]);
    assert memory[at..at + |text|] == text;
    assert memory[at + |text|] == (seen + [0])[0] == 0;
  }

  lemma OneMore(done: seq<Byte>, s: Chars, ps: seq<Option<nat>>, texts: seq<Chars>, seen: seq<Byte>)
    requires ShowsAll(done + Spent(s) + seen + [0], ps, texts)
    requires if texts != [] then ZEROS <= seen else seen == []
    ensures ShowsAll(done + (Spent(s) + seen) + [0], [PointerTo(|done|, s)] + ps, [s] + texts)
  {
    hide Shows, Spent, PointerTo;
    var memory := done + (Spent(s) + seen) + [0];
    assert memory == done + Spent(s) + seen + [0];
    FirstShown(done, s, seen);
    var p := PointerTo(|done|, s);
    forall i | 0 <= i < |[s] + texts|
      ensures Shows(memory, ([p] + ps)[i], ([s] + texts)[i])
    {
      if i > 0 {
        assert Shows(memory, ps[i - 1], texts[i - 1]);
      }
    }
  }

  // ---------------------------------------------------------------- one value

  /** Reading the value at the end of `done` gives what `e` is, leaves `done` and `rest` alone, and
      moves the cursor to `rest`. */
  ghost predicate ReadBack(done: seq<Byte>, e: Element, rest: seq<Byte>, seen: seq<Byte>, got: Got,
                           count: Option<Int32>)
    requires WellTyped(e)
  {
    && |seen| == |Written(e)|
    && Get(done + Written(e) + rest, |done|, e.kind, true) == Some(Read(got, count, done + seen + rest, |done + seen|))
    && Denotes(done + seen, got, count, e)
  }

  lemma SimpleReadsBack(done: seq<Byte>, e: Element, rest: seq<Byte>)
    returns (seen: seq<Byte>, got: Got, count: Option<Int32>)
    requires WellTyped(e) && !Complex(e.kind) && !e.kind.SCL_STRING?
    ensures ReadBack(done, e, rest, seen, got, count)
  {
    seen, got, count := Written(e), At(|done|), None;
    assert seen == e.val.bytes;
    assert (done + seen)[|done|..|done| + |seen|] == seen;
  }

  lemma ArrayReadsBack(done: seq<Byte>, e: Element, rest: seq<Byte>)
    returns (seen: seq<Byte>, got: Got, count: Option<Int32>)
    requires WellTyped(e) && Complex(e.kind) && !e.kind.SCL_STRING_A?
    ensures ReadBack(done, e, rest, seen, got, count)
  {
    hide LittleBytes, LittleValue, ArrayWidth;
    seen, got, count := Written(e), At(|done| + SCL_LEN_LEN), Some(e.arrayLen);
    var len, bytes := LittleBytes(e.arrayLen), e.val.bytes;
    assert seen == len + bytes && |bytes| == ArrayWidth(e.kind, e.arrayLen);
    Rebracket(done, len, bytes, rest);
    IntReadsBack(done, e.arrayLen, bytes + rest);
    assert (done + seen)[|done| + SCL_LEN_LEN..|done| + SCL_LEN_LEN + |bytes|] == bytes;
  }

  /** Where the text of a string is that was written behind `done`. */
  function StringAt(done: seq<Byte>, s: Chars): Got {
    if StrLen(s) == 0 then Null else At(|done| + SCL_LEN_LEN)
  }

  lemma GetString(done: seq<Byte>, s: Chars, rest: seq<Byte>)
    requires GoodChars(s)
    ensures var packet := done + (Counted(s) + [0]) + rest;
      Get(packet, |done|, SCL_STRING, true) == Some(Read(StringAt(done, s), None, packet, |done + (Counted(s) + [0])|))
  {
    hide LittleBytes, LittleValue;
    var len, text := StrLen(s), TextOf(s);
    var packet := done + (Counted(s) + [0]) + rest;
    CountedIs(s);
    assert packet == done + LittleBytes(len) + (text + [0] + rest);
    IntReadsBack(done, len, text + [0] + rest);
    assert packet[|done| + SCL_LEN_LEN + len] == 0;
    assert packet[|done| + SCL_LEN_LEN + len := 0] == packet;
  }

  lemma StringShown(done: seq<Byte>, s: Chars)
    requires GoodChars(s)
    ensures var p := StringAt(done, s);
      Shows(done + (Counted(s) + [0]), if p.At? then Some(p.pos) else None, s)
  {
    hide LittleBytes;
    CountedIs(s);
    if StrLen(s) > 0 {
      var memory := done + (Counted(s) + [0]);
      assert memory == done + LittleBytes(|s.value|) + s.value + [0];
      assert memory[|done| + SCL_LEN_LEN..|done| + SCL_LEN_LEN + |s.value|] == s.value;
    }
  }

  lemma StringReadsBack(done: seq<Byte>, e: Element, rest: seq<Byte>)
    returns (seen: seq<Byte>, got: Got, count: Option<Int32>)
    requires WellTyped(e) && e.kind.SCL_STRING?
    ensures ReadBack(done, e, rest, seen, got, count)
  {
    hide Get, Shows, Counted;
    seen, got, count := Written(e), StringAt(done, e.val.text), None;
    assert seen == Counted(e.val.text) + [0];
    GetString(done, e.val.text, rest);
    StringShown(done, e.val.text);
  }

  lemma StringsOf(e: Element)
    requires WellTyped(e) && e.kind.SCL_STRING_A?
    ensures var texts := if e.val.texts.None? then [] else e.val.texts.value;
      |texts| == e.arrayLen && (forall s | s in texts :: GoodChars(s))
      && Written(e) == LittleBytes(e.arrayLen) + CountedAll(texts) + [0]
  {
    var texts := if e.val.texts.None? then [] else e.val.texts.value;
    assert LittleBytes(e.arrayLen) + (CountedAll(texts) + [0]) == LittleBytes(e.arrayLen) + CountedAll(texts) + [0];
  }

  lemma StringArrayReadsBack(done: seq<Byte>, e: Element, rest: seq<Byte>)
    returns (seen: seq<Byte>, got: Got, count: Option<Int32>)
    requires WellTyped(e) && e.kind.SCL_STRING_A?
    ensures ReadBack(done, e, rest, seen, got, count)
  {
    hide LittleBytes, LittleValue, GetStrings, ShowsAll, CountedAll;
    var texts := if e.val.texts.None? then [] else e.val.texts.value;
    StringsOf(e);
    var len, all := LittleBytes(e.arrayLen), CountedAll(texts);
    var ps, strings := StringsReadBack(done + len, texts, [0] + rest);
    seen, got, count := len + strings + [0], Pointers(ps), Some(e.arrayLen);
    assert done + (len + all + [0]) + rest == done + len + (all + [0] + rest) by {
      assert done + (len + all + [0]) + rest == done + len + all + [0] + rest;
    }
    IntReadsBack(done, e.arrayLen, all + [0] + rest);
    assert done + (len + all + [0]) + rest == done + len + all + ([0] + rest);
    TrailingByte(done + len + strings, rest);
    assert done + len + strings + [0] == done + seen;
    assert |done + len| == |done| + SCL_LEN_LEN;
  }

  lemma TrailingByte(front: seq<Byte>, rest: seq<Byte>)
    ensures (front + ([0] + rest))[|front| := 0] == front + [0] + rest
  {
  }

  /** One value reads back, whatever surrounds it. */
  lemma ValueReadsBack(done: seq<Byte>, e: Element, rest: seq<Byte>)
    returns (seen: seq<Byte>, got: Got, count: Option<Int32>)
    requires WellTyped(e)
    ensures ReadBack(done, e, rest, seen, got, count)
  {
    hide ReadBack;
    if e.kind.SCL_STRING? {
      seen, got, count := StringReadsBack(done, e, rest);
    } else if e.kind.SCL_STRING_A? {
      seen, got, count := StringArrayReadsBack(done, e, rest);
    } else if Complex(e.kind) {
      seen, got, count := ArrayReadsBack(done, e, rest);
    } else {
      seen, got, count := SimpleReadsBack(done, e, rest);
    }
  }

  // ---------------------------------------------------------------- all values

  ghost predicate AllTyped(es: seq<Element>) {
    forall e | e in es :: WellTyped(e)
  }

  function Types(es: seq<Element>): seq<Type> {
    seq(|es|, i requires 0 <= i < |es| => es[i].kind)
  }

  ghost function Payload(es: seq<Element>): seq<Byte>
    requires AllTyped(es)
  {
    if es == [] then [] else Written(es[0]) + Payload(es[1..])
  }

  ghost predicate DenotesAll(memory: seq<Byte>, results: seq<(Got, Option<Int32>)>, es: seq<Element>) {
    |results| == |es| && forall i | 0 <= i < |es| :: Denotes(memory, results[i].0, results[i].1, es[i])
  }

  ghost predicate AllBack(done: seq<Byte>, es: seq<Element>, results: seq<(Got, Option<Int32>)>, memory: seq<Byte>)
    requires AllTyped(es)
  {
    && GetAll(done + Payload(es), |done|, Types(es)) == Some((results, memory, |done + Payload(es)|))
    && done <= memory && DenotesAll(memory, results, es)
  }

  lemma NextRead(done: seq<Byte>, es: seq<Element>, seen: seq<Byte>, got: Got, count: Option<Int32>,
                 results: seq<(Got, Option<Int32>)>, memory: seq<Byte>)
    requires AllTyped(es) && es != [] && AllTyped(es[1..]) && WellTyped(es[0])
    requires ReadBack(done, es[0], Payload(es[1..]), seen, got, count) && AllBack(done + seen, es[1..], results, memory)
    ensures GetAll(done + Payload(es), |done|, Types(es))
      == Some(([(got, count)] + results, memory, |done + Payload(es)|))
  {
    hide Denotes, DenotesAll, Get, Written, WellTyped, AllTyped;
    assert done + Payload(es) == done + Written(es[0]) + Payload(es[1..]);
    assert Types(es)[0] == es[0].kind && Types(es)[1..] == Types(es[1..]);
  }

  lemma NextDenotes(done: seq<Byte>, es: seq<Element>, seen: seq<Byte>, got: Got, count: Option<Int32>,
                    results: seq<(Got, Option<Int32>)>, memory: seq<Byte>)
    requires es != [] && Denotes(done + seen, got, count, es[0])
    requires done + seen <= memory && DenotesAll(memory, results, es[1..])
    ensures done <= memory && DenotesAll(memory, [(got, count)] + results, es)
  {
    hide Denotes;
    DenotesMore(done + seen, memory, got, count, es[0]);
    assert done <= done + seen <= memory;
    forall i | 0 <= i < |es|
      ensures Denotes(memory, ([(got, count)] + results)[i].0, ([(got, count)] + results)[i].1, es[i])
    {
      if i > 0 {
        assert es[i] == es[1..][i - 1];
      }
    }
  }

  lemma {:induction false} AllReadBack(done: seq<Byte>, es: seq<Element>)
    returns (results: seq<(Got, Option<Int32>)>, memory: seq<Byte>)
    requires AllTyped(es)
    ensures AllBack(done, es, results, memory)
    decreases |es|
  {
    if es == [] {
      results, memory := [], done + Payload(es);
    } else {
      hide Denotes, Get, GetAll, Written, WellTyped, Payload, DenotesAll;
      var e, more := es[0], es[1..];
      assert e in es && forall x | x in more :: x in es;
      var seen, got, count := ValueReadsBack(done, e, Payload(more));
      var later, final := AllReadBack(done + seen, more);
      results, memory := [(got, count)] + later, final;
      NextRead(done, es, seen, got, count, later, memory);
      NextDenotes(done, es, seen, got, count, later, memory);
    }
  }

  /** Reading the values of a packet in the order in which they were queued, with their types,
      gives every one of them back: all results are still good in the packet as it is at the end,
      and the cursor is then at the end of the packet. */
  lemma RoundTrip(es: seq<Element>) returns (results: seq<(Got, Option<Int32>)>, memory: seq<Byte>)
    requires AllTyped(es)
    ensures GetAll(Payload(es), 0, Types(es)) == Some((results, memory, |Payload(es)|))
    ensures DenotesAll(memory, results, es)
  {
    results, memory := AllReadBack([], es);
    assert [] + Payload(es) == Payload(es);
  }

  // ---------------------------------------------------------------- what a packet cannot say

  function Texts(e: Element): seq<Chars>
    requires e.val.Strs?
  {
    if e.val.texts.None? then [] else e.val.texts.value
  }

  /** Equal, but for NULL and empty strings and for the count of a value that has none. */
  ghost predicate Alike(a: Element, b: Element) {
    && a.kind == b.kind && (Complex(a.kind) ==> a.arrayLen == b.arrayLen)
    && match (a.val, b.val)
       case (Memory(x), Memory(y)) => x == y
       case (Str(s), Str(t)) => TextOf(s) == TextOf(t)
       case (Strs(_), Strs(_)) =>
         |Texts(a)| == |Texts(b)| && forall i | 0 <= i < |Texts(a)| :: TextOf(Texts(a)[i]) == TextOf(Texts(b)[i])
       case _ => false
  }

  lemma OneText(memory: seq<Byte>, p: Option<nat>, s: Chars, t: Chars)
    requires GoodChars(s) && GoodChars(t) && Shows(memory, p, s) && Shows(memory, p, t)
    ensures TextOf(s) == TextOf(t)
  {
    ShownIsCString(memory, p, s);
    ShownIsCString(memory, p, t);
  }

  lemma OneMeaning(memory: seq<Byte>, got: Got, count: Option<Int32>, a: Element, b: Element)
    requires WellTyped(a) && WellTyped(b) && a.kind == b.kind
    requires Denotes(memory, got, count, a) && Denotes(memory, got, count, b)
    ensures Alike(a, b)
  {
    hide Shows, GoodChars, TextOf;
    if a.kind.SCL_STRING? {
      OneText(memory, if got.At? then Some(got.pos) else None, a.val.text, b.val.text);
    } else if a.kind.SCL_STRING_A? {
      forall i | 0 <= i < |Texts(a)|
        ensures TextOf(Texts(a)[i]) == TextOf(Texts(b)[i])
      {
        OneText(memory, got.at[i], Texts(a)[i], Texts(b)[i]);
      }
    }
  }

  lemma {:induction false} AlikeCounted(s: seq<Chars>, t: seq<Chars>)
    requires (forall x | x in s :: GoodChars(x)) && (forall x | x in t :: GoodChars(x))
    requires |s| == |t| && forall i | 0 <= i < |s| :: TextOf(s[i]) == TextOf(t[i])
    ensures CountedAll(s) == CountedAll(t)
  {
    if s != [] {
      CountedIs(s[0]);
      CountedIs(t[0]);
      AlikeCounted(s[1..], t[1..]);
    }
  }

  lemma AlikeWritten(a: Element, b: Element)
    requires WellTyped(a) && WellTyped(b) && Alike(a, b)
    ensures Written(a) == Written(b)
  {
    hide LittleBytes;
    if a.kind.SCL_STRING? {
      CountedIs(a.val.text);
      CountedIs(b.val.text);
    } else if a.kind.SCL_STRING_A? {
      StringsOf(a);
      StringsOf(b);
      AlikeCounted(Texts(a), Texts(b));
    }
  }

  lemma {:induction false} AlikePayload(xs: seq<Element>, ys: seq<Element>)
    requires AllTyped(xs) && AllTyped(ys) && |xs| == |ys| && forall i | 0 <= i < |xs| :: Alike(xs[i], ys[i])
    ensures Payload(xs) == Payload(ys)
  {
    hide Written, Alike, WellTyped;
    if xs != [] {
      assert xs[0] in xs && ys[0] in ys;
      AlikeWritten(xs[0], ys[0]);
      AlikePayload(xs[1..], ys[1..]);
    }
  }

  /** Two lists of values of the same types make the same packet exactly when they are equal but
      for NULL and empty strings: nothing else is lost. */
  lemma SamePacket(xs: seq<Element>, ys: seq<Element>)
    requires AllTyped(xs) && AllTyped(ys) && Types(xs) == Types(ys)
    ensures Payload(xs) == Payload(ys) <==> forall i | 0 <= i < |xs| :: Alike(xs[i], ys[i])
  {
    hide Written, Alike, WellTyped, Denotes;
    assert |Types(xs)| == |xs| && |Types(ys)| == |ys|;
    if Payload(xs) == Payload(ys) {
      var results, memory := RoundTrip(xs);
      var results2, memory2 := RoundTrip(ys);
      forall i | 0 <= i < |xs|
        ensures Alike(xs[i], ys[i])
      {
        assert xs[i] in xs && ys[i] in ys && Types(xs)[i] == xs[i].kind && Types(ys)[i] == ys[i].kind;
        OneMeaning(memory, results[i].0, results[i].1, xs[i], ys[i]);
      }
    }
    if forall i | 0 <= i < |xs| :: Alike(xs[i], ys[i]) {
      AlikePayload(xs, ys);
    }
  }
}
