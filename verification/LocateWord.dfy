/** Machine words in old-format locate databases: writing them, and guessing on the way which
    byte order they were written in (word_io.c). */
module LocateWord {
  import opened Bytes
  import opened Words

  datatype Endian = Little | Big

  /** `GetwordEndianState`. */
  datatype State = Initial | Native | Swab

  // ---------------------------------------------------------------- representation

  function Reverse(d: Quad): Quad {
    [d[3], d[2], d[1], d[0]]
  }

  /** The bytes of a word in the memory of a host. */
  function WordBytes(x: Int32, host: Endian): Quad {
    if host == Little then LittleBytes(x) else Reverse(LittleBytes(x))
  }

  function Value(d: Quad, host: Endian): Int32 {
    LittleValue(if host == Little then d else Reverse(d))
  }

  /** `bswap_32`. */
  function Bswap(x: Int32): Int32 {
    LittleValue(Reverse(LittleBytes(x)))
  }

  /** A word written by a host reads back on it; on a host of the other order it reads swapped. */
  lemma ReadBack(x: Int32, host: Endian, other: Endian)
    ensures Value(WordBytes(x, host), host) == x
    ensures host != other ==> Value(WordBytes(x, host), other) == Bswap(x)
    ensures Bswap(Bswap(x)) == x
  {
    var d := LittleBytes(x);
    LittleRoundTrip(x);
    LittleBytesOf(Reverse(d));
    assert Reverse(Reverse(d)) == d;
  }

  // ---------------------------------------------------------------- decode_value

  /** `decode_value`: the value, and the byte order believed from here on. */
  function Decode(data: Quad, limit: int, state: State, host: Endian): (Int32, State) {
    var native := Value(data, host);
    var swapped := Bswap(native);
    match state
    case Initial =>
      if native <= limit then (native, if swapped > limit then Native else Initial)
      else if swapped <= limit then (swapped, Swab)
      else (native, Initial)
    case Swab => (swapped, Swab)
    case Native => (native, Native)
  }

  method DecodeValue(data: Quad, limit: int, state: State, host: Endian) returns (value: Int32, endianState: State)
    ensures (value, endianState) == Decode(data, limit, state, host)
  {
    endianState := state;
    var native := Value(data, host);
    var swapped := Bswap(native);
    if endianState == Initial {
      if native <= limit {
        if swapped > limit {
          endianState := Native;
        }
        return native, endianState;
      } else if swapped <= limit {
        endianState := Swab;
        return swapped, endianState;
      } else {
        return native, endianState;
      }
    } else if endianState == Swab {
      return swapped, endianState;
    } else {
      return native, endianState;
    }
  }

  // ---------------------------------------------------------------- whole streams

  /** A word as written, with the limit it is read against. */
  datatype Word = Word(value: Int32, limit: int)

  /** Read the words that a host of order `writer` wrote, one after another. */
  function DecodeAll(words: seq<Word>, state: State, writer: Endian, host: Endian): seq<Int32> {
    if words == [] then []
    else
      var (v, s) := Decode(WordBytes(words[0].value, writer), words[0].limit, state, host);
      [v] + DecodeAll(words[1..], s, writer, host)
  }

  function Values(words: seq<Word>): seq<Int32> {
    if words == [] then [] else [words[0].value] + Values(words[1..])
  }

  /** Once the order is decided it stays decided. */
  lemma DecidedForGood(data: Quad, limit: int, state: State, host: Endian)
    requires state != Initial
    ensures Decode(data, limit, state, host).1 == state
  {
  }

  /** The word would be taken for a word of the other byte order. */
  predicate Misleads(w: Word) {
    w.value > w.limit && Bswap(w.value) <= w.limit
  }

  /** The word shows that the native order is right. */
  predicate ConfirmsNative(w: Word) {
    w.value <= w.limit && Bswap(w.value) > w.limit
  }

  /** No word misleads before one confirms. */
  predicate NeverMisled(words: seq<Word>, state: State) {
    if words == [] || state == Native then true
    else !Misleads(words[0]) && NeverMisled(words[1..], if ConfirmsNative(words[0]) then Native else state)
  }

  /** A stream read on a host like the one that wrote it comes out as it went in exactly when no
      word misleads the reader while it is still undecided. */
  lemma {:induction false} NativeStreamExact(words: seq<Word>, state: State, host: Endian)
    requires state != Swab
    ensures DecodeAll(words, state, host, host) == Values(words) <==> NeverMisled(words, state)
    decreases |words|
  {
    hide Bswap, Value, WordBytes;
    if words != [] {
      var w, rest := words[0], words[1..];
      ReadBack(w.value, host, host);
      var (v, s) := Decode(WordBytes(w.value, host), w.limit, state, host);
      var tail := DecodeAll(rest, s, host, host);
      assert ([v] + tail)[0] == v && ([v] + tail)[1..] == tail;
      assert Values(words)[0] == w.value && Values(words)[1..] == Values(rest);
      if state == Initial && Misleads(w) {
        assert v != w.value;
      } else {
        NativeStreamExact(rest, s, host);
      }
    }
  }

  lemma {:induction false} WithinLimits(words: seq<Word>, state: State)
    requires state != Swab
    requires forall w | w in words :: w.value <= w.limit
    ensures NeverMisled(words, state)
    decreases |words|
  {
    if words != [] {
      assert words[0] in words;
      WithinLimits(words[1..], if ConfirmsNative(words[0]) then Native else state);
    }
  }

  /** In particular a stream whose words are all within their limits. */
  lemma NativeStream(words: seq<Word>, state: State, host: Endian)
    requires state != Swab
    requires forall w | w in words :: w.value <= w.limit
    ensures DecodeAll(words, state, host, host) == Values(words)
  {
    WithinLimits(words, state);
    NativeStreamExact(words, state, host);
  }

  /** A word of the other byte order whose native reading exceeds its limit. */
  predicate Tells(w: Word) {
    Bswap(w.value) > w.limit
  }

  /** Index of the first word that tells. */
  function FirstTell(words: seq<Word>): nat {
    if words == [] || Tells(words[0]) then 0 else 1 + FirstTell(words[1..])
  }

  /** What is read when the order is taken for native before index `k` and for swapped from there. */
  function ReadAs(words: seq<Word>, k: nat): seq<Int32> {
    if words == [] then []
    else if k == 0 then Values(words)
    else [Bswap(words[0].value)] + ReadAs(words[1..], k - 1)
  }

  lemma {:induction false} SwabStream(words: seq<Word>, writer: Endian, host: Endian)
    requires writer != host
    ensures DecodeAll(words, Swab, writer, host) == Values(words)
    decreases |words|
  {
    hide Bswap, Value, WordBytes;
    if words != [] {
      ReadBack(words[0].value, writer, host);
      SwabStream(words[1..], writer, host);
    }
  }

  lemma SwappedWord(w: Word, writer: Endian, host: Endian)
    requires writer != host && w.value <= w.limit
    ensures Decode(WordBytes(w.value, writer), w.limit, Initial, host)
         == if Tells(w) then (w.value, Swab) else (Bswap(w.value), Initial)
  {
    ReadBack(w.value, writer, host);
  }

  /** A stream written in the other byte order, every word within its limit. Words before the
      first one whose native reading exceeds its limit are read as they stand; from that word on
      every word is read right. */
  lemma {:induction false} SwappedStream(words: seq<Word>, writer: Endian, host: Endian)
    requires writer != host
    requires forall w | w in words :: w.value <= w.limit
    ensures DecodeAll(words, Initial, writer, host) == ReadAs(words, FirstTell(words))
    decreases |words|
  {
    hide Bswap, WordBytes, Decode, Tells;
    if words != [] {
      var w, rest := words[0], words[1..];
      assert w in words && forall x | x in rest :: x in words;
      SwappedWord(w, writer, host);
      if FirstTell(words) == 0 {
        SwabStream(rest, writer, host);
      } else {
        SwappedStream(rest, writer, host);
      }
    }
  }
}
