/** The typed values SUVA puts into packets: what each takes, how it is written, and how it is
    read back in place. */
module SclCodec {
  import opened Wrappers
  import opened Bytes
  import opened Words

  // the first six are simple; the others carry an element count
  datatype Type =
    | SCL_INT | SCL_STRING | SCL_FLOAT | SCL_LONG | SCL_DOUB | SCL_BOOL
    | SCL_INT_A | SCL_STRING_A | SCL_FLOAT_A | SCL_LONG_A | SCL_DOUB_A | SCL_BOOL_A
    | SCL_DATA

  const SCL_INT_LEN: nat := 4
  const SCL_LONG_LEN: nat := 8
  const SCL_FLOAT_LEN: nat := 4
  const SCL_DOUB_LEN: nat := 8
  const SCL_BOOL_LEN: nat := 1
  const SCL_LEN_LEN: nat := 4

  /** `type >= scl_type_complex`. */
  predicate Complex(t: Type) {
    !(t.SCL_INT? || t.SCL_STRING? || t.SCL_FLOAT? || t.SCL_LONG? || t.SCL_DOUB? || t.SCL_BOOL?)
  }

  /** Bytes of one number or flag; 1 for data. */
  function Width(t: Type): nat {
    match t
    case SCL_INT | SCL_INT_A => SCL_INT_LEN
    case SCL_LONG | SCL_LONG_A => SCL_LONG_LEN
    case SCL_FLOAT | SCL_FLOAT_A => SCL_FLOAT_LEN
    case SCL_DOUB | SCL_DOUB_A => SCL_DOUB_LEN
    case SCL_BOOL | SCL_BOOL_A => SCL_BOOL_LEN
    case _ => 1
  }

  /** The bytes of an array of `n` elements. */
  function ArrayWidth(t: Type, n: int): (w: int)
    ensures n >= 0 ==> w >= 0
  {
    Width(t) * n
  }

  /** A string, or NULL. */
  type Chars = Option<Text>

  /** What `val` points to: plain memory, a string, or an array of strings. */
  datatype Object = Memory(bytes: seq<Byte>) | Str(text: Chars) | Strs(texts: Option<seq<Chars>>)

  /** A queued value. */
  datatype Element = Element(val: Object, kind: Type, arrayLen: Int32)

  predicate GoodChars(s: Chars) {
    s.Some? ==> NulFree(s.value) && |s.value| < 0x8000_0000
  }

  /** `val` is what the type says, and as long as `array_len` says. */
  ghost predicate WellTyped(e: Element) {
    match e.kind
    case SCL_STRING => e.val.Str? && GoodChars(e.val.text)
    case SCL_STRING_A =>
      && e.val.Strs? && e.arrayLen >= 0
      && (if e.val.texts.None? then e.arrayLen == 0
          else |e.val.texts.value| == e.arrayLen && forall s | s in e.val.texts.value :: GoodChars(s))
    case _ =>
      && e.val.Memory?
      && if Complex(e.kind) then e.arrayLen >= 0 && |e.val.bytes| == ArrayWidth(e.kind, e.arrayLen)
         else |e.val.bytes| == Width(e.kind)
  }

  // ---------------------------------------------------------------- the length promised

  function StrLen(s: Chars): nat {
    if s.None? then 0 else |s.value|
  }

  function StrLens(texts: seq<Chars>): nat {
    if texts == [] then 0 else StrLen(texts[0]) + StrLens(texts[1..])
  }

  /** What `scl_queue_value` adds to the packet length. */
  function QueuedLen(e: Element): int {
    (if Complex(e.kind) || e.kind.SCL_STRING? then SCL_LEN_LEN else 0)
    + match e.kind
      case SCL_STRING => 1 + (if e.val.Str? then StrLen(e.val.text) else 0)
      case SCL_STRING_A =>
        1 + (if e.val.Strs? && e.val.texts.Some? then SCL_LEN_LEN * e.arrayLen + StrLens(e.val.texts.value) else 0)
      case _ => if Complex(e.kind) then ArrayWidth(e.kind, e.arrayLen) else Width(e.kind)
  }

  // ---------------------------------------------------------------- the bytes written

  /** A string behind its length. */
  function Counted(s: Chars): seq<Byte>
    requires GoodChars(s)
  {
    if s.None? then LittleBytes(0) else LittleBytes(|s.value|) + s.value
  }

  function CountedAll(texts: seq<Chars>): seq<Byte>
    requires forall s | s in texts :: GoodChars(s)
  {
    if texts == [] then [] else Counted(texts[0]) + CountedAll(texts[1..])
  }

  /** What `scl_write_value` writes. */
  function Written(e: Element): seq<Byte>
    requires WellTyped(e)
  {
    (if Complex(e.kind) then LittleBytes(e.arrayLen) else [])
    + match e.kind
      case SCL_STRING => Counted(e.val.text) + [0]
      case SCL_STRING_A => (if e.val.texts.None? then [] else CountedAll(e.val.texts.value)) + [0]
      case _ => e.val.bytes
  }

  lemma {:induction false} CountedAllLen(texts: seq<Chars>)
    requires forall s | s in texts :: GoodChars(s)
    ensures |CountedAll(texts)| == SCL_LEN_LEN * |texts| + StrLens(texts)
  {
    if texts != [] {
      CountedAllLen(texts[1..]);
    }
  }

  /** The length counted while queueing is the number of bytes later written. */
  lemma LengthKept(e: Element)
    requires WellTyped(e)
    ensures QueuedLen(e) == |Written(e)|
  {
    if e.kind.SCL_STRING_A? && e.val.texts.Some? {
      CountedAllLen(e.val.texts.value);
    }
  }

  // ---------------------------------------------------------------- reading

  /** What `scl_get_value` returns: NULL, a place in the packet, or pointers into the packet. */
  datatype Got = Null | At(pos: nat) | Pointers(at: seq<Option<nat>>)

  /** The result, the element count, and the packet and cursor afterwards. */
  datatype Read = Read(got: Got, count: Option<Int32>, packet: seq<Byte>, cursor: nat)

  function IntAt(packet: seq<Byte>, cursor: nat): Int32
    requires cursor + SCL_LEN_LEN <= |packet|
  {
    LittleValue(packet[cursor..cursor + SCL_LEN_LEN])
  }

  function Zeroed(packet: seq<Byte>, cursor: nat): (r: seq<Byte>)
    requires cursor + SCL_LEN_LEN <= |packet|
    ensures |r| == |packet|
  {
    packet[..cursor] + [0, 0, 0, 0] + packet[cursor + SCL_LEN_LEN..]
  }

  /** The loop over a string array: the pointers, the packet with its length fields zeroed, and the
      cursor. `None` when the lengths lead out of the packet, as in all of the following. */
  function GetStrings(packet: seq<Byte>, cursor: nat, n: nat): (r: Option<(seq<Option<nat>>, seq<Byte>, nat)>)
    ensures r.Some? ==>
      |r.value.0| == n && |r.value.1| == |packet| && cursor <= r.value.2 && (n > 0 ==> r.value.2 <= |packet|)
    decreases n
  {
    if n == 0 then Some(([], packet, cursor))
    else if cursor + SCL_LEN_LEN > |packet| then None
    else
      var len := IntAt(packet, cursor);
      var next := cursor + SCL_LEN_LEN;
      if len < 0 || next + len > |packet| then None
      else
        var r := GetStrings(Zeroed(packet, cursor), next + len, n - 1);
        if r.None? then None
        else Some(([if len == 0 then None else Some(next)] + r.value.0, r.value.1, r.value.2))
  }

  /** `scl_get_value`; `counted` tells whether the caller asks for the element count. */
  function Get(packet: seq<Byte>, cursor: nat, t: Type, counted: bool): Option<Read> {
    if !Complex(t) then GetSimple(packet, cursor, t)
    else if !counted then
      if !t.SCL_STRING_A? then Some(Read(Null, None, packet, cursor)) else Some(Read(Null, None, packet, cursor + 1))
    else if cursor + SCL_LEN_LEN > |packet| then None
    else
      var n := IntAt(packet, cursor);
      var at := cursor + SCL_LEN_LEN;
      if n < 0 then None
      else if !t.SCL_STRING_A? then
        if at + ArrayWidth(t, n) > |packet| then None else Some(Read(At(at), Some(n), packet, at + ArrayWidth(t, n)))
      else
        var r := GetStrings(packet, at, n);
        if r.None? || r.value.2 >= |packet| then None
        else Some(Read(Pointers(r.value.0), Some(n), r.value.1[r.value.2 := 0], r.value.2 + 1))
  }

  function GetSimple(packet: seq<Byte>, cursor: nat, t: Type): Option<Read> {
    if !t.SCL_STRING? then
      if cursor + Width(t) > |packet| then None else Some(Read(At(cursor), None, packet, cursor + Width(t)))
    else if cursor + SCL_LEN_LEN > |packet| then None
    else
      var len := IntAt(packet, cursor);
      var at := cursor + SCL_LEN_LEN;
      if len == 0 then Some(Read(Null, None, packet, at + 1))
      else if len < 0 || at + len >= |packet| then None
      else Some(Read(At(at), None, packet[at + len := 0], at + len + 1))
  }

  /** Reading one value after another: the results, the packet and the cursor in the end. */
  function GetAll(packet: seq<Byte>, cursor: nat, types: seq<Type>): Option<(seq<(Got, Option<Int32>)>, seq<Byte>, nat)>
    decreases |types|
  {
    if types == [] then Some(([], packet, cursor))
    else
      var first := Get(packet, cursor, types[0], true);
      if first.None? then None
      else
        var r := GetAll(first.value.packet, first.value.cursor, types[1..]);
        if r.None? then None
        else Some(([(first.value.got, first.value.count)] + r.value.0, r.value.1, r.value.2))
  }

  // ---------------------------------------------------------------- what a result means

  /** In this memory the pointer is a C string: NULL for the empty string, as for NULL. */
  ghost predicate Shows(memory: seq<Byte>, p: Option<nat>, s: Chars) {
    if StrLen(s) == 0 then p.None?
    else p.Some? && p.value + |s.value| < |memory|
         && memory[p.value..p.value + |s.value|] == s.value && memory[p.value + |s.value|] == 0
  }

  ghost predicate ShowsAll(memory: seq<Byte>, ps: seq<Option<nat>>, texts: seq<Chars>) {
    |ps| == |texts| && forall i | 0 <= i < |texts| :: Shows(memory, ps[i], texts[i])
  }

  /** In this memory the result of a read is the value that was queued. */
  ghost predicate Denotes(memory: seq<Byte>, got: Got, count: Option<Int32>, e: Element) {
    && count == (if Complex(e.kind) then Some(e.arrayLen) else None)
    && match e.val
       case Memory(bytes) => got.At? && got.pos + |bytes| <= |memory| && memory[got.pos..got.pos + |bytes|] == bytes
       case Str(s) => !got.Pointers? && Shows(memory, if got.At? then Some(got.pos) else None, s)
       case Strs(texts) => got.Pointers? && ShowsAll(memory, got.at, if texts.None? then [] else texts.value)
  }

  /** A pointer that shows a string is one: reading up to the NUL gives the string. */
  lemma ShownIsCString(memory: seq<Byte>, p: Option<nat>, s: Chars)
    requires GoodChars(s) && Shows(memory, p, s)
    ensures p.Some? ==> p.value <= |memory| && s.Some? && CString(memory[p.value..]) == s.value
  {
    if p.Some? {
      var tail := memory[p.value..];
      assert tail == s.value + [0] + tail[|s.value| + 1..];
      CStringOf(s.value, tail[|s.value| + 1..]);
    }
  }

  /** Memory beyond what a result needs does not matter. */
  lemma ShowsMore(memory: seq<Byte>, more: seq<Byte>, p: Option<nat>, s: Chars)
    requires Shows(memory, p, s) && memory <= more
    ensures Shows(more, p, s)
  {
    if StrLen(s) > 0 {
      assert more[..|memory|] == memory;
      assert more[p.value..p.value + |s.value|] == memory[p.value..p.value + |s.value|];
    }
  }

  lemma DenotesMore(memory: seq<Byte>, more: seq<Byte>, got: Got, count: Option<Int32>, e: Element)
    requires Denotes(memory, got, count, e) && memory <= more
    ensures Denotes(more, got, count, e)
  {
    hide Shows;
    match e.val
    case Memory(bytes) =>
      assert more[got.pos..got.pos + |bytes|] == memory[got.pos..got.pos + |bytes|];
    case Str(s) =>
      ShowsMore(memory, more, if got.At? then Some(got.pos) else None, s);
    case Strs(texts) =>
      var all := if texts.None? then [] else texts.value;
      forall i | 0 <= i < |all|
        ensures Shows(more, got.at[i], all[i])
      {
        ShowsMore(memory, more, got.at[i], all[i]);
      }
  }
}
