/** The two ends of a SUVA connection as the programs have them: a linked queue of values with a
    running length, and a packet buffer that is read in place. */
module SclProgram {
  import opened Wrappers
  import opened Bytes
  import opened Words
  import opened SclCodec
  import opened SclRoundTrip

  // ---------------------------------------------------------------- packets

  /** The four words in front of the values. */
  function Header(opcode: Int32, len: Int32): seq<Byte> {
    LittleBytes(opcode) + LittleBytes(0) + LittleBytes(0) + LittleBytes(len)
  }

  lemma {:induction false} PayloadMore(es: seq<Element>, e: Element)
    requires AllTyped(es) && WellTyped(e)
    ensures AllTyped(es + [e])
    ensures Payload(es + [e]) == Payload(es) + Written(e)
    ensures |Payload(es + [e])| == |Payload(es)| + QueuedLen(e)
  {
    hide Written, WellTyped, QueuedLen;
    LengthKept(e);
    if es == [] {
      assert es + [e] == [e];
      assert Payload([e]) == Written(e) + Payload([]);
    } else {
      assert es[0] in es && forall x | x in es[1..] :: x in es;
      PayloadMore(es[1..], e);
      assert (es + [e])[1..] == es[1..] + [e];
      assert Written(es[0]) + (Payload(es[1..]) + Written(e)) == Written(es[0]) + Payload(es[1..]) + Written(e);
    }
  }

  // ---------------------------------------------------------------- the writing end

  class Ele {
    var val: Object
    var kind: Type
    var arrayLen: Int32
    var nextEle: Ele?

    constructor ()
      ensures nextEle == null
    {
      val, kind, arrayLen, nextEle := Memory([]), SCL_INT, 0, null;
    }

    function Element(): Element
      reads this`val, this`kind, this`arrayLen
    {
      SclCodec.Element(val, kind, arrayLen)
    }
  }

  class OutConn {
    var out: seq<Byte>
    var outPacketLen: int
    var outPacketOpcode: Int32
    var outEleQueue: Ele
    var outCurEle: Ele
    /** The elements of the list; the last one is empty and waits for the next value. */
    ghost var cells: seq<Ele>
    ghost var queued: seq<Element>

    ghost predicate Linked()
      reads this`outEleQueue, this`outCurEle, this`cells, cells`nextEle
    {
      && |cells| > 0 && cells[0] == outEleQueue && cells[|cells| - 1] == outCurEle
      && (forall i, j | 0 <= i < j < |cells| :: cells[i] != cells[j])
      && forall i | 0 <= i < |cells| :: cells[i].nextEle == if i == |cells| - 1 then null else cells[i + 1]
    }

    ghost predicate Filled()
      reads this`cells, this`queued, cells`val, cells`kind, cells`arrayLen
    {
      |queued| == |cells| - 1 && forall i | 0 <= i < |queued| :: cells[i].Element() == queued[i]
    }

    ghost predicate Valid()
      reads this`outEleQueue, this`outCurEle, this`cells, this`queued, this`outPacketLen, cells
    {
      Linked() && Filled() && AllTyped(queued) && outPacketLen == |Payload(queued)|
    }

    constructor ()
      ensures Valid() && queued == [] && out == [] && fresh(cells)
    {
      var first := new Ele();
      out, outPacketLen, outPacketOpcode := [], 0, 0;
      outEleQueue, outCurEle := first, first;
      cells, queued := [first], [];
    }

    /** `scl_alloc_ele`. */
    method AllocEle()
      requires Linked()
      modifies this`outCurEle, this`cells, outCurEle`nextEle
      ensures Linked() && cells == old(cells) + [outCurEle] && fresh(outCurEle)
    {
      ghost var n := |cells|;
      var curEle := outCurEle;
      curEle.nextEle := new Ele();
      outCurEle := curEle.nextEle;
      cells := cells + [outCurEle];
      assert forall i | 0 <= i < n - 1 :: cells[i] == old(cells)[i] && cells[i] != curEle;
    }

    /** Puts a value into the empty element. */
    method Fill(val: Object, kind: Type, arrayLen: Int32)
      requires Linked() && Filled()
      modifies outCurEle`val, outCurEle`kind, outCurEle`arrayLen
      ensures Linked() && Filled()
      ensures |cells| > 0 && cells[|cells| - 1].Element() == Element(val, kind, arrayLen)
    {
      var curEle := outCurEle;
      curEle.kind := kind;
      curEle.val := val;
      curEle.arrayLen := arrayLen;
    }

    /** `scl_queue_value`. */
    method QueueValue(val: Object, kind: Type, arrayLen: Int32)
      requires Valid() && WellTyped(Element(val, kind, arrayLen))
      modifies this`outPacketLen, this`outCurEle, this`cells, this`queued, outCurEle
      ensures Valid() && queued == old(queued) + [Element(val, kind, arrayLen)]
      ensures cells == old(cells) + [outCurEle] && fresh(outCurEle)
    {
      hide WellTyped, QueuedLen, AllTyped, Payload, Linked;
      Fill(val, kind, arrayLen);
      if Complex(kind) || kind == SCL_STRING {
        outPacketLen := outPacketLen + SCL_LEN_LEN;
      }
      var more := ValueLen(val, kind, arrayLen);
      outPacketLen := outPacketLen + more;
      AllocEle();
      PayloadMore(queued, Element(val, kind, arrayLen));
      queued := queued + [Element(val, kind, arrayLen)];
    }

    /** The switch of `scl_queue_value`, with its loop over a string array. */
    method ValueLen(val: Object, kind: Type, arrayLen: Int32) returns (len: int)
      requires WellTyped(Element(val, kind, arrayLen))
      ensures len + (if Complex(kind) || kind.SCL_STRING? then SCL_LEN_LEN else 0)
        == QueuedLen(Element(val, kind, arrayLen))
    {
      match kind {
        case SCL_STRING =>
          len := 1;
          if val.text.Some? {
            len := len + |val.text.value|;
          }
        case SCL_STRING_A =>
          len := 1;
          if val.texts.Some? {
            var texts := val.texts.value;
            len := len + SCL_LEN_LEN * arrayLen;
            ghost var start := len;
            for count := 0 to arrayLen
              invariant len + StrLens(texts[count..]) == start + StrLens(texts)
            {
              assert texts[count..][1..] == texts[count + 1..];
              if texts[count].Some? {
                len := len + |texts[count].value|;
              }
            }
          }
        case _ =>
          len := if Complex(kind) then ArrayWidth(kind, arrayLen) else Width(kind);
      }
    }

    /** `scl_write_value`. */
    method WriteValue(val: Object, kind: Type, arrayLen: Int32)
      requires WellTyped(Element(val, kind, arrayLen))
      modifies this`out
      ensures out == old(out) + Written(Element(val, kind, arrayLen))
    {
      ghost var e, before := Element(val, kind, arrayLen), out;
      if Complex(kind) {
        out := out + LittleBytes(arrayLen);
        if arrayLen == 0 {
          if kind == SCL_STRING_A {
            out := out + [0];
          }
          EmptyArray(e, before);
          return;
        }
      }
      match kind {
        case SCL_STRING =>
          WriteString(val.text);
          out := out + [0];
        case SCL_STRING_A =>
          WriteStrings(val.texts.value);
          out := out + [0];
        case _ =>
          out := out + val.bytes;
      }
      WrittenParts(e, before);
    }

    method WriteString(s: Chars)
      requires GoodChars(s)
      modifies this`out
      ensures out == old(out) + Counted(s)
    {
      if s.None? {
        out := out + LittleBytes(0);
      } else {
        out := out + LittleBytes(|s.value|);
        out := out + s.value;
      }
    }

    method WriteStrings(texts: seq<Chars>)
      requires forall s | s in texts :: GoodChars(s)
      modifies this`out
      ensures out == old(out) + CountedAll(texts)
    {
      hide Counted;
      for count := 0 to |texts|
        invariant out + CountedAll(texts[count..]) == old(out) + CountedAll(texts)
      {
        assert texts[count..][1..] == texts[count + 1..];
        ghost var before := out;
        WriteString(texts[count]);
        assert before + (Counted(texts[count]) + CountedAll(texts[count + 1..]))
          == out + CountedAll(texts[count + 1..]);
      }
    }

    /** `scl_write_out`: the header, then the queue. */
    method WriteOut()
      requires Valid() && |Payload(queued)| < 0x8000_0000
      modifies this
      ensures Valid() && queued == [] && outCurEle == old(outCurEle) && outPacketLen == 0
      ensures out == old(out) + Header(old(outPacketOpcode), |Payload(old(queued))|) + Payload(old(queued))
    {
      hide WellTyped, Payload, AllTyped, Header, Linked;
      out := out + LittleBytes(outPacketOpcode);
      out := out + LittleBytes(0);
      out := out + LittleBytes(0);
      out := out + LittleBytes(outPacketLen);
      HeaderParts(old(out), outPacketOpcode, outPacketLen);
      var last := WriteQueue();
      outEleQueue := last;
      outPacketLen := 0;
      cells, queued := [last], [];
      Alone();
      NothingQueued();
    }

    /** The loop from the head of the queue to its empty element, which is returned. */
    method WriteQueue() returns (last: Ele)
      requires Valid()
      modifies this`out
      ensures last == outCurEle && last.nextEle == null
      ensures out == old(out) + Payload(queued)
    {
      hide WellTyped, Payload, AllTyped, Linked;
      ghost var i := 0;
      var curEle := outEleQueue;
      Cell(i);
      NothingWritten(queued, out);
      while curEle.nextEle != null
        invariant 0 <= i < |cells| && curEle == cells[i]
        invariant curEle.nextEle == if i == |cells| - 1 then null else cells[i + 1]
        invariant AllTyped(queued[..i]) && out == old(out) + Payload(queued[..i])
        decreases |cells| - i
      {
        OneWritten(queued, i, old(out));
        WriteValue(curEle.val, curEle.kind, curEle.arrayLen);
        curEle := curEle.nextEle;
        i := i + 1;
        Cell(i);
      }
      Cell(i);
      assert queued[..i] == queued;
      last := curEle;
    }

    lemma Cell(i: nat)
      requires Linked() && i < |cells|
      ensures cells[0] == outEleQueue && cells[|cells| - 1] == outCurEle
      ensures cells[i].nextEle == if i == |cells| - 1 then null else cells[i + 1]
    {
    }

    lemma Alone()
      requires cells == [outEleQueue] && outCurEle == outEleQueue && outEleQueue.nextEle == null
      ensures Linked()
    {
    }
  }

  lemma HeaderParts(before: seq<Byte>, opcode: Int32, len: Int32)
    ensures before + LittleBytes(opcode) + LittleBytes(0) + LittleBytes(0) + LittleBytes(len)
         == before + Header(opcode, len)
  {
  }

  lemma NothingQueued()
    ensures AllTyped([]) && Payload([]) == []
  {
  }

  lemma NothingWritten(es: seq<Element>, before: seq<Byte>)
    ensures AllTyped(es[..0]) && before == before + Payload(es[..0])
  {
  }

  lemma OneWritten(es: seq<Element>, i: nat, before: seq<Byte>)
    requires AllTyped(es) && i < |es|
    ensures WellTyped(es[i]) && AllTyped(es[..i]) && AllTyped(es[..i + 1])
    ensures before + Payload(es[..i + 1]) == before + Payload(es[..i]) + Written(es[i])
  {
    hide Written, WellTyped;
    assert es[i] in es;
    PayloadMore(es[..i], es[i]);
    assert es[..i + 1] == es[..i] + [es[i]];
    assert before + (Payload(es[..i]) + Written(es[i])) == before + Payload(es[..i]) + Written(es[i]);
  }

  lemma EmptyArray(e: Element, before: seq<Byte>)
    requires WellTyped(e) && Complex(e.kind) && e.arrayLen == 0
    ensures before + Written(e) == before + LittleBytes(0) + if e.kind.SCL_STRING_A? then [0] else []
  {
    if e.kind.SCL_STRING_A? {
      assert e.val.texts.Some? ==> e.val.texts.value == [];
    } else {
      assert e.val.bytes == [];
    }
  }

  lemma WrittenParts(e: Element, before: seq<Byte>)
    requires WellTyped(e)
    ensures e.kind.SCL_STRING? ==> before + Written(e) == before + Counted(e.val.text) + [0]
    ensures e.kind.SCL_STRING_A? && e.val.texts.Some? ==>
      before + Written(e) == before + LittleBytes(e.arrayLen) + CountedAll(e.val.texts.value) + [0]
    ensures !e.kind.SCL_STRING? && !e.kind.SCL_STRING_A? ==>
      before + Written(e) == if Complex(e.kind) then before + LittleBytes(e.arrayLen) + e.val.bytes
        else before + e.val.bytes
  {
    hide Counted, CountedAll, LittleBytes, GoodChars;
  }

  // ---------------------------------------------------------------- the reading end

  // words of the header
  const SCL_IN_PACKET_OPCODE: nat := 0
  const SCL_IN_PACKET_LEN: nat := 3

  const HEADER_LEN: nat := SCL_INT_LEN * 4

  /** A packet's header and values come apart again, whatever follows. */
  lemma HeaderReadsBack(opcode: Int32, payload: seq<Byte>, rest: seq<Byte>)
    requires |payload| < 0x8000_0000
    ensures var stream := Header(opcode, |payload|) + payload + rest;
      && |stream| >= HEADER_LEN
      && IntAt(stream, SCL_IN_PACKET_OPCODE * SCL_INT_LEN) == opcode
      && IntAt(stream, SCL_IN_PACKET_LEN * SCL_INT_LEN) == |payload|
      && |stream[HEADER_LEN..]| >= |payload|
      && stream[HEADER_LEN..][..|payload|] == payload && stream[HEADER_LEN..][|payload|..] == rest
  {
    hide LittleBytes, LittleValue;
    var front := LittleBytes(opcode) + LittleBytes(0) + LittleBytes(0);
    assert front + LittleBytes(|payload|) + payload + rest == front + LittleBytes(|payload|) + (payload + rest);
    IntReadsBack(front, |payload|, payload + rest);
    var back := LittleBytes(0) + LittleBytes(0) + LittleBytes(|payload|) + payload + rest;
    assert Header(opcode, |payload|) + payload + rest == [] + LittleBytes(opcode) + back;
    IntReadsBack([], opcode, back);
    var header := Header(opcode, |payload|);
    assert header + payload + rest == header + (payload + rest) && |header| == HEADER_LEN;
    var tail := payload + rest;
    assert (header + tail)[HEADER_LEN..] == tail;
    assert tail[..|payload|] == payload && tail[|payload|..] == rest;
  }

  /** What one end writes for a queue of values, the other end takes apart into the opcode and the
      same values, up to the last byte of the packet. */
  lemma PacketRoundTrip(opcode: Int32, es: seq<Element>, rest: seq<Byte>)
    returns (results: seq<(Got, Option<Int32>)>, memory: seq<Byte>)
    requires AllTyped(es) && |Payload(es)| < 0x8000_0000
    ensures var stream := Header(opcode, |Payload(es)|) + Payload(es) + rest;
      && |stream| >= HEADER_LEN
      && IntAt(stream, SCL_IN_PACKET_OPCODE * SCL_INT_LEN) == opcode
      && var len := IntAt(stream, SCL_IN_PACKET_LEN * SCL_INT_LEN);
      && 0 <= len <= |stream[HEADER_LEN..]| && stream[HEADER_LEN..][len..] == rest
      && GetAll(stream[HEADER_LEN..][..len], 0, Types(es)) == Some((results, memory, len))
      && DenotesAll(memory, results, es)
  {
    hide DenotesAll, GetAll, Header, IntAt, Payload, Types;
    HeaderReadsBack(opcode, Payload(es), rest);
    results, memory := RoundTrip(es);
  }

  /** What the strings already read put in front of what the loop has still to read. */
  function Behind(ps: seq<Option<nat>>, r: Option<(seq<Option<nat>>, seq<Byte>, nat)>)
    : Option<(seq<Option<nat>>, seq<Byte>, nat)>
  {
    if r.None? then None else Some((ps + r.value.0, r.value.1, r.value.2))
  }

  lemma NothingBehind(r: Option<(seq<Option<nat>>, seq<Byte>, nat)>)
    ensures Behind([], r) == r
  {
    assert r.Some? ==> [] + r.value.0 == r.value.0;
  }

  /** One string of an array, in front of those not read yet. */
  lemma NextString(packet: seq<Byte>, cursor: nat, n: nat, ps: seq<Option<nat>>)
    requires n > 0 && Behind(ps, GetStrings(packet, cursor, n)).Some?
    ensures cursor + SCL_LEN_LEN <= |packet|
    ensures var len := IntAt(packet, cursor);
      && 0 <= len && cursor + SCL_LEN_LEN + len <= |packet|
      && Behind(ps, GetStrings(packet, cursor, n))
         == Behind(ps + [if len == 0 then None else Some(cursor + SCL_LEN_LEN)],
                   GetStrings(Zeroed(packet, cursor), cursor + SCL_LEN_LEN + len, n - 1))
  {
    hide IntAt, Zeroed;
    var len := IntAt(packet, cursor);
    var r := GetStrings(Zeroed(packet, cursor), cursor + SCL_LEN_LEN + len, n - 1).value.0;
    var p := if len == 0 then None else Some(cursor + SCL_LEN_LEN);
    assert ps + ([p] + r) == ps + [p] + r;
  }

  class InConn {
    /** What is still to come on the socket. */
    var input: seq<Byte>
    var inPacketOpcode: Int32
    var inPdata: array<Byte>
    var inPcursor: nat

    constructor (input: seq<Byte>)
      ensures this.input == input && fresh(inPdata) && inPdata.Length == 0
    {
      this.input, inPacketOpcode, inPcursor := input, 0, 0;
      inPdata := new Byte[0];
    }

    /** `scl_read`, from a peer that hangs up at the end of its bytes. */
    method SclRead(len: nat) returns (bytes: seq<Byte>, n: nat)
      modifies this`input
      ensures if len <= |old(input)| then n == len && bytes == old(input)[..len] && input == old(input)[len..]
              else n == 0 && bytes == [] && input == []
    {
      if |input| < len {
        bytes, n, input := [], 0, [];
      } else {
        bytes, n, input := input[..len], len, input[len..];
      }
    }

    /** `scl_read_packet`: the number of bytes of the values; 0 when the peer has hung up, and also
        for a packet without values; -1 for a negative length. */
    method ReadPacket() returns (n: int)
      modifies this
      ensures inPdata == old(inPdata) || fresh(inPdata)
      ensures |old(input)| < HEADER_LEN ==> n == 0 && input == []
      ensures |old(input)| >= HEADER_LEN ==>
        var len := IntAt(old(input), SCL_IN_PACKET_LEN * SCL_INT_LEN);
        var rest := old(input)[HEADER_LEN..];
        && inPacketOpcode == IntAt(old(input), SCL_IN_PACKET_OPCODE * SCL_INT_LEN)
        && (len < 0 ==> n == -1)
        && (len > |rest| ==> n == 0 && input == [])
        && (0 <= len <= |rest| ==> n == len && inPdata[..] == rest[..len] && inPcursor == 0 && input == rest[len..])
    {
      ghost var stream := input;
      var header, bytes := SclRead(HEADER_LEN);
      if bytes == 0 {
        return 0;
      }
      assert header[0..4] == stream[0..4] && header[12..16] == stream[12..16];
      inPacketOpcode := IntAt(header, SCL_IN_PACKET_OPCODE * SCL_INT_LEN);
      var len: int := IntAt(header, SCL_IN_PACKET_LEN * SCL_INT_LEN);
      if len < 0 {
        return -1;
      }
      inPdata := new Byte[len](_ => 0);
      inPcursor := 0;
      var values;
      values, bytes := SclRead(len);
      if bytes == 0 {
        assert len <= |stream[HEADER_LEN..]| ==> inPdata[..] == [];
        return 0;
      }
      forall i | 0 <= i < len {
        inPdata[i] := values[i];
      }
      assert inPdata[..] == values;
      return bytes;
    }

    function Int(): Int32
      requires inPcursor + SCL_LEN_LEN <= inPdata.Length
      reads this`inPcursor, this`inPdata, inPdata
    {
      IntAt(inPdata[..], inPcursor)
    }

    /** Zeroes the length field at the cursor. */
    method ZeroInt()
      requires inPcursor + SCL_LEN_LEN <= inPdata.Length
      modifies inPdata
      ensures inPdata[..] == Zeroed(old(inPdata[..]), inPcursor)
    {
      var c := inPcursor;
      inPdata[c], inPdata[c + 1], inPdata[c + 2], inPdata[c + 3] := 0, 0, 0, 0;
    }

    method ZeroByte(at: nat)
      requires at < inPdata.Length
      modifies inPdata
      ensures inPdata[..] == old(inPdata[..])[at := 0]
    {
      inPdata[at] := 0;
    }

    /** The loop of `scl_get_value` over a string array. */
    method GetPointers(n: nat) returns (charPointers: seq<Option<nat>>)
      requires GetStrings(inPdata[..], inPcursor, n).Some?
      modifies this`inPcursor, inPdata
      ensures GetStrings(old(inPdata[..]), old(inPcursor), n) == Some((charPointers, inPdata[..], inPcursor))
    {
      hide GetStrings, IntAt, Zeroed, Behind;
      charPointers := [];
      ghost var all := GetStrings(inPdata[..], inPcursor, n);
      NothingBehind(all);
      for count := 0 to n
        invariant Behind(charPointers, GetStrings(inPdata[..], inPcursor, n - count)) == all
      {
        NextString(inPdata[..], inPcursor, n - count, charPointers);
        var stringLen := Int();
        ZeroInt();
        inPcursor := inPcursor + SCL_LEN_LEN;
        if stringLen == 0 {
          charPointers := charPointers + [None];
        } else {
          charPointers := charPointers + [Some(inPcursor)];
          inPcursor := inPcursor + stringLen;
        }
      }
      Finished(charPointers, inPdata[..], inPcursor);
    }

    /** `scl_get_value`. A null `array_len` is `counted == false`. The program trusts the packet:
        what it reads must be there. */
    method GetValue(kind: Type, counted: bool) returns (got: Got, arrayLen: Option<Int32>)
      requires Get(inPdata[..], inPcursor, kind, counted).Some?
      modifies this`inPcursor, inPdata
      ensures Get(old(inPdata[..]), old(inPcursor), kind, counted) == Some(Read(got, arrayLen, inPdata[..], inPcursor))
    {
      hide GetStrings, IntAt;
      arrayLen := None;
      if counted && Complex(kind) {
        arrayLen := Some(Int());
        inPcursor := inPcursor + SCL_LEN_LEN;
      }
      got := At(inPcursor);
      if kind == SCL_STRING {
        var stringLen := Int();
        inPcursor := inPcursor + SCL_LEN_LEN;
        if stringLen == 0 {
          inPcursor := inPcursor + 1;
          return Null, arrayLen;
        }
        got := At(inPcursor);
        ZeroByte(inPcursor + stringLen);
        inPcursor := inPcursor + stringLen + 1;
      } else if kind == SCL_STRING_A {
        if !counted {
          inPcursor := inPcursor + 1;
          return Null, arrayLen;
        }
        var charPointers := GetPointers(arrayLen.value);
        got := Pointers(charPointers);
        ZeroByte(inPcursor);
        inPcursor := inPcursor + 1;
      } else if !Complex(kind) {
        inPcursor := inPcursor + Width(kind);
      } else {
        if !counted {
          return Null, arrayLen;
        }
        inPcursor := inPcursor + ArrayWidth(kind, arrayLen.value);
      }
    }
  }

  lemma Finished(ps: seq<Option<nat>>, packet: seq<Byte>, cursor: nat)
    ensures Behind(ps, GetStrings(packet, cursor, 0)) == Some((ps, packet, cursor))
  {
    assert ps + [] == ps;
  }
}
