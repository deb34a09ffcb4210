/** What `opt_expr` keeps: the meaning of the expression, its parts, and the order of everything
    that has side effects. */
module FindOptMeaning {
  import opened FindTree
  import opened FindOpt

  // ---------------------------------------------------------------- permutation

  lemma Rotate<T>(a: multiset<T>, b: multiset<T>, c: multiset<T>)
    ensures a + b + c == b + c + a
  {
  }

  lemma Exchange<T>(a: multiset<T>, b: multiset<T>, c: multiset<T>)
    ensures a + (b + c) == a + c + b
  {
  }

  lemma Regroup<T>(a: multiset<T>, b: multiset<T>, c: multiset<T>)
    ensures a + b + c == a + (b + c)
  {
  }

  function Flatten(ls: seq<seq<Item>>, n: nat): multiset<Item>
    requires n <= |ls|
  {
    if n == 0 then multiset{} else multiset(ls[n - 1]) + Flatten(ls, n - 1)
  }

  /** Everything the lists of one group hold. */
  function Taken(ls: Lists): multiset<Item> {
    Flatten(ls, |ls|)
  }

  lemma HeadCounts(s: seq<Item>)
    requires s != []
    ensures multiset(s) == multiset(s[1..]) + multiset{s[0]}
  {
    assert s == [s[0]] + s[1..];
  }

  lemma PlaceKeepsItems(s: seq<Item>, q: Item)
    ensures multiset(Place(s, q)) == multiset(s) + multiset{q}
  {
    var k := StopIndex(s, q);
    if k < |s| {
      assert s == s[..k + 1] + s[k + 1..];
    }
  }

  /** `predlist_merge_sort` loses and invents nothing. */
  lemma {:induction false} MergeSortPermutes(list: seq<Item>, acc: seq<Item>)
    ensures multiset(MergeSort(list, acc)) == multiset(list) + multiset(acc)
    decreases |list|
  {
    if list != [] {
      var acc' := Place(acc, list[0]);
      PlaceKeepsItems(acc, list[0]);
      MergeSortPermutes(list[1..], acc');
      HeadCounts(list);
    }
  }

  lemma {:induction false} MergeListsPermutes(ls: seq<seq<Item>>, n: nat)
    requires n <= |ls|
    ensures multiset(MergeLists(ls, n)) == Flatten(ls, n)
  {
    if n > 0 {
      hide MergeSort;
      var last, others := MergeSort(ls[n - 1], []), MergeLists(ls, n - 1);
      MergeSortPermutes(ls[n - 1], []);
      MergeListsPermutes(ls, n - 1);
      calc {
        multiset(MergeLists(ls, n));
        multiset(last + others);
        { AppendCounts(last, others); }
        multiset(last) + multiset(others);
        multiset(ls[n - 1]) + Flatten(ls, n - 1);
        Flatten(ls, n);
      }
    }
  }

  lemma AppendCounts(a: seq<Item>, b: seq<Item>)
    ensures multiset(a + b) == multiset(a) + multiset(b)
  {
  }

  lemma {:induction false} FlattenUpdate(ls: seq<seq<Item>>, n: nat, k: nat, x: Item)
    requires n <= |ls| && k < |ls|
    ensures Flatten(ls[k := [x] + ls[k]], n) == Flatten(ls, n) + (if k < n then multiset{x} else multiset{})
  {
    if n > 0 {
      var rest := Flatten(ls, n - 1);
      FlattenUpdate(ls, n - 1, k, x);
      if k == n - 1 {
        assert multiset([x] + ls[k]) == multiset{x} + multiset(ls[k]);
        Rotate(multiset{x}, multiset(ls[k]), rest);
      } else if k < n {
        Regroup(multiset(ls[n - 1]), rest, multiset{x});
      }
    }
  }

  lemma InsertTakes(ls: Lists, k: nat, x: Item)
    requires k < |ls|
    ensures Taken(Insert(ls, k, x)) == Taken(ls) + multiset{x}
  {
    FlattenUpdate(ls, |ls|, k, x);
  }

  lemma EmptyTakesNothing()
    ensures Taken(EMPTY_LISTS) == multiset{}
  {
    FlattenEmpty(EMPTY_LISTS, |EMPTY_LISTS|);
  }

  lemma {:induction false} FlattenEmpty(ls: seq<seq<Item>>, n: nat)
    requires n <= |ls| && forall i | 0 <= i < |ls| :: ls[i] == []
    ensures Flatten(ls, n) == multiset{}
  {
    if n > 0 {
      FlattenEmpty(ls, n - 1);
    }
  }

  lemma {:induction false} ArrangePermutes(items: seq<Item>, ls: Lists, biop: Op, level: nat)
    ensures multiset(Arrange(items, ls, biop, level)) == multiset(items) + Taken(ls)
    decreases |items|
  {
    if items == [] {
      MergeListsPermutes(ls, |ls|);
    } else {
      var x := items[0];
      assert items == [x] + items[1..];
      var slot := Classify(x.right, biop, level);
      if slot.To? {
        InsertTakes(ls, slot.list, x);
        ArrangePermutes(items[1..], Insert(ls, slot.list, x), biop, level);
      } else if Fx(x.right) {
        MergeListsPermutes(ls, |ls|);
        EmptyTakesNothing();
        ArrangePermutes(items[1..], EMPTY_LISTS, biop, level);
      } else {
        ArrangePermutes(items[1..], ls, biop, level);
      }
    }
  }

  // ---------------------------------------------------------------- barriers

  /** The items with side effects, in order. */
  function Barriers(items: seq<Item>): seq<Item> {
    if items == [] then []
    else (if Fx(items[0].right) then [items[0]] else []) + Barriers(items[1..])
  }

  /** The items without side effects before the first barrier. */
  function FirstSegment(items: seq<Item>): multiset<Item> {
    if items == [] || Fx(items[0].right) then multiset{}
    else FirstSegment(items[1..]) + multiset{items[0]}
  }

  /** The items without side effects behind each barrier, up to the next one. */
  function LaterSegments(items: seq<Item>): seq<multiset<Item>> {
    if items == [] then []
    else if Fx(items[0].right) then [FirstSegment(items[1..])] + LaterSegments(items[1..])
    else LaterSegments(items[1..])
  }

  lemma {:induction false} PureInFront(front: seq<Item>, items: seq<Item>)
    requires forall x | x in front :: !Fx(x.right)
    ensures Barriers(front + items) == Barriers(items)
    ensures FirstSegment(front + items) == FirstSegment(items) + multiset(front)
    ensures LaterSegments(front + items) == LaterSegments(items)
  {
    if front == [] {
      assert front + items == items;
    } else {
      var x, rest := front[0], front[1..];
      assert x in front;
      assert (front + items)[0] == x && (front + items)[1..] == rest + items;
      PureInFront(rest, items);
      HeadCounts(front);
      Regroup(FirstSegment(items), multiset(rest), multiset{x});
    }
  }

  /** `out` has the barriers of `items` in their order, and between each two of them the same
      items without side effects, plus `extra` before the first. */
  ghost predicate SameSegments(out: seq<Item>, items: seq<Item>, extra: multiset<Item>) {
    && Barriers(out) == Barriers(items)
    && FirstSegment(out) == FirstSegment(items) + extra
    && LaterSegments(out) == LaterSegments(items)
  }

  lemma SegmentsMoved(out: seq<Item>, items: seq<Item>, extra: multiset<Item>)
    requires items != [] && !Fx(items[0].right)
    requires SameSegments(out, items[1..], extra + multiset{items[0]})
    ensures SameSegments(out, items, extra)
  {
    Exchange(FirstSegment(items[1..]), extra, multiset{items[0]});
  }

  lemma SegmentsStay(out: seq<Item>, items: seq<Item>, extra: multiset<Item>)
    requires items != [] && !Fx(items[0].right)
    requires SameSegments(out, items[1..], extra)
    ensures SameSegments([items[0]] + out, items, extra)
  {
    assert ([items[0]] + out)[1..] == out;
    Exchange(FirstSegment(items[1..]), extra, multiset{items[0]});
    Regroup(FirstSegment(items[1..]), extra, multiset{items[0]});
  }

  lemma SegmentsBarrier(front: seq<Item>, out: seq<Item>, items: seq<Item>)
    requires items != [] && Fx(items[0].right)
    requires forall x | x in front :: !Fx(x.right)
    requires SameSegments(out, items[1..], multiset{})
    ensures SameSegments(front + [items[0]] + out, items, multiset(front))
  {
    var tail := [items[0]] + out;
    assert tail[1..] == out;
    PureInFront(front, tail);
    assert front + [items[0]] + out == front + tail;
    assert FirstSegment(out) == FirstSegment(items[1..]);
  }

  lemma SegmentsEnd(front: seq<Item>)
    requires forall x | x in front :: !Fx(x.right)
    ensures SameSegments(front, [], multiset(front))
  {
    PureInFront(front, []);
    assert front + [] == front;
  }

  /** Reordering leaves the items with side effects in place and moves the others only between
      the same two of them. */
  lemma {:induction false} ArrangeKeepsSegments(items: seq<Item>, ls: Lists, biop: Op, level: nat)
    requires forall x | x in Taken(ls) :: !Fx(x.right)
    ensures SameSegments(Arrange(items, ls, biop, level), items, Taken(ls))
    decreases |items|
  {
    hide SameSegments, Flatten, MergeLists, Classify, Insert;
    var front := MergeLists(ls, |ls|);
    MergeListsPermutes(ls, |ls|);
    assert forall x :: x in front ==> x in multiset(front);
    if items == [] {
      SegmentsEnd(front);
    } else {
      var x, rest := items[0], items[1..];
      var slot := Classify(x.right, biop, level);
      if slot.To? {
        InsertTakes(ls, slot.list, x);
        ArrangeKeepsSegments(rest, Insert(ls, slot.list, x), biop, level);
        SegmentsMoved(Arrange(items, ls, biop, level), items, Taken(ls));
      } else if Fx(x.right) {
        EmptyTakesNothing();
        ArrangeKeepsSegments(rest, EMPTY_LISTS, biop, level);
        SegmentsBarrier(front, Arrange(rest, EMPTY_LISTS, biop, level), items);
      } else {
        ArrangeKeepsSegments(rest, ls, biop, level);
        SegmentsStay(Arrange(rest, ls, biop, level), items, Taken(ls));
      }
    }
  }

  // ---------------------------------------------------------------- meaning of a chain

  /** A chain of `op` from its left end: an absent chain is the operator's neutral answer. */
  function ChainEval<W>(op: Op, t: Tree, e: Env<W>, w: W): (bool, W) {
    if t.Nil? then (op != Or, w) else Eval(t, e, w)
  }

  /** What the right operand of `op` does after the left one has answered. */
  function Step<W>(op: Op, s: (bool, W), r: Tree, e: Env<W>): (bool, W) {
    if op == Comma || s.0 == (op == And) then Eval(r, e, s.1) else s
  }

  lemma BinSteps<W>(op: Op, m: Meta, l: Tree, r: Tree, e: Env<W>, w: W)
    ensures Eval(Bin(op, m, l, r), e, w) == Step(op, ChainEval(op, l, e, w), r, e)
  {
  }

  /** The answer of a chain after pure items have had their say, in whatever order. */
  ghost function Absorb<W>(op: Op, ms: multiset<Item>, s: (bool, W), e: Env<W>): (bool, W) {
    match op
    case Comma => s
    case And => (s.0 && forall x | x in ms :: Eval(x.right, e, s.1).0, s.1)
    case Or => (s.0 || exists x | x in ms :: Eval(x.right, e, s.1).0, s.1)
  }

  ghost predicate AllPure(ms: multiset<Item>, op: Op) {
    && (forall x | x in ms :: x.op == op && Pure(x.right))
    && (op == Comma ==> ms == multiset{})
  }

  lemma AbsorbNothing<W>(op: Op, s: (bool, W), e: Env<W>)
    ensures Absorb(op, multiset{}, s, e) == s
  {
  }

  lemma AbsorbOne<W>(op: Op, ms: multiset<Item>, x: Item, s: (bool, W), e: Env<W>)
    requires op != Comma && Pure(x.right)
    ensures Absorb(op, ms + multiset{x}, s, e) == Absorb(op, ms, Step(op, s, x.right, e), e)
  {
    PureKeepsWorld(x.right, e, s.1);
    assert forall y :: y in ms + multiset{x} <==> y in ms || y == x;
  }

  lemma PureCommutes<W>(op: Op, ms: multiset<Item>, x: Item, s: (bool, W), e: Env<W>)
    requires AllPure(ms, op) && Pure(x.right)
    ensures Step(op, Absorb(op, ms, s, e), x.right, e) == Absorb(op, ms, Step(op, s, x.right, e), e)
  {
    PureKeepsWorld(x.right, e, s.1);
  }

  lemma {:induction false} HangAppend(a: seq<Item>, b: seq<Item>, t: Tree)
    ensures Hang(a + b, t) == Hang(a, Hang(b, t))
  {
    if a == [] {
      assert a + b == b;
    } else {
      HangAppend(a[1..], b, t);
      assert (a + b)[1..] == a[1..] + b;
    }
  }

  lemma {:induction false} HangPure<W>(op: Op, a: seq<Item>, t: Tree, e: Env<W>, w: W)
    requires AllPure(multiset(a), op)
    ensures ChainEval(op, Hang(a, t), e, w) == Absorb(op, multiset(a), ChainEval(op, t, e, w), e)
  {
    if a != [] {
      var x, rest := a[0], a[1..];
      assert a == [x] + rest;
      assert multiset(a) == multiset(rest) + multiset{x};
      assert x in multiset(a) && op != Comma;
      HangPure(op, rest, t, e, w);
      var s := ChainEval(op, t, e, w);
      BinSteps(op, x.meta, Hang(rest, t), x.right, e, w);
      PureCommutes(op, multiset(rest), x, s, e);
      AbsorbOne(op, multiset(rest), x, s, e);
    }
  }

  /** Items of one chain, with flags that tell the truth. */
  ghost predicate ChainItems(items: seq<Item>, op: Op) {
    forall x | x in items :: x.op == op && Fx(x.right) == !Pure(x.right)
  }

  lemma MeaningMoved<W>(out: Tree, items: seq<Item>, op: Op, ms: multiset<Item>, e: Env<W>, w: W)
    requires items != [] && items[0].op == op && op != Comma && Pure(items[0].right)
    requires ChainEval(op, out, e, w)
          == Absorb(op, ms + multiset{items[0]}, ChainEval(op, Hang(items[1..], Nil), e, w), e)
    ensures ChainEval(op, out, e, w) == Absorb(op, ms, ChainEval(op, Hang(items, Nil), e, w), e)
  {
    var x, rest := items[0], Hang(items[1..], Nil);
    BinSteps(op, x.meta, rest, x.right, e, w);
    AbsorbOne(op, ms, x, ChainEval(op, rest, e, w), e);
  }

  lemma MeaningStay<W>(out: seq<Item>, items: seq<Item>, op: Op, ms: multiset<Item>, e: Env<W>, w: W)
    requires items != [] && items[0].op == op && Pure(items[0].right) && AllPure(ms, op)
    requires ChainEval(op, Hang(out, Nil), e, w)
          == Absorb(op, ms, ChainEval(op, Hang(items[1..], Nil), e, w), e)
    ensures ChainEval(op, Hang([items[0]] + out, Nil), e, w)
         == Absorb(op, ms, ChainEval(op, Hang(items, Nil), e, w), e)
  {
    var x, rest := items[0], Hang(items[1..], Nil);
    assert ([x] + out)[1..] == out;
    BinSteps(op, x.meta, rest, x.right, e, w);
    BinSteps(op, x.meta, Hang(out, Nil), x.right, e, w);
    PureCommutes(op, ms, x, ChainEval(op, rest, e, w), e);
  }

  lemma MeaningBarrier<W>(front: seq<Item>, out: seq<Item>, items: seq<Item>, op: Op, e: Env<W>, w: W)
    requires items != [] && items[0].op == op && AllPure(multiset(front), op)
    requires ChainEval(op, Hang(out, Nil), e, w) == ChainEval(op, Hang(items[1..], Nil), e, w)
    ensures ChainEval(op, Hang(front + [items[0]] + out, Nil), e, w)
         == Absorb(op, multiset(front), ChainEval(op, Hang(items, Nil), e, w), e)
  {
    var x, rest := items[0], Hang(items[1..], Nil);
    var tail := [x] + out;
    assert tail[1..] == out;
    BinSteps(op, x.meta, rest, x.right, e, w);
    BinSteps(op, x.meta, Hang(out, Nil), x.right, e, w);
    HangAppend(front, tail, Nil);
    assert front + [x] + out == front + tail;
    HangPure(op, front, Hang(tail, Nil), e, w);
  }

  lemma {:induction false} ArrangeKeepsMeaning<W>(items: seq<Item>, ls: Lists, biop: Op, level: nat, e: Env<W>, w: W)
    requires ChainItems(items, biop) && AllPure(Taken(ls), biop)
    ensures ChainEval(biop, Hang(Arrange(items, ls, biop, level), Nil), e, w)
         == Absorb(biop, Taken(ls), ChainEval(biop, Hang(items, Nil), e, w), e)
    decreases |items|
  {
    hide Flatten, MergeLists, Classify, Insert, Absorb, ChainEval;
    MergeListsPermutes(ls, |ls|);
    if items == [] {
      HangPure(biop, MergeLists(ls, |ls|), Nil, e, w);
    } else {
      var x, rest := items[0], items[1..];
      assert x in items;
      var slot := Classify(x.right, biop, level);
      if slot.To? {
        InsertTakes(ls, slot.list, x);
        ArrangeKeepsMeaning(rest, Insert(ls, slot.list, x), biop, level, e, w);
        MeaningMoved(Hang(Arrange(items, ls, biop, level), Nil), items, biop, Taken(ls), e, w);
      } else if Fx(x.right) {
        EmptyTakesNothing();
        ArrangeKeepsMeaning(rest, EMPTY_LISTS, biop, level, e, w);
        AbsorbNothing(biop, ChainEval(biop, Hang(rest, Nil), e, w), e);
        MeaningBarrier(MergeLists(ls, |ls|), Arrange(rest, EMPTY_LISTS, biop, level), items, biop, e, w);
      } else {
        ArrangeKeepsMeaning(rest, ls, biop, level, e, w);
        MeaningStay(Arrange(rest, ls, biop, level), items, biop, Taken(ls), e, w);
      }
    }
  }
}
