/** In which order `opt_expr` leaves the operands of a chain. The chain is read from its root, and
    evaluated from its other end. */
module FindOptOrder {
  import opened FindTree
  import opened FindOpt
  import FindOptMeaning
  import opened FindOptTheorem

  // ---------------------------------------------------------------- kinds of operands

  predicate Test(x: Item) {
    x.right.Prim? && !x.right.p.fx
  }

  /** Evaluated first: tests of the name alone, and with any optimisation those that need nothing. */
  predicate First(x: Item, level: nat) {
    Test(x) && (x.right.p.nameTest || (level != 0 && x.right.p.cost == NEEDS_NOTHING))
  }

  predicate Second(x: Item, level: nat) {
    Test(x) && !First(x, level) && x.right.p.regex
  }

  /** Ordered by cost: with the highest optimisation all other tests, with the one below those that
      the directory entry may answer. */
  predicate Third(x: Item, level: nat) {
    && Test(x) && !First(x, level) && !Second(x, level)
    && (level >= 3 || (level == 2 && x.right.p.cost in {NEEDS_TYPE, NEEDS_INODE_NUMBER} && !x.right.p.needStat))
  }

  /** Everything else keeps its place among its like. */
  predicate Other(x: Item, level: nat) {
    !First(x, level) && !Second(x, level) && !Third(x, level)
  }

  /** The order of evaluation inside a segment, first to last. */
  predicate Before(x: Item, y: Item, level: nat) {
    || (First(x, level) && !First(y, level))
    || (Second(x, level) && (Third(y, level) || Other(y, level)))
    || (Third(x, level) && Third(y, level) && x.right.p.cost < y.right.p.cost)
    || (Third(x, level) && Other(y, level))
  }

  /** Neither comes before the other for its kind. */
  predicate Alike(x: Item, y: Item, level: nat) {
    !Before(x, y, level) && !Before(y, x, level)
  }

  /** Costlier, or as costly and less likely to decide a chain of this operator. */
  predicate Worse(x: Item, y: Item, op: Op) {
    || NodeCost(x.right) > NodeCost(y.right)
    || (NodeCost(x.right) == NodeCost(y.right)
        && if op == Or then NodeRate(x.right) < NodeRate(y.right) else NodeRate(x.right) > NodeRate(y.right))
  }

  // ---------------------------------------------------------------- one list

  /** The last to be evaluated is one of the worst. */
  predicate WorstLast(s: seq<Item>, op: Op) {
    forall i | 0 <= i < |s| :: !Worse(s[i], s[0], op)
  }

  /** One pass over a list: the worst so far, and those it was compared with, the latest first. */
  function Pass(s: seq<Item>, q: Item, op: Op): seq<Item> {
    if s == [] then [q] else if Worse(q, s[0], op) then [q] + s else [s[0], q] + s[1..]
  }

  function Passes(list: seq<Item>, acc: seq<Item>, op: Op): seq<Item> {
    if list == [] then acc else Passes(list[1..], Pass(acc, list[0], op), op)
  }

  lemma CompareIsWorse(x: Item, q: Item)
    ensures StopsAt(x, q) <==> !Worse(q, x, x.op)
  {
  }

  /** With the worst at its head, a list takes a node behind or before that and nowhere else. */
  lemma PlaceIsPass(s: seq<Item>, q: Item, op: Op)
    requires (forall x | x in s :: x.op == op) && WorstLast(s, op)
    ensures Place(s, q) == Pass(s, q, op) && WorstLast(Place(s, q), op)
  {
    if s != [] {
      CompareIsWorse(s[0], q);
      var k := StopIndex(s, q);
      if k < |s| {
        CompareIsWorse(s[k], q);
        assert s[0] in s && s[k] in s && !Worse(s[k], s[0], op);
        assert k == 0;
      }
      var after := Pass(s, q, op);
      forall i | 0 <= i < |after|
        ensures !Worse(after[i], after[0], op)
      {
        assert after[i] == q || after[i] in s;
        if after[i] in s {
          var j :| 0 <= j < |s| && s[j] == after[i];
          assert !Worse(s[j], s[0], op);
        }
      }
    }
  }

  /** `predlist_merge_sort` is one pass, not a sort: of the result only the head is known to be the
      worst. */
  lemma {:induction false} MergeSortIsOnePass(list: seq<Item>, acc: seq<Item>, op: Op)
    requires (forall x | x in list + acc :: x.op == op) && WorstLast(acc, op)
    ensures MergeSort(list, acc) == Passes(list, acc, op) && WorstLast(MergeSort(list, acc), op)
    decreases |list|
  {
    if list != [] {
      assert list[0] in list + acc && forall x | x in acc :: x in list + acc;
      PlaceIsPass(acc, list[0], op);
      var next := Place(acc, list[0]);
      forall x | x in list[1..] + next
        ensures x.op == op
      {
        assert x in list + acc;
      }
      MergeSortIsOnePass(list[1..], next, op);
    }
  }

  // ---------------------------------------------------------------- one segment

  /** The operands that are evaluated together: all first ones, all second ones, or all third ones
      of one cost. */
  predicate OfGroup(x: Item, k: nat, level: nat) {
    if k == 0 then First(x, level) else if k == 1 then Second(x, level) else Third(x, level) && x.right.p.cost + 2 == k
  }

  const GROUPS: nat := 2 + NUM_EVALUATION_COSTS

  /** The operands of a group in a segment, the one nearest the left end first. */
  function Gathered(segment: seq<Item>, k: nat, level: nat): seq<Item> {
    if segment == [] then []
    else
      var n := |segment| - 1;
      (if OfGroup(segment[n], k, level) then [segment[n]] else []) + Gathered(segment[..n], k, level)
  }

  /** The groups up to `n`, the first one nearest the left end. */
  function Groups(segment: seq<Item>, n: nat, op: Op, level: nat): seq<Item> {
    if n == 0 then [] else Passes(Gathered(segment, n - 1, level), [], op) + Groups(segment, n - 1, op, level)
  }

  /** The chain segment by segment: those without a group as they are, then the groups. `segment` is
      what was met since the last operand with side effects. */
  function Reordered(segment: seq<Item>, items: seq<Item>, op: Op, level: nat): seq<Item>
    decreases |items|
  {
    if items == [] then Groups(segment, GROUPS, op, level)
    else if Fx(items[0].right) then
      Groups(segment, GROUPS, op, level) + [items[0]] + Reordered([], items[1..], op, level)
    else
      (if Other(items[0], level) then [items[0]] else []) + Reordered(segment + [items[0]], items[1..], op, level)
  }

  lemma SlotIsGroup(x: Item, biop: Op, level: nat, k: nat)
    requires biop != Comma
    ensures Classify(x.right, biop, level) == To(k) <==> OfGroup(x, k, level)
    ensures Classify(x.right, biop, level).To? <==> !Other(x, level)
  {
  }

  lemma GatheredMore(segment: seq<Item>, x: Item, k: nat, level: nat)
    ensures Gathered(segment + [x], k, level)
         == (if OfGroup(x, k, level) then [x] else []) + Gathered(segment, k, level)
  {
    assert (segment + [x])[..|segment|] == segment;
  }

  lemma {:induction false} GatheredFrom(segment: seq<Item>, k: nat, level: nat)
    ensures forall x | x in Gathered(segment, k, level) :: x in segment && OfGroup(x, k, level)
  {
    if segment != [] {
      var n := |segment| - 1;
      GatheredFrom(segment[..n], k, level);
    }
  }

  /** The lists hold the groups met since the last operand with side effects. */
  ghost predicate Hold(ls: Lists, segment: seq<Item>, level: nat) {
    forall k | 0 <= k < GROUPS :: ls[k] == Gathered(segment, k, level)
  }

  lemma {:induction false} MergesGroups(ls: Lists, segment: seq<Item>, n: nat, op: Op, level: nat)
    requires Hold(ls, segment, level) && n <= GROUPS && forall x | x in segment :: x.op == op
    ensures MergeLists(ls, n) == Groups(segment, n, op, level)
  {
    hide Gathered, MergeSort, Passes;
    if n > 0 {
      MergesGroups(ls, segment, n - 1, op, level);
      OneGroupMerged(segment, n - 1, op, level);
    }
  }

  lemma OneGroupMerged(segment: seq<Item>, k: nat, op: Op, level: nat)
    requires forall x | x in segment :: x.op == op
    ensures MergeSort(Gathered(segment, k, level), []) == Passes(Gathered(segment, k, level), [], op)
  {
    var list := Gathered(segment, k, level);
    hide Gathered, MergeSort, Passes, OfGroup;
    GatheredFrom(segment, k, level);
    assert list + [] == list;
    MergeSortIsOnePass(list, [], op);
  }

  /** `opt_expr` puts a chain into exactly this order. */
  lemma {:induction false} ArrangeReorders(segment: seq<Item>, items: seq<Item>, ls: Lists, op: Op, level: nat)
    requires op != Comma && Hold(ls, segment, level) && forall x | x in segment + items :: x.op == op
    ensures Arrange(items, ls, op, level) == Reordered(segment, items, op, level)
    decreases |items|
  {
    hide MergeLists, Groups, Gathered, Classify, OfGroup, Other;
    assert forall x | x in segment :: x in segment + items;
    MergesGroups(ls, segment, GROUPS, op, level);
    if items != [] {
      var x, rest := items[0], items[1..];
      assert forall y | y in rest :: y in segment + items;
      var slot := Classify(x.right, op, level);
      SlotIsGroup(x, op, level, 0);
      if Fx(x.right) {
        NoGroup(x, level);
        NothingHeld(level);
        assert [] + rest == rest;
        ArrangeReorders([], rest, EMPTY_LISTS, op, level);
      } else {
        assert (segment + [x]) + rest == segment + items;
        var next := if slot.To? then Insert(ls, slot.list, x) else ls;
        forall k | 0 <= k < GROUPS
          ensures next[k] == Gathered(segment + [x], k, level)
        {
          GatheredMore(segment, x, k, level);
          SlotIsGroup(x, op, level, k);
        }
        ArrangeReorders(segment + [x], rest, next, op, level);
      }
    }
  }

  lemma NoGroup(x: Item, level: nat)
    requires Fx(x.right)
    ensures Other(x, level)
  {
  }

  lemma NothingHeld(level: nat)
    ensures Hold(EMPTY_LISTS, [], level)
  {
  }

  /** The operands of a comma are left alone. */
  lemma {:induction false} CommaStays(items: seq<Item>, level: nat)
    ensures Arrange(items, EMPTY_LISTS, Comma, level) == items
  {
    hide MergeLists, Classify;
    NothingMerged(|EMPTY_LISTS|);
    if items != [] {
      CommaStays(items[1..], level);
      CommaSlot(items[0].right, level);
      assert [] + [items[0]] + items[1..] == items == [items[0]] + items[1..];
    }
  }

  lemma CommaSlot(p: Tree, level: nat)
    ensures !Classify(p, Comma, level).To?
  {
  }

  lemma {:induction false} NothingMerged(n: nat)
    requires n <= |EMPTY_LISTS|
    ensures MergeLists(EMPTY_LISTS, n) == []
  {
    if n > 0 {
      NothingMerged(n - 1);
      assert EMPTY_LISTS[n - 1] == [];
    }
  }

  // ---------------------------------------------------------------- what the order promises

  /** Between two operands with side effects no operand nearer the root is to be evaluated before
      one nearer the left end. */
  predicate InOrder(s: seq<Item>, level: nat) {
    |s| < 2 || ((Fx(s[0].right) || Fx(s[1].right) || !Before(s[0], s[1], level)) && InOrder(s[1..], level))
  }

  /** The operands that have no group, those with side effects among them. */
  function Others(s: seq<Item>, level: nat): seq<Item> {
    if s == [] then [] else (if Other(s[0], level) then [s[0]] else []) + Others(s[1..], level)
  }

  /** Neighbours in order make a segment in order. */
  lemma {:induction false} InOrderPairs(s: seq<Item>, level: nat, i: nat, j: nat)
    requires InOrder(s, level) && i < j < |s| && forall k | i <= k <= j :: !Fx(s[k].right)
    ensures !Before(s[i], s[j], level)
    decreases j
  {
    if i > 0 {
      InOrderPairs(s[1..], level, i - 1, j - 1);
    } else if j > 1 {
      InOrderPairs(s[1..], level, 0, j - 1);
    }
  }

  lemma {:induction false} PassFrom(s: seq<Item>, q: Item, op: Op)
    ensures multiset(Pass(s, q, op)) == multiset(s) + multiset{q}
  {
    if s != [] {
      assert s == [s[0]] + s[1..];
    }
  }

  lemma {:induction false} PassesFrom(list: seq<Item>, acc: seq<Item>, op: Op)
    ensures multiset(Passes(list, acc, op)) == multiset(list) + multiset(acc)
    decreases |list|
  {
    if list != [] {
      assert list == [list[0]] + list[1..];
      PassFrom(acc, list[0], op);
      PassesFrom(list[1..], Pass(acc, list[0], op), op);
    }
  }

  predicate AllOfGroup(s: seq<Item>, k: nat, level: nat) {
    forall x | x in s :: OfGroup(x, k, level)
  }

  lemma GroupIs(segment: seq<Item>, k: nat, op: Op, level: nat)
    ensures AllOfGroup(Passes(Gathered(segment, k, level), [], op), k, level)
  {
    var list := Gathered(segment, k, level);
    GatheredFrom(segment, k, level);
    PassesFrom(list, [], op);
    var s := Passes(list, [], op);
    forall x | x in s
      ensures x in list
    {
      assert x in multiset(s);
    }
  }

  lemma {:induction false} InOrderAppend(a: seq<Item>, b: seq<Item>, level: nat)
    requires InOrder(a, level) && InOrder(b, level)
    requires a == [] || b == [] || Fx(a[|a| - 1].right) || Fx(b[0].right) || !Before(a[|a| - 1], b[0], level)
    ensures InOrder(a + b, level)
  {
    if a == [] {
      assert a + b == b;
    } else {
      assert (a + b)[1..] == a[1..] + b;
      InOrderAppend(a[1..], b, level);
    }
  }

  lemma {:induction false} OneGroupInOrder(s: seq<Item>, k: nat, level: nat)
    requires AllOfGroup(s, k, level)
    ensures InOrder(s, level)
  {
    if |s| >= 2 {
      assert s[0] in s && s[1] in s && forall x | x in s[1..] :: x in s;
      OneGroupInOrder(s[1..], k, level);
    }
  }

  predicate InGroupBelow(x: Item, n: nat, level: nat) {
    n > 0 && (OfGroup(x, n - 1, level) || InGroupBelow(x, n - 1, level))
  }

  predicate AllBelow(s: seq<Item>, n: nat, level: nat) {
    forall x | x in s :: InGroupBelow(x, n, level)
  }

  lemma {:induction false} GroupsInOrder(segment: seq<Item>, n: nat, op: Op, level: nat)
    ensures var s := Groups(segment, n, op, level);
      InOrder(s, level) && AllBelow(s, n, level)
  {
    hide OfGroup, InOrder, Gathered, Passes, AllBelow, AllOfGroup;
    if n == 0 {
      NoGroups(level);
    } else {
      GroupIs(segment, n - 1, op, level);
      GroupsInOrder(segment, n - 1, op, level);
      var a, b := Passes(Gathered(segment, n - 1, level), [], op), Groups(segment, n - 1, op, level);
      OneGroupInOrder(a, n - 1, level);
      GroupBehind(a, b, n - 1, level);
    }
  }

  lemma NoGroups(level: nat)
    ensures InOrder([], level) && AllBelow([], 0, level)
  {
  }

  lemma GroupBehind(a: seq<Item>, b: seq<Item>, n: nat, level: nat)
    requires AllOfGroup(a, n, level) && InOrder(a, level) && AllBelow(b, n, level) && InOrder(b, level)
    ensures AllBelow(a + b, n + 1, level) && InOrder(a + b, level)
  {
    hide OfGroup, InOrder, Before;
    if a != [] && b != [] {
      assert a[|a| - 1] in a && b[0] in b;
      LaterGroup(a[|a| - 1], b[0], n, n, level);
    }
    InOrderAppend(a, b, level);
  }

  lemma {:induction false} LaterGroup(x: Item, y: Item, n: nat, m: nat, level: nat)
    requires m <= n && OfGroup(x, n, level) && InGroupBelow(y, m, level)
    ensures !Before(x, y, level)
  {
    if !OfGroup(y, m - 1, level) {
      LaterGroup(x, y, n, m - 1, level);
    }
  }

  lemma {:induction false} GroupedIsNoOther(x: Item, n: nat, level: nat)
    requires InGroupBelow(x, n, level)
    ensures !Other(x, level)
  {
    if !OfGroup(x, n - 1, level) {
      GroupedIsNoOther(x, n - 1, level);
    }
  }

  lemma NoneFollows(x: Item, y: Item, level: nat)
    requires Other(x, level)
    ensures !Before(x, y, level)
  {
  }

  lemma {:induction false} ReorderedInOrder(segment: seq<Item>, items: seq<Item>, op: Op, level: nat)
    ensures InOrder(Reordered(segment, items, op, level), level)
    decreases |items|
  {
    hide Groups, InOrder;
    GroupsInOrder(segment, GROUPS, op, level);
    if items != [] {
      var x, rest := items[0], items[1..];
      One(x, level);
      if Fx(x.right) {
        ReorderedInOrder([], rest, op, level);
        InOrderAppend([x], Reordered([], rest, op, level), level);
        var a, b := Groups(segment, GROUPS, op, level), [x] + Reordered([], rest, op, level);
        InOrderAppend(a, b, level);
        assert a + b == a + [x] + Reordered([], rest, op, level);
      } else {
        var next := Reordered(segment + [x], rest, op, level);
        ReorderedInOrder(segment + [x], rest, op, level);
        if Other(x, level) {
          if next != [] {
            NoneFollows(x, next[0], level);
          }
          InOrderAppend([x], next, level);
        } else {
          assert [] + next == next;
        }
      }
    }
  }

  lemma One(x: Item, level: nat)
    ensures InOrder([x], level) && InOrder([], level)
  {
  }

  lemma {:induction false} OthersAppend(a: seq<Item>, b: seq<Item>, level: nat)
    ensures Others(a + b, level) == Others(a, level) + Others(b, level)
  {
    if a == [] {
      assert a + b == b;
    } else {
      assert (a + b)[1..] == a[1..] + b;
      OthersAppend(a[1..], b, level);
    }
  }

  lemma {:induction false} NoOthers(s: seq<Item>, level: nat)
    requires forall x | x in s :: !Other(x, level)
    ensures Others(s, level) == []
  {
    if s != [] {
      assert s[0] in s && forall x | x in s[1..] :: x in s;
      NoOthers(s[1..], level);
    }
  }

  lemma GroupsHaveNoOthers(segment: seq<Item>, op: Op, level: nat)
    ensures Others(Groups(segment, GROUPS, op, level), level) == []
  {
    hide Groups, InOrder, InGroupBelow, Other;
    GroupsInOrder(segment, GROUPS, op, level);
    var s := Groups(segment, GROUPS, op, level);
    forall x | x in s
      ensures !Other(x, level)
    {
      GroupedIsNoOther(x, GROUPS, level);
    }
    NoOthers(s, level);
  }

  lemma OthersOfOne(x: Item, level: nat)
    ensures Others([x], level) == if Other(x, level) then [x] else []
    ensures Others([], level) == []
  {
    assert [x][1..] == [];
  }

  /** Operands without a group keep their order, across the whole chain. */
  lemma {:induction false} OthersStay(segment: seq<Item>, items: seq<Item>, op: Op, level: nat)
    ensures Others(Reordered(segment, items, op, level), level) == Others(items, level)
    decreases |items|
  {
    hide Groups, Other, Others;
    var groups := Groups(segment, GROUPS, op, level);
    GroupsHaveNoOthers(segment, op, level);
    if items == [] {
      assert Others(items, level) == [] by { OthersOfOne(Item(op, Meta(false, 0, 0.0), Nil), level); }
    } else {
      var x, rest := items[0], items[1..];
      OthersOfOne(x, level);
      OthersAppend([x], rest, level);
      assert [x] + rest == items;
      if Fx(x.right) {
        NoGroup(x, level);
        OthersStay([], rest, op, level);
        var next := Reordered([], rest, op, level);
        OthersAppend(groups + [x], next, level);
        OthersAppend(groups, [x], level);
      } else {
        OthersStay(segment + [x], rest, op, level);
        var next := Reordered(segment + [x], rest, op, level);
        OthersAppend(if Other(x, level) then [x] else [], next, level);
      }
    }
  }

  // ---------------------------------------------------------------- every chain of a tree

  /** The nodes of a chain, root first. */
  function Unhang(t: Tree): seq<Item> {
    if t.Bin? then [Item(t.op, t.meta, t.right)] + Unhang(t.left) else []
  }

  lemma {:induction false} UnhangHang(items: seq<Item>)
    ensures Unhang(Hang(items, Nil)) == items
  {
    if items != [] {
      UnhangHang(items[1..]);
      assert items == [items[0]] + items[1..];
    }
  }

  /** Every chain of the tree but those of commas is in order. `head` is false inside a chain. */
  predicate AllInOrder(t: Tree, head: bool, level: nat) {
    match t
    case Nil => true
    case Prim(_) => true
    case Not(_, a) => AllInOrder(a, true, level)
    case Bin(op, _, l, r) =>
      && (head && op != Comma ==> InOrder(Unhang(t), level))
      && AllInOrder(l, false, level) && AllInOrder(r, true, level)
  }

  lemma WithFxInOrder(t: Tree, fx: bool, level: nat)
    requires t.Bin? && AllInOrder(t, true, level)
    ensures AllInOrder(WithFx(t, fx), true, level)
  {
    var u := WithFx(t, fx);
    var x, y := Item(t.op, t.meta, t.right), Item(t.op, u.meta, t.right);
    assert Unhang(t) == [x] + Unhang(t.left) && Unhang(u) == [y] + Unhang(t.left);
    assert Unhang(u)[1..] == Unhang(t)[1..] == Unhang(t.left);
  }

  lemma {:induction false} HangInOrder(items: seq<Item>, head: bool, level: nat)
    requires forall x | x in items :: AllInOrder(x.right, true, level)
    requires head && items != [] && items[0].op != Comma ==> InOrder(items, level)
    ensures AllInOrder(Hang(items, Nil), head, level)
  {
    if items != [] {
      assert items[0] in items && forall x | x in items[1..] :: x in items;
      UnhangHang(items);
      HangInOrder(items[1..], false, level);
    }
  }

  lemma {:induction false} OptRightInOrder(r: Tree, level: nat)
    requires WellFormed(r)
    ensures AllInOrder(OptRight(r, level), true, level)
    decreases Weight(r), if r.Bin? then 3 else 0
  {
    match r
    case Prim(_) =>
    case Not(_, a) => OptInOrder(a, level);
    case Bin(_, _, _, _) =>
      OptContents(r, level);
      OptInOrder(r, level);
      WithFxInOrder(Opt(r, level).0, Opt(r, level).1, level);
  }

  lemma {:induction false} ItemsInOrder(t: Tree, biop: Op, level: nat)
    requires Chain(t) && WellFormed(t)
    ensures forall x | x in Items(t, biop, level) :: AllInOrder(x.right, true, level)
    decreases Weight(t), if t.op == biop then 1 else 3
  {
    if t.op != biop {
      OptContents(t, level);
      OptInOrder(t, level);
      WithFxInOrder(Opt(t, level).0, Opt(t, level).1, level);
    } else {
      OptRightInOrder(t.right, level);
      if !t.left.Nil? {
        ItemsInOrder(t.left, biop, level);
      }
    }
  }

  /** In what `opt_expr` leaves, every chain at every depth is in order. */
  lemma {:induction false} OptInOrder(t: Tree, level: nat)
    requires WellFormed(t)
    ensures AllInOrder(Opt(t, level).0, true, level)
    decreases Weight(t), 2
  {
    hide AllInOrder, InOrder, Opt;
    RootChain(t, level);
    NormaliseFacts(t, And);
    var n := Normalise(t, And);
    ItemsInOrder(n, n.op, level);
    var before := Items(n, n.op, level);
    var after := Arrange(before, EMPTY_LISTS, n.op, level);
    SameItems(before, n.op, level);
    HangInOrder(after, true, level);
  }

  lemma SameItems(items: seq<Item>, op: Op, level: nat)
    ensures forall x :: x in Arrange(items, EMPTY_LISTS, op, level) <==> x in items
  {
    FindOptMeaning.ArrangePermutes(items, EMPTY_LISTS, op, level);
    FindOptMeaning.EmptyTakesNothing();
    var after := Arrange(items, EMPTY_LISTS, op, level);
    assert multiset(after) == multiset(items);
    assert forall x :: x in after <==> x in multiset(after);
    assert forall x :: x in items <==> x in multiset(items);
  }

  /** The root chain: exactly its order, that nothing is evaluated too late, and what stays. */
  lemma RootChain(t: Tree, level: nat)
    requires WellFormed(t)
    ensures var n := Normalise(t, And);
      var before := Items(n, n.op, level);
      var after := Unhang(Opt(t, level).0);
      && Opt(t, level).0 == Hang(after, Nil)
      && after == Arrange(before, EMPTY_LISTS, n.op, level)
      && (n.op == Comma ==> after == before)
      && (n.op != Comma ==>
            && after == Reordered([], before, n.op, level)
            && InOrder(after, level) && Others(after, level) == Others(before, level))
  {
    hide InOrder, Others, Reordered;
    NormaliseFacts(t, And);
    var n := Normalise(t, And);
    var before := Items(n, n.op, level);
    UnhangHang(Arrange(before, EMPTY_LISTS, n.op, level));
    if n.op == Comma {
      CommaStays(before, level);
    } else {
      ItemsContents(n, n.op, level);
      NothingHeld(level);
      assert [] + before == before;
      ArrangeReorders([], before, EMPTY_LISTS, n.op, level);
      ReorderedInOrder([], before, n.op, level);
      OthersStay([], before, n.op, level);
    }
  }
}
