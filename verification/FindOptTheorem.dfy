/** The main results about `opt_expr`. */
module FindOptTheorem {
  import opened FindTree
  import opened FindOpt
  import opened FindOptMeaning

  // ---------------------------------------------------------------- chains

  /** A left-linked chain of binary nodes that ends in a null left pointer. */
  predicate Chain(t: Tree) {
    t.Bin? && (t.left.Nil? || Chain(t.left))
  }

  predicate HasFx(parts: multiset<Part>) {
    exists x | x in parts :: x.APrimary? && x.p.fx
  }

  lemma {:induction false} PureByParts(t: Tree)
    ensures Pure(t) == !HasFx(Parts(t))
  {
    match t
    case Nil =>
    case Prim(p) => assert APrimary(p) in Parts(t);
    case Not(_, a) =>
      PureByParts(a);
      assert forall x :: x in Parts(t) <==> x in Parts(a) || x == ANegation;
    case Bin(op, _, l, r) =>
      PureByParts(l);
      PureByParts(r);
      assert forall x :: x in Parts(t) <==> x in Parts(l) || x in Parts(r) || (!l.Nil? && x == AJoin(op));
  }

  lemma {:induction false} NormaliseFacts(t: Tree, prev: Op)
    requires WellFormed(t)
    ensures var n := Normalise(t, prev); Chain(n) && WellFormed(n) && Parts(n) == Parts(t)
    ensures NoComma(t) && prev != Comma ==> NoComma(Normalise(t, prev))
  {
    if t.Bin? && !t.left.Nil? {
      NormaliseFacts(t.left, t.op);
    }
  }

  lemma {:induction false} NormaliseMeaning<W>(t: Tree, prev: Op, e: Env<W>, w: W)
    requires WellFormed(t)
    ensures Eval(Normalise(t, prev), e, w) == Eval(t, e, w)
  {
    if t.Bin? && !t.left.Nil? {
      NormaliseMeaning(t.left, t.op, e, w);
    }
  }

  // ---------------------------------------------------------------- parts of a chain

  /** The parts of the right operands, with one join for every item. */
  function ItemParts(items: seq<Item>): multiset<Part> {
    if items == [] then multiset{}
    else ItemParts(items[1..]) + ItemPart(items[0])
  }

  function ItemPart(x: Item): multiset<Part> {
    Parts(x.right) + multiset{AJoin(x.op)}
  }

  lemma {:induction false} HangParts(items: seq<Item>, op: Op)
    requires items != [] && forall x | x in items :: x.op == op
    ensures Parts(Hang(items, Nil)) + multiset{AJoin(op)} == ItemParts(items)
  {
    assert items[0] in items;
    if |items| == 1 {
      assert Hang(items[1..], Nil) == Nil;
      assert ItemParts(items[1..]) == multiset{};
    } else {
      assert forall x | x in items[1..] :: x in items;
      HangParts(items[1..], op);
    }
  }

  lemma ConsParts(x: Item, rest: seq<Item>)
    ensures ItemParts([x] + rest) == ItemParts(rest) + ItemPart(x)
  {
    assert ([x] + rest)[1..] == rest;
  }

  lemma {:induction false} ItemPartsAppend(a: seq<Item>, b: seq<Item>)
    ensures ItemParts(a + b) == ItemParts(a) + ItemParts(b)
  {
    if a == [] {
      assert a + b == b;
    } else {
      hide ItemParts, ItemPart;
      var x, rest := a[0], a[1..];
      calc {
        ItemParts(a + b);
        { assert a + b == [x] + (rest + b); }
        ItemParts([x] + (rest + b));
        { ConsParts(x, rest + b); }
        ItemParts(rest + b) + ItemPart(x);
        { ItemPartsAppend(rest, b); }
        ItemParts(rest) + ItemParts(b) + ItemPart(x);
        { Exchange(ItemParts(rest), ItemParts(b), ItemPart(x)); Regroup(ItemParts(rest), ItemParts(b), ItemPart(x)); }
        ItemParts(rest) + ItemPart(x) + ItemParts(b);
        { ConsParts(x, rest); assert [x] + rest == a; }
        ItemParts(a) + ItemParts(b);
      }
    }
  }

  lemma Cancel<T>(a: multiset<T>, b: multiset<T>, c: multiset<T>)
    requires a + c == b + c
    ensures a == b
  {
    assert a == (a + c) - c;
    assert b == (b + c) - c;
  }

  lemma SplitCounts(b1: seq<Item>, x: Item, b2: seq<Item>)
    ensures multiset(b1 + ([x] + b2)) == multiset(b1 + b2) + multiset{x}
    ensures ItemParts(b1 + ([x] + b2)) == ItemParts(b1 + b2) + ItemPart(x)
  {
    ItemPartsAppend(b1, b2);
    ItemPartsAppend(b1, [x] + b2);
    assert ([x] + b2)[1..] == b2;
    Regroup(ItemParts(b1), ItemParts(b2), ItemPart(x));
  }

  lemma {:induction false} ItemPartsPermute(a: seq<Item>, b: seq<Item>)
    requires multiset(a) == multiset(b)
    ensures ItemParts(a) == ItemParts(b)
    decreases |a|
  {
    if a == [] {
      assert |multiset(b)| == 0;
    } else {
      assert a[0] in multiset(b);
      var k :| 0 <= k < |b| && b[k] == a[0];
      var b1, b2 := b[..k], b[k + 1..];
      assert b == b1 + ([a[0]] + b2);
      SplitCounts(b1, a[0], b2);
      HeadCounts(a);
      Cancel(multiset(a[1..]), multiset(b1 + b2), multiset{a[0]});
      ItemPartsPermute(a[1..], b1 + b2);
    }
  }

  lemma {:induction false} ItemPartsFx(items: seq<Item>)
    ensures HasFx(ItemParts(items)) == exists x | x in items :: !Pure(x.right)
  {
    if items != [] {
      var x, rest := items[0], items[1..];
      ItemPartsFx(rest);
      PureByParts(x.right);
      assert forall y :: y in ItemParts(items) <==> y in ItemParts(rest) || y in Parts(x.right) || y == AJoin(x.op);
      assert forall y :: y in items <==> y == x || y in rest;
    }
  }

  // ---------------------------------------------------------------- shape and contents

  /** What holds of the operands of a chain once they are optimised. */
  ghost predicate Optimised(items: seq<Item>, op: Op) {
    forall x | x in items :: x.op == op && OptimisedRight(x.right)
  }

  predicate OptimisedRight(r: Tree) {
    !r.Nil? && Normal(r) && Fx(r) == !Pure(r)
  }

  lemma WithFxFacts(t: Tree, fx: bool)
    requires t.Bin?
    ensures var u := WithFx(t, fx);
      u.Bin? && Parts(u) == Parts(t) && Pure(u) == Pure(t) && Normal(u) == Normal(t)
      && NoComma(u) == NoComma(t) && Fx(u) == fx
  {
  }

  lemma {:induction false} HangShape(items: seq<Item>, op: Op)
    requires Optimised(items, op)
    ensures var t := Hang(items, Nil);
      Normal(t) && (items != [] ==> t.Bin? && t.op == op)
    ensures (op != Comma && forall x | x in items :: NoComma(x.right)) ==> NoComma(Hang(items, Nil))
  {
    if items != [] {
      assert items[0] in items;
      assert forall x | x in items[1..] :: x in items;
      HangShape(items[1..], op);
    }
  }

  /** What `opt_expr` does to one tree, apart from its meaning. */
  ghost predicate KeepsContents(t: Tree, u: Tree, fx: bool) {
    && u.Bin? && Normal(u) && Parts(u) == Parts(t) && fx == !Pure(t)
    && (NoComma(t) ==> NoComma(u))
  }

  lemma {:induction false} OptRightContents(r: Tree, level: nat)
    requires WellFormed(r)
    ensures KeepsRight(r, OptRight(r, level))
    decreases Weight(r), if r.Bin? then 3 else 0
  {
    match r
    case Prim(_) =>
    case Not(_, a) =>
      OptContents(a, level);
      var (u, _) := Opt(a, level);
      PureByParts(a);
      PureByParts(u);
      NormalImpliesLeftsAreBinary(u);
    case Bin(_, _, _, _) =>
      OptContents(r, level);
      var (u, fx) := Opt(r, level);
      PureByParts(r);
      PureByParts(u);
      WithFxFacts(u, fx);
  }

  /** The items stand for the whole chain `t` of `biop`. */
  ghost predicate ItemsOf(items: seq<Item>, t: Tree, biop: Op) {
    && items != [] && Optimised(items, biop)
    && ItemParts(items) == Parts(t) + multiset{AJoin(biop)}
    && (NoComma(t) ==> forall x | x in items :: NoComma(x.right))
  }

  lemma ItemsOfPushed(t: Tree, biop: Op, u: Tree, fx: bool)
    requires KeepsContents(t, u, fx)
    ensures ItemsOf([Item(biop, NewMeta(t, biop), WithFx(u, fx))], t, biop)
  {
    PureByParts(t);
    PureByParts(u);
    WithFxFacts(u, fx);
    ConsParts(Item(biop, NewMeta(t, biop), WithFx(u, fx)), []);
  }

  ghost predicate KeepsRight(r: Tree, u: Tree) {
    OptimisedRight(u) && Parts(u) == Parts(r) && (NoComma(r) ==> NoComma(u))
  }

  lemma ItemsOfLast(t: Tree, u: Tree)
    requires t.Bin? && t.left.Nil? && KeepsRight(t.right, u)
    ensures ItemsOf([Item(t.op, t.meta, u)], t, t.op)
  {
    ConsParts(Item(t.op, t.meta, u), []);
  }

  lemma ItemsOfMore(t: Tree, u: Tree, rest: seq<Item>)
    requires t.Bin? && !t.left.Nil? && KeepsRight(t.right, u)
    requires ItemsOf(rest, t.left, t.op)
    ensures ItemsOf([Item(t.op, t.meta, u)] + rest, t, t.op)
  {
    ConsParts(Item(t.op, t.meta, u), rest);
    var j := multiset{AJoin(t.op)};
    var l, r := Parts(t.left), Parts(t.right);
    assert l + j + (r + j) == l + r + j + j;
  }

  lemma {:induction false} ItemsContents(t: Tree, biop: Op, level: nat)
    requires Chain(t) && WellFormed(t)
    ensures ItemsOf(Items(t, biop, level), t, biop)
    decreases Weight(t), if t.op == biop then 1 else 3
  {
    if t.op != biop {
      OptContents(t, level);
      ItemsOfPushed(t, biop, Opt(t, level).0, Opt(t, level).1);
    } else {
      hide ItemsOf;
      OptRightContents(t.right, level);
      var u := OptRight(t.right, level);
      if t.left.Nil? {
        ItemsOfLast(t, u);
        assert Items(t, biop, level) == [Item(t.op, t.meta, u)];
      } else {
        ItemsContents(t.left, biop, level);
        ItemsOfMore(t, u, Items(t.left, biop, level));
      }
    }
  }

  /** `opt_expr` conserves every primary, negation and joining operator the user wrote, adds only
      operators without a left operand, leaves the form the arm swaps rely on, and returns
      exactly whether a primary with side effects is below. */
  lemma {:induction false} OptContents(t: Tree, level: nat)
    requires WellFormed(t)
    ensures var (u, fx) := Opt(t, level); KeepsContents(t, u, fx)
    decreases Weight(t), 2
  {
    NormaliseFacts(t, And);
    var n := Normalise(t, And);
    ItemsContents(n, n.op, level);
    var items := Items(n, n.op, level);
    ArrangedContents(items, n.op, level);
    var arranged := Arrange(items, EMPTY_LISTS, n.op, level);
    Cancel(Parts(Hang(arranged, Nil)), Parts(t), multiset{AJoin(n.op)});
    PureByParts(t);
    FxOfItems(items, n.op, Parts(t));
  }

  lemma FxOfItems(items: seq<Item>, op: Op, parts: multiset<Part>)
    requires Optimised(items, op) && ItemParts(items) == parts + multiset{AJoin(op)}
    ensures AnyFx(items) == HasFx(parts)
  {
    ItemPartsFx(items);
    assert forall y :: y in ItemParts(items) <==> y in parts || y == AJoin(op);
  }

  lemma ArrangedContents(items: seq<Item>, op: Op, level: nat)
    requires items != [] && Optimised(items, op)
    ensures var u := Hang(Arrange(items, EMPTY_LISTS, op, level), Nil);
      && u.Bin? && Normal(u) && Parts(u) + multiset{AJoin(op)} == ItemParts(items)
      && (op != Comma && (forall x | x in items :: NoComma(x.right)) ==> NoComma(u))
  {
    var arranged := Arrange(items, EMPTY_LISTS, op, level);
    ArrangePermutes(items, EMPTY_LISTS, op, level);
    EmptyTakesNothing();
    assert multiset(arranged) == multiset(items);
    assert forall x :: x in arranged <==> x in multiset(arranged);
    assert forall x :: x in items <==> x in multiset(items);
    assert items[0] in arranged;
    HangShape(arranged, op);
    HangParts(arranged, op);
    ItemPartsPermute(arranged, items);
  }

  // ---------------------------------------------------------------- meaning

  lemma {:induction false} OptRightMeaning<W>(r: Tree, level: nat, e: Env<W>, w: W)
    requires WellFormed(r)
    ensures Eval(OptRight(r, level), e, w) == Eval(r, e, w)
    decreases Weight(r), if r.Bin? then 3 else 0
  {
    match r
    case Prim(_) =>
    case Not(_, a) => OptMeaning(a, level, e, w);
    case Bin(_, _, _, _) =>
      OptContents(r, level);
      OptMeaning(r, level, e, w);
  }

  lemma {:induction false} ItemsMeaning<W>(t: Tree, biop: Op, level: nat, e: Env<W>, w: W)
    requires Chain(t) && WellFormed(t)
    ensures ChainEval(biop, Hang(Items(t, biop, level), Nil), e, w) == Eval(t, e, w)
    decreases Weight(t), if t.op == biop then 1 else 3
  {
    if t.op != biop {
      OptContents(t, level);
      OptMeaning(t, level, e, w);
      var x := Items(t, biop, level)[0];
      assert [x][1..] == [];
      BinSteps(biop, x.meta, Nil, x.right, e, w);
    } else {
      BinSteps(t.op, t.meta, t.left, t.right, e, w);
      var u, rest := OptRight(t.right, level), if t.left.Bin? then Items(t.left, biop, level) else [];
      var items := [Item(t.op, t.meta, u)] + rest;
      assert items[1..] == rest;
      BinSteps(t.op, t.meta, Hang(rest, Nil), u, e, w);
      if !t.left.Nil? {
        ItemsMeaning(t.left, biop, level, e, w);
      }
      OptRightMeaning(t.right, level, e, ChainEval(t.op, t.left, e, w).1);
    }
  }

  lemma {:induction false} OptMeaning<W>(t: Tree, level: nat, e: Env<W>, w: W)
    requires WellFormed(t)
    ensures Eval(Opt(t, level).0, e, w) == Eval(t, e, w)
    decreases Weight(t), 2
  {
    var n := Normalise(t, And);
    NormaliseFacts(t, And);
    NormaliseMeaning(t, And, e, w);
    ItemsContents(n, n.op, level);
    ItemsMeaning(n, n.op, level, e, w);
    var items := Items(n, n.op, level);
    EmptyTakesNothing();
    ArrangeKeepsMeaning(items, EMPTY_LISTS, n.op, level, e, w);
    AbsorbNothing(n.op, ChainEval(n.op, Hang(items, Nil), e, w), e);
    ArrangedContents(items, n.op, level);
  }

  /** Evaluating after `opt_expr` gives the answer evaluating before gives, and the same actions
      in the same order, at every optimisation level and for every expression. */
  lemma OptKeepsMeaning<W(!new)>(t: Tree, level: nat, e: Env<W>)
    requires WellFormed(t)
    ensures Same(Opt(t, level).0, t, e)
  {
    forall w: W
      ensures Eval(Opt(t, level).0, e, w) == Eval(t, e, w)
    {
      OptMeaning(t, level, e, w);
    }
  }

  /** The root chain of the optimised tree is the root chain of the tree, each operand optimised
      on its own, with the operands that have side effects in their places and the others moved
      only between the same two of them. */
  lemma OptKeepsBarriers(t: Tree, level: nat)
    requires WellFormed(t)
    ensures var n := Normalise(t, And);
      var before := Items(n, n.op, level);
      exists after: seq<Item> ::
        Opt(t, level).0 == Hang(after, Nil) && SameSegments(after, before, multiset{})
        && multiset(after) == multiset(before)
  {
    var n := Normalise(t, And);
    var before := Items(n, n.op, level);
    EmptyTakesNothing();
    ArrangeKeepsSegments(before, EMPTY_LISTS, n.op, level);
    ArrangePermutes(before, EMPTY_LISTS, n.op, level);
  }

  /** Both assertions of `check_normalization` hold of what `opt_expr` leaves. */
  lemma OptNormalises(t: Tree, level: nat)
    requires WellFormed(t)
    ensures var u := Opt(t, level).0; u.Bin? && LeftsAreBinary(u) && WellFormed(u)
  {
    OptContents(t, level);
    NormalImpliesLeftsAreBinary(Opt(t, level).0);
  }
}
