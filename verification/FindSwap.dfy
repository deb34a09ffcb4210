/** `do_arm_swaps` as a function on trees, and what it keeps. */
module FindSwap {
  import opened FindTree

  function SubtreeHasFx(t: Tree): (b: bool)
    ensures !b ==> Pure(t)
  {
    match t
    case Nil => false
    case Prim(p) => p.fx
    case Not(m, a) => m.fx || SubtreeHasFx(a)
    case Bin(_, m, l, r) => m.fx || SubtreeHasFx(l) || SubtreeHasFx(r)
  }

  function Max(a: Cost, b: Cost): Cost {
    if a > b then a else b
  }

  function WorstCost(t: Tree): Cost {
    match t
    case Nil => 0
    case Prim(p) => p.cost
    case Not(m, a) => Max(WorstCost(a), m.cost)
    case Bin(_, m, l, r) => Max(Max(WorstCost(l), WorstCost(r)), m.cost)
  }

  /** `pred_right` of any node. */
  function RightOf(t: Tree): Tree {
    match t
    case Not(_, a) => a
    case Bin(_, _, _, r) => r
    case _ => Nil
  }

  function WithRight(t: Tree, r: Tree): Tree {
    match t
    case Not(m, _) => Not(m, r)
    case Bin(op, m, l, _) => Bin(op, m, l, r)
    case _ => t
  }

  /** `consider_arm_swap` decides to swap `t.left`'s right operand with `t`'s. */
  predicate Fires(t: Tree) {
    && t.Bin? && !t.left.Nil? && !t.right.Nil? && !RightOf(t.left).Nil?
    && var l, r := RightOf(t.left), t.right;
    && !SubtreeHasFx(l) && !SubtreeHasFx(r)
    && (WorstCost(l) > WorstCost(r)
        || (WorstCost(l) == WorstCost(r)
            && ((t.op == Or && NodeRate(r) < NodeRate(l)) || (t.op == And && NodeRate(r) > NodeRate(l)))))
  }

  /** `perform_arm_swap`. */
  function Swap(t: Tree): (u: Tree)
    requires Fires(t)
    ensures Size(u) == Size(t)
  {
    Bin(t.op, t.meta, WithRight(t.left, t.right), RightOf(t.left))
  }

  function Size(t: Tree): nat {
    match t
    case Nil => 0
    case Prim(_) => 1
    case Not(_, a) => 1 + Size(a)
    case Bin(_, _, l, r) => 1 + Size(l) + Size(r)
  }

  /** `consider_arm_swap`. */
  function Considered(t: Tree): (u: Tree)
    ensures Size(u) == Size(t)
  {
    if Fires(t) then Swap(t) else t
  }

  /** `do_arm_swaps`: one visit to every node, top down, with at most one swap at each. */
  function ArmSwaps(t: Tree): Tree
    decreases Size(t)
  {
    match t
    case Nil => t
    case Prim(_) => t
    case Not(m, a) => Not(m, ArmSwaps(a))
    case Bin(_, _, _, _) =>
      var u := Considered(t);
      Bin(u.op, u.meta, ArmSwaps(u.left), ArmSwaps(u.right))
  }

  /** Why the loop in `do_arm_swaps` stops: a node that has just been swapped is not swapped
      back, because every reason to swap is a strict inequality. */
  lemma SwapsOnce(t: Tree)
    requires Fires(t)
    ensures !Fires(Swap(t))
  {
  }

  // ---------------------------------------------------------------- what is kept

  /** No swap that `do_arm_swaps` makes can be noticed. `live` says that the answer of the tree
      is used; its actions always matter. The answer of a left operand is used where that of the
      operator is, or where it decides about actions on the right; a comma drops it. */
  predicate Harmless(t: Tree, live: bool) {
    match t
    case Nil => true
    case Prim(_) => true
    case Not(_, a) => Harmless(a, live)
    case Bin(op, _, l, r) =>
      if op == Comma then (live ==> !Fires(t)) && Harmless(l, false) && Harmless(r, live)
      else Harmless(l, live || !Pure(r)) && Harmless(r, live)
  }

  lemma {:induction false} NoCommaIsHarmless(t: Tree, live: bool)
    requires NoComma(t)
    ensures Harmless(t, live)
  {
    match t
    case Nil =>
    case Prim(_) =>
    case Not(_, a) => NoCommaIsHarmless(a, live);
    case Bin(op, _, l, r) =>
      NoCommaIsHarmless(l, live || !Pure(r));
      NoCommaIsHarmless(r, live);
  }

  /** One swap at a conjunction or disjunction. */
  lemma SwapKeepsMeaning<W>(t: Tree, e: Env<W>, w: W)
    requires Fires(t) && Normal(t) && t.op != Comma
    ensures Eval(Swap(t), e, w) == Eval(t, e, w)
  {
    var w1 := if t.left.left.Nil? then w else Eval(t.left.left, e, w).1;
    PureKeepsWorld(t.left.right, e, w1);
    PureKeepsWorld(t.right, e, w1);
  }

  /** One swap at a comma keeps the world but answers for the other operand. */
  lemma CommaSwapMeaning<W>(t: Tree, e: Env<W>, w: W)
    requires Fires(t) && Normal(t) && t.op == Comma
    ensures Eval(Swap(t), e, w).1 == Eval(t, e, w).1
    ensures Eval(Swap(t), e, w).0 == Eval(t.left.right, e, Eval(t, e, w).1).0
    ensures Eval(t, e, w).0 == Eval(t.right, e, Eval(t, e, w).1).0
  {
    var w1 := if t.left.left.Nil? then w else Eval(t.left.left, e, w).1;
    PureKeepsWorld(t.left.right, e, w1);
    PureKeepsWorld(t.right, e, w1);
  }

  lemma SwapKeepsForm(t: Tree)
    requires Normal(t) && t.Bin?
    ensures var u := Considered(t);
      && u.Bin? && u.op == t.op && u.meta == t.meta && Normal(u) && Parts(u) == Parts(t)
      && (u.left.Nil? <==> t.left.Nil?)
  {
    if Fires(t) {
      var x := t.left;
      ExchangeParts(Parts(x.left), Parts(x.right),
        if x.left.Nil? then multiset{} else multiset{AJoin(t.op)}, Parts(t.right));
    }
  }

  lemma SwapKeepsHarmless(t: Tree, live: bool)
    requires Normal(t) && Fires(t) && (t.op == Comma ==> !live)
    ensures Harmless(Swap(t), live) <==> Harmless(t, live)
  {
    var l := t.left;
    if t.op != Comma {
      assert Harmless(t, live) <==> Harmless(l.left, live) && Harmless(l.right, live) && Harmless(t.right, live);
    }
  }

  lemma ExchangeParts(a: multiset<Part>, b: multiset<Part>, c: multiset<Part>, d: multiset<Part>)
    ensures (a + b + c) + d == (a + d + c) + b
  {
  }

  /** The swaps conserve the parts of the expression and the form `check_normalization` wants,
      commas or not. */
  lemma {:induction false} ArmSwapsKeepForm(t: Tree)
    requires Normal(t)
    ensures var u := ArmSwaps(t); Normal(u) && Parts(u) == Parts(t) && (u.Nil? <==> t.Nil?)
    ensures Pure(ArmSwaps(t)) == Pure(t)
    ensures t.Bin? ==> ArmSwaps(t).Bin? && ArmSwaps(t).op == t.op
    decreases Size(t)
  {
    match t
    case Nil =>
    case Prim(_) =>
    case Not(_, a) =>
      ArmSwapsKeepForm(a);
      NormalImpliesLeftsAreBinary(ArmSwaps(a));
    case Bin(_, _, _, _) =>
      SwapKeepsForm(t);
      var u := Considered(t);
      ArmSwapsKeepForm(u.left);
      ArmSwapsKeepForm(u.right);
  }

  /** The same actions, and the same answer where it is used. */
  ghost predicate Kept<W>(u: Tree, t: Tree, live: bool, e: Env<W>, w: W) {
    Eval(u, e, w).1 == Eval(t, e, w).1 && (live ==> Eval(u, e, w).0 == Eval(t, e, w).0)
  }

  lemma ConsideredMeaning<W>(t: Tree, live: bool, e: Env<W>, w: W)
    requires Normal(t) && Harmless(t, live) && t.Bin?
    ensures Kept(Considered(t), t, live, e, w) && Harmless(Considered(t), live)
  {
    if Fires(t) {
      SwapKeepsHarmless(t, live);
      if t.op == Comma {
        CommaSwapMeaning(t, e, w);
      } else {
        SwapKeepsMeaning(t, e, w);
      }
    }
  }

  lemma BinKept<W>(u: Tree, l: Tree, r: Tree, live: bool, e: Env<W>, w: W)
    requires u.Bin? && !u.right.Nil? && !r.Nil? && (l.Nil? <==> u.left.Nil?) && Pure(r) == Pure(u.right)
    requires Kept(l, u.left, u.op != Comma && (live || !Pure(u.right)), e, w)
    requires Kept(r, u.right, live, e, if u.left.Nil? then w else Eval(u.left, e, w).1)
    ensures Kept(Bin(u.op, u.meta, l, r), u, live, e, w)
  {
    var w1 := if u.left.Nil? then w else Eval(u.left, e, w).1;
    if Pure(r) {
      PureKeepsWorld(r, e, w1);
      PureKeepsWorld(u.right, e, w1);
    }
  }

  lemma {:induction false} ArmSwapsMeaning<W>(t: Tree, live: bool, e: Env<W>, w: W)
    requires Normal(t) && Harmless(t, live)
    ensures Kept(ArmSwaps(t), t, live, e, w)
    decreases Size(t)
  {
    match t
    case Nil =>
    case Prim(_) =>
    case Not(_, a) => ArmSwapsMeaning(a, live, e, w);
    case Bin(_, _, _, _) =>
      ConsideredMeaning(t, live, e, w);
      SwapKeepsForm(t);
      var u := Considered(t);
      var w1 := if u.left.Nil? then w else Eval(u.left, e, w).1;
      ArmSwapsMeaning(u.left, u.op != Comma && (live || !Pure(u.right)), e, w);
      ArmSwapsMeaning(u.right, live, e, w1);
      ArmSwapsKeepForm(u.left);
      ArmSwapsKeepForm(u.right);
      BinKept(u, ArmSwaps(u.left), ArmSwaps(u.right), live, e, w);
  }

  /** On a normalised tree in which no swap can be noticed, the swaps keep the answer and the
      actions, even when the same primary occurs several times. */
  lemma ArmSwapsKeepMeaning<W(!new)>(t: Tree, e: Env<W>)
    requires Normal(t) && Harmless(t, true)
    ensures Same(ArmSwaps(t), t, e)
  {
    forall w: W
      ensures Eval(ArmSwaps(t), e, w) == Eval(t, e, w)
    {
      ArmSwapsMeaning(t, true, e, w);
    }
  }

  /** In particular on every normalised tree without a comma. */
  lemma ArmSwapsWithoutComma<W(!new)>(t: Tree, e: Env<W>)
    requires Normal(t) && NoComma(t)
    ensures Same(ArmSwaps(t), t, e)
  {
    NoCommaIsHarmless(t, true);
    ArmSwapsKeepMeaning(t, e);
  }

  // ---------------------------------------------------------------- where the promise fails

  /** The primaries with these ids answer true, all others false, whatever the world. The world is
      the list of the actions done so far. */
  function Answering(ids: set<nat>): Env<seq<nat>> {
    Env((i: nat, w: seq<nat>) => i in ids, (i: nat, w: seq<nat>) => (i in ids, w + [i]))
  }

  /** Without the normal form a conjunction is not safe either: the left child of `! a -a b` is a
      negation, and the swap makes it `! b -a a`. */
  lemma NormalFormNeeded(a: Primary, b: Primary, m: Meta)
    requires !a.fx && !b.fx && a.cost > b.cost && a.id != b.id
    ensures var t := Bin(And, m, Not(m, Prim(a)), Prim(b));
      && WellFormed(t) && NoComma(t) && !Normal(t)
      && ArmSwaps(t) == Bin(And, m, Not(m, Prim(b)), Prim(a))
      && !Same(ArmSwaps(t), t, Answering({b.id}))
  {
    var e := Answering({b.id});
    var t := Bin(And, m, Not(m, Prim(a)), Prim(b));
    var u := Bin(And, m, Not(m, Prim(b)), Prim(a));
    assert Considered(t) == u;
    assert ArmSwaps(Not(m, Prim(b))) == Not(m, ArmSwaps(Prim(b)));
    var w: seq<nat> := [];
    assert Eval(Not(m, Prim(a)), e, w) == (!Eval(Prim(a), e, w).0, w);
    assert Eval(Not(m, Prim(b)), e, w) == (!Eval(Prim(b), e, w).0, w);
    assert Eval(t, e, w) == (true, w);
    assert Eval(u, e, w) == (false, w);
  }
}
