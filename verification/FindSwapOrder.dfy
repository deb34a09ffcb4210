/** In which order `do_arm_swaps` leaves the operands of a chain. */
module FindSwapOrder {
  import opened FindTree
  import opened FindSwap

  /** The operand `x` may stay in front of `y`: it costs less, or as much and is not the likelier one
      of a disjunction or the less likely one of a conjunction. */
  predicate Ranked(op: Op, x: Tree, y: Tree) {
    || WorstCost(x) < WorstCost(y)
    || (WorstCost(x) == WorstCost(y)
        && (op == Or ==> NodeRate(x) <= NodeRate(y)) && (op == And ==> NodeRate(x) >= NodeRate(y)))
  }

  /** Two operands that may be exchanged: the one evaluated first hangs on the left child. */
  predicate TwoArms(t: Tree) {
    && t.Bin? && !t.left.Nil? && !t.right.Nil? && !RightOf(t.left).Nil?
    && !SubtreeHasFx(RightOf(t.left)) && !SubtreeHasFx(t.right)
  }

  /** A visit exchanges the two operands of a node exactly when they are out of order. */
  lemma VisitRanks(t: Tree)
    ensures var u := Considered(t);
      && (TwoArms(u) ==> Ranked(u.op, RightOf(u.left), u.right))
      && (TwoArms(t) && !Ranked(t.op, RightOf(t.left), t.right) ==>
            u == Bin(t.op, t.meta, WithRight(t.left, t.right), RightOf(t.left)))
      && (!TwoArms(t) || Ranked(t.op, RightOf(t.left), t.right) ==> u == t)
  {
  }

  /** The nodes of a tree. */
  function Nodes(t: Tree): set<Tree> {
    match t
    case Nil => {}
    case Prim(_) => {t}
    case Not(_, a) => {t} + Nodes(a)
    case Bin(_, _, l, r) => {t} + Nodes(l) + Nodes(r)
  }

  /** What the comparisons are made with: whether any node is flagged, and the largest cost of any. */
  lemma {:induction false} MeasuresAre(t: Tree)
    ensures SubtreeHasFx(t) <==> exists x | x in Nodes(t) :: Fx(x)
    ensures forall x | x in Nodes(t) :: NodeCost(x) <= WorstCost(t)
  {
    match t
    case Nil =>
    case Prim(_) => assert t in Nodes(t);
    case Not(_, a) =>
      MeasuresAre(a);
      assert t in Nodes(t);
    case Bin(_, _, l, r) =>
      MeasuresAre(l);
      MeasuresAre(r);
      assert t in Nodes(t);
  }

  lemma {:induction false} WorstIsThere(t: Tree) returns (x: Tree)
    requires !t.Nil?
    ensures x in Nodes(t) && NodeCost(x) == WorstCost(t)
  {
    x := t;
    if NodeCost(t) < WorstCost(t) {
      assert WorstCost(Nil) == 0;
      match t
      case Not(_, a) => x := WorstIsThere(a);
      case Bin(_, _, l, r) =>
        if WorstCost(l) == WorstCost(t) {
          x := WorstIsThere(l);
        } else {
          x := WorstIsThere(r);
        }
    }
  }

  // ---------------------------------------------------------------- the promise about rates

  /** What the comment in front of `consider_arm_swap` wants: of a disjunction the operand that
      succeeds most often first, of a conjunction the one that fails most often. */
  predicate AsPromised(t: Tree) {
    t.Bin? && !t.left.Nil? ==>
      var x, y := RightOf(t.left), t.right;
      (t.op == Or ==> NodeRate(x) >= NodeRate(y)) && (t.op == And ==> NodeRate(x) <= NodeRate(y))
  }

  /** The comparisons are the other way round: where a visit leaves two operands of one cost, they
      are as the comment wants them if and only if they are equally likely. */
  lemma RatesTurnedRound(t: Tree)
    requires TwoArms(t) && t.left.Bin? && t.op != Comma && WorstCost(t.left.right) == WorstCost(t.right)
    ensures AsPromised(Considered(t)) <==> NodeRate(t.left.right) == NodeRate(t.right)
  {
  }

  /** Two tests of one cost, the likelier one first in a disjunction, as it should be, end up the
      other way round. */
  lemma LikelierGoesLast(a: Primary, b: Primary, m: Meta)
    requires !a.fx && !b.fx && a.cost == b.cost && a.rate > b.rate
    ensures var t := Bin(Or, m, Bin(Or, m, Nil, Prim(a)), Prim(b));
      && AsPromised(t) && ArmSwaps(t) == Bin(Or, m, Bin(Or, m, Nil, Prim(b)), Prim(a)) && !AsPromised(ArmSwaps(t))
  {
    var t := Bin(Or, m, Bin(Or, m, Nil, Prim(a)), Prim(b));
    var u := Bin(Or, m, Bin(Or, m, Nil, Prim(b)), Prim(a));
    assert Considered(t) == u;
    assert Considered(u.left) == u.left;
    assert ArmSwaps(u.left) == u.left;
  }

  // ---------------------------------------------------------------- a whole chain

  /** The operands of a chain, the one evaluated last first. */
  function Arms(t: Tree): seq<Tree> {
    if t.Bin? then [t.right] + Arms(t.left) else []
  }

  /** One pass over them: of two neighbours the one that should not come first is left behind. */
  function Pass(op: Op, arms: seq<Tree>): (ys: seq<Tree>)
    ensures |ys| == |arms|
    decreases |arms|
  {
    if |arms| < 2 then arms
    else
      var y, x, rest := arms[0], arms[1], arms[2..];
      if !SubtreeHasFx(x) && !SubtreeHasFx(y) && !Ranked(op, x, y) then [x] + Pass(op, [y] + rest)
      else [y] + Pass(op, [x] + rest)
  }

  function Swapped(arms: seq<Tree>): (us: seq<Tree>)
    ensures |us| == |arms| && forall i | 0 <= i < |us| :: us[i] == ArmSwaps(arms[i])
  {
    if arms == [] then [] else [ArmSwaps(arms[0])] + Swapped(arms[1..])
  }

  lemma PassStep(op: Op, y: Tree, x: Tree, rest: seq<Tree>)
    ensures Pass(op, [y] + ([x] + rest))
         == if !SubtreeHasFx(x) && !SubtreeHasFx(y) && !Ranked(op, x, y) then [x] + Pass(op, [y] + rest)
            else [y] + Pass(op, [x] + rest)
  {
    hide Ranked, SubtreeHasFx;
    var arms := [y] + ([x] + rest);
    assert arms[0] == y && arms[1] == x && arms[2..] == rest;
  }

  /** What one visit makes of a chain. */
  lemma VisitedArms(t: Tree)
    requires Normal(t) && t.Bin? && !t.left.Nil?
    ensures var u := Considered(t);
      && u.Bin? && u.op == t.op && u.left.Bin? && u.left.op == t.op && Normal(u.left)
      && Pass(t.op, Arms(t)) == [u.right] + Pass(t.op, Arms(u.left))
  {
    SwapKeepsForm(t);
    VisitRanks(t);
    PassStep(t.op, t.right, t.left.right, Arms(t.left.left));
    hide Pass, Ranked, SubtreeHasFx, WorstCost, Considered;
    var u := Considered(t);
    if u != t {
      assert u.left == Bin(t.op, t.left.meta, t.left.left, t.right);
    }
  }

  /** What `do_arm_swaps` makes of a chain. */
  lemma {:induction false} ChainIsPass(t: Tree)
    requires Normal(t) && t.Bin?
    ensures Arms(ArmSwaps(t)) == Swapped(Pass(t.op, Arms(t)))
    decreases Size(t)
  {
    if t.left.Nil? {
      assert !Fires(t);
      assert Arms(t) == [t.right];
    } else {
      var u := Considered(t);
      VisitedArms(t);
      ChainIsPass(u.left);
      hide Considered, Pass, Normal;
      assert ([u.right] + Pass(t.op, Arms(u.left)))[1..] == Pass(t.op, Arms(u.left));
    }
  }

  lemma RankedOn(op: Op, x: Tree, y: Tree, z: Tree)
    ensures Ranked(op, x, y) && Ranked(op, y, z) ==> Ranked(op, x, z)
    ensures Ranked(op, x, y) || Ranked(op, y, x)
    ensures Ranked(op, x, x)
  {
    hide WorstCost, NodeRate;
  }

  /** The first `j + 1` operands have no side effects, and the next one has some or there is none. */
  predicate Run(ys: seq<Tree>, j: nat) {
    j < |ys| && (forall k | 0 <= k <= j :: !SubtreeHasFx(ys[k])) && (j + 1 < |ys| ==> SubtreeHasFx(ys[j + 1]))
  }

  lemma PassHead(op: Op, arms: seq<Tree>)
    requires arms != []
    ensures SubtreeHasFx(Pass(op, arms)[0]) == SubtreeHasFx(arms[0])
  {
  }

  predicate BestOf(op: Op, ys: seq<Tree>, j: nat) {
    j < |ys| && forall k | 0 <= k <= j :: Ranked(op, ys[j], ys[k])
  }

  lemma BestBehind(op: Op, h: Tree, zs: seq<Tree>, j: nat)
    requires BestOf(op, zs, j) && Ranked(op, zs[j], h)
    ensures BestOf(op, [h] + zs, j + 1)
  {
    hide Ranked;
  }

  lemma RunBehind(h: Tree, zs: seq<Tree>, j: nat)
    requires Run([h] + zs, j) && zs != []
    ensures !SubtreeHasFx(h) && SubtreeHasFx(zs[0]) == (j == 0) && j <= |zs| && (j > 0 ==> Run(zs, j - 1))
  {
    hide SubtreeHasFx;
    var ys := [h] + zs;
    assert ys[0] == h && ys[1] == zs[0];
    assert forall k | 0 <= k < |zs| :: zs[k] == ys[k + 1];
  }

  lemma {:induction false} BestOfRun(op: Op, arms: seq<Tree>, j: nat)
    requires arms != [] && Run(Pass(op, arms), j)
    ensures var ys := Pass(op, arms); BestOf(op, ys, j) && Ranked(op, ys[j], arms[0])
    decreases |arms|
  {
    hide Ranked, SubtreeHasFx, Run, BestOf;
    RankedOn(op, arms[0], arms[0], arms[0]);
    if |arms| == 1 {
      assert arms == [arms[0]] == Pass(op, arms);
      RunOfOne(op, arms[0], j);
    } else {
      var y, x, rest := arms[0], arms[1], arms[2..];
      var swaps := !SubtreeHasFx(x) && !SubtreeHasFx(y) && !Ranked(op, x, y);
      var h, c := if swaps then x else y, if swaps then y else x;
      var zs := Pass(op, [c] + rest);
      RunBehind(h, zs, j);
      PassHead(op, [c] + rest);
      RankedOn(op, x, y, y);
      if j == 0 {
        RankedOn(op, h, h, h);
        BestAlone(op, h, zs);
      } else {
        BestOfRun(op, [c] + rest, j - 1);
        RankedOn(op, zs[j - 1], c, h);
        BestBehind(op, h, zs, j - 1);
      }
    }
  }

  lemma RunOfOne(op: Op, y: Tree, j: nat)
    requires Run([y], j)
    ensures j == 0 && BestOf(op, [y], 0)
  {
    RankedOn(op, y, y, y);
  }

  lemma BestAlone(op: Op, h: Tree, zs: seq<Tree>)
    ensures BestOf(op, [h] + zs, 0)
  {
    RankedOn(op, h, h, h);
  }

  /** What follows the first operands of a pass is a pass of its own. */
  lemma {:induction false} PassBehind(op: Op, arms: seq<Tree>, i: nat) returns (others: seq<Tree>)
    requires i < |arms|
    ensures others != [] && Pass(op, others) == Pass(op, arms)[i..]
    decreases i
  {
    if i == 0 {
      return arms;
    }
    hide Ranked, SubtreeHasFx;
    var y, x, rest := arms[0], arms[1], arms[2..];
    var c := if !SubtreeHasFx(x) && !SubtreeHasFx(y) && !Ranked(op, x, y) then y else x;
    others := PassBehind(op, [c] + rest, i - 1);
    assert Pass(op, arms)[1..] == Pass(op, [c] + rest);
    assert Pass(op, arms)[i..] == Pass(op, arms)[1..][i - 1..];
  }

  /** The swaps further down change neither cost nor rate nor flags of an operand. */
  lemma {:induction false} SwappedAlike(t: Tree)
    ensures SubtreeHasFx(ArmSwaps(t)) == SubtreeHasFx(t) && WorstCost(ArmSwaps(t)) == WorstCost(t)
    ensures NodeRate(ArmSwaps(t)) == NodeRate(t)
    decreases Size(t)
  {
    match t
    case Nil =>
    case Prim(_) =>
    case Not(_, a) => SwappedAlike(a);
    case Bin(_, _, _, _) =>
      var u := Considered(t);
      VisitAlike(t);
      SwappedAlike(u.left);
      SwappedAlike(u.right);
  }

  lemma VisitAlike(t: Tree)
    requires t.Bin?
    ensures var u := Considered(t);
      u.Bin? && u.meta == t.meta && SubtreeHasFx(u) == SubtreeHasFx(t) && WorstCost(u) == WorstCost(t)
  {
  }

  /** The operands from the `i`-th to the `j`-th of a chain have no side effects, and what is evaluated
      before them has, or there is nothing. */
  predicate PureRun(ys: seq<Tree>, i: nat, j: nat) {
    && i <= j < |ys| && (forall k | i <= k <= j :: !SubtreeHasFx(ys[k]))
    && (j + 1 < |ys| ==> SubtreeHasFx(ys[j + 1]))
  }

  /** After the swaps, of every run of operands without side effects the one evaluated first is one of
      the best: the least cost, and of that cost the lowest rate of a disjunction or the highest of a
      conjunction. The swaps are one pass, so no more than that is sure. */
  lemma ArmSwapsBestFirst(t: Tree, i: nat, j: nat)
    requires Normal(t) && t.Bin? && PureRun(Arms(ArmSwaps(t)), i, j)
    ensures var ys := Arms(ArmSwaps(t)); forall k | i <= k <= j :: Ranked(t.op, ys[j], ys[k])
  {
    hide ArmSwaps, Arms, SubtreeHasFx, WorstCost, NodeRate, Normal;
    var ys, ps := Arms(ArmSwaps(t)), Pass(t.op, Arms(t));
    ChainIsPass(t);
    var others := PassBehind(t.op, Arms(t), i);
    var qs := Pass(t.op, others);
    forall k | 0 <= k < |ps|
      ensures SubtreeHasFx(ys[k]) == SubtreeHasFx(ps[k]) && WorstCost(ys[k]) == WorstCost(ps[k])
      ensures NodeRate(ys[k]) == NodeRate(ps[k])
    {
      SwappedAlike(ps[k]);
    }
    assert forall k | 0 <= k < |qs| :: qs[k] == ps[i + k];
    BestOfRun(t.op, others, j - i);
    forall k | i <= k <= j
      ensures Ranked(t.op, ys[j], ys[k])
    {
      assert Ranked(t.op, qs[j - i], qs[k - i]);
    }
  }

  /** Three tests, the cheapest evaluated last: the pass takes it to the front and leaves the costliest
      in front of the other one. */
  lemma NotSorted(a: Primary, b: Primary, c: Primary, m: Meta)
    requires !a.fx && !b.fx && !c.fx && a.cost < b.cost < c.cost
    ensures var t := Bin(And, m, Bin(And, m, Bin(And, m, Nil, Prim(c)), Prim(b)), Prim(a));
      Normal(t) && Arms(ArmSwaps(t)) == [Prim(b), Prim(c), Prim(a)]
  {
    var u := Bin(And, m, Nil, Prim(c));
    var v := Bin(And, m, u, Prim(b));
    var t := Bin(And, m, v, Prim(a));
    assert Normal(Prim(a)) && Normal(Prim(b)) && Normal(Prim(c)) && Normal(u) && Normal(v);
    assert Arms(u) == [Prim(c)] && Arms(v) == [Prim(b), Prim(c)];
    ChainIsPass(t);
    assert Arms(t) == [Prim(a), Prim(b), Prim(c)];
    assert [Prim(a)] + [Prim(b), Prim(c)][1..] == [Prim(a), Prim(c)];
    var ps := Pass(And, Arms(t));
    assert Pass(And, [Prim(a), Prim(c)]) == [Prim(c), Prim(a)];
    assert ps == [Prim(b)] + [Prim(c), Prim(a)];
  }
}
