/** `do_arm_swaps` in place. */
module FindSwapProgram {
  import opened FindTree
  import opened FindParser
  import opened FindHeap
  import opened FindSwap

  /** `subtree_has_side_effects`. */
  function SubtreeHasSideEffects(p: Predicate?, ghost s: Shape): (b: bool)
    requires Is(s) && Root(s) == p
    reads Bag(s)
    ensures b == SubtreeHasFx(Value(s))
    decreases s
  {
    p != null
    && (p.SideEffects() || SubtreeHasSideEffects(p.left, s.left) || SubtreeHasSideEffects(p.right, s.right))
  }

  /** `worst_cost`. */
  function WorstCostBelow(p: Predicate?, ghost s: Shape): (c: Cost)
    requires Is(s) && Root(s) == p
    reads Bag(s)
    ensures c == WorstCost(Value(s))
    decreases s
  {
    if p == null then 0
    else Worst(WorstCostBelow(p.left, s.left), WorstCostBelow(p.right, s.right), p.Cost())
  }

  function Worst(costL: Cost, costR: Cost, own: Cost): (c: Cost)
    ensures c == Max(Max(costL, costR), own)
  {
    var worst := if costL > costR then costL else costR;
    if worst < own then own else worst
  }

  /** The shape after `perform_arm_swap`. */
  function SwappedShape(s: Shape): Shape
    requires s.Cell? && s.left.Cell?
  {
    Cell(s.node, Cell(s.left.node, s.left.left, s.right), s.left.right)
  }

  lemma SwapNeeds(s: Shape)
    requires Is(s) && Fires(Value(s))
    ensures s.Cell? && s.node.kind.KOp? && s.right.Cell? && s.left.Cell? && s.left.right.Cell?
    ensures !s.left.node.kind.KPrim?
  {
    ValueOf(s);
    ValueOf(s.left);
  }

  /** `perform_arm_swap`. */
  method PerformArmSwap(p: Predicate, ghost s: Shape)
    requires Is(s) && Root(s) == p && Unique(Bag(s)) && Fires(Value(s)) && p.left != null
    modifies p`right, p.left`right
    ensures s.Cell? && s.left.Cell? && Is(SwappedShape(s)) && Bag(SwappedShape(s)) == Bag(s)
    ensures Value(SwappedShape(s)) == Swap(old(Value(s)))
  {
    hide Is, Value, Bag, Unique, Fires;
    SwapNeeds(s);
    IsOf(s);
    IsOf(s.left);
    SwapApart(s);
    ValueOf(s);
    ValueOf(s.left);
    var q := p.left;
    var tmp := q.right;
    q.right := p.right;
    p.right := tmp;
    ghost var u := SwappedShape(s);
    IsMade(u.left);
    IsMade(u);
    ValueOf(u);
    ValueOf(u.left);
    SameBag(s);
  }

  /** Neither node whose pointers change is below one of the operands. */
  lemma SwapApart(s: Shape)
    requires Unique(Bag(s)) && s.Cell? && s.left.Cell?
    ensures s.node != s.left.node
    ensures s.node !in Bag(s.left.left) && s.node !in Bag(s.left.right) && s.node !in Bag(s.right)
    ensures s.left.node !in Bag(s.left.left) && s.left.node !in Bag(s.left.right) && s.left.node !in Bag(s.right)
  {
    Apart(s);
    Apart(s.left);
    hide Unique;
    assert forall n | n in Bag(s.left.left) || n in Bag(s.left.right) || n == s.left.node :: n in Bag(s.left);
  }

  lemma SameBag(s: Shape)
    requires s.Cell? && s.left.Cell?
    ensures Bag(SwappedShape(s)) == Bag(s)
  {
  }

  /** `consider_arm_swap`. */
  method ConsiderArmSwap(p: Predicate, ghost s: Shape) returns (swapped: bool, ghost s': Shape)
    requires Is(s) && Root(s) == p && Unique(Bag(s))
    modifies Bag(s)
    ensures Is(s') && Root(s') == p && Bag(s') == Bag(s)
    ensures Value(s') == Considered(old(Value(s))) && swapped == Fires(old(Value(s)))
    ensures !swapped ==> s' == s
  {
    hide Is, Value, Bag, Unique, SubtreeHasFx, WorstCost;
    IsOf(s);
    ValueOf(s);
    s' := s;
    swapped := false;
    if !p.kind.KOp? || p.left == null || p.right == null {
      return;
    }
    IsOf(s.left);
    ValueOf(s.left);
    if p.left.right == null {
      return;
    }
    ghost var l, r := s.left.right, s.right;
    IsOf(l);
    IsOf(r);
    ValueOf(l);
    ValueOf(r);
    if SubtreeHasSideEffects(p.left.right, l) || SubtreeHasSideEffects(p.right, r) {
      return;
    }
    var leftCost, rightCost := WorstCostBelow(p.left.right, l), WorstCostBelow(p.right, r);
    if leftCost < rightCost {
      return;
    }
    var wantSwap := true;
    if leftCost == rightCost {
      var succRateL, succRateR := p.left.right.Rate(), p.right.Rate();
      wantSwap := if p.kind.op == Or then succRateR < succRateL
                  else if p.kind.op == And then succRateR > succRateL
                  else false;
    }
    if wantSwap {
      SwapTouches(s);
      PerformArmSwap(p, s);
      return true, SwappedShape(s);
    }
  }

  lemma SwapTouches(s: Shape)
    requires s.Cell? && s.left.Cell?
    ensures s.node in Bag(s) && s.left.node in Bag(s)
  {
  }

  /** `ArmSwaps` on the operands. */
  function OperandsSwapped(t: Tree): Tree {
    match t
    case Not(m, a) => Not(m, ArmSwaps(a))
    case Bin(op, m, l, r) => Bin(op, m, ArmSwaps(l), ArmSwaps(r))
    case _ => t
  }

  lemma ArmSwapsBy(t: Tree)
    ensures ArmSwaps(t) == if Fires(t) then OperandsSwapped(Swap(t)) else OperandsSwapped(t)
    ensures Fires(t) ==> !Fires(Swap(t))
  {
    if Fires(t) {
      SwapsOnce(t);
    }
  }

  /** The two calls that `do_arm_swaps` makes for the operands. */
  method SwapOperands(p: Predicate, ghost s: Shape) returns (swapped: bool, ghost s': Shape)
    requires Is(s) && Root(s) == p && Unique(Bag(s))
    modifies Bag(s)
    ensures Is(s') && Root(s') == p && Bag(s') == Bag(s)
    ensures Value(s') == OperandsSwapped(old(Value(s))) && !swapped
    decreases |Bag(s)|, 0
  {
    hide Is, Value, Bag, Unique, ArmSwaps;
    IsOf(s);
    ValueOf(s);
    Apart(s);
    Below(s);
    BagOf(s);
    ghost var l, r;
    assert allocated(Bag(s.left)) && allocated(Bag(s.right));
    swapped, l := DoArmSwaps(p.left, s.left);
    if !swapped {
      swapped, r := DoArmSwaps(p.right, s.right);
    }
    s' := Cell(p, l, r);
    IsMade(s');
    ValueOf(s');
    BagOf(s');
  }

  /** `do_arm_swaps`: it always ends without a swap. */
  method DoArmSwaps(p: Predicate?, ghost s: Shape) returns (swapped: bool, ghost s': Shape)
    requires Is(s) && Root(s) == p && Unique(Bag(s))
    modifies Bag(s)
    ensures Is(s') && Root(s') == p && Bag(s') == Bag(s)
    ensures Value(s') == ArmSwaps(old(Value(s))) && !swapped
    decreases |Bag(s)|, 1
  {
    hide Is, Value, Bag, Unique, Fires, ArmSwaps, OperandsSwapped, Swap;
    s' := s;
    if p == null {
      EmptyShape(s);
      return false, s;
    }
    ghost var t := Value(s);
    ArmSwapsBy(t);
    ghost var fired := false;
    swapped := true;
    while swapped
      invariant Is(s') && Root(s') == p && Bag(s') == Bag(s)
      invariant fired ==> Fires(t)
      invariant Value(s') == if !swapped then ArmSwaps(t) else if fired then Swap(t) else t
      decreases swapped, !fired
    {
      swapped, s' := ConsiderArmSwap(p, s');
      if swapped {
        fired := true;
      } else {
        swapped, s' := SwapOperands(p, s');
      }
    }
  }

  lemma EmptyShape(s: Shape)
    requires s.Null?
    ensures Value(s) == ArmSwaps(Value(s))
  {
  }
}
