/** The scanning loop of `opt_expr` in place, and `opt_expr` itself: it makes of the tree in memory
    exactly what the function `Opt` makes of the tree it stands for. */
module FindOptScan {
  import opened FindTree
  import opened FindParser
  import opened FindHeap
  import opened FindOpt
  import opened FindChain
  import opened FindListProgram
  import opened FindOptProgram
  import FindOptTheorem

  // ---------------------------------------------------------------- merging

  function NoLinkLists(n: nat): seq<seq<Link>> {
    seq(n, _ => [])
  }

  function NoNodes(n: nat): seq<Predicate?> {
    seq(n, _ => null)
  }

  lemma {:induction false} EmptyLists(n: nat)
    ensures ListsLinked(NoLinkLists(n), NoNodes(n), NoNodes(n))
    ensures ListsBag(NoLinkLists(n)) == multiset{}
    ensures ItemsOfLists(NoLinkLists(n)) == seq(n, _ => [])
  {
    if n > 0 {
      EmptyLists(n - 1);
      assert NoLinkLists(n)[1..] == NoLinkLists(n - 1) && NoNodes(n)[1..] == NoNodes(n - 1);
    }
  }

  lemma NoItems()
    ensures ItemsOfLists(NoLinkLists(NLISTS)) == EMPTY_LISTS
    ensures ListsLinked(NoLinkLists(NLISTS), NoNodes(NLISTS), NoNodes(NLISTS))
    ensures ListsBag(NoLinkLists(NLISTS)) == multiset{}
  {
    hide ListsLinked, ListsBag, ItemsOfLists;
    EmptyLists(NLISTS);
    assert seq(NLISTS, _ => []) == EMPTY_LISTS;
  }

  /** `merge_lists` above what is scanned next. */
  method Merge(c: Cursor, next: Predicate?, ghost g: Scanned) returns (root: Predicate?, ghost merged: seq<Link>)
    requires Valid(c, g) && Root(g.rest) == next
    modifies LinksBag(g.kept), ListsBag(g.lists)
    ensures Linked(g.kept + merged, next) && root == Head(g.kept + merged, next)
    ensures LinksBag(g.kept + merged) == LinksBag(g.kept) + ListsBag(g.lists)
    ensures ItemsOf(g.kept + merged) == old(ItemsOf(g.kept)) + MergeLists(old(ItemsOfLists(g.lists)), NLISTS)
    ensures Is(g.rest) && Value(g.rest) == old(Value(g.rest))
  {
    hide Linked, LinksBag, ItemsOf, ListsLinked, ListsBag, ItemsOfLists, MergeLists, Is, Value, Bag, Unique;
    Overlaps(g);
    assert allocated(Bag(g.rest)) && allocated(LinksBag(g.kept)) && allocated(ListsBag(g.lists));
    var top;
    top, merged := MergeListsInPlace(c.heads, c.tails, next, g.lists);
    assert allocated(LinksBag(merged));
    root := SetSlot(c, top, g);
    LinkedAppend(g.kept, merged, next);
    BagAppend(g.kept, merged);
    ItemsAppend(g.kept, merged);
  }

  /** The lists go back into the chain above a node with side effects, and on to the next. */
  method MergeAndPass(c: Cursor, curr: Predicate, ghost g: Scanned) returns (d: Cursor, ghost h: Scanned)
    requires Valid(c, g) && Root(g.rest) == curr && curr.kind.KOp?
    modifies LinksBag(g.kept), ListsBag(g.lists)
    ensures Valid(d, h) && All(h) == All(g) && h.rest == g.rest.left && Value(h.rest) == old(Value(g.rest.left))
    ensures ItemsOf(h.kept) == old(ItemsOf(g.kept)) + MergeLists(old(ItemsOfLists(g.lists)), NLISTS)
                               + [old(ItemOf(Link(g.rest.node, g.rest.right)))]
    ensures ItemsOfLists(h.lists) == EMPTY_LISTS
  {
    hide Linked, LinksBag, ItemOf, ItemsOf, ListsLinked, ListsBag, ItemsOfLists, MergeLists, Is, Value, Bag, Unique;
    ghost var x := Link(g.rest.node, g.rest.right);
    Overlaps(g);
    RestLink(g.rest);
    RestIn(g.rest);
    assert allocated(Bag(g.rest.left)) && allocated(LinkBag(x));
    var root;
    ghost var merged;
    root, merged := Merge(c, curr, g);
    NoItems();
    ghost var m := Scanned(g.kept + merged, NoLinkLists(NLISTS), g.rest);
    MergedBag(LinksBag(g.kept), ListsBag(g.lists), Bag(g.rest));
    RestLink(g.rest);
    PassBag(m.kept, multiset{}, g.rest);
    LinkedAppend(m.kept, [x], Root(g.rest.left));
    ItemsAppend(m.kept, [x]);
    d := Cursor(root, curr, NoNodes(NLISTS), NoNodes(NLISTS));
    h := Scanned(m.kept + [x], NoLinkLists(NLISTS), g.rest.left);
  }

  lemma RestIn(s: Shape)
    requires s.Cell?
    ensures (forall n | n in Bag(s.left) :: n in Bag(s))
      && forall n | n in LinkBag(Link(s.node, s.right)) :: n in Bag(s)
  {
  }

  lemma MergedBag(k: multiset<Predicate>, l: multiset<Predicate>, r: multiset<Predicate>)
    ensures k + l + multiset{} + r == k + l + r
  {
  }

  // ---------------------------------------------------------------- below a node

  /** The weight of the tree that `opt_expr` is called for on behalf of a right operand. */
  function CalledFor(r: Tree): nat {
    match r
    case Not(_, a) => Weight(a)
    case Bin(_, _, _, _) => Weight(r)
    case _ => 0
  }

  /** `side_effects = fx` for an operator. */
  method SetFlag(node: Predicate, fx: bool, ghost s: Shape)
    requires Is(s) && Root(s) == node && Unique(Bag(s)) && (node.kind.KNot? || node.kind.KOp?)
    modifies node`meta
    ensures Is(s) && Value(s) == WithFx(old(Value(s)), fx)
  {
    hide Is, Value, Bag, Unique;
    IsOf(s);
    ValueOf(s);
    Apart(s);
    node.meta := node.meta.(fx := fx);
    IsMade(s);
    ValueOf(s);
  }

  lemma OptimisedRoot(s: Shape, u: Shape, level: nat, t: Tree)
    requires WellFormed(t) && Is(u) && Value(u) == Opt(t, level).0
    ensures u.Cell? && u.node.kind.KOp?
  {
    hide Opt, Is;
    FindOptTheorem.OptNormalises(t, level);
    ValueOf(u);
  }

  /** `opt_expr` for the operand of a negation. */
  method OptimiseBelowNot(not: Predicate, level: nat, ghost r: Shape, ghost w: nat) returns (ghost u: Shape)
    requires Root(r) == not && Is(r) && not.kind.KNot? && Unique(Bag(r))
    requires CalledFor(Value(r)) < w
    modifies Bag(r)
    ensures Root(u) == not && Is(u) && Unique(Bag(u)) && Value(u) == OptRight(old(Value(r)), level)
    ensures Bag(r) <= Bag(u) && forall n | n in Bag(u) :: n in Bag(r) || fresh(n)
    decreases w, 0
  {
    hide Is, Value, Bag, Unique, Opt;
    ValueOf(r);
    IsOf(r);
    Apart(r);
    Below(r);
    BagOf(r);
    ValueIsWellFormed(r.right);
    assert allocated(Bag(r.right)) && not !in Bag(r.right);
    ghost var t := Value(r.right);
    var arg, fx;
    ghost var a;
    arg, fx, a := OptExpr(not.right, level, r.right);
    OptimisedRoot(r, a, level, t);
    assert not !in Bag(a);
    NotBag(r, not, a);
    not.right := arg;
    Negated(not, a);
    u := Cell(not, Null, a);
    BagOf(u);
    SetFlag(not, fx, u);
  }

  lemma NotBag(r: Shape, n: Predicate, a: Shape)
    requires r.Cell? && r.node == n && r.left.Null? && Bag(r.right) <= Bag(a) && Unique(Bag(a)) && n !in Bag(a)
    ensures Bag(r) <= Bag(Cell(n, Null, a)) && Unique(Bag(Cell(n, Null, a)))
    ensures forall m | m in Bag(Cell(n, Null, a)) :: m == n || m in Bag(a)
    ensures forall m | m in Bag(r.right) || m == n :: m in Bag(r)
  {
    assert Bag(Null) == multiset{};
    assert Bag(Cell(n, Null, a)) == Bag(a) + multiset{n};
    OneMoreUnique(Bag(a), n);
  }

  /** `opt_expr` below a negation, or for an operator, and the `side_effects` flag of what is then
      the right operand. The call is made first. */
  method OptimiseOperand(curr: Predicate, level: nat, ghost r: Shape, ghost w: nat) returns (ghost u: Shape)
    requires curr.right == Root(r) && Is(r) && r.Cell? && !r.node.kind.KPrim? && Unique(Bag(r)) && curr !in Bag(r)
    requires CalledFor(Value(r)) < w
    modifies curr`right, Bag(r)
    ensures curr.right == Root(u) && Is(u) && u.Cell? && Unique(Bag(u)) && curr !in Bag(u)
    ensures Value(u) == OptRight(old(Value(r)), level)
    ensures Bag(r) <= Bag(u) && forall n | n in Bag(u) :: n in Bag(r) || fresh(n)
    decreases w, 1
  {
    hide Is, Value, Bag, Unique, Opt;
    ValueOf(r);
    IsOf(r);
    ValueIsWellFormed(r);
    assert allocated(Bag(r));
    if curr.right.kind.KNot? {
      u := OptimiseBelowNot(curr.right, level, r, w);
    } else {
      ghost var t := Value(r);
      var root, fx;
      root, fx, u := OptExpr(curr.right, level, r);
      OptimisedRoot(r, u, level, t);
      Below(u);
      curr.right := root;
      SetFlag(root, fx, u);
    }
  }

  // ---------------------------------------------------------------- the scan

  lemma ItemsStep(t: Tree, biop: Op, level: nat)
    requires t.Bin? && t.op == biop && (t.left.Nil? || t.left.Bin?)
    ensures Items(t, biop, level) == [Item(t.op, t.meta, OptRight(t.right, level))] + Items(t.left, biop, level)
  {
    hide OptRight, Opt;
    if t.left.Nil? {
      assert Items(t.left, biop, level) == [];
    }
  }

  lemma ItemsWrapped(t: Tree, biop: Op, level: nat)
    requires t.Bin? && t.op != biop
    ensures Items(t, biop, level) == Items(Wrap(t, biop), biop, level)
  {
    hide Opt, NewMeta;
    ItemsStep(Wrap(t, biop), biop, level);
    assert OptRight(t, level) == WithFx(Opt(t, level).0, Opt(t, level).1);
    assert Items(Nil, biop, level) == [];
  }

  lemma ArrangeStep(x: Item, more: seq<Item>, ls: Lists, biop: Op, level: nat)
    ensures var slot := Classify(x.right, biop, level);
      Arrange([x] + more, ls, biop, level)
      == if slot.To? then Arrange(more, Insert(ls, slot.list, x), biop, level)
         else if Fx(x.right) then MergeLists(ls, |ls|) + [x] + Arrange(more, EMPTY_LISTS, biop, level)
         else [x] + Arrange(more, ls, biop, level)
  {
    hide Classify, MergeLists;
    assert ([x] + more)[0] == x && ([x] + more)[1..] == more;
  }

  lemma AnyFxStep(x: Item, more: seq<Item>)
    ensures AnyFx([x] + more) == (Fx(x.right) || AnyFx(more))
  {
    assert ([x] + more)[0] == x;
    assert forall y | y in more :: y in [x] + more;
  }

  /** What the scan will have made of the chain in the end, as long as it keeps to `Arrange`. */
  function Outcome(kept: seq<Item>, ls: seq<seq<Item>>, t: Tree, biop: Op, level: nat): seq<Item> {
    if |ls| == NLISTS && (t.Nil? || t.Bin?) then kept + Arrange(Items(t, biop, level), ls, biop, level) else []
  }

  /** One node of the chain: its right operand optimised, and where it then goes. */
  lemma OutcomeStep(kept: seq<Item>, ls: Lists, t: Tree, biop: Op, level: nat)
    requires t.Bin? && t.op == biop && (t.left.Nil? || t.left.Bin?)
    ensures var x := Item(t.op, t.meta, OptRight(t.right, level));
      var slot := Classify(x.right, biop, level);
      Outcome(kept, ls, t, biop, level)
      == if slot.To? then Outcome(kept, Insert(ls, slot.list, x), t.left, biop, level)
         else if Fx(x.right) then Outcome(kept + MergeLists(ls, NLISTS) + [x], EMPTY_LISTS, t.left, biop, level)
         else Outcome(kept + [x], ls, t.left, biop, level)
  {
    hide Classify, MergeLists, OptRight, Items, Arrange, Insert;
    var x := Item(t.op, t.meta, OptRight(t.right, level));
    var more := Items(t.left, biop, level);
    ItemsStep(t, biop, level);
    ArrangeStep(x, more, ls, biop, level);
    var slot := Classify(x.right, biop, level);
    if !slot.To? {
      var merged, ends, goes := MergeLists(ls, NLISTS), Arrange(more, EMPTY_LISTS, biop, level),
        Arrange(more, ls, biop, level);
      assert kept + (merged + [x] + ends) == kept + merged + [x] + ends;
      assert kept + ([x] + goes) == kept + [x] + goes;
    }
  }

  lemma OutcomeEnds(kept: seq<Item>, ls: Lists, biop: Op, level: nat)
    ensures Outcome(kept, ls, Nil, biop, level) == kept + MergeLists(ls, NLISTS)
  {
    hide MergeLists;
    assert Items(Nil, biop, level) == [];
  }

  ghost predicate Ready(c: Cursor, g: Scanned, curr: Predicate?)
    reads All(g)
  {
    Valid(c, g) && Root(g.rest) == curr && Spine(g.rest) && (Value(g.rest).Nil? || Value(g.rest).Bin?)
  }

  /** Optimises the right operand of a node, unless it is a primary. */
  method OptimiseRightOf(curr: Predicate, level: nat, ghost s: Shape, ghost w: nat) returns (ghost v: Shape)
    requires Is(s) && Root(s) == curr && curr.kind.KOp? && Unique(Bag(s)) && CalledFor(Value(s.right)) < w
    modifies curr`right, Bag(s.right)
    ensures Is(v) && Root(v) == curr && Unique(Bag(v)) && v.left == s.left
    ensures var t := old(Value(s));
      t.Bin? && Value(v) == Bin(t.op, t.meta, t.left, OptRight(t.right, level))
    ensures Bag(s) <= Bag(v) && forall n | n in Bag(v) :: n in Bag(s) || fresh(n)
    decreases w, 2
  {
    hide Is, Value, Bag, Unique, OptRight, CalledFor;
    IsOf(s);
    ValueOf(s);
    v := s;
    if curr.right.kind.KPrim? {
      PrimKept(s.right, level);
    } else {
      Apart(s);
      BagOf(s);
      assert allocated(Bag(s.left)) && allocated(Bag(s));
      ghost var u := OptimiseOperand(curr, level, s.right, w);
      v := Cell(curr, s.left, u);
      GrownBag(s, u);
      Joined(curr, s.left, u);
    }
  }

  /** The same for the node that is scanned. */
  method OptimiseHere(c: Cursor, curr: Predicate, biop: Op, level: nat, ghost g: Scanned, ghost w: nat)
    returns (ghost h: Scanned)
    requires Ready(c, g, curr) && CalledFor(Value(g.rest.right)) < w
    modifies curr`right, Bag(g.rest.right)
    ensures Ready(c, h, curr) && h.kept == g.kept && h.lists == g.lists && h.rest.Cell? && h.rest.left == g.rest.left
    ensures ItemsOf(h.kept) == old(ItemsOf(g.kept)) && ItemsOfLists(h.lists) == old(ItemsOfLists(g.lists))
    ensures var t := old(Value(g.rest));
      t.Bin? && Value(h.rest) == Bin(t.op, t.meta, t.left, OptRight(t.right, level))
    ensures All(g) <= All(h) && forall n | n in All(h) :: n in All(g) || fresh(n)
    decreases w, 3
  {
    hide Linked, LinksBag, ItemsOf, ListsLinked, ListsBag, ItemsOfLists, Is, Value, Bag, Unique, OptRight, CalledFor;
    Overlaps(g);
    Below(g.rest);
    assert allocated(LinksBag(g.kept)) && allocated(ListsBag(g.lists)) && allocated(Bag(g.rest));
    ghost var v := OptimiseRightOf(curr, level, g.rest, w);
    h := g.(rest := v);
    GrownAll(LinksBag(g.kept), ListsBag(g.lists), Bag(g.rest), Bag(v));
  }

  lemma PrimKept(s: Shape, level: nat)
    requires s.Cell? && s.node.kind.KPrim?
    ensures OptRight(Value(s), level) == Value(s)
  {
  }

  lemma GrownBag(s: Shape, u: Shape)
    requires s.Cell? && Unique(Bag(s)) && Bag(s.right) <= Bag(u) && Unique(Bag(u)) && s.node !in Bag(u)
    requires forall n | n in Bag(u) && n !in Bag(s.right) :: n !in Bag(s)
    ensures var v := Cell(s.node, s.left, u);
      && Unique(Bag(v)) && Bag(s) <= Bag(v) && forall n | n in Bag(v) :: n in Bag(s) || n in Bag(u)
  {
  }

  lemma GrownAll(k: multiset<Predicate>, l: multiset<Predicate>, r: multiset<Predicate>, u: multiset<Predicate>)
    requires Unique(k + l + r) && r <= u && Unique(u) && forall n | n in u && n !in r :: n !in k && n !in l
    ensures Unique(k + l + u) && k + l + r <= k + l + u && forall n | n in k + l + u :: n in k + l + r || n in u
  {
  }

  /** Where a node goes, from the type of its right operand. */
  function SlotOf(p: Predicate, biop: Op, level: nat): (slot: Slot)
    ensures slot.To? ==> slot.list < NLISTS
  {
    if p.kind.KPrim? then Classify(Prim(p.kind.p), biop, level) else Stay
  }

  lemma SlotOfValue(s: Shape, biop: Op, level: nat)
    requires s.Cell? && Is(s)
    ensures SlotOf(s.node, biop, level) == Classify(Value(s), biop, level) && s.node.SideEffects() == Fx(Value(s))
    ensures SlotOf(s.node, biop, level).To? ==> !Fx(Value(s))
  {
    hide Is, Value;
    IsOf(s);
    ValueOf(s);
  }

  /** The scan of one operator of the chain. */
  method ScanNode(c: Cursor, curr: Predicate, biop: Op, level: nat, ghost g: Scanned, ghost w: nat)
    returns (d: Cursor, next: Predicate?, fx: bool, ghost h: Scanned)
    requires Ready(c, g, curr) && curr.kind == KOp(biop) && CalledFor(Value(g.rest.right)) < w
    modifies All(g)
    ensures Ready(d, h, next)
    ensures var t := old(Value(g.rest));
      && t.Bin? && Value(h.rest) == t.left && fx == Fx(OptRight(t.right, level))
      && Outcome(ItemsOf(h.kept), ItemsOfLists(h.lists), t.left, biop, level)
         == Outcome(old(ItemsOf(g.kept)), old(ItemsOfLists(g.lists)), t, biop, level)
    ensures All(g) <= All(h) && forall n | n in All(h) :: n in All(g) || fresh(n)
    decreases w, 4
  {
    hide Linked, LinksBag, ItemsOf, ListsLinked, ListsBag, ItemsOfLists, Is, Value, Bag, Unique, OptRight, Classify,
      Outcome;
    ghost var t := Value(g.rest);
    AllOf(g);
    h := OptimiseHere(c, curr, biop, level, g, w);
    AllOf(h);
    RestLink(h.rest);
    SlotOfValue(h.rest.right, biop, level);
    SpineLeft(h.rest);
    OutcomeStep(ItemsOf(h.kept), ItemsOfLists(h.lists), t, biop, level);
    var slot := SlotOf(curr.right, biop, level);
    next := curr.left;
    fx := curr.right.SideEffects();
    if slot.To? {
      d, h := TakeOut(c, slot.list, curr, h);
    } else if fx {
      d, h := MergeAndPass(c, curr, h);
    } else {
      d, h := Pass(c, curr, h);
    }
  }

  lemma AllOf(g: Scanned)
    ensures forall n | n in LinksBag(g.kept) || n in ListsBag(g.lists) || n in Bag(g.rest) :: n in All(g)
    ensures g.rest.Cell? ==> g.rest.node in All(g) && forall n | n in Bag(g.rest.right) :: n in All(g)
  {
  }

  lemma SpineLeft(s: Shape)
    requires s.Cell? && Spine(s) && Is(s)
    ensures Spine(s.left) && (Value(s.left).Nil? || Value(s.left).Bin?)
  {
    hide Is;
    if s.left.Cell? {
      ValueOf(s.left);
    }
  }

  lemma {:induction false} WeightPositive(t: Tree)
    requires WellFormed(t)
    ensures Weight(t) >= 1
  {
    match t
    case Not(_, a) => WeightPositive(a);
    case Bin(_, _, l, r) => WeightPositive(r);
    case _ =>
  }

  /** Why the calls for right operands end. */
  lemma CalledForLess(t: Tree)
    requires WellFormed(t) && t.Bin?
    ensures CalledFor(t.right) < Weight(t) && Weight(t.left) < Weight(t)
  {
    WeightPositive(t.right);
  }

  /** The rest of a chain of this operator, scanned within a call for a tree of weight `w`. */
  predicate Within(t: Tree, biop: Op, w: nat) {
    Weight(t) <= w && (t.Bin? && t.op != biop ==> Weight(t) < w)
  }

  lemma StepWithin(t: Tree, biop: Op, level: nat, w: nat)
    requires WellFormed(t) && t.Bin? && (t.left.Nil? || t.left.Bin?) && Within(t, biop, w)
    ensures var u := if t.op == biop then t else Wrap(t, biop);
      && CalledFor(u.right) < w && Weight(u.left) < Weight(t) && Within(u.left, biop, w)
      && Items(t, biop, level) == [Item(u.op, u.meta, OptRight(u.right, level))] + Items(u.left, biop, level)
  {
    hide OptRight, NewMeta;
    CalledForLess(t);
    if t.op == biop {
      ItemsStep(t, biop, level);
    } else {
      WeightPositive(t);
      ItemsWrapped(t, biop, level);
      ItemsStep(Wrap(t, biop), biop, level);
    }
  }

  /** One turn of the loop: a new parent where the operator changes, then the scan of the node. */
  method ScanOne(c: Cursor, curr: Predicate, biop: Op, level: nat, ghost g: Scanned, ghost w: nat)
    returns (d: Cursor, next: Predicate?, fx: bool, ghost h: Scanned)
    requires Ready(c, g, curr) && Within(Value(g.rest), biop, w)
    modifies All(g)
    ensures Ready(d, h, next) && Within(Value(h.rest), biop, w)
    ensures var t := old(Value(g.rest));
      && t.Bin? && Weight(Value(h.rest)) < Weight(t)
      && (fx || AnyFx(Items(Value(h.rest), biop, level))) == AnyFx(Items(t, biop, level))
      && Outcome(ItemsOf(h.kept), ItemsOfLists(h.lists), Value(h.rest), biop, level)
         == Outcome(old(ItemsOf(g.kept)), old(ItemsOfLists(g.lists)), t, biop, level)
    ensures All(g) <= All(h) && forall n | n in All(h) :: n in All(g) || fresh(n)
    decreases w, 5
  {
    hide Linked, LinksBag, ItemsOf, ListsLinked, ListsBag, ItemsOfLists, Is, Value, Bag, Unique, OptRight, Outcome,
         Items, AnyFx, Weight, CalledFor;
    ghost var t := Value(g.rest);
    ValueIsWellFormed(g.rest);
    ValueOf(g.rest);
    IsOf(g.rest);
    SpineLeft(g.rest);
    StepWithin(t, biop, level, w);
    var d1, cur := c, curr;
    ghost var g1 := g;
    AllOf(g);
    if curr.kind.op != biop {
      d1, cur, g1 := NewParent(c, curr, biop, g);
      OutcomeWrapped(ItemsOf(g1.kept), ItemsOfLists(g1.lists), t, biop, level);
    }
    ghost var u := Value(g1.rest);
    assert u.Bin? && Spine(g1.rest);
    AnyFxStep(Item(u.op, u.meta, OptRight(u.right, level)), Items(u.left, biop, level));
    ValueOf(g1.rest);
    d, next, fx, h := ScanNode(d1, cur, biop, level, g1, w);
  }

  lemma OutcomeWrapped(kept: seq<Item>, ls: seq<seq<Item>>, t: Tree, biop: Op, level: nat)
    requires t.Bin? && t.op != biop
    ensures Outcome(kept, ls, Wrap(t, biop), biop, level) == Outcome(kept, ls, t, biop, level)
  {
    hide Items, Arrange, NewMeta;
    ItemsWrapped(t, biop, level);
  }

  /** The loop over the chain and the final merges. */
  method ScanChain(c0: Cursor, top: Predicate, biop: Op, level: nat, ghost g0: Scanned, ghost w: nat)
    returns (root: Predicate?, hasSideEffects: bool, ghost u: Shape)
    requires Ready(c0, g0, top) && Within(Value(g0.rest), biop, w)
    modifies All(g0)
    ensures Is(u) && Root(u) == root && Unique(Bag(u))
    ensures Value(u)
      == Hang(Outcome(old(ItemsOf(g0.kept)), old(ItemsOfLists(g0.lists)), old(Value(g0.rest)), biop, level), Nil)
    ensures hasSideEffects == AnyFx(Items(old(Value(g0.rest)), biop, level))
    ensures All(g0) <= Bag(u) && forall n | n in Bag(u) :: n in All(g0) || fresh(n)
    decreases w, 6
  {
    hide Linked, LinksBag, ItemsOf, ListsLinked, ListsBag, ItemsOfLists, Is, Value, Bag, Unique, Outcome, Items, AnyFx,
      Weight, Within;
    var c, curr: Predicate? := c0, top;
    ghost var g := g0;
    ghost var t := Value(g0.rest);
    ghost var outcome := Outcome(ItemsOf(g0.kept), ItemsOfLists(g0.lists), t, biop, level);
    hasSideEffects := false;
    while curr != null
      invariant Ready(c, g, curr) && Within(Value(g.rest), biop, w)
      invariant (hasSideEffects || AnyFx(Items(Value(g.rest), biop, level))) == AnyFx(Items(t, biop, level))
      invariant Outcome(ItemsOf(g.kept), ItemsOfLists(g.lists), Value(g.rest), biop, level) == outcome
      invariant All(g0) <= All(g) && forall n | n in All(g) :: n in All(g0) || fresh(n)
      decreases Weight(Value(g.rest))
    {
      var fx;
      c, curr, fx, g := ScanOne(c, curr, biop, level, g, w);
      hasSideEffects := hasSideEffects || fx;
    }
    NoItemsLeft(biop, level);
    OutcomeEnds(ItemsOf(g.kept), ItemsOfLists(g.lists), biop, level);
    ghost var merged;
    root, merged := Merge(c, null, g);
    NullShape();
    Hung(g.kept + merged, Null);
    u := HangShape(g.kept + merged, Null);
  }

  lemma NoItemsLeft(biop: Op, level: nat)
    ensures Items(Nil, biop, level) == [] && !AnyFx([])
  {
  }

  /** `opt_expr`: the new root, and whether the tree has side effects. */
  method OptExpr(tree: Predicate?, level: nat, ghost s: Shape) returns (root: Predicate?, fx: bool, ghost u: Shape)
    requires Is(s) && Root(s) == tree && Unique(Bag(s))
    modifies Bag(s)
    ensures Is(u) && Root(u) == root && Unique(Bag(u))
    ensures (Value(u), fx) == Opt(old(Value(s)), level)
    ensures Bag(s) <= Bag(u) && forall n | n in Bag(u) :: n in Bag(s) || fresh(n)
    decreases Weight(Value(s)), 7
  {
    hide Linked, LinksBag, ItemsOf, ListsLinked, ListsBag, ItemsOfLists, Is, Value, Bag, Unique, Outcome, Weight,
      Normalise, Opt;
    OptByParts(Value(s), level);
    NullShape();
    if tree == null {
      return null, false, s;
    }
    ghost var t := Value(s);
    IsOf(s);
    ValueOf(s);
    var top;
    ghost var n;
    top, n := NormaliseLeft(tree, s);
    ValueOf(n);
    IsOf(n);
    NoItems();
    NoLinks(top);
    ghost var g := Scanned([], NoLinkLists(NLISTS), n);
    StartBag(n);
    root, fx, u := ScanChain(Cursor(top, null, NoNodes(NLISTS), NoNodes(NLISTS)), top, top.kind.op, level, g,
      Weight(t));
  }

  lemma StartBag(n: Shape)
    ensures All(Scanned([], NoLinkLists(NLISTS), n)) == Bag(n)
  {
    hide ListsBag;
    NoItems();
  }

  lemma OptByParts(t: Tree, level: nat)
    ensures t.Nil? ==> Opt(t, level) == (Nil, false)
    ensures !t.Nil? ==>
      var n := Normalise(t, And);
      && Weight(n) == Weight(t)
      && Opt(t, level) == (Hang(Outcome([], EMPTY_LISTS, n, n.op, level), Nil), AnyFx(Items(n, n.op, level)))
  {
    hide Items, Arrange;
    if !t.Nil? {
      var n := Normalise(t, And);
      var a := Arrange(Items(n, n.op, level), EMPTY_LISTS, n.op, level);
      assert [] + a == a;
    }
  }
}
