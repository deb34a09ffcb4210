/** The evaluation tree of find: its nodes, what evaluating it does, and the measures of it
    that the optimiser and the arm swaps are stated with. */
module FindTree {

  /** The binary operators, weakest binding first. */
  datatype Op = Comma | Or | And

  const NO_PREC: nat := 0
  const NEGATE_PREC: nat := 4

  function Prec(op: Op): nat {
    match op
    case Comma => 1
    case Or => 2
    case And => 3
  }

  /** `enum EvaluationCost`, by its numeric value. */
  type Cost = c: nat | c <= 10

  const NEEDS_NOTHING: Cost := 0
  const NEEDS_INODE_NUMBER: Cost := 1
  const NEEDS_TYPE: Cost := 2
  const NUM_EVALUATION_COSTS: nat := 11

  /** A primary. `fx` is the `side_effects` flag; `nameTest` says that it is one of -name, -path,
      -iname and -ipath, `regex` that it is -regex or -iregex. */
  datatype Primary = Primary(id: nat, fx: bool, nameTest: bool, regex: bool, needStat: bool,
                             cost: Cost, rate: real)

  /** The bookkeeping fields of an operator node. */
  datatype Meta = Meta(fx: bool, cost: Cost, rate: real)

  /** `Nil` is the null pointer. Only binary nodes have a left child, and it may be null. */
  datatype Tree =
    | Nil
    | Prim(p: Primary)
    | Not(meta: Meta, arg: Tree)
    | Bin(op: Op, meta: Meta, left: Tree, right: Tree)

  /** The children that must exist do exist, and left children are binary nodes or not, as the
      parser or the optimiser left them. */
  predicate WellFormed(t: Tree) {
    match t
    case Nil => false
    case Prim(_) => true
    case Not(_, a) => WellFormed(a)
    case Bin(_, _, l, r) => (l.Nil? || WellFormed(l)) && WellFormed(r)
  }

  function Fx(t: Tree): bool {
    match t
    case Nil => false
    case Prim(p) => p.fx
    case Not(m, _) => m.fx
    case Bin(_, m, _, _) => m.fx
  }

  function WithFx(t: Tree, fx: bool): Tree {
    match t
    case Nil => t
    case Prim(p) => Prim(p.(fx := fx))
    case Not(m, a) => Not(m.(fx := fx), a)
    case Bin(op, m, l, r) => Bin(op, m.(fx := fx), l, r)
  }

  function NodeCost(t: Tree): Cost {
    match t
    case Nil => 0
    case Prim(p) => p.cost
    case Not(m, _) => m.cost
    case Bin(_, m, _, _) => m.cost
  }

  function NodeRate(t: Tree): real {
    match t
    case Nil => 1.0
    case Prim(p) => p.rate
    case Not(m, _) => m.rate
    case Bin(_, m, _, _) => m.rate
  }

  // ---------------------------------------------------------------- meaning

  /** What the primaries do. A primary without side effects is a test of the current world; one
      with side effects answers and moves to another world. The world is any type: with a log of
      actions as the world, equal results mean equal answers and equal action sequences. */
  datatype Env<!W> = Env(test: (nat, W) -> bool, act: (nat, W) -> (bool, W))

  /** `apply_predicate` together with `pred_and`, `pred_or`, `pred_comma` and `pred_negate`. */
  function Eval<W>(t: Tree, e: Env<W>, w: W): (bool, W) {
    match t
    case Nil => (true, w)
    case Prim(p) => if p.fx then e.act(p.id, w) else (e.test(p.id, w), w)
    case Not(_, a) => var (b, w1) := Eval(a, e, w); (!b, w1)
    case Bin(op, _, l, r) =>
      if l.Nil? then Eval(r, e, w)
      else
        var (b, w1) := Eval(l, e, w);
        match op
        case And => if b then Eval(r, e, w1) else (false, w1)
        case Or => if !b then Eval(r, e, w1) else (true, w1)
        case Comma => Eval(r, e, w1)
  }

  /** Two trees that give the same answer and reach the same world from every world. */
  ghost predicate Same<W(!new)>(t: Tree, u: Tree, e: Env<W>) {
    forall w: W :: Eval(t, e, w) == Eval(u, e, w)
  }

  /** No primary below has side effects: `subtree_has_side_effects` on a tree whose operator
      flags are not yet set. */
  predicate Pure(t: Tree) {
    match t
    case Nil => true
    case Prim(p) => !p.fx
    case Not(_, a) => Pure(a)
    case Bin(_, _, l, r) => Pure(l) && Pure(r)
  }

  lemma {:induction false} PureKeepsWorld<W>(t: Tree, e: Env<W>, w: W)
    requires Pure(t)
    ensures Eval(t, e, w).1 == w
  {
    match t
    case Nil =>
    case Prim(_) =>
    case Not(_, a) => PureKeepsWorld(a, e, w);
    case Bin(_, _, l, r) =>
      PureKeepsWorld(l, e, w);
      PureKeepsWorld(r, e, w);
  }

  // ---------------------------------------------------------------- what the tree is made of

  /** What the user wrote, node by node. A binary operator counts when it joins two operands; one
      with a null left only passes its right operand on. */
  datatype Part = APrimary(p: Primary) | ANegation | AJoin(op: Op)

  function Parts(t: Tree): multiset<Part> {
    match t
    case Nil => multiset{}
    case Prim(p) => multiset{APrimary(p)}
    case Not(_, a) => multiset{ANegation} + Parts(a)
    case Bin(op, _, l, r) => Parts(l) + Parts(r) + (if l.Nil? then multiset{} else multiset{AJoin(op)})
  }

  predicate NoComma(t: Tree) {
    match t
    case Nil => true
    case Prim(_) => true
    case Not(_, a) => NoComma(a)
    case Bin(op, _, l, r) => op != Comma && NoComma(l) && NoComma(r)
  }

  /** What `check_normalization` asserts below the root. */
  predicate LeftsAreBinary(t: Tree) {
    match t
    case Nil => true
    case Prim(_) => true
    case Not(_, a) => LeftsAreBinary(a)
    case Bin(_, _, l, r) => (l.Nil? || l.Bin?) && LeftsAreBinary(l) && LeftsAreBinary(r)
  }

  /** The form `opt_expr` leaves: every left child is a binary node of its parent's operator, so
      each operator heads one left-linked chain. */
  predicate Normal(t: Tree) {
    match t
    case Nil => true
    case Prim(_) => true
    case Not(m, a) => WellFormed(a) && Normal(a)
    case Bin(op, m, l, r) =>
      && (l.Nil? || (l.Bin? && l.op == op))
      && !r.Nil? && Normal(l) && Normal(r)
  }

  lemma {:induction false} NormalImpliesLeftsAreBinary(t: Tree)
    requires Normal(t)
    ensures LeftsAreBinary(t)
    ensures t.Nil? || WellFormed(t)
  {
    match t
    case Nil =>
    case Prim(_) =>
    case Not(_, a) => NormalImpliesLeftsAreBinary(a);
    case Bin(_, _, l, r) =>
      NormalImpliesLeftsAreBinary(l);
      NormalImpliesLeftsAreBinary(r);
  }

  /** The size that no step of the optimiser increases: an identity operator around a primary or
      a negation weighs nothing of its own. */
  function Weight(t: Tree): nat {
    match t
    case Nil => 0
    case Prim(_) => 1
    case Not(_, a) => 1 + Weight(a)
    case Bin(_, _, l, r) => (if l.Nil? && !r.Bin? then 0 else 1) + Weight(l) + Weight(r)
  }
}
