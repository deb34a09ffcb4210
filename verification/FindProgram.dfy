/** `build_expression_tree` in memory: from the predicate list to the tree that is evaluated. */
module FindProgram {
  import opened FindTree
  import opened FindParser
  import opened FindParserTheorem
  import FindPrinter
  import opened FindHeap
  import opened FindParserProgram
  import opened FindOpt
  import opened FindOptScan
  import opened FindSwap
  import opened FindSwapProgram
  import opened FindPipeline

  /** An estimate of cost and success rate for every operator: any numbers at all. */
  type Estimate = Predicate -> (Cost, real)

  /** Filling in the estimates, as `estimate_costs` and `calculate_derived_rates` do. */
  method EstimateCosts(p: Predicate?, estimate: Estimate, ghost s: Shape)
    requires Is(s) && Root(s) == p && Unique(Bag(s))
    modifies Bag(s)
    ensures Is(s) && Alike(old(Value(s)), Value(s))
    decreases s
  {
    hide Is, Value, Bag, Unique, Alike, MadeOf;
    if p == null {
      NullIsAlike(s);
      return;
    }
    IsOf(s);
    Apart(s);
    Below(s);
    ghost var t, l, r := Value(s), Value(s.left), Value(s.right);
    AlikeParts(s);
    assert allocated(Bag(s.left)) && allocated(Bag(s.right));
    EstimateCosts(p.left, estimate, s.left);
    EstimateCosts(p.right, estimate, s.right);
    var (cost, rate) := estimate(p);
    p.meta := Meta(p.meta.fx, cost, rate);
    IsMade(s);
    AlikeMade(s, t, l, r);
  }

  /** A tree in terms of its operands. */
  ghost predicate MadeOf(kind: Kind, fx: bool, t: Tree, l: Tree, r: Tree) {
    match kind
    case KPrim(p) => t == Prim(p)
    case KNot => t.Not? && t.meta.fx == fx && t.arg == r
    case KOp(op) => t.Bin? && t.op == op && t.meta.fx == fx && t.left == l && t.right == r
    case _ => false
  }

  lemma AlikeParts(s: Shape)
    requires s.Cell? && Is(s)
    ensures MadeOf(s.node.kind, s.node.meta.fx, Value(s), Value(s.left), Value(s.right))
  {
    hide Is, Value;
    IsOf(s);
    ValueOf(s);
  }

  lemma AlikeMade(s: Shape, t: Tree, l: Tree, r: Tree)
    requires s.Cell? && Is(s) && MadeOf(s.node.kind, s.node.meta.fx, t, l, r)
    requires Alike(l, Value(s.left)) && Alike(r, Value(s.right))
    ensures Alike(t, Value(s))
  {
    hide Is, Value;
    IsOf(s);
    ValueOf(s);
  }

  lemma NullIsAlike(s: Shape)
    requires s.Null?
    ensures Alike(Value(s), Value(s))
  {
  }

  /** What the parser delivers has operators as parsing leaves them. */
  lemma ParseIsParsed(input: seq<Token>)
    requires Parse(input).Ok?
    ensures FindPrinter.Parsed(Parse(input).value)
  {
    ParseSound(input);
    var c :| Grammatical(c) && Kinds(input) == Spell(c) && TreeOf(c) == Parse(input).value;
    FindPrinter.TreesAreParsed(c);
  }

  /** `build_expression_tree`, from the point where the list is complete: parse, estimate,
      `opt_expr`, `do_arm_swaps`, all on the same structures. The tree in memory then is one that
      `Built` describes, so that `BuiltTreeIsRight` applies to it. */
  method BuildExpressionTree(predicates: Predicate?, level: nat, estimate: Estimate, again: Estimate,
                             ghost list: seq<Predicate>)
    returns (r: Result<Predicate>, ghost estimated: Tree, ghost optimised: Tree, ghost s: Shape)
    requires predicates == At(list, 0) && (forall i | 0 <= i < |list| :: list[i].next == At(list, i + 1))
      && AllDifferent(list)
    requires forall i | 0 <= i < |list| ::
      list[i].left == null && list[i].right == null && (!list[i].kind.KPrim? ==> list[i].meta == PARSED)
    modifies list
    ensures match Parse(Tokens(list))
            case Err(e) => r == Err(e)
            case Ok(t) =>
              && r.Ok? && Is(s) && Root(s) == r.value && Unique(Bag(s))
              && FindPrinter.Parsed(t) && Built(t, estimated, optimised, Value(s), level)
  {
    hide Is, Value, Bag, Unique, Alike, Opt, ArmSwaps, Tokens;
    estimated, optimised, s := Nil, Nil, Null;
    var parser := new Parser(predicates, list);
    var p;
    p, s := parser.BuildTree();
    if p.Err? {
      return p, estimated, optimised, s;
    }
    ParseIsParsed(Tokens(list));
    InList(Bag(s), list);
    assert allocated(Bag(s));
    EstimateCosts(p.value, estimate, s);
    estimated := Value(s);
    ValueIsWellFormed(s);
    var root, fx;
    root, fx, s := OptExpr(p.value, level, s);
    RootNotNull(s, estimated, level);
    EstimateCosts(root, again, s);
    optimised := Value(s);
    var swapped;
    swapped, s := DoArmSwaps(root, s);
    r := Ok(root);
  }

  lemma InList(b: multiset<Predicate>, list: seq<Predicate>)
    requires b <= multiset(list)
    ensures forall n | n in b :: n in list
  {
    forall n | n in b
      ensures n in list
    {
      assert n in multiset(list);
    }
  }

  lemma RootNotNull(s: Shape, t: Tree, level: nat)
    requires Is(s) && Value(s) == Opt(t, level).0 && WellFormed(t)
    ensures s.Cell?
  {
    hide Opt, Is;
    OptimisedRoot(s, s, level, t);
  }
}
