/** The precedence parser of find, `get_expr` and `scan_rest`, as functions on the list of
    predicates the command line was turned into, with the grammar it accepts. */
module FindParser {
  import opened FindTree

  /** `p_type`, with what the node stands for. */
  datatype Kind = KPrim(p: Primary) | KNot | KOp(op: Op) | KOpen | KClose

  /** One element of the predicate list. `artificial` marks the parentheses and the -print that
      find adds around the user's expression. */
  datatype Token = Token(kind: Kind, artificial: bool)

  /** `p_prec`. */
  function KindPrec(k: Kind): nat {
    match k
    case KNot => NEGATE_PREC
    case KOp(op) => Prec(op)
    case _ => NO_PREC
  }

  /** The messages `get_expr` and `scan_rest` stop with. `NoPrevious` is the closing parenthesis
      at the very start, where the code looks at a predecessor that does not exist. */
  datatype ParseError =
    | InvalidExpression
    | BinaryFirst
    | ExpectedBetween
    | ExpectedAfter
    | TooManyClose
    | NothingAfterOpen
    | EmptyParens
    | MissingClose
    | NoPrevious

  datatype Result<T> = Ok(value: T) | Err(error: ParseError)

  datatype Previous = NoPred | Pred(kind: Kind)

  /** Operators as parsing leaves them: no side effects noted, and no cost of their own. The rate
      is filled in later; nothing here depends on it. */
  const PARSED: Meta := Meta(false, NEEDS_NOTHING, 1.0)

  /** `get_expr`: the expression before the next operator that does not bind tighter than
      `prec`, and the remaining input. */
  function GetExpr(input: seq<Token>, prec: nat, prev: Previous): (r: Result<(Tree, seq<Token>)>)
    ensures r.Ok? ==> |r.value.1| < |input|
    decreases |input|, 1
  {
    if input == [] then Err(InvalidExpression)
    else
      var rest := input[1..];
      match input[0].kind
      case KOp(_) => Err(BinaryFirst)
      case KClose =>
        if prev.NoPred? then Err(NoPrevious)
        else if (prev.kind.KNot? || prev.kind.KOp?) && !input[0].artificial then Err(ExpectedBetween)
        else if input[0].artificial then Err(ExpectedAfter)
        else Err(TooManyClose)
      case KPrim(p) => Continue(rest, Prim(p), prec)
      case KNot =>
        var r := GetExpr(rest, NEGATE_PREC, Pred(KNot));
        if r.Err? then r else Continue(r.value.1, Not(PARSED, r.value.0), prec)
      case KOpen =>
        if rest == [] || rest[0].artificial then Err(NothingAfterOpen)
        else if rest[0].kind.KClose? then Err(EmptyParens)
        else
          var r := GetExpr(rest, NO_PREC, Pred(KOpen));
          if r.Err? then r
          else if r.value.1 == [] || !r.value.1[0].kind.KClose? then Err(MissingClose)
          else Continue(r.value.1[1..], r.value.0, prec)
  }

  /** The end of `get_expr`: hand over to `scan_rest` when what follows binds tighter. */
  function Continue(input: seq<Token>, head: Tree, prec: nat): (r: Result<(Tree, seq<Token>)>)
    ensures r.Ok? ==> |r.value.1| <= |input|
    decreases |input|, 1
  {
    if input == [] || KindPrec(input[0].kind) <= prec then Ok((head, input))
    else ScanRest(input, head, prec)
  }

  /** `scan_rest`: build left-associated binary nodes while the operators bind tighter than
      `prec`. */
  function ScanRest(input: seq<Token>, head: Tree, prec: nat): (r: Result<(Tree, seq<Token>)>)
    ensures r.Ok? ==> |r.value.1| <= |input|
    decreases |input|, 0
  {
    if input == [] || KindPrec(input[0].kind) <= prec then Ok((head, input))
    else
      match input[0].kind
      case KOp(op) =>
        var r := GetExpr(input[1..], Prec(op), Pred(KOp(op)));
        if r.Err? then r else ScanRest(r.value.1, Bin(op, PARSED, head, r.value.0), prec)
      case KClose => Ok((head, input))
      case _ => Err(InvalidExpression)
  }

  /** What `build_expression_tree` does with the list: parse it all, or fail. */
  function Parse(input: seq<Token>): Result<Tree> {
    var r := GetExpr(input, NO_PREC, NoPred);
    if r.Err? then Err(r.error)
    else if r.value.1 == [] then Ok(r.value.0)
    else Err(if r.value.1[0].kind.KClose? then TooManyClose else InvalidExpression)
  }

  // ---------------------------------------------------------------- the grammar

  /** An expression with the parentheses the user typed. */
  datatype Phrase =
    | Single(p: Primary)
    | Negation(arg: Phrase)
    | Join(op: Op, left: Phrase, right: Phrase)
    | Parens(inner: Phrase)

  /** How tightly the outermost construct binds. */
  function Level(c: Phrase): nat {
    match c
    case Single(_) => 5
    case Parens(_) => 5
    case Negation(_) => NEGATE_PREC
    case Join(op, _, _) => Prec(op)
  }

  /** The grammar: not binds tighter than and, and than or, or than comma; the binary operators
      associate to the left. */
  predicate Grammatical(c: Phrase) {
    match c
    case Single(_) => true
    case Parens(d) => Grammatical(d)
    case Negation(d) => Grammatical(d) && Level(d) >= NEGATE_PREC
    case Join(op, l, r) => Grammatical(l) && Grammatical(r) && Level(l) >= Prec(op) && Level(r) > Prec(op)
  }

  function Spell(c: Phrase): (s: seq<Kind>)
    ensures s != [] && !s[0].KClose? && !s[0].KOp?
  {
    match c
    case Single(p) => [KPrim(p)]
    case Parens(d) => [KOpen] + Spell(d) + [KClose]
    case Negation(d) => [KNot] + Spell(d)
    case Join(op, l, r) => Spell(l) + [KOp(op)] + Spell(r)
  }

  /** The tree the phrase stands for. */
  function TreeOf(c: Phrase): Tree {
    match c
    case Single(p) => Prim(p)
    case Parens(d) => TreeOf(d)
    case Negation(d) => Not(PARSED, TreeOf(d))
    case Join(op, l, r) => Bin(op, PARSED, TreeOf(l), TreeOf(r))
  }

  function Kinds(input: seq<Token>): (s: seq<Kind>)
    ensures |s| == |input|
    ensures forall i | 0 <= i < |s| :: s[i] == input[i].kind
  {
    seq(|input|, i requires 0 <= i < |input| => input[i].kind)
  }

  /** Find's own additions never directly follow an opening parenthesis. */
  predicate OpensAreUsers(input: seq<Token>) {
    forall i | 0 <= i < |input| - 1 :: input[i].kind.KOpen? ==> !input[i + 1].artificial
  }

  /** Nothing at the front of `input` would be drawn into an expression of this level. */
  predicate Stops(input: seq<Token>, level: nat) {
    input == [] || KindPrec(input[0].kind) <= level
  }
}
