/** `get_expr` and `scan_rest` in place: the elements of the predicate list become the nodes of the
    tree. */
module FindParserProgram {
  import opened FindTree
  import opened FindParser
  import opened FindHeap

  function Tokens(ns: seq<Predicate>): (s: seq<Token>)
    ensures |s| == |ns|
  {
    seq(|ns|, i requires 0 <= i < |ns| => Token(ns[i].kind, ns[i].artificial))
  }

  lemma TokensOf(ns: seq<Predicate>)
    ensures ns == [] <==> Tokens(ns) == []
    ensures ns != [] ==> Tokens(ns)[0] == Token(ns[0].kind, ns[0].artificial) && Tokens(ns)[1..] == Tokens(ns[1..])
  {
  }

  /** The element at a place of the list; null at its end. */
  function At(ns: seq<Predicate>, i: nat): (p: Predicate?)
    ensures p == null <==> i >= |ns|
  {
    if i < |ns| then ns[i] else null
  }

  function Before(prev: Predicate?): Previous {
    if prev == null then NoPred else Pred(prev.kind)
  }

  /** What parsing has used of a list when `rest` is left of it. */
  function Used(all: seq<Predicate>, rest: seq<Predicate>): multiset<Predicate> {
    if |rest| <= |all| then multiset(all[..|all| - |rest|]) else multiset{}
  }

  predicate Suffix(rest: seq<Predicate>, all: seq<Predicate>) {
    |rest| <= |all| && rest == all[|all| - |rest|..]
  }

  lemma UsedMore(all: seq<Predicate>, mid: seq<Predicate>, rest: seq<Predicate>)
    requires Suffix(mid, all) && Suffix(rest, mid)
    ensures Suffix(rest, all) && Used(all, rest) == Used(all, mid) + Used(mid, rest)
  {
    assert all[..|all| - |rest|] == all[..|all| - |mid|] + mid[..|mid| - |rest|];
  }

  lemma UsedOne(all: seq<Predicate>)
    requires all != []
    ensures Suffix(all[1..], all) && Used(all, all[1..]) == multiset{all[0]}
  {
    assert all[..1] == [all[0]];
  }

  class Parser {
    /** The next element; `rest` is it and all that follow. */
    var input: Predicate?
    ghost var rest: seq<Predicate>

    /** The elements not yet read: linked in order, all different, and with no operands yet. */
    ghost predicate Valid()
      reads this, rest
    {
      && input == At(rest, 0)
      && (forall i | 0 <= i < |rest| :: rest[i].next == At(rest, i + 1))
      && AllDifferent(rest)
      && forall i | 0 <= i < |rest| ::
           rest[i].left == null && rest[i].right == null && (!rest[i].kind.KPrim? ==> rest[i].meta == PARSED)
    }

    constructor (input: Predicate?, ghost rest: seq<Predicate>)
      ensures this.input == input && this.rest == rest
    {
      this.input, this.rest := input, rest;
    }

    /** Step to the next element. */
    method Advance()
      requires Valid() && rest != []
      modifies this
      ensures Valid() && rest == old(rest)[1..]
    {
      input := input.next;
      rest := rest[1..];
      assert forall i | 0 <= i < |rest| :: rest[i] == old(rest)[i + 1];
    }

    /** After parsing from the list `all` with the result `r` of the function: the tree is there,
        made of elements that were read and of `from`, and the rest is as it was. */
    ghost predicate Delivered(all: seq<Predicate>, r: Result<(Tree, seq<Token>)>, p: Result<Predicate>, s: Shape,
                           from: multiset<Predicate>)
      reads this, rest, Bag(s)
    {
      match r
      case Err(e) => p == Err(e)
      case Ok((t, tokens)) =>
        && p.Ok? && Root(s) == p.value && Is(s) && Value(s) == t
        && Valid() && Tokens(rest) == tokens && Suffix(rest, all)
        && Bag(s) <= from + Used(all, rest)
    }

    /** The case of a primary. */
    method GetPrimary() returns (p: Result<Predicate>, ghost s: Shape)
      requires Valid() && rest != [] && input.kind.KPrim?
      modifies this
      ensures Delivered(old(rest), Ok((Prim(old(rest)[0].kind.p), Tokens(old(rest))[1..])), p, s, multiset{})
      ensures |rest| < |old(rest)|
    {
      hide Tokens, Used, Suffix, Valid, Is, Value, Bag;
      FirstOf();
      TokensOf(rest);
      UsedOne(rest);
      var thisPred := input;
      Leaf(thisPred);
      Advance();
      p, s := Ok(thisPred), Cell(thisPred, Null, Null);
    }

    /** The case of -not. */
    method GetNegation() returns (p: Result<Predicate>, ghost s: Shape)
      requires Valid() && rest != [] && input.kind.KNot?
      modifies this, rest
      ensures Delivered(old(rest), NegationOf(FindParser.GetExpr(Tokens(old(rest))[1..], NEGATE_PREC, Pred(KNot))), p,
        s, multiset{})
      ensures p.Ok? ==> |rest| < |old(rest)|
      decreases |rest|, 0
    {
      hide Tokens, Used, Suffix, Valid, Is, Value, Bag;
      FirstOf();
      TokensOf(rest);
      UsedOne(rest);
      ghost var all := rest;
      var next := input;
      Advance();
      ghost var mid := rest;
      p, s := GetExpr(NEGATE_PREC, next);
      if p.Ok? {
        UsedMore(all, mid, rest);
        NotRead(all, mid, rest, Bag(s));
        next.right := p.value;
        Negated(next, s);
        return Ok(next), Cell(next, Null, s);
      }
    }

    /** The case of an opening parenthesis. */
    method GetParenthesis() returns (p: Result<Predicate>, ghost s: Shape)
      requires Valid() && rest != [] && input.kind.KOpen?
      modifies this, rest
      ensures Delivered(old(rest), ParenthesisOf(Tokens(old(rest))[1..]), p, s, multiset{})
      ensures p.Ok? ==> |rest| < |old(rest)|
      decreases |rest|, 0
    {
      hide Tokens, Used, Suffix, Valid, Is, Value, Bag;
      FirstOf();
      TokensOf(rest);
      TokensOf(rest[1..]);
      UsedOne(rest);
      s := Null;
      ghost var all := rest;
      if input.next == null || input.next.artificial {
        return Err(NothingAfterOpen), s;
      }
      var open := input;
      Advance();
      FirstOf();
      if input.kind.KClose? {
        return Err(EmptyParens), s;
      }
      ghost var mid := rest;
      p, s := GetExpr(NO_PREC, open);
      if p.Ok? {
        UsedMore(all, mid, rest);
        Nonempty();
        TokensOf(rest);
        if input == null || !input.kind.KClose? {
          return Err(MissingClose), s;
        }
        UsedOne(rest);
        UsedMore(all, rest, rest[1..]);
        assert allocated(Bag(s));
        Advance();
      }
    }

    /** Everything up to the operator behind the expression: the switch of `get_expr`. */
    method GetOperand(prev: Predicate?) returns (p: Result<Predicate>, ghost s: Shape)
      requires Valid()
      modifies this, rest
      ensures Delivered(old(rest), Operand(Tokens(old(rest)), Before(prev)), p, s, multiset{})
      ensures p.Ok? ==> |rest| < |old(rest)|
      decreases |rest|, 1
    {
      hide Delivered, Used, Suffix, Valid, Is, Value, Bag, NegationOf, ParenthesisOf;
      Nonempty();
      s := Null;
      if input == null {
        p := Err(InvalidExpression);
        NotParsed(rest, InvalidExpression);
        return;
      }
      FirstOf();
      TokensOf(rest);
      match input.kind {
        case KOp(_) =>
          p := Err(BinaryFirst);
          NotParsed(rest, BinaryFirst);
        case KClose =>
          var e := if prev == null then NoPrevious
                   else if (prev.kind.KNot? || prev.kind.KOp?) && !input.artificial then ExpectedBetween
                   else if input.artificial then ExpectedAfter
                   else TooManyClose;
          p := Err(e);
          NotParsed(rest, e);
        case KPrim(_) =>
          p, s := GetPrimary();
        case KNot =>
          p, s := GetNegation();
        case KOpen =>
          p, s := GetParenthesis();
      }
    }

    /** `get_expr`. */
    method GetExpr(prec: nat, prev: Predicate?) returns (p: Result<Predicate>, ghost s: Shape)
      requires Valid()
      modifies this, rest
      ensures Delivered(old(rest), FindParser.GetExpr(Tokens(old(rest)), prec, Before(prev)), p, s, multiset{})
      ensures p.Ok? ==> |rest| < |old(rest)|
      decreases |rest|, 2
    {
      hide Tokens, Used, Suffix, Valid, Is, Value, Bag, Operand, Continue, FindParser.ScanRest;
      ghost var all := rest;
      Nonempty();
      GetExprBy(Tokens(rest), prec, Before(prev));
      p, s := GetOperand(prev);
      if p.Err? {
        return;
      }
      Nonempty();
      TokensOf(rest);
      ContinueBy(Tokens(rest), Value(s), prec);
      if input == null || KindPrec(input.kind) <= prec {
        return;
      }
      ghost var mid := rest;
      InSuffix(mid, all);
      ApartFromRest(all, mid, multiset{}, Bag(s));
      p, s := ScanRest(p.value, s, prec);
      if p.Ok? {
        UsedMore(all, mid, rest);
      }
    }

    /** The case of a binary operator in the loop of `scan_rest`. */
    method JoinNext(tree: Predicate, ghost s: Shape) returns (p: Result<Predicate>, ghost u: Shape)
      requires Valid() && rest != [] && input.kind.KOp?
      requires Is(s) && Root(s) == tree && forall n | n in Bag(s) :: n !in rest
      modifies this, rest
      ensures var op := old(rest)[0].kind.op;
        Delivered(old(rest),
          JoinOf(op, old(Value(s)), FindParser.GetExpr(Tokens(old(rest))[1..], Prec(op), Pred(KOp(op)))), p, u, Bag(s))
      ensures p.Ok? ==> |rest| < |old(rest)|
      decreases |rest|, 0
    {
      hide Tokens, Used, Suffix, Valid, Is, Value, Bag, AllDifferent, At, FindParser.GetExpr, Prec;
      FirstOf();
      TokensOf(rest);
      UsedOne(rest);
      ghost var all := rest;
      var op := input;
      assert op in all && allocated(Bag(s));
      Advance();
      ghost var mid := rest;
      InSuffix(mid, all);
      op.left := tree;
      u := s;
      p, u := GetExpr(Prec(op.kind.op), op);
      if p.Ok? {
        UsedMore(all, mid, rest);
        NotRead(all, mid, rest, Bag(u));
        Connect(op, p.value, s, u);
        return Ok(op), Cell(op, s, u);
      }
    }

    /** `scan_rest`. */
    method ScanRest(head: Predicate, ghost h: Shape, prec: nat) returns (p: Result<Predicate>, ghost s: Shape)
      requires Valid() && Is(h) && Root(h) == head && forall n | n in Bag(h) :: n !in rest
      modifies this, rest
      ensures Delivered(old(rest), FindParser.ScanRest(Tokens(old(rest)), old(Value(h)), prec), p, s, Bag(h))
      ensures p.Ok? ==> |rest| <= |old(rest)|
      decreases |rest|, 2
    {
      hide Tokens, Used, Suffix, Valid, Is, Value, Bag, FindParser.ScanRest;
      ghost var all, r := rest, FindParser.ScanRest(Tokens(rest), Value(h), prec);
      var tree := head;
      p, s := Ok(head), h;
      SuffixSelf(all);
      Nonempty();
      while input != null && KindPrec(input.kind) > prec
        invariant Valid() && Suffix(rest, all) && Is(s) && p == Ok(tree) && Root(s) == tree && |rest| <= |all|
        invariant Bag(s) <= Bag(h) + Used(all, rest) && forall n | n in Bag(s) :: n !in rest
        invariant FindParser.ScanRest(Tokens(rest), Value(s), prec) == r
        decreases |rest|
      {
        Nonempty();
        TokensOf(rest);
        InSuffix(rest, all);
        ScanRestBy(Tokens(rest), Value(s), prec);
        if !input.kind.KOp? {
          return Err(InvalidExpression), s;
        }
        ghost var mid, b := rest, Bag(s);
        p, s := JoinNext(tree, s);
        if p.Err? {
          return;
        }
        tree := p.value;
        UsedMore(all, mid, rest);
        ApartFromRest(mid, rest, b, Bag(s));
      }
      Nonempty();
      TokensOf(rest);
      ScanRestBy(Tokens(rest), Value(s), prec);
    }

    /** The parsing done by `build_expression_tree`: the whole list becomes the tree, in which no
        element occurs twice. */
    method BuildTree() returns (p: Result<Predicate>, ghost s: Shape)
      requires Valid()
      modifies this, rest
      ensures match Parse(Tokens(old(rest)))
              case Err(e) => p == Err(e)
              case Ok(t) =>
                && p.Ok? && Root(s) == p.value && Is(s) && Value(s) == t && Unique(Bag(s))
                && Bag(s) <= multiset(old(rest))
    {
      hide Tokens, Valid, Is, Value, Bag, Unique, FindParser.GetExpr;
      ghost var all := rest;
      Nonempty();
      p, s := GetExpr(NO_PREC, null);
      if p.Ok? {
        Nonempty();
        TokensOf(rest);
        if input != null {
          return Err(if input.kind.KClose? then TooManyClose else InvalidExpression), s;
        }
        AllUsed(all, Bag(s));
      }
    }

    lemma NotParsed(all: seq<Predicate>, e: ParseError)
      ensures Delivered(all, Err(e), Err(e), Null, multiset{})
    {
    }

    lemma Nonempty()
      requires Valid()
      ensures input == null <==> rest == []
      ensures input != null ==> input == rest[0]
      ensures AllDifferent(rest)
    {
    }

    lemma FirstOf()
      requires Valid() && rest != []
      ensures input == rest[0] && input !in rest[1..]
      ensures input.next == At(rest[1..], 0)
      ensures input.left == null && input.right == null && (!input.kind.KPrim? ==> input.meta == PARSED)
    {
      assert At(rest[1..], 0) == At(rest, 1);
    }
  }

  function NegationOf(r: Result<(Tree, seq<Token>)>): Result<(Tree, seq<Token>)> {
    if r.Err? then r else Ok((Not(PARSED, r.value.0), r.value.1))
  }

  function ParenthesisOf(rest: seq<Token>): Result<(Tree, seq<Token>)> {
    if rest == [] || rest[0].artificial then Err(NothingAfterOpen)
    else if rest[0].kind.KClose? then Err(EmptyParens)
    else
      var r := FindParser.GetExpr(rest, NO_PREC, Pred(KOpen));
      if r.Err? then r
      else if r.value.1 == [] || !r.value.1[0].kind.KClose? then Err(MissingClose)
      else Ok((r.value.0, r.value.1[1..]))
  }

  /** What `GetExpr` makes of the input before it looks for an operator. */
  function Operand(input: seq<Token>, prev: Previous): Result<(Tree, seq<Token>)> {
    if input == [] then Err(InvalidExpression)
    else
      match input[0].kind
      case KOp(_) => Err(BinaryFirst)
      case KClose =>
        if prev.NoPred? then Err(NoPrevious)
        else if (prev.kind.KNot? || prev.kind.KOp?) && !input[0].artificial then Err(ExpectedBetween)
        else if input[0].artificial then Err(ExpectedAfter)
        else Err(TooManyClose)
      case KPrim(p) => Ok((Prim(p), input[1..]))
      case KNot => NegationOf(FindParser.GetExpr(input[1..], NEGATE_PREC, Pred(KNot)))
      case KOpen => ParenthesisOf(input[1..])
  }

  lemma GetExprBy(input: seq<Token>, prec: nat, prev: Previous)
    ensures var r := Operand(input, prev);
      && (r.Ok? ==> |r.value.1| < |input|)
      && FindParser.GetExpr(input, prec, prev) == if r.Err? then r else Continue(r.value.1, r.value.0, prec)
  {
    hide Continue;
  }

  lemma ContinueBy(input: seq<Token>, head: Tree, prec: nat)
    ensures Continue(input, head, prec)
         == if input == [] || KindPrec(input[0].kind) <= prec then Ok((head, input))
           else FindParser.ScanRest(input, head, prec)
  {
    hide FindParser.ScanRest;
  }

  lemma ScanRestBy(input: seq<Token>, head: Tree, prec: nat)
    ensures input == [] || KindPrec(input[0].kind) <= prec ==>
      FindParser.ScanRest(input, head, prec) == Ok((head, input))
    ensures input != [] && KindPrec(input[0].kind) > prec ==>
      FindParser.ScanRest(input, head, prec)
      == if !input[0].kind.KOp? then Err(InvalidExpression)
         else
           var op := input[0].kind.op;
           var r := FindParser.GetExpr(input[1..], Prec(op), Pred(KOp(op)));
           if r.Err? then r else FindParser.ScanRest(r.value.1, Bin(op, PARSED, head, r.value.0), prec)
  {
    hide FindParser.GetExpr;
  }

  function JoinOf(op: Op, left: Tree, r: Result<(Tree, seq<Token>)>): Result<(Tree, seq<Token>)> {
    if r.Err? then r else Ok((Bin(op, PARSED, left, r.value.0), r.value.1))
  }

  /** Gives an operator its right operand. */
  method Connect(op: Predicate, right: Predicate, ghost s: Shape, ghost u: Shape)
    requires op.kind.KOp? && op.left == Root(s) && Is(s) && Is(u) && Root(u) == right && op !in Bag(s) && op !in Bag(u)
    modifies op`right
    ensures Is(Cell(op, s, u)) && Value(Cell(op, s, u)) == Bin(op.kind.op, op.meta, old(Value(s)), old(Value(u)))
    ensures Bag(Cell(op, s, u)) == multiset{op} + Bag(s) + Bag(u)
  {
    hide Is, Value, Bag;
    op.right := right;
    Joined(op, s, u);
  }

  predicate AllDifferent(ns: seq<Predicate>) {
    forall i, j | 0 <= i < j < |ns| :: ns[i] != ns[j]
  }

  lemma SuffixSelf(all: seq<Predicate>)
    ensures Suffix(all, all) && Used(all, all) == multiset{}
  {
    assert all[..0] == [];
  }

  lemma InSuffix(rest: seq<Predicate>, all: seq<Predicate>)
    requires Suffix(rest, all)
    ensures forall n | n in rest :: n in all
    ensures forall i | 0 <= i < |rest| :: rest[i] in all
  {
  }

  /** Elements that were read, or were in use before, are not among those left. */
  lemma ApartFromRest(all: seq<Predicate>, rest: seq<Predicate>, from: multiset<Predicate>, b: multiset<Predicate>)
    requires AllDifferent(all) && Suffix(rest, all) && b <= from + Used(all, rest)
    requires forall n | n in from :: n !in all
    ensures forall n | n in b :: n !in rest
  {
    forall n | n in b
      ensures n !in rest
    {
      assert n in from + Used(all, rest);
      if n in from {
      } else {
        assert n in all[..|all| - |rest|];
      }
    }
  }

  lemma {:induction false} DifferentOnce(ns: seq<Predicate>)
    requires AllDifferent(ns)
    ensures forall n | n in ns :: multiset(ns)[n] == 1
  {
    if ns != [] {
      DifferentOnce(ns[1..]);
      assert ns == [ns[0]] + ns[1..];
    }
  }

  lemma AllUsed(all: seq<Predicate>, b: multiset<Predicate>)
    requires AllDifferent(all) && b <= multiset{} + Used(all, [])
    ensures Unique(b) && b <= multiset(all)
  {
    DifferentOnce(all);
    assert all[..|all|] == all;
  }

  /** The first element is neither among those left nor in a tree made of later ones. */
  lemma NotRead(all: seq<Predicate>, mid: seq<Predicate>, rest: seq<Predicate>, b: multiset<Predicate>)
    requires all != [] && mid == all[1..] && all[0] !in mid && Suffix(rest, mid) && b <= Used(mid, rest)
    ensures all[0] !in rest && all[0] !in b
  {
    assert all[0] !in Used(mid, rest);
    assert forall n | n in b :: n in Used(mid, rest);
  }
}
