/** Writing an expression with no more parentheses than it needs. */
module FindPrinter {
  import opened FindTree
  import opened FindParser
  import opened FindParserTheorem

  /** Trees as the parser builds them. */
  predicate Parsed(t: Tree) {
    match t
    case Nil => false
    case Prim(_) => true
    case Not(m, a) => m == PARSED && Parsed(a)
    case Bin(_, m, l, r) => m == PARSED && Parsed(l) && Parsed(r)
  }

  /** Parenthesise only what binds too loosely for its place. */
  function Guard(c: Phrase, level: nat): Phrase {
    if Level(c) >= level then c else Parens(c)
  }

  function Unparse(t: Tree): Phrase
    requires Parsed(t)
  {
    match t
    case Prim(p) => Single(p)
    case Not(_, a) => Negation(Guard(Unparse(a), NEGATE_PREC))
    case Bin(op, _, l, r) => Join(op, Guard(Unparse(l), Prec(op)), Guard(Unparse(r), Prec(op) + 1))
  }

  lemma {:induction false} UnparseIsRight(t: Tree)
    requires Parsed(t)
    ensures Grammatical(Unparse(t)) && TreeOf(Unparse(t)) == t
  {
    match t
    case Prim(_) =>
    case Not(_, a) => UnparseIsRight(a);
    case Bin(_, _, l, r) =>
      UnparseIsRight(l);
      UnparseIsRight(r);
  }

  lemma {:induction false} TreesAreParsed(c: Phrase)
    ensures Parsed(TreeOf(c))
  {
    match c
    case Single(_) =>
    case Parens(d) => TreesAreParsed(d);
    case Negation(d) => TreesAreParsed(d);
    case Join(_, l, r) =>
      TreesAreParsed(l);
      TreesAreParsed(r);
  }

  /** Parsing what was written gives the tree back, and uses every word. */
  lemma WriteThenParse(t: Tree, input: seq<Token>)
    requires Parsed(t) && Kinds(input) == Spell(Unparse(t)) && OpensAreUsers(input)
    ensures Parse(input) == Ok(t)
  {
    UnparseIsRight(t);
    ParsesGrammar(input, Unparse(t));
  }

  /** No way of writing the same tree is shorter, so no pair of parentheses could be left out. */
  lemma {:induction false} UnparseIsShortest(c: Phrase, need: nat)
    requires Grammatical(c) && Level(c) >= need
    ensures Parsed(TreeOf(c))
    ensures |Spell(Guard(Unparse(TreeOf(c)), need))| <= |Spell(c)|
  {
    TreesAreParsed(c);
    match c
    case Single(_) =>
    case Parens(d) => UnparseIsShortest(d, 0);
    case Negation(d) => UnparseIsShortest(d, NEGATE_PREC);
    case Join(op, l, r) =>
      UnparseIsShortest(l, Prec(op));
      UnparseIsShortest(r, Prec(op) + 1);
  }

  /** Two readings of the same words are the same tree. */
  lemma Unambiguous(c: Phrase, d: Phrase)
    requires Grammatical(c) && Grammatical(d) && Spell(c) == Spell(d)
    ensures TreeOf(c) == TreeOf(d)
  {
    var input := seq(|Spell(c)|, i requires 0 <= i < |Spell(c)| => Token(Spell(c)[i], false));
    assert Kinds(input) == Spell(c);
    ParsesGrammar(input, c);
    ParsesGrammar(input, d);
  }
}
