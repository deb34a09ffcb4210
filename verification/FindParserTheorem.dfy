/** `get_expr` accepts exactly the grammar and builds the tree the grammar says. */
module FindParserTheorem {
  import opened FindTree
  import opened FindParser

  lemma KindsAppend(a: seq<Token>, b: seq<Token>)
    ensures Kinds(a + b) == Kinds(a) + Kinds(b)
  {
  }

  lemma OpensSuffix(a: seq<Token>, b: seq<Token>)
    requires OpensAreUsers(a + b)
    ensures OpensAreUsers(b)
  {
    forall i | 0 <= i < |b| - 1 && b[i].kind.KOpen?
      ensures !b[i + 1].artificial
    {
      assert (a + b)[|a| + i] == b[i] && (a + b)[|a| + i + 1] == b[i + 1];
    }
  }

  /** Reading a phrase of the grammar that nothing behind it can break open gives its tree and
      leaves the rest to the caller's own level. */
  lemma {:induction false} ReadsPhrase(u: seq<Token>, c: Phrase, rest: seq<Token>, prec: nat, prev: Previous)
    requires Kinds(u) == Spell(c) && Grammatical(c) && OpensAreUsers(u + rest)
    requires c.Join? ==> Prec(c.op) > prec
    requires Stops(rest, Level(c))
    ensures GetExpr(u + rest, prec, prev) == ScanRest(rest, TreeOf(c), prec)
    decreases c
  {
    match c
    case Single(p) => ReadsSingle(u, c, rest, prec, prev);
    case Negation(d) => ReadsNegation(u, c, rest, prec, prev);
    case Parens(d) => ReadsParens(u, c, rest, prec, prev);
    case Join(op, l, r) => ReadsJoin(u, c, rest, prec, prev);
  }

  lemma ReadsSingle(u: seq<Token>, c: Phrase, rest: seq<Token>, prec: nat, prev: Previous)
    requires c.Single? && Kinds(u) == Spell(c)
    ensures GetExpr(u + rest, prec, prev) == ScanRest(rest, TreeOf(c), prec)
  {
    assert u[0].kind == Kinds(u)[0];
    assert (u + rest)[1..] == rest;
  }

  lemma {:induction false} ReadsNegation(u: seq<Token>, c: Phrase, rest: seq<Token>, prec: nat, prev: Previous)
    requires c.Negation? && Kinds(u) == Spell(c) && Grammatical(c) && OpensAreUsers(u + rest)
    requires Stops(rest, Level(c))
    ensures GetExpr(u + rest, prec, prev) == ScanRest(rest, TreeOf(c), prec)
    decreases c, 0
  {
    var d := c.arg;
    hide GetExpr, ScanRest, OpensAreUsers, Kinds;
    SplitNegation(u, d);
    var v := u[1..];
    var input, behind := u + rest, v + rest;
    FirstSlice(u, rest);
    OpensSuffix([u[0]], behind);
    ReadsPhrase(v, d, rest, NEGATE_PREC, Pred(KNot));
    NegationContinues(input, behind, TreeOf(d), rest, prec, prev);
  }

  lemma FirstSlice(u: seq<Token>, rest: seq<Token>)
    requires u != []
    ensures var behind := u[1..] + rest;
      u + rest == [u[0]] + behind && (u + rest)[1..] == behind && (u + rest)[0] == u[0]
  {
  }

  lemma NegationContinues(input: seq<Token>, behind: seq<Token>, t: Tree, rest: seq<Token>, prec: nat, prev: Previous)
    requires input != [] && input[0].kind.KNot? && input[1..] == behind && Stops(rest, NEGATE_PREC)
    requires GetExpr(behind, NEGATE_PREC, Pred(KNot)) == ScanRest(rest, t, NEGATE_PREC)
    ensures GetExpr(input, prec, prev) == ScanRest(rest, Not(PARSED, t), prec)
  {
  }

  lemma SplitNegation(u: seq<Token>, d: Phrase)
    requires Kinds(u) == Spell(Negation(d))
    ensures u != [] && u[0].kind.KNot? && Kinds(u[1..]) == Spell(d)
  {
    assert u[0].kind == Kinds(u)[0];
    assert Kinds(u[1..]) == Kinds(u)[1..];
  }

  lemma {:induction false} ReadsParens(u: seq<Token>, c: Phrase, rest: seq<Token>, prec: nat, prev: Previous)
    requires c.Parens? && Kinds(u) == Spell(c) && Grammatical(c) && OpensAreUsers(u + rest)
    ensures GetExpr(u + rest, prec, prev) == ScanRest(rest, TreeOf(c), prec)
    decreases c, 0
  {
    var d := c.inner;
    SplitParens(u, d);
    hide GetExpr, ScanRest, Kinds;
    var v, close := u[1..|u| - 1], u[|u| - 1];
    var tail := [close] + rest;
    ParensSlices(u, rest);
    OpenFollowed(u + rest);
    OpensSuffix([u[0]], v + tail);
    ReadsPhrase(v, d, tail, NO_PREC, Pred(KOpen));
    ParensClosed(u + rest, v + tail, TreeOf(d), close, rest, prec, prev);
  }

  lemma OpenFollowed(input: seq<Token>)
    requires OpensAreUsers(input) && |input| > 1 && input[0].kind.KOpen?
    ensures !input[1].artificial
  {
    assert !input[0 + 1].artificial;
  }

  lemma ParensSlices(u: seq<Token>, rest: seq<Token>)
    requires |u| >= 3
    ensures var inner := u[1..|u| - 1] + ([u[|u| - 1]] + rest);
      u + rest == [u[0]] + inner && (u + rest)[1..] == inner && (u + rest)[1] == u[1..|u| - 1][0] == inner[0]
  {
  }

  lemma JoinSlices(u: seq<Token>, k: nat, rest: seq<Token>)
    requires k < |u|
    ensures u + rest == u[..k] + (u[k..] + rest)
    ensures u[k..] + rest == [u[k]] + (u[k + 1..] + rest)
    ensures (u[k..] + rest)[1..] == u[k + 1..] + rest
  {
  }

  lemma ParensClosed(input: seq<Token>, inner: seq<Token>, t: Tree, close: Token, rest: seq<Token>, prec: nat,
                     prev: Previous)
    requires input != [] && input[0].kind.KOpen? && input[1..] == inner
    requires inner != [] && !inner[0].artificial && !inner[0].kind.KClose? && close.kind.KClose?
    requires GetExpr(inner, NO_PREC, Pred(KOpen)) == ScanRest([close] + rest, t, NO_PREC)
    ensures GetExpr(input, prec, prev) == ScanRest(rest, t, prec)
  {
    assert ([close] + rest)[1..] == rest;
  }

  lemma SplitParens(u: seq<Token>, d: Phrase)
    requires Kinds(u) == Spell(Parens(d))
    ensures |u| >= 3 && u[0].kind.KOpen? && u[|u| - 1].kind.KClose? && Kinds(u[1..|u| - 1]) == Spell(d)
    ensures !u[1].kind.KClose?
  {
    assert u[0].kind == Kinds(u)[0] && u[|u| - 1].kind == Kinds(u)[|u| - 1];
    assert Kinds(u[1..|u| - 1]) == Kinds(u)[1..|u| - 1];
    assert u[1].kind == Kinds(u)[1] == Spell(d)[0];
  }

  lemma {:induction false} ReadsJoin(u: seq<Token>, c: Phrase, rest: seq<Token>, prec: nat, prev: Previous)
    requires c.Join? && Kinds(u) == Spell(c) && Grammatical(c) && OpensAreUsers(u + rest)
    requires Prec(c.op) > prec && Stops(rest, Level(c))
    ensures GetExpr(u + rest, prec, prev) == ScanRest(rest, TreeOf(c), prec)
    decreases c, 0
  {
    var op, l, r := c.op, c.left, c.right;
    hide GetExpr, ScanRest, OpensAreUsers, Kinds;
    var k := |Spell(l)|;
    SplitJoin(u, op, l, r);
    var x := u[k + 1..];
    var tail := u[k..] + rest;
    JoinSlices(u, k, rest);
    OpensSuffix(u[..k], tail);
    ReadsPhrase(u[..k], l, tail, prec, prev);
    OpensSuffix([u[k]], x + rest);
    ReadsPhrase(x, r, rest, Prec(op), Pred(KOp(op)));
    JoinContinues(tail, op, TreeOf(l), TreeOf(r), x + rest, rest, prec);
  }

  lemma JoinContinues(tail: seq<Token>, op: Op, l: Tree, r: Tree, behind: seq<Token>, rest: seq<Token>, prec: nat)
    requires tail != [] && tail[0].kind == KOp(op) && tail[1..] == behind && Prec(op) > prec
    requires Stops(rest, Prec(op))
    requires GetExpr(behind, Prec(op), Pred(KOp(op))) == ScanRest(rest, r, Prec(op))
    ensures ScanRest(tail, l, prec) == ScanRest(rest, Bin(op, PARSED, l, r), prec)
  {
  }

  lemma SplitJoin(u: seq<Token>, op: Op, l: Phrase, r: Phrase)
    requires Kinds(u) == Spell(Join(op, l, r))
    ensures var k := |Spell(l)|;
      k < |u| && Kinds(u[..k]) == Spell(l) && u[k].kind == KOp(op) && Kinds(u[k + 1..]) == Spell(r)
  {
    var k := |Spell(l)|;
    var s := Spell(l) + [KOp(op)] + Spell(r);
    assert s[..k] == Spell(l) && s[k] == KOp(op) && s[k + 1..] == Spell(r);
    assert u[k].kind == Kinds(u)[k];
    assert Kinds(u[..k]) == Kinds(u)[..k];
    assert Kinds(u[k + 1..]) == Kinds(u)[k + 1..];
  }

  /** Completeness: every phrase of the grammar parses to its tree, with every word used. */
  lemma ParsesGrammar(input: seq<Token>, c: Phrase)
    requires Kinds(input) == Spell(c) && Grammatical(c) && OpensAreUsers(input)
    ensures Parse(input) == Ok(TreeOf(c))
  {
    assert input + [] == input;
    ReadsPhrase(input, c, [], NO_PREC, NoPred);
  }

  // ---------------------------------------------------------------- soundness

  /** A phrase that accounts for the words of `input` in front of `rest`. */
  ghost predicate Explains(c: Phrase, input: seq<Token>, t: Tree, rest: seq<Token>, prec: nat) {
    && Grammatical(c) && TreeOf(c) == t
    && Kinds(input) == Spell(c) + Kinds(rest)
    && (c.Join? ==> Prec(c.op) > prec)
    && Stops(rest, prec)
  }

  lemma KindsTail(input: seq<Token>)
    requires input != []
    ensures Kinds(input) == [input[0].kind] + Kinds(input[1..])
  {
  }

  lemma Reassociate(a: seq<Kind>, b: seq<Kind>, c: seq<Kind>, d: seq<Kind>)
    ensures a + (b + (c + d)) == (a + b + c) + d
    ensures [] + b + c == b + c && [] + (b + (c + d)) == b + (c + d)
  {
  }

  /** Soundness of the loop: `head` stands for a phrase `c` that ends where `input` starts. The
      phrase returned begins with the words of `c`. */
  lemma {:induction false} ScanSound(input: seq<Token>, c: Phrase, prec: nat) returns (d: Phrase)
    requires Grammatical(c)
    requires c.Join? ==> Prec(c.op) > prec
    requires Stops(input, Level(c))
    requires ScanRest(input, TreeOf(c), prec).Ok?
    ensures var (t, rest) := ScanRest(input, TreeOf(c), prec).value;
      && Grammatical(d) && TreeOf(d) == t && (d.Join? ==> Prec(d.op) > prec) && Stops(rest, prec)
      && Spell(c) + Kinds(input) == Spell(d) + Kinds(rest)
    decreases |input|, 0
  {
    if Stops(input, prec) {
      d := c;
    } else {
      KindsTail(input);
      var op := input[0].kind.op;
      var r := ReadSound(input[1..], Prec(op), Pred(KOp(op)));
      var (t, rest) := GetExpr(input[1..], Prec(op), Pred(KOp(op))).value;
      var e := Join(op, c, r);
      Reassociate(Spell(c), [KOp(op)], Spell(r), Kinds(rest));
      d := ScanSound(rest, e, prec);
    }
  }

  /** What a successful `get_expr` tells. */
  ghost predicate ReadExplained(c: Phrase, input: seq<Token>, prec: nat, prev: Previous)
    requires GetExpr(input, prec, prev).Ok?
  {
    var (t, rest) := GetExpr(input, prec, prev).value;
    Explains(c, input, t, rest, prec) && (Level(c) > prec || Level(c) >= NEGATE_PREC)
  }

  lemma {:induction false} ReadSound(input: seq<Token>, prec: nat, prev: Previous) returns (c: Phrase)
    requires GetExpr(input, prec, prev).Ok?
    ensures ReadExplained(c, input, prec, prev)
    decreases |input|, 1
  {
    match input[0].kind
    case KPrim(p) =>
      KindsTail(input);
      c := ScanSound(input[1..], Single(p), prec);
    case KNot => c := ReadSoundNegation(input, prec, prev);
    case KOpen => c := ReadSoundParens(input, prec, prev);
    case _ => assert false;
  }

  lemma NegationReads(input: seq<Token>, prec: nat, prev: Previous)
    requires GetExpr(input, prec, prev).Ok? && input[0].kind.KNot?
    ensures var r := GetExpr(input[1..], NEGATE_PREC, Pred(KNot));
      r.Ok? && GetExpr(input, prec, prev) == ScanRest(r.value.1, Not(PARSED, r.value.0), prec)
  {
  }

  lemma {:induction false} ReadSoundNegation(input: seq<Token>, prec: nat, prev: Previous) returns (c: Phrase)
    requires GetExpr(input, prec, prev).Ok? && input[0].kind.KNot?
    ensures ReadExplained(c, input, prec, prev)
    decreases |input|, 0
  {
    KindsTail(input);
    NegationReads(input, prec, prev);
    hide Kinds, GetExpr, ScanRest;
    var tail := input[1..];
    var d := ReadSound(tail, NEGATE_PREC, Pred(KNot));
    var (t, rest) := GetExpr(tail, NEGATE_PREC, Pred(KNot)).value;
    Reassociate([], [KNot], Spell(d), Kinds(rest));
    c := ScanSound(rest, Negation(d), prec);
  }

  lemma ParensRead(input: seq<Token>, prec: nat, prev: Previous)
    requires GetExpr(input, prec, prev).Ok? && input[0].kind.KOpen?
    ensures var r := GetExpr(input[1..], NO_PREC, Pred(KOpen));
      && r.Ok? && r.value.1 != [] && r.value.1[0].kind.KClose?
      && GetExpr(input, prec, prev) == ScanRest(r.value.1[1..], r.value.0, prec)
  {
  }

  lemma {:induction false} ReadSoundParens(input: seq<Token>, prec: nat, prev: Previous) returns (c: Phrase)
    requires GetExpr(input, prec, prev).Ok? && input[0].kind.KOpen?
    ensures ReadExplained(c, input, prec, prev)
    decreases |input|, 0
  {
    KindsTail(input);
    ParensRead(input, prec, prev);
    hide Kinds, GetExpr, ScanRest;
    var tail := input[1..];
    var d := ReadSound(tail, NO_PREC, Pred(KOpen));
    var (t, rest) := GetExpr(tail, NO_PREC, Pred(KOpen)).value;
    KindsTail(rest);
    Reassociate([KOpen], Spell(d), [KClose], Kinds(rest[1..]));
    c := ScanSound(rest[1..], Parens(d), prec);
  }

  /** Soundness: what parses is a phrase of the grammar, and the tree is that phrase's. */
  lemma ParseSound(input: seq<Token>)
    requires Parse(input).Ok?
    ensures exists c :: Grammatical(c) && Kinds(input) == Spell(c) && TreeOf(c) == Parse(input).value
  {
    var c := ReadSound(input, NO_PREC, NoPred);
    var (t, rest) := GetExpr(input, NO_PREC, NoPred).value;
    assert Spell(c) + Kinds(rest) == Spell(c);
  }

  /** The parser accepts a list of words exactly when it is a phrase of the grammar. */
  lemma ParseExact(input: seq<Token>)
    requires OpensAreUsers(input)
    ensures Parse(input).Ok? <==> exists c :: Grammatical(c) && Kinds(input) == Spell(c)
  {
    if Parse(input).Ok? {
      ParseSound(input);
    }
    if exists c :: Grammatical(c) && Kinds(input) == Spell(c) {
      var c :| Grammatical(c) && Kinds(input) == Spell(c);
      ParsesGrammar(input, c);
    }
  }
}
