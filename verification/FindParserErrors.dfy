/** Which message the parser gives, told by one pass over the words with a counter. */
module FindParserErrors {
  import opened Wrappers
  import opened FindTree
  import opened FindParser

  /** Where the pass is: in front of an operand, behind a word or at the start, or behind one. */
  datatype Place = Want(prev: Previous) | Behind

  /** The first word that cannot stand where it stands decides; `depth` counts the parentheses that
      are open. None when there is no such word. */
  function Complaint(input: seq<Token>, place: Place, depth: nat): Option<ParseError>
    decreases |input|
  {
    if place.Want? then
      if input == [] then Some(InvalidExpression)
      else
        match input[0].kind
        case KPrim(_) => Complaint(input[1..], Behind, depth)
        case KNot => Complaint(input[1..], Want(Pred(KNot)), depth)
        case KOp(_) => Some(BinaryFirst)
        case KOpen =>
          if |input| == 1 || input[1].artificial then Some(NothingAfterOpen)
          else if input[1].kind == KClose then Some(EmptyParens)
          else Complaint(input[1..], Want(Pred(KOpen)), depth + 1)
        case KClose =>
          if place.prev.NoPred? then Some(NoPrevious)
          else if input[0].artificial then Some(ExpectedAfter)
          else if place.prev.kind.KNot? || place.prev.kind.KOp? then Some(ExpectedBetween)
          else Some(TooManyClose)
    else if input == [] then if depth > 0 then Some(MissingClose) else None
    else
      match input[0].kind
      case KOp(op) => Complaint(input[1..], Want(Pred(KOp(op))), depth)
      case KClose => if depth > 0 then Complaint(input[1..], Behind, depth - 1) else Some(TooManyClose)
      case KNot => Some(InvalidExpression)
      case _ => if depth > 0 then Some(MissingClose) else Some(InvalidExpression)
  }

  /** A part of the parser that starts at `input` in `place` fails with the complaint, or leaves a
      rest behind which the pass goes on, and which nothing of this level begins. */
  ghost predicate Agrees(r: Result<(Tree, seq<Token>)>, input: seq<Token>, place: Place, prec: nat) {
    match r
    case Err(e) => forall depth: nat :: Complaint(input, place, depth) == Some(e)
    case Ok((_, rest)) =>
      Stops(rest, prec) && forall depth: nat :: Complaint(input, place, depth) == Complaint(rest, Behind, depth)
  }

  lemma {:induction false} GetExprAgrees(input: seq<Token>, prec: nat, prev: Previous)
    requires prec <= NEGATE_PREC
    ensures Agrees(GetExpr(input, prec, prev), input, Want(prev), prec)
    decreases |input|, 1
  {
    if input != [] {
      var rest := input[1..];
      match input[0].kind
      case KOp(_) =>
      case KClose =>
      case KPrim(p) => ContinueAgrees(rest, Prim(p), prec);
      case KNot =>
        GetExprAgrees(rest, NEGATE_PREC, Pred(KNot));
        var r := GetExpr(rest, NEGATE_PREC, Pred(KNot));
        if r.Ok? {
          ContinueAgrees(r.value.1, Not(PARSED, r.value.0), prec);
        }
      case KOpen =>
        GetExprAgrees(rest, NO_PREC, Pred(KOpen));
        var r := GetExpr(rest, NO_PREC, Pred(KOpen));
        if r.Ok? && r.value.1 != [] {
          ContinueAgrees(r.value.1[1..], r.value.0, prec);
        }
        OpenAgrees(input, prec, prev);
    }
  }

  /** An opening parenthesis, when what stands in it and what follows it is known. */
  lemma OpenAgrees(input: seq<Token>, prec: nat, prev: Previous)
    requires input != [] && input[0].kind.KOpen?
    requires var r := GetExpr(input[1..], NO_PREC, Pred(KOpen));
      && Agrees(r, input[1..], Want(Pred(KOpen)), NO_PREC)
      && (r.Ok? && r.value.1 != [] && r.value.1[0].kind.KClose? ==>
            Agrees(Continue(r.value.1[1..], r.value.0, prec), r.value.1[1..], Behind, prec))
    ensures Agrees(GetExpr(input, prec, prev), input, Want(prev), prec)
  {
    var rest, g := input[1..], GetExpr(input, prec, prev);
    var r := GetExpr(rest, NO_PREC, Pred(KOpen));
    forall depth: nat
      ensures Complaint(input, Want(prev), depth)
           == if g.Err? then Some(g.error) else Complaint(g.value.1, Behind, depth)
    {
      assert rest != [] ==> rest[0] == input[1];
      if rest != [] && !rest[0].artificial && !rest[0].kind.KClose? {
        assert Complaint(input, Want(prev), depth) == Complaint(rest, Want(Pred(KOpen)), depth + 1);
        if r.Ok? {
          var more := r.value.1;
          assert Complaint(rest, Want(Pred(KOpen)), depth + 1) == Complaint(more, Behind, depth + 1);
          if more != [] && more[0].kind.KClose? {
            assert Complaint(more, Behind, depth + 1) == Complaint(more[1..], Behind, depth);
          } else {
            assert Complaint(more, Behind, depth + 1) == Some(MissingClose);
          }
        }
      }
    }
  }

  lemma {:induction false} ContinueAgrees(input: seq<Token>, head: Tree, prec: nat)
    requires prec <= NEGATE_PREC
    ensures Agrees(Continue(input, head, prec), input, Behind, prec)
    decreases |input|, 1
  {
    if input != [] && KindPrec(input[0].kind) > prec {
      ScanRestAgrees(input, head, prec);
    }
  }

  lemma {:induction false} ScanRestAgrees(input: seq<Token>, head: Tree, prec: nat)
    requires prec <= NEGATE_PREC
    ensures Agrees(ScanRest(input, head, prec), input, Behind, prec)
    decreases |input|, 0
  {
    if input != [] && KindPrec(input[0].kind) > prec && input[0].kind.KOp? {
      var op := input[0].kind.op;
      GetExprAgrees(input[1..], Prec(op), Pred(KOp(op)));
      var r := GetExpr(input[1..], Prec(op), Pred(KOp(op)));
      if r.Ok? {
        ScanRestAgrees(r.value.1, Bin(op, PARSED, head, r.value.0), prec);
      }
    }
  }

  /** A list of words parses if and only if no word is out of place, and otherwise the message is
      that of the first one that is. */
  lemma MessageIs(input: seq<Token>)
    ensures var complaint := Complaint(input, Want(NoPred), 0);
      var r := Parse(input);
      if r.Ok? then complaint.None? else complaint == Some(r.error)
  {
    GetExprAgrees(input, NO_PREC, NoPred);
  }
}
