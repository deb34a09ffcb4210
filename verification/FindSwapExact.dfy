/** Exactly when `do_arm_swaps` can be noticed: for every tree in which a swap does harm, there are
    answers of the primaries with which find does something else. */
module FindSwapExact {
  import opened FindTree
  import opened FindSwap

  // ---------------------------------------------------------------- occurrences

  /** The ids of the primaries in a tree. */
  function Ids(t: Tree): set<nat> {
    set x | x in Parts(t) && x.APrimary? :: x.p.id
  }

  /** Every primary has an id of its own, as every predicate structure of find has an address. */
  ghost predicate Distinct(t: Tree) {
    DifferentIds(Parts(t))
  }

  ghost predicate DifferentIds(parts: multiset<Part>) {
    && (forall x | x in parts && x.APrimary? :: parts[x] == 1)
    && (forall x, y | x in parts && y in parts && x.APrimary? && y.APrimary? && x.p.id == y.p.id :: x == y)
  }

  lemma IdsOfParts(t: Tree)
    requires t.Bin?
    ensures Ids(t) == Ids(t.left) + Ids(t.right)
  {
  }

  lemma FewerIds(a: multiset<Part>, b: multiset<Part>)
    requires a <= b && DifferentIds(b)
    ensures DifferentIds(a)
  {
    assert forall x | x in a :: x in b && a[x] <= b[x];
  }

  lemma SharedIds(a: multiset<Part>, b: multiset<Part>)
    requires DifferentIds(a + b)
    ensures forall x, y | x in a && y in b && x.APrimary? && y.APrimary? :: x.p.id != y.p.id
  {
    forall x, y | x in a && y in b && x.APrimary? && y.APrimary?
      ensures x.p.id != y.p.id
    {
      assert x in a + b && y in a + b && (a + b)[x] == a[x] + b[x];
    }
  }

  lemma DistinctParts(t: Tree)
    requires Distinct(t)
    ensures t.Not? ==> Distinct(t.arg) && Ids(t.arg) == Ids(t)
    ensures t.Bin? ==>
      Distinct(t.left) && Distinct(t.right) && Ids(t.left) !! Ids(t.right) && Ids(t) == Ids(t.left) + Ids(t.right)
  {
    hide DifferentIds;
    if t.Not? {
      FewerIds(Parts(t.arg), Parts(t));
    } else if t.Bin? {
      FewerIds(Parts(t.left), Parts(t));
      FewerIds(Parts(t.right), Parts(t));
      FewerIds(Parts(t.left) + Parts(t.right), Parts(t));
      SharedIds(Parts(t.left), Parts(t.right));
      IdsOfParts(t);
    }
  }

  // ---------------------------------------------------------------- answers and actions

  /** What a tree answers when the primaries with the ids given answer true. */
  function Answer(t: Tree, ids: set<nat>): bool {
    match t
    case Nil => true
    case Prim(p) => p.id in ids
    case Not(_, a) => !Answer(a, ids)
    case Bin(op, _, l, r) => if l.Nil? || GoesOn(op, Answer(l, ids)) then Answer(r, ids) else op == Or
  }

  /** Whether the right operand is evaluated. */
  predicate GoesOn(op: Op, answer: bool) {
    match op
    case And => answer
    case Or => !answer
    case Comma => true
  }

  /** The actions done on the way. */
  function Trace(t: Tree, ids: set<nat>): seq<nat> {
    match t
    case Nil => []
    case Prim(p) => if p.fx then [p.id] else []
    case Not(_, a) => Trace(a, ids)
    case Bin(op, _, l, r) =>
      if l.Nil? then Trace(r, ids)
      else Trace(l, ids) + if GoesOn(op, Answer(l, ids)) then Trace(r, ids) else []
  }

  lemma {:induction false} EvalAnswering(t: Tree, ids: set<nat>, w: seq<nat>)
    ensures Eval(t, Answering(ids), w) == (Answer(t, ids), w + Trace(t, ids))
  {
    match t
    case Nil =>
      assert w + [] == w;
    case Prim(_) =>
      assert w + [] == w;
    case Not(_, a) => EvalAnswering(a, ids, w);
    case Bin(op, _, l, r) =>
      EvalAnswering(l, ids, w);
      EvalAnswering(r, ids, if l.Nil? then w else w + Trace(l, ids));
      assert w + Trace(l, ids) + Trace(r, ids) == w + (Trace(l, ids) + Trace(r, ids));
      assert Trace(l, ids) + [] == Trace(l, ids);
  }

  /** Only the primaries of the tree matter. */
  lemma {:induction false} Local(t: Tree, a: set<nat>, b: set<nat>)
    requires forall i | i in Ids(t) :: i in a <==> i in b
    ensures Answer(t, a) == Answer(t, b) && Trace(t, a) == Trace(t, b)
  {
    match t
    case Nil =>
    case Prim(p) =>
      assert APrimary(p) in Parts(t);
      assert p.id in Ids(t);
    case Not(_, x) =>
      assert Ids(t) == Ids(x);
      Local(x, a, b);
    case Bin(_, _, l, r) =>
      IdsOfParts(t);
      Local(l, a, b);
      Local(r, a, b);
  }

  lemma {:induction false} TraceIds(t: Tree, ids: set<nat>)
    ensures forall i | i in Trace(t, ids) :: i in Ids(t)
  {
    match t
    case Nil =>
    case Prim(p) =>
      assert APrimary(p) in Parts(t);
      assert p.id in Ids(t);
    case Not(_, x) =>
      assert Ids(t) == Ids(x);
      TraceIds(x, ids);
    case Bin(_, _, l, r) =>
      IdsOfParts(t);
      TraceIds(l, ids);
      TraceIds(r, ids);
  }

  /** The operands can be made to answer independently. */
  lemma Combine(t: Tree, a: set<nat>, b: set<nat>)
    requires t.Bin? && Distinct(t) && a <= Ids(t.left) && b <= Ids(t.right)
    ensures Answer(t.left, a + b) == Answer(t.left, a) && Trace(t.left, a + b) == Trace(t.left, a)
    ensures Answer(t.right, a + b) == Answer(t.right, b) && Trace(t.right, a + b) == Trace(t.right, b)
    ensures a + b <= Ids(t)
  {
    DistinctParts(t);
    Local(t.left, a + b, a);
    Local(t.right, a + b, b);
  }

  /** A tree can answer true and can answer false. */
  lemma {:induction false} Attain(t: Tree, answer: bool) returns (ids: set<nat>)
    requires WellFormed(t) && Distinct(t)
    ensures ids <= Ids(t) && Answer(t, ids) == answer
  {
    DistinctParts(t);
    match t
    case Prim(p) =>
      ids := if answer then {p.id} else {};
      assert APrimary(p) in Parts(t);
    case Not(_, a) =>
      ids := Attain(a, !answer);
    case Bin(op, _, l, r) =>
      var b := Attain(r, answer);
      var a := {};
      if !l.Nil? {
        a := Attain(l, op != Or);
      }
      Combine(t, a, b);
      ids := a + b;
  }

  /** A tree with an action in it can be made to act. */
  lemma {:induction false} Acts(t: Tree) returns (ids: set<nat>)
    requires WellFormed(t) && Distinct(t) && !Pure(t)
    ensures ids <= Ids(t) && Trace(t, ids) != []
  {
    DistinctParts(t);
    match t
    case Prim(p) =>
      ids := {};
    case Not(_, a) =>
      ids := Acts(a);
    case Bin(op, _, l, r) =>
      var a, b := {}, {};
      if !Pure(l) {
        a := Acts(l);
      } else {
        b := Acts(r);
        if !l.Nil? {
          a := Attain(l, op != Or);
        }
      }
      Combine(t, a, b);
      ids := a + b;
  }

  lemma {:induction false} PureIsSilent(t: Tree, ids: set<nat>)
    requires Pure(t)
    ensures Trace(t, ids) == []
  {
    match t
    case Nil =>
    case Prim(_) =>
    case Not(_, a) => PureIsSilent(a, ids);
    case Bin(_, _, l, r) =>
      PureIsSilent(l, ids);
      PureIsSilent(r, ids);
  }

  // ---------------------------------------------------------------- telling two trees apart

  /** With these answers the two trees act differently, or answer differently where that is used. */
  predicate Differ(u: Tree, t: Tree, live: bool, ids: set<nat>) {
    Trace(u, ids) != Trace(t, ids) || (live && Answer(u, ids) != Answer(t, ids))
  }

  /** Rebuilt from the same primaries. */
  ghost predicate Rebuilt(u: Tree, t: Tree) {
    Parts(u) == Parts(t) && Pure(u) == Pure(t) && (u.Nil? <==> t.Nil?) && (t.Nil? || (WellFormed(u) && WellFormed(t)))
  }

  lemma SameIds(u: Tree, t: Tree)
    requires Rebuilt(u, t)
    ensures Ids(u) == Ids(t) && (Distinct(t) ==> Distinct(u))
  {
  }

  lemma Longer(x: seq<nat>, y: seq<nat>, x': seq<nat>, y': seq<nat>)
    requires |x| < |x'| && forall i | i in y :: i !in x'
    ensures x + y != x' + y'
  {
    if y == [] {
      assert |x + y| < |x' + y'|;
    } else {
      assert y[0] in y && x'[|x|] in x';
      assert (x + y)[|x|] == y[0] && (x' + y')[|x|] == x'[|x|];
    }
  }

  /** Actions of the left and of the right operand are never confused. */
  lemma Unmixed(x: seq<nat>, y: seq<nat>, x': seq<nat>, y': seq<nat>)
    requires (forall i | i in y :: i !in x') && (forall i | i in y' :: i !in x)
    ensures x + y == x' + y' ==> x == x' && y == y'
  {
    if |x| < |x'| {
      Longer(x, y, x', y');
    } else if |x'| < |x| {
      Longer(x', y', x, y);
    } else {
      assert x == (x + y)[..|x|] && x' == (x' + y')[..|x|];
      assert y == (x + y)[|x|..] && y' == (x' + y')[|x|..];
    }
  }

  lemma TracesApart(op: Op, m: Meta, l: Tree, r: Tree, u: Tree, ids: set<nat>)
    requires u.Bin? && u.op == op && !u.left.Nil? && Distinct(u) && Rebuilt(l, u.left) && Rebuilt(r, u.right)
    ensures Trace(Bin(op, m, l, r), ids) == Trace(u, ids) ==>
      && Trace(l, ids) == Trace(u.left, ids)
      && (if GoesOn(op, Answer(l, ids)) then Trace(r, ids) else [])
         == (if GoesOn(op, Answer(u.left, ids)) then Trace(u.right, ids) else [])
  {
    DistinctParts(u);
    SameIds(l, u.left);
    SameIds(r, u.right);
    TraceIds(l, ids);
    TraceIds(u.left, ids);
    TraceIds(r, ids);
    TraceIds(u.right, ids);
    Unmixed(Trace(l, ids), if GoesOn(op, Answer(l, ids)) then Trace(r, ids) else [],
            Trace(u.left, ids), if GoesOn(op, Answer(u.left, ids)) then Trace(u.right, ids) else []);
  }

  /** A difference on the left shows where the answer of the left operand is used. */
  lemma LeftShows(u: Tree, l: Tree, r: Tree, live: bool, a: set<nat>) returns (ids: set<nat>)
    requires u.Bin? && !u.left.Nil? && Distinct(u) && Rebuilt(l, u.left) && Rebuilt(r, u.right) && !u.right.Nil?
    requires a <= Ids(u.left) && Differ(l, u.left, u.op != Comma && (live || !Pure(u.right)), a)
    ensures ids <= Ids(u) && Differ(Bin(u.op, u.meta, l, r), u, live, ids)
  {
    var t := Bin(u.op, u.meta, l, r);
    DistinctParts(u);
    SameIds(l, u.left);
    SameIds(r, u.right);
    var b := {};
    if Trace(l, a) == Trace(u.left, a) {
      var x := if GoesOn(u.op, Answer(l, a)) then r else u.right;
      if !Pure(u.right) {
        b := Acts(x);
      } else {
        b := Attain(x, u.op != Or);
      }
    }
    ids := a + b;
    Combine(u, a, b);
    Local(l, ids, a);
    Local(r, ids, b);
    TracesApart(u.op, u.meta, l, r, u, ids);
  }

  /** A difference on the right shows once the left operand lets the right one be reached. */
  lemma RightShows(u: Tree, l: Tree, r: Tree, live: bool, b: set<nat>) returns (ids: set<nat>)
    requires u.Bin? && Distinct(u) && Rebuilt(l, u.left) && Rebuilt(r, u.right) && !u.right.Nil?
    requires b <= Ids(u.right) && Differ(r, u.right, live, b)
    ensures ids <= Ids(u) && Differ(Bin(u.op, u.meta, l, r), u, live, ids)
  {
    var t := Bin(u.op, u.meta, l, r);
    DistinctParts(u);
    SameIds(l, u.left);
    SameIds(r, u.right);
    if u.left.Nil? {
      return b;
    }
    var a := Attain(u.left, u.op != Or);
    if u.op != Comma && Answer(l, a) != Answer(u.left, a) {
      PureDiffers(r, u.right, live, b);
      ids := LeftShows(u, l, r, live, a);
      return;
    }
    ids := a + b;
    Combine(u, a, b);
    Local(l, ids, a);
    Local(r, ids, b);
    TracesApart(u.op, u.meta, l, r, u, ids);
  }

  lemma PureDiffers(r: Tree, s: Tree, live: bool, ids: set<nat>)
    requires Rebuilt(r, s) && Differ(r, s, live, ids)
    ensures live || !Pure(s)
  {
    if Pure(s) {
      PureIsSilent(r, ids);
      PureIsSilent(s, ids);
    }
  }

  // ---------------------------------------------------------------- exactly when

  lemma SwappedAnswers(t: Tree, live: bool, ids: set<nat>)
    requires Normal(t) && t.Bin? && (t.op == Comma && live ==> !Fires(t))
    ensures var u := Considered(t);
      Trace(u, ids) == Trace(t, ids) && (live ==> Answer(u, ids) == Answer(t, ids))
      && (Harmless(u, live) <==> Harmless(t, live))
  {
    if Fires(t) {
      SwapKeepsHarmless(t, live);
      EvalAnswering(t, ids, []);
      EvalAnswering(Swap(t), ids, []);
      assert [] + Trace(t, ids) == Trace(t, ids) && [] + Trace(Swap(t), ids) == Trace(Swap(t), ids);
      if t.op == Comma {
        CommaSwapMeaning(t, Answering(ids), []);
      } else {
        SwapKeepsMeaning(t, Answering(ids), []);
      }
    }
  }

  lemma SwapsRebuild(t: Tree)
    requires Normal(t)
    ensures Rebuilt(ArmSwaps(t), t)
  {
    ArmSwapsKeepForm(t);
    NormalImpliesLeftsAreBinary(t);
    NormalImpliesLeftsAreBinary(ArmSwaps(t));
  }

  /** Where a comma answers for its chain and is swapped, the answer changes. */
  lemma CommaShows(t: Tree) returns (ids: set<nat>)
    requires Normal(t) && Distinct(t) && Fires(t) && t.op == Comma
    ensures ids <= Ids(t) && Answer(ArmSwaps(t), ids) != Answer(t, ids)
  {
    var x, r := t.left.right, t.right;
    DistinctParts(t);
    DistinctParts(t.left);
    SwapsRebuild(x);
    SameIds(ArmSwaps(x), x);
    NormalImpliesLeftsAreBinary(r);
    var a := Attain(ArmSwaps(x), true);
    var b := Attain(r, false);
    ids := a + b;
    Local(ArmSwaps(x), ids, a);
    Local(r, ids, b);
    assert ArmSwaps(t).right == ArmSwaps(x);
  }

  /** What one visit works on: the node after its own swap, and its operands. */
  lemma Visited(t: Tree, live: bool)
    requires Normal(t) && Distinct(t) && t.Bin? && (t.op == Comma && live ==> !Fires(t)) && !Harmless(t, live)
    ensures var u := Considered(t);
      && u.Bin? && Normal(u.left) && Normal(u.right) && Distinct(u) && Distinct(u.left) && Distinct(u.right)
      && Ids(u) == Ids(t) && Size(u.left) < Size(t) && Size(u.right) < Size(t) && !u.right.Nil?
      && Rebuilt(ArmSwaps(u.left), u.left) && Rebuilt(ArmSwaps(u.right), u.right)
      && (Harmless(u.right, live) ==> !u.left.Nil? && !Harmless(u.left, u.op != Comma && (live || !Pure(u.right))))
  {
    hide Rebuilt;
    var u := Considered(t);
    SwappedAnswers(t, live, {});
    SwapKeepsForm(t);
    assert Parts(u) == Parts(t);
    DistinctParts(u);
    SwapsRebuild(u.left);
    SwapsRebuild(u.right);
  }

  lemma ShowsThrough(t: Tree, live: bool, ids: set<nat>)
    requires Normal(t) && t.Bin? && (t.op == Comma && live ==> !Fires(t)) && Considered(t).Bin?
    requires var u := Considered(t);
      Differ(Bin(u.op, u.meta, ArmSwaps(u.left), ArmSwaps(u.right)), u, live, ids)
    ensures Differ(ArmSwaps(t), t, live, ids)
  {
    SwappedAnswers(t, live, ids);
  }

  /** Every harmful swap can be seen. */
  lemma {:induction false} Harmful(t: Tree, live: bool) returns (ids: set<nat>)
    requires Normal(t) && Distinct(t) && !Harmless(t, live)
    ensures ids <= Ids(t) && Differ(ArmSwaps(t), t, live, ids)
    decreases Size(t), 1
  {
    match t
    case Not(_, a) =>
      DistinctParts(t);
      ids := Harmful(a, live);
    case Bin(_, _, _, _) =>
      if t.op == Comma && live && Fires(t) {
        ids := CommaShows(t);
      } else {
        ids := HarmfulBelow(t, live);
      }
  }

  lemma {:induction false} HarmfulBelow(t: Tree, live: bool) returns (ids: set<nat>)
    requires Normal(t) && Distinct(t) && !Harmless(t, live) && t.Bin? && (t.op == Comma && live ==> !Fires(t))
    ensures ids <= Ids(t) && Differ(ArmSwaps(t), t, live, ids)
    decreases Size(t), 0
  {
    hide Distinct, Ids, Rebuilt, Differ, Considered, ArmSwaps, Normal, Harmless, Parts, Fires;
    Visited(t, live);
    var u := Considered(t);
    if !Harmless(u.right, live) {
      var b := Harmful(u.right, live);
      ids := RightShows(u, ArmSwaps(u.left), ArmSwaps(u.right), live, b);
    } else {
      var a := Harmful(u.left, u.op != Comma && (live || !Pure(u.right)));
      ids := LeftShows(u, ArmSwaps(u.left), ArmSwaps(u.right), live, a);
    }
    ShowsThrough(t, live, ids);
  }

  /** For every normalised tree: the swaps cannot be noticed, whatever the primaries do and
      wherever find is, if and only if none of them is harmful. With `live` the answer of the
      whole tree counts; without it only the actions do, as for the tree find evaluates. */
  lemma ArmSwapsExact(t: Tree, live: bool)
    requires Normal(t) && Distinct(t)
    ensures (forall e: Env<seq<nat>>, w: seq<nat> :: Kept(ArmSwaps(t), t, live, e, w)) <==> Harmless(t, live)
  {
    if Harmless(t, live) {
      forall e: Env<seq<nat>>, w: seq<nat>
        ensures Kept(ArmSwaps(t), t, live, e, w)
      {
        ArmSwapsMeaning(t, live, e, w);
      }
    } else {
      var ids := Harmful(t, live);
      EvalAnswering(t, ids, []);
      EvalAnswering(ArmSwaps(t), ids, []);
      assert [] + Trace(t, ids) == Trace(t, ids) && [] + Trace(ArmSwaps(t), ids) == Trace(ArmSwaps(t), ids);
      assert !Kept(ArmSwaps(t), t, live, Answering(ids), []);
    }
  }
}
