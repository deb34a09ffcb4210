/** From the command line to the tree find evaluates: parsing, `opt_expr` and `do_arm_swaps`
    together. */
module FindPipeline {
  import opened FindTree
  import opened FindParser
  import opened FindPrinter
  import opened FindCommandLine
  import opened FindOpt
  import opened FindOptTheorem
  import opened FindSwap
  import opened FindSwapExact

  /** The same tree but for the cost and the success rate of its operators, which find estimates
      again between the steps. */
  predicate Alike(t: Tree, u: Tree) {
    match (t, u)
    case (Nil, Nil) => true
    case (Prim(p), Prim(q)) => p == q
    case (Not(m, a), Not(n, b)) => m.fx == n.fx && Alike(a, b)
    case (Bin(o, m, l, r), Bin(q, n, x, y)) => o == q && m.fx == n.fx && Alike(l, x) && Alike(r, y)
    case _ => false
  }

  lemma {:induction false} AlikeForm(t: Tree, u: Tree)
    requires Alike(t, u)
    ensures WellFormed(t) == WellFormed(u) && Normal(t) == Normal(u) && NoComma(t) == NoComma(u)
    ensures Parts(t) == Parts(u)
  {
    match t
    case Nil =>
    case Prim(_) =>
    case Not(_, a) => AlikeForm(a, u.arg);
    case Bin(_, _, l, r) =>
      AlikeForm(l, u.left);
      AlikeForm(r, u.right);
  }

  lemma {:induction false} AlikeMeaning<W>(t: Tree, u: Tree, e: Env<W>, w: W)
    requires Alike(t, u)
    ensures Eval(t, e, w) == Eval(u, e, w)
  {
    match t
    case Nil =>
    case Prim(_) =>
    case Not(_, a) => AlikeMeaning(a, u.arg, e, w);
    case Bin(_, _, l, r) =>
      AlikeMeaning(l, u.left, e, w);
      AlikeMeaning(r, u.right, e, if l.Nil? then w else Eval(l, e, w).1);
  }

  lemma {:induction false} ParsedForm(t: Tree)
    requires Parsed(t)
    ensures WellFormed(t)
  {
    match t
    case Prim(_) =>
    case Not(_, a) => ParsedForm(a);
    case Bin(_, _, l, r) =>
      ParsedForm(l);
      ParsedForm(r);
  }

  /** `parsed`, estimated, optimised, estimated again and swapped. */
  ghost predicate Built(parsed: Tree, estimated: Tree, optimised: Tree, final: Tree, level: nat) {
    && Alike(parsed, estimated)
    && Alike(Opt(estimated, level).0, optimised)
    && final == ArmSwaps(optimised)
  }

  /** What find evaluates always consists of the same primaries and operators as what the user
      wrote, and passes `check_normalization` before and after the swaps. */
  lemma BuiltTreeIsComplete(parsed: Tree, estimated: Tree, optimised: Tree, final: Tree, level: nat)
    requires Built(parsed, estimated, optimised, final, level)
    requires Parsed(parsed)
    ensures Parts(final) == Parts(parsed)
    ensures Normal(optimised) && optimised.Bin? && LeftsAreBinary(optimised) && final.Bin? && LeftsAreBinary(final)
    ensures NoComma(parsed) ==> forall live :: Harmless(optimised, live)
  {
    ParsedForm(parsed);
    AlikeForm(parsed, estimated);
    OptContents(estimated, level);
    AlikeForm(Opt(estimated, level).0, optimised);
    NormalImpliesLeftsAreBinary(optimised);
    ArmSwapsKeepForm(optimised);
    NormalImpliesLeftsAreBinary(final);
    if NoComma(parsed) {
      forall live
        ensures Harmless(optimised, live)
      {
        NoCommaIsHarmless(optimised, live);
      }
    }
  }

  /** Before the swaps it means what the user wrote, in every case. */
  lemma OptimisedMeaning<W>(parsed: Tree, estimated: Tree, optimised: Tree, final: Tree, level: nat, e: Env<W>, w: W)
    requires Built(parsed, estimated, optimised, final, level)
    requires Parsed(parsed)
    ensures Eval(optimised, e, w) == Eval(parsed, e, w)
  {
    ParsedForm(parsed);
    AlikeForm(parsed, estimated);
    AlikeMeaning(parsed, estimated, e, w);
    OptMeaning(estimated, level, e, w);
    AlikeMeaning(Opt(estimated, level).0, optimised, e, w);
  }

  /** And after them, if there is no comma, or no swap can be noticed. With `live` the answer of
      the whole expression counts as well; find itself only lets it act. */
  lemma BuiltTreeIsRight<W>(parsed: Tree, estimated: Tree, optimised: Tree, final: Tree, level: nat, live: bool,
                            e: Env<W>, w: W)
    requires Built(parsed, estimated, optimised, final, level)
    requires Parsed(parsed) && (NoComma(parsed) || Harmless(optimised, live))
    ensures Kept(final, parsed, live, e, w)
  {
    BuiltTreeIsComplete(parsed, estimated, optimised, final, level);
    OptimisedMeaning(parsed, estimated, optimised, final, level, e, w);
    ArmSwapsMeaning(optimised, live, e, w);
  }

  /** Exactly then, when every primary may answer and act in its own way. */
  lemma BuiltTreeExact(parsed: Tree, estimated: Tree, optimised: Tree, final: Tree, level: nat, live: bool)
    requires Built(parsed, estimated, optimised, final, level)
    requires Parsed(parsed) && Distinct(parsed)
    ensures (forall e: Env<seq<nat>>, w: seq<nat> :: Kept(final, parsed, live, e, w)) <==> Harmless(optimised, live)
  {
    hide Opt, Parsed, Parts, DifferentIds, ArmSwaps, Eval, Normal, Harmless, LeftsAreBinary;
    BuiltTreeIsComplete(parsed, estimated, optimised, final, level);
    ArmSwapsKeepForm(optimised);
    assert Distinct(optimised);
    ArmSwapsExact(optimised, live);
    forall e: Env<seq<nat>>, w: seq<nat>
      ensures Kept(final, parsed, live, e, w) <==> Kept(final, optimised, live, e, w)
    {
      OptimisedMeaning(parsed, estimated, optimised, final, level, e, w);
    }
  }

  /** What the user wrote, with the -print that find adds where nothing else prints. */
  function Written(c: Phrase, printer: Primary, defaultPrints: bool): Tree {
    if defaultPrints then Bin(And, PARSED, TreeOf(c), Prim(printer)) else TreeOf(c)
  }

  /** The steps from the words typed, with any of the conjunctions left out, to the tree. */
  ghost predicate Compiled(c: Phrase, keep: seq<bool>, printer: Primary, defaultPrints: bool,
                           estimated: Tree, optimised: Tree, final: Tree, level: nat) {
    && Grammatical(c) && |keep| == |Spell(c)|
    && var r := Parse(ListFor(Omitting(Spell(c), keep), printer, defaultPrints));
       r.Ok? ==> Built(r.value, estimated, optimised, final, level)
  }

  lemma CompiledBuilds(c: Phrase, keep: seq<bool>, printer: Primary, defaultPrints: bool,
                       estimated: Tree, optimised: Tree, final: Tree, level: nat)
    requires Compiled(c, keep, printer, defaultPrints, estimated, optimised, final, level)
    ensures var written := Written(c, printer, defaultPrints);
      Parsed(written) && Built(written, estimated, optimised, final, level)
  {
    CommandLineParses(c, keep, printer);
    TreesAreParsed(c);
  }

  /** The whole way: what find evaluates consists of what was written, acts alike and answers
      alike. */
  lemma FindMeansWhatIsWritten<W(!new)>(c: Phrase, keep: seq<bool>, printer: Primary, defaultPrints: bool,
                                        estimated: Tree, optimised: Tree, final: Tree, level: nat, live: bool,
                                        e: Env<W>)
    requires Compiled(c, keep, printer, defaultPrints, estimated, optimised, final, level)
    requires NoComma(TreeOf(c)) || Harmless(optimised, live)
    ensures Parts(final) == Parts(Written(c, printer, defaultPrints))
    ensures forall w: W :: Kept(final, Written(c, printer, defaultPrints), live, e, w)
  {
    var written := Written(c, printer, defaultPrints);
    CompiledBuilds(c, keep, printer, defaultPrints, estimated, optimised, final, level);
    BuiltTreeIsComplete(written, estimated, optimised, final, level);
    forall w: W
      ensures Kept(final, written, live, e, w)
    {
      BuiltTreeIsRight(written, estimated, optimised, final, level, live, e, w);
    }
  }

  lemma FindMeansExactly(c: Phrase, keep: seq<bool>, printer: Primary, defaultPrints: bool,
                         estimated: Tree, optimised: Tree, final: Tree, level: nat, live: bool)
    requires Compiled(c, keep, printer, defaultPrints, estimated, optimised, final, level)
    requires Distinct(Written(c, printer, defaultPrints))
    ensures (forall e: Env<seq<nat>>, w: seq<nat> :: Kept(final, Written(c, printer, defaultPrints), live, e, w))
       <==> Harmless(optimised, live)
  {
    CompiledBuilds(c, keep, printer, defaultPrints, estimated, optimised, final, level);
    BuiltTreeExact(Written(c, printer, defaultPrints), estimated, optimised, final, level, live);
  }

  // ---------------------------------------------------------------- the comma

  lemma {:induction false} NothingMerged(n: nat)
    requires n <= |EMPTY_LISTS|
    ensures MergeLists(EMPTY_LISTS, n) == []
  {
    if n > 0 {
      NothingMerged(n - 1);
      assert EMPTY_LISTS[n - 1] == [];
    }
  }

  lemma OptOfTwo(m: Meta, a: Primary, b: Primary, level: nat)
    requires !a.fx && !b.fx
    ensures var t := Bin(Comma, m, Wrap(Prim(a), Comma), Prim(b));
      Opt(t, level) == (t, false)
  {
    var w := Wrap(Prim(a), Comma);
    var n := Bin(Comma, m, w, Prim(b));
    assert Normalise(n, And) == n;
    var x, y := Item(Comma, m, Prim(b)), Item(Comma, w.meta, Prim(a));
    assert Items(w, Comma, level) == [y];
    assert Items(n, Comma, level) == [x, y];
    NothingMerged(|EMPTY_LISTS|);
    assert [y][1..] == [] && [x, y][1..] == [y];
    assert Arrange([y], EMPTY_LISTS, Comma, level) == [y];
    assert Arrange([x, y], EMPTY_LISTS, Comma, level) == [x, y];
    assert Hang([y], Nil) == w;
  }

  /** `a , b` in front of the default -print: the comma becomes an operand of an identity. */
  lemma OptOfPrinted(m: Meta, n: Meta, a: Primary, b: Primary, printer: Primary, level: nat)
    requires !a.fx && !b.fx && printer.fx
    ensures var inner := Bin(Comma, n, Wrap(Prim(a), Comma), Prim(b));
      Opt(Bin(And, m, Bin(Comma, n, Prim(a), Prim(b)), Prim(printer)), level).0
      == Bin(And, m, Bin(And, NewMeta(inner, And), Nil, WithFx(inner, false)), Prim(printer))
  {
    var inner := Bin(Comma, n, Wrap(Prim(a), Comma), Prim(b));
    var t := Bin(And, m, inner, Prim(printer));
    assert Normalise(Bin(Comma, n, Prim(a), Prim(b)), And) == inner;
    assert Normalise(Bin(And, m, Bin(Comma, n, Prim(a), Prim(b)), Prim(printer)), And) == t;
    OptOfTwo(n, a, b, level);
    var x, y := Item(And, m, Prim(printer)), Item(And, NewMeta(inner, And), WithFx(inner, false));
    assert Items(inner, And, level) == [y];
    assert Items(t, And, level) == [x, y];
    NothingMerged(|EMPTY_LISTS|);
    assert [y][1..] == [] && [x, y][1..] == [y];
    assert Arrange([y], EMPTY_LISTS, And, level) == [y];
    assert Arrange([x, y], EMPTY_LISTS, And, level) == [] + [x] + [y];
    assert [] + [x] + [y] == [x, y];
    assert Hang([y], Nil) == Bin(And, NewMeta(inner, And), Nil, WithFx(inner, false));
  }

  /** The words of `find . a , b`. */
  function TwoTests(a: Primary, b: Primary): seq<Kind> {
    [KPrim(a), KOp(Comma), KPrim(b)]
  }

  lemma TwoTestsParse(a: Primary, b: Primary, printer: Primary)
    ensures Parse(ListFor(TwoTests(a, b), printer, true))
         == Ok(Bin(And, PARSED, Bin(Comma, PARSED, Prim(a), Prim(b)), Prim(printer)))
    ensures Parsed(Bin(And, PARSED, Bin(Comma, PARSED, Prim(a), Prim(b)), Prim(printer)))
  {
    TreesAreParsed(Join(And, Join(Comma, Single(a), Single(b)), Single(printer)));
    var c := Join(Comma, Single(a), Single(b));
    assert Spell(c) == TwoTests(a, b);
    var keep := [true, true, true];
    assert Omitting(Spell(c), keep) == Spell(c) by {
      OmittingNothing(Spell(c), keep);
    }
    CommandLineParses(c, keep, printer);
  }

  lemma {:induction false} OmittingNothing(s: seq<Kind>, keep: seq<bool>)
    requires |keep| == |s| && forall k | k in keep :: k
    ensures Omitting(s, keep) == s
  {
    if s != [] {
      var n := |s| - 1;
      assert keep[n] in keep && forall k | k in keep[..n] :: k in keep;
      OmittingNothing(s[..n], keep[..n]);
      assert keep[n];
      assert Omitting(s, keep) == s[..n] + [s[n]];
    }
  }

  ghost predicate OfTwoTests(t: Tree, a: Primary, b: Primary, printer: Primary) {
    exists k: Meta, l: Meta, m: Meta, n: Meta :: t == TwoTestsTree(k, l, m, n, a, b, printer)
  }

  function TwoTestsTree(k: Meta, l: Meta, m: Meta, n: Meta, a: Primary, b: Primary, printer: Primary): Tree {
    Bin(And, k, Bin(And, l, Nil, Bin(Comma, m, Bin(Comma, n, Nil, Prim(a)), Prim(b))), Prim(printer))
  }

  /** What `opt_expr` makes of the two tests and the -print, whatever the estimates. */
  lemma TwoTestsOptimised(a: Primary, b: Primary, printer: Primary, estimated: Tree, optimised: Tree, final: Tree,
                          level: nat)
    requires !a.fx && !b.fx && printer.fx
    requires Built(Bin(And, PARSED, Bin(Comma, PARSED, Prim(a), Prim(b)), Prim(printer)), estimated, optimised, final,
      level)
    ensures OfTwoTests(optimised, a, b, printer)
  {
    hide Opt;
    assert Alike(Bin(Comma, PARSED, Prim(a), Prim(b)), estimated.left) && Alike(Prim(printer), estimated.right);
    assert Alike(Prim(a), estimated.left.left) && Alike(Prim(b), estimated.left.right);
    var m, n := estimated.meta, estimated.left.meta;
    assert estimated == Bin(And, m, Bin(Comma, n, Prim(a), Prim(b)), Prim(printer));
    OptOfPrinted(m, n, a, b, printer, level);
    var inner := Bin(Comma, n.(fx := false), Wrap(Prim(a), Comma), Prim(b));
    assert Alike(Bin(And, NewMeta(Bin(Comma, n, Wrap(Prim(a), Comma), Prim(b)), And), Nil, inner), optimised.left);
    assert Alike(inner, optimised.left.right) && Alike(Prim(printer), optimised.right);
    assert Alike(Wrap(Prim(a), Comma), optimised.left.right.left) && Alike(Prim(b), optimised.left.right.right);
    assert Alike(Prim(a), optimised.left.right.left.right) && Alike(Nil, optimised.left.right.left.left);
    assert Alike(Nil, optimised.left.left);
    assert optimised == TwoTestsTree(optimised.meta, optimised.left.meta, optimised.left.right.meta,
                                     optimised.left.right.left.meta, a, b, printer);
  }

  lemma TwoTestsApart(a: Primary, b: Primary, printer: Primary)
    requires a.id != b.id && printer.id != a.id && printer.id != b.id
    ensures Distinct(Bin(And, PARSED, Bin(Comma, PARSED, Prim(a), Prim(b)), Prim(printer)))
  {
    var comma := Bin(Comma, PARSED, Prim(a), Prim(b));
    assert Parts(comma) == multiset{APrimary(a), APrimary(b), AJoin(Comma)};
    assert Parts(Bin(And, PARSED, comma, Prim(printer)))
        == multiset{APrimary(a), APrimary(b), AJoin(Comma)} + multiset{APrimary(printer)} + multiset{AJoin(And)};
  }

  /** The one swap that is considered. */
  lemma TwoTestsHarm(k: Meta, l: Meta, m: Meta, n: Meta, a: Primary, b: Primary, printer: Primary)
    requires !a.fx && !b.fx && printer.fx && a.id != b.id
    ensures var t := TwoTestsTree(k, l, m, n, a, b, printer);
      && (Harmless(t, false) <==> a.cost <= b.cost)
      && (a.cost > b.cost ==> Eval(ArmSwaps(t), Answering({b.id}), []).1 == [])
  {
    var comma := Bin(Comma, m, Bin(Comma, n, Nil, Prim(a)), Prim(b));
    var operand := Bin(And, l, Nil, comma);
    var t := Bin(And, k, operand, Prim(printer));
    assert Fires(comma) <==> a.cost > b.cost;
    assert Harmless(Bin(Comma, n, Nil, Prim(a)), false);
    assert Harmless(comma, true) <==> !Fires(comma);
    assert Harmless(operand, true) <==> Harmless(comma, true);
    assert !Fires(operand) && !Fires(t) && !Pure(Prim(printer));
    if Fires(comma) {
      var e := Answering({b.id});
      var left := Bin(Comma, n, Nil, Prim(b));
      assert ArmSwaps(left) == left;
      var swapped := Bin(Comma, m, left, Prim(a));
      assert ArmSwaps(comma) == swapped;
      assert ArmSwaps(operand) == Bin(And, l, Nil, swapped);
      assert Eval(left, e, []) == Eval(Prim(b), e, []) == (true, []);
      assert Eval(swapped, e, []) == Eval(Prim(a), e, []) == (false, []);
      assert Eval(Bin(And, l, Nil, swapped), e, []) == (false, []);
    }
  }

  lemma TwoTestsPrint(a: Primary, b: Primary, printer: Primary)
    requires !a.fx && !b.fx && printer.fx
    ensures Eval(Bin(And, PARSED, Bin(Comma, PARSED, Prim(a), Prim(b)), Prim(printer)), Answering({b.id}), []).1
      == [printer.id]
  {
    var e := Answering({b.id});
    var comma := Bin(Comma, PARSED, Prim(a), Prim(b));
    assert Eval(Prim(a), e, []).1 == [];
    assert Eval(comma, e, []) == Eval(Prim(b), e, []) == (true, []);
    assert Eval(Bin(And, PARSED, comma, Prim(printer)), e, []) == Eval(Prim(printer), e, []);
    assert [] + [printer.id] == [printer.id];
  }

  /** `find . a , b` with two tests prints what it should, whatever the tests say, if and only if
      the first test is not the costlier one. If it is, then nothing is printed for a file that
      only the second test accepts. */
  lemma CommaOfTwoTests(a: Primary, b: Primary, printer: Primary,
                        estimated: Tree, optimised: Tree, final: Tree, level: nat)
    requires !a.fx && !b.fx && printer.fx && a.id != b.id && printer.id != a.id && printer.id != b.id
    requires var r := Parse(ListFor(TwoTests(a, b), printer, true));
      r.Ok? ==> Built(r.value, estimated, optimised, final, level)
    ensures var written := Bin(And, PARSED, Bin(Comma, PARSED, Prim(a), Prim(b)), Prim(printer));
      && ((forall e: Env<seq<nat>>, w: seq<nat> :: Eval(final, e, w).1 == Eval(written, e, w).1) <==> a.cost <= b.cost)
      && Eval(written, Answering({b.id}), []).1 == [printer.id]
      && (a.cost > b.cost ==> Eval(final, Answering({b.id}), []).1 == [])
  {
    hide Parse, ListFor, Alike, Opt, ArmSwaps, Harmless, Parsed, Distinct;
    var written := Bin(And, PARSED, Bin(Comma, PARSED, Prim(a), Prim(b)), Prim(printer));
    TwoTestsParse(a, b, printer);
    TwoTestsOptimised(a, b, printer, estimated, optimised, final, level);
    TwoTestsApart(a, b, printer);
    BuiltTreeExact(written, estimated, optimised, final, level, false);
    var k, l, m, n :| optimised == TwoTestsTree(k, l, m, n, a, b, printer);
    TwoTestsHarm(k, l, m, n, a, b, printer);
    TwoTestsPrint(a, b, printer);
    assert forall e: Env<seq<nat>>, w: seq<nat> ::
      Kept(final, written, false, e, w) <==> Eval(final, e, w).1 == Eval(written, e, w).1;
  }
}
