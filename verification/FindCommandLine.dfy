/** The predicate list `build_expression_tree` makes of the words on the command line: omitted
    conjunctions are put in, and a -print is added where nothing else prints. */
module FindCommandLine {
  import opened FindTree
  import opened FindParser
  import opened FindParserTheorem
  import opened FindPrinter

  /** Words an operand can end with. */
  predicate EndsOperand(k: Kind) {
    k.KPrim? || k.KClose?
  }

  /** Words an operand can start with: those added through `get_new_pred_chk_op`. */
  predicate StartsOperand(k: Kind) {
    k.KPrim? || k.KNot? || k.KOpen?
  }

  /** The list after one more predicate: `get_new_pred_chk_op` puts an -a between two operands. */
  function Added(list: seq<Kind>, k: Kind): seq<Kind> {
    if list != [] && EndsOperand(list[|list| - 1]) && StartsOperand(k) then list + [KOp(And), k]
    else list + [k]
  }

  function Interposed(user: seq<Kind>): seq<Kind> {
    if user == [] then [] else Added(Interposed(user[..|user| - 1]), user[|user| - 1])
  }

  /** A list of words as the predicate list holds it. */
  function UserTokens(words: seq<Kind>): (s: seq<Token>)
    ensures |s| == |words| && Kinds(s) == words
    ensures forall t | t in s :: !t.artificial
  {
    var s := seq(|words|, i requires 0 <= i < |words| => Token(words[i], false));
    assert Kinds(s) == words;
    s
  }

  /** What the list is in each of the three cases `build_expression_tree` tells apart. */
  function ListFor(user: seq<Kind>, printer: Primary, defaultPrints: bool): seq<Token> {
    if user == [] then [Token(KPrim(printer), false)]
    else if !defaultPrints then UserTokens(Interposed(user))
    else Enclosed(Interposed(user), printer)
  }

  lemma InterposedStep(user: seq<Kind>, k: Kind)
    ensures Interposed(user + [k]) == Added(Interposed(user), k)
  {
    assert (user + [k])[..|user|] == user;
  }

  lemma AddedToList(predicates: seq<Token>, words: seq<Kind>, k: Kind, next: seq<Token>)
    requires predicates == [Token(KOpen, true)] + UserTokens(words)
    requires next == predicates
      + (if EndsOperand(predicates[|predicates| - 1].kind) && StartsOperand(k) then [Token(KOp(And), false)] else [])
      + [Token(k, false)]
    ensures next == [Token(KOpen, true)] + UserTokens(Added(words, k))
  {
    var n := |words|;
    assert predicates[n].kind == if n == 0 then KOpen else words[n - 1];
  }

  /** The list built word by word, with `predicates` and its last element updated in place. */
  method BuildPredicateList(user: seq<Kind>, printer: Primary, defaultPrints: bool)
    returns (predicates: seq<Token>)
    ensures predicates == ListFor(user, printer, defaultPrints)
  {
    predicates := [Token(KOpen, true)];
    var i := 0;
    while i < |user|
      invariant 0 <= i <= |user|
      invariant predicates == [Token(KOpen, true)] + UserTokens(Interposed(user[..i]))
    {
      ghost var before := predicates;
      if EndsOperand(predicates[|predicates| - 1].kind) && StartsOperand(user[i]) {
        predicates := predicates + [Token(KOp(And), false)];
      }
      predicates := predicates + [Token(user[i], false)];
      AddedToList(before, Interposed(user[..i]), user[i], predicates);
      InterposedStep(user[..i], user[i]);
      assert user[..i] + [user[i]] == user[..i + 1];
      i := i + 1;
    }
    assert user[..|user|] == user;
    InterposedNonEmpty(user);
    if |predicates| == 1 {
      predicates := [Token(KPrim(printer), false)];
    } else if !defaultPrints {
      predicates := predicates[1..];
    } else {
      predicates := predicates + [Token(KClose, true)];
      predicates := predicates + [Token(KOp(And), false)];
      predicates := predicates + [Token(KPrim(printer), true)];
    }
  }

  lemma InterposedNonEmpty(user: seq<Kind>)
    ensures user == [] <==> Interposed(user) == []
  {
  }

  // ---------------------------------------------------------------- omitted conjunctions

  /** Between operands there is an operator, and an -a has an operand on either side. */
  predicate Alternates(s: seq<Kind>) {
    && (forall i | 0 <= i < |s| - 1 :: !(EndsOperand(s[i]) && StartsOperand(s[i + 1])))
    && (forall i | 0 <= i < |s| && s[i] == KOp(And) ::
          0 < i < |s| - 1 && EndsOperand(s[i - 1]) && StartsOperand(s[i + 1]))
  }

  /** A spelling that alternates and is an operand at both ends. */
  predicate Operand(s: seq<Kind>) {
    s != [] && Alternates(s) && StartsOperand(s[0]) && EndsOperand(s[|s| - 1])
  }

  lemma JoinAlternates(a: seq<Kind>, op: Op, b: seq<Kind>)
    requires Operand(a) && Operand(b)
    ensures Operand(a + [KOp(op)] + b)
  {
    var s, n := a + [KOp(op)] + b, |a|;
    assert forall i | 0 <= i < n :: s[i] == a[i];
    assert forall i | 0 <= i < |b| :: s[n + 1 + i] == b[i];
    forall i | 0 <= i < |s| && s[i] == KOp(And)
      ensures 0 < i < |s| - 1 && EndsOperand(s[i - 1]) && StartsOperand(s[i + 1])
    {
      if i > n {
        assert b[i - n - 1] == KOp(And);
      }
    }
    forall i | 0 <= i < |s| - 1
      ensures !(EndsOperand(s[i]) && StartsOperand(s[i + 1]))
    {
      if i > n {
        assert s[i] == b[i - n - 1] && s[i + 1] == b[i - n];
      }
    }
  }

  lemma PrefixAlternates(k: Kind, a: seq<Kind>)
    requires Operand(a) && (k.KOpen? || k.KNot?)
    ensures Operand([k] + a)
  {
    var s := [k] + a;
    forall i | 0 <= i < |s| - 1
      ensures !(EndsOperand(s[i]) && StartsOperand(s[i + 1]))
    {
      if i > 0 {
        assert s[i] == a[i - 1] && s[i + 1] == a[i];
      }
    }
    forall i | 0 <= i < |s| && s[i] == KOp(And)
      ensures 0 < i < |s| - 1 && EndsOperand(s[i - 1]) && StartsOperand(s[i + 1])
    {
      assert a[i - 1] == KOp(And);
      assert s[i - 1] == a[i - 2] && s[i + 1] == a[i];
    }
  }

  lemma CloseAlternates(a: seq<Kind>)
    requires Operand(a)
    ensures Operand(a + [KClose])
  {
    var s := a + [KClose];
    forall i | 0 <= i < |s| - 1
      ensures !(EndsOperand(s[i]) && StartsOperand(s[i + 1]))
    {
      if i < |a| - 1 {
        assert s[i] == a[i] && s[i + 1] == a[i + 1];
      }
    }
    forall i | 0 <= i < |s| && s[i] == KOp(And)
      ensures 0 < i < |s| - 1 && EndsOperand(s[i - 1]) && StartsOperand(s[i + 1])
    {
      assert a[i] == KOp(And);
      assert s[i - 1] == a[i - 1] && s[i + 1] == a[i + 1];
    }
  }

  lemma {:induction false} SpellingAlternates(c: Phrase)
    ensures Operand(Spell(c))
  {
    match c
    case Single(_) =>
    case Parens(d) =>
      SpellingAlternates(d);
      PrefixAlternates(KOpen, Spell(d));
      CloseAlternates([KOpen] + Spell(d));
    case Negation(d) =>
      SpellingAlternates(d);
      PrefixAlternates(KNot, Spell(d));
    case Join(op, l, r) =>
      SpellingAlternates(l);
      SpellingAlternates(r);
      JoinAlternates(Spell(l), op, Spell(r));
  }

  /** The words with some of the conjunctions left out: those `keep` does not ask for. */
  function Omitting(s: seq<Kind>, keep: seq<bool>): seq<Kind>
    requires |keep| == |s|
  {
    if s == [] then []
    else
      var n := |s| - 1;
      Omitting(s[..n], keep[..n]) + if s[n] == KOp(And) && !keep[n] then [] else [s[n]]
  }

  /** What the list looks like when the first `n` words have been read. */
  function Restored(s: seq<Kind>, keep: seq<bool>, n: nat): seq<Kind>
    requires |keep| == |s| && n <= |s|
  {
    if n > 0 && s[n - 1] == KOp(And) && !keep[n - 1] then s[..n - 1] else s[..n]
  }

  lemma RestoredStep(s: seq<Kind>, keep: seq<bool>, m: nat)
    requires Alternates(s) && |keep| == |s| && m < |s|
    requires !(s[m] == KOp(And) && !keep[m])
    ensures Added(Restored(s, keep, m), s[m]) == Restored(s, keep, m + 1)
  {
    if m > 0 && s[m - 1] == KOp(And) && !keep[m - 1] {
      assert s[..m - 1][m - 2] == s[m - 2];
      assert s[..m + 1] == s[..m - 1] + [s[m - 1], s[m]];
    } else {
      assert s[..m + 1] == s[..m] + [s[m]];
    }
  }

  lemma OmittingStep(s: seq<Kind>, keep: seq<bool>, m: nat)
    requires |keep| == |s| && m < |s|
    ensures var before := Omitting(s[..m], keep[..m]);
      Omitting(s[..m + 1], keep[..m + 1]) == if s[m] == KOp(And) && !keep[m] then before else before + [s[m]]
  {
    assert s[..m + 1][..m] == s[..m] && keep[..m + 1][..m] == keep[..m];
  }

  lemma {:induction false} OmittedPrefix(s: seq<Kind>, keep: seq<bool>, n: nat)
    requires Alternates(s) && |keep| == |s| && n <= |s|
    ensures Interposed(Omitting(s[..n], keep[..n])) == Restored(s, keep, n)
    decreases n
  {
    if n > 0 {
      var m := n - 1;
      OmittedPrefix(s, keep, m);
      OmittingStep(s, keep, m);
      var before := Omitting(s[..m], keep[..m]);
      if s[m] == KOp(And) && !keep[m] {
        assert EndsOperand(s[m - 1]);
      } else {
        hide Interposed, Alternates, Omitting, Added;
        InterposedStep(before, s[m]);
        RestoredStep(s, keep, m);
      }
    }
  }

  /** Whichever conjunctions the user leaves out, they come back where they belong. */
  lemma ConjunctionsRestored(c: Phrase, keep: seq<bool>)
    requires |keep| == |Spell(c)|
    ensures Interposed(Omitting(Spell(c), keep)) == Spell(c)
  {
    var s := Spell(c);
    SpellingAlternates(c);
    OmittedPrefix(s, keep, |s|);
    assert s[..|s|] == s && keep[..|s|] == keep;
  }

  /** User words between find's own parentheses. */
  function Enclosed(words: seq<Kind>, printer: Primary): seq<Token> {
    [Token(KOpen, true)] + UserTokens(words)
    + [Token(KClose, true), Token(KOp(And), false), Token(KPrim(printer), true)]
  }

  lemma EnclosedWords(c: Phrase, printer: Primary)
    ensures Kinds(Enclosed(Spell(c), printer)) == Spell(Join(And, Parens(c), Single(printer)))
  {
    var tail := [Token(KClose, true), Token(KOp(And), false), Token(KPrim(printer), true)];
    var words := UserTokens(Spell(c));
    KindsAppend([Token(KOpen, true)] + words, tail);
    KindsAppend([Token(KOpen, true)], words);
    assert Kinds([Token(KOpen, true)]) == [KOpen];
    assert Kinds(tail) == [KClose, KOp(And), KPrim(printer)];
    var s := Spell(c);
    assert [KOpen] + s + [KClose, KOp(And), KPrim(printer)]
        == ([KOpen] + s + [KClose]) + [KOp(And)] + [KPrim(printer)];
  }

  lemma EnclosedOpens(words: seq<Kind>, printer: Primary)
    requires words != [] && !words[|words| - 1].KOpen?
    ensures OpensAreUsers(Enclosed(words, printer))
  {
    var list, user := Enclosed(words, printer), UserTokens(words);
    forall i | 0 <= i < |list| - 1 && list[i].kind.KOpen?
      ensures !list[i + 1].artificial
    {
      assert i < |words|;
      assert list[i + 1] == user[i] && user[i] in user;
    }
  }

  lemma BareParses(c: Phrase)
    requires Grammatical(c)
    ensures Parse(UserTokens(Spell(c))) == Ok(TreeOf(c))
  {
    var words := UserTokens(Spell(c));
    assert forall i | 0 <= i < |words| :: words[i] in words;
    ParsesGrammar(words, c);
  }

  lemma EnclosedParses(c: Phrase, printer: Primary)
    requires Grammatical(c)
    ensures Parse(Enclosed(Spell(c), printer)) == Ok(Bin(And, PARSED, TreeOf(c), Prim(printer)))
  {
    hide Parse, Enclosed, Spell, Kinds, OpensAreUsers;
    var whole := Join(And, Parens(c), Single(printer));
    SpellingAlternates(c);
    EnclosedWords(c, printer);
    EnclosedOpens(Spell(c), printer);
    ParsesGrammar(Enclosed(Spell(c), printer), whole);
  }

  /** From the command line to the tree: the user's expression, and the default -print after all
      of it. */
  lemma CommandLineParses(c: Phrase, keep: seq<bool>, printer: Primary)
    requires Grammatical(c) && |keep| == |Spell(c)|
    ensures var user := Omitting(Spell(c), keep);
      && Parse(ListFor(user, printer, false)) == Ok(TreeOf(c))
      && Parse(ListFor(user, printer, true)) == Ok(Bin(And, PARSED, TreeOf(c), Prim(printer)))
  {
    hide Parse, Enclosed, Interposed;
    ConjunctionsRestored(c, keep);
    InterposedNonEmpty(Omitting(Spell(c), keep));
    BareParses(c);
    EnclosedParses(c, printer);
  }
}
