/** `opt_expr` in place: one chain of operator nodes is scanned, rearranged and linked again. */
module FindOptProgram {
  import opened FindTree
  import opened FindParser
  import opened FindHeap
  import opened FindOpt
  import opened FindChain
  import opened FindListProgram

  const NLISTS: nat := 2 + NUM_EVALUATION_COSTS

  /** What the three parts of a scan consist of never overlaps. */
  lemma PartsApart(k: multiset<Predicate>, l: multiset<Predicate>, r: multiset<Predicate>)
    requires Unique(k + l + r)
    ensures Unique(k) && Unique(l) && Unique(r)
    ensures forall n | n in k :: n !in l && n !in r
    ensures forall n | n in l :: n !in k && n !in r
    ensures forall n | n in r :: n !in k && n !in l
    ensures forall n | n in k || n in l || n in r :: n in k + l + r
  {
    PlaceApart(k, l, r);
  }

  /** The variables of `opt_expr` that lead into the tree: `*eval_treep`; the node whose left
      pointer `prevp` is the address of, null when that is `eval_treep`; and the lists. */
  datatype Cursor = Cursor(root: Predicate?, prev: Predicate?, heads: seq<Predicate?>, tails: seq<Predicate?>)

  /** What lies there: the chain scanned so far, what has been taken out of it, and what is still
      to be scanned. */
  datatype Scanned = Scanned(kept: seq<Link>, lists: seq<seq<Link>>, rest: Shape)

  ghost function All(g: Scanned): multiset<Predicate> {
    LinksBag(g.kept) + ListsBag(g.lists) + Bag(g.rest)
  }

  ghost predicate KeptIs(c: Cursor, g: Scanned)
    reads LinksBag(g.kept)
  {
    Linked(g.kept, Root(g.rest)) && c.root == Head(g.kept, Root(g.rest)) && c.prev == Tail(g.kept)
  }

  ghost predicate Valid(c: Cursor, g: Scanned)
    reads All(g)
  {
    Unique(All(g)) && KeptIs(c, g) && |g.lists| == NLISTS && ListsLinked(g.lists, c.heads, c.tails) && Is(g.rest)
  }

  lemma Overlaps(g: Scanned)
    requires Unique(All(g))
    ensures Unique(LinksBag(g.kept)) && Unique(ListsBag(g.lists)) && Unique(Bag(g.rest))
    ensures forall n | n in LinksBag(g.kept) :: n !in ListsBag(g.lists) && n !in Bag(g.rest)
    ensures forall n | n in ListsBag(g.lists) :: n !in LinksBag(g.kept) && n !in Bag(g.rest)
    ensures forall n | n in Bag(g.rest) :: n !in LinksBag(g.kept) && n !in ListsBag(g.lists)
  {
    PartsApart(LinksBag(g.kept), ListsBag(g.lists), Bag(g.rest));
  }

  /** `*prevp = p`. */
  method SetSlot(c: Cursor, p: Predicate?, ghost g: Scanned) returns (root: Predicate?)
    requires KeptIs(c, g) && Unique(LinksBag(g.kept))
    modifies LinksBag(g.kept)
    ensures Linked(g.kept, p) && root == Head(g.kept, p) && ItemsOf(g.kept) == old(ItemsOf(g.kept))
  {
    hide Linked, LinksBag, ItemsOf, Unique;
    if c.prev == null {
      root := p;
      NoLinks(p);
    } else {
      LastLink(g.kept, Root(g.rest));
      SetLast(c.prev, p, Root(g.rest), g.kept);
      root := c.root;
    }
  }

  /** `set_new_parent` for the node to be scanned next. */
  method NewParent(c: Cursor, tree: Predicate, biop: Op, ghost g: Scanned)
    returns (d: Cursor, curr: Predicate, ghost h: Scanned)
    requires Valid(c, g) && Root(g.rest) == tree
    modifies LinksBag(g.kept)
    ensures fresh(curr) && curr.kind == KOp(biop) && h == g.(rest := Cell(curr, Null, g.rest)) && d.heads == c.heads
      && d.tails == c.tails
    ensures Valid(d, h) && All(h) == All(g) + multiset{curr}
    ensures ItemsOf(h.kept) == old(ItemsOf(g.kept)) && ItemsOfLists(h.lists) == old(ItemsOfLists(g.lists))
    ensures Value(h.rest) == Wrap(old(Value(g.rest)), biop)
  {
    hide Linked, LinksBag, ItemsOf, ListsLinked, ListsBag, ItemsOfLists, Is, Value, Bag, Unique;
    Overlaps(g);
    assert allocated(Bag(g.rest)) && allocated(ListsBag(g.lists)) && allocated(LinksBag(g.kept));
    curr := MakeParent(tree, biop, g.rest);
    assert allocated(Bag(Cell(curr, Null, g.rest)));
    WrapBag(LinksBag(g.kept), ListsBag(g.lists), curr, g.rest);
    var root := SetSlot(c, curr, g);
    d := c.(root := root);
    h := g.(rest := Cell(curr, Null, g.rest));
  }

  /** `predlist_insert`: the node to be scanned next goes to list `k`. */
  method TakeOut(c: Cursor, k: nat, curr: Predicate, ghost g: Scanned) returns (d: Cursor, ghost h: Scanned)
    requires Valid(c, g) && Root(g.rest) == curr && curr.kind.KOp? && k < NLISTS
    modifies LinksBag(g.kept), curr`left
    ensures Valid(d, h) && All(h) == All(g) && h.rest == g.rest.left
    ensures ItemsOf(h.kept) == old(ItemsOf(g.kept)) && Value(h.rest) == old(Value(g.rest.left))
    ensures |g.lists| == NLISTS
      && ItemsOfLists(h.lists) == Insert(old(ItemsOfLists(g.lists)), k, old(ItemOf(Link(g.rest.node, g.rest.right))))
  {
    hide Linked, LinksBag, LinkBag, ItemOf, ItemsOf, ListsLinked, ListsBag, ItemsOfLists, Is, Value, Bag, Unique,
      Carries;
    ghost var x, s := Link(g.rest.node, g.rest.right), g.rest;
    Overlaps(g);
    RestLink(s);
    TakeBag(LinksBag(g.kept), ListsBag(g.lists), s);
    InLink(x);
    assert allocated(ListsBag(g.lists)) && allocated(Bag(s.left)) && allocated(LinkBag(x))
      && allocated(LinksBag(g.kept));
    h := Scanned(g.kept, g.lists[k := [x] + g.lists[k]], s.left);
    var root := SetSlot(c, curr.left, g);
    var heads, tails := PredlistInsert(c.heads, c.tails, k, curr, g.lists, x);
    d := c.(root := root, heads := heads, tails := tails);
  }

  /** On to the next node of the chain. */
  method Pass(c: Cursor, curr: Predicate, ghost g: Scanned) returns (d: Cursor, ghost h: Scanned)
    requires Valid(c, g) && Root(g.rest) == curr && curr.kind.KOp?
    ensures Valid(d, h) && All(h) == All(g) && h.rest == g.rest.left && h.lists == g.lists
    ensures ItemsOf(h.kept) == old(ItemsOf(g.kept)) + [old(ItemOf(Link(g.rest.node, g.rest.right)))]
    ensures ItemsOfLists(h.lists) == old(ItemsOfLists(g.lists)) && Value(h.rest) == old(Value(g.rest.left))
  {
    hide Linked, LinksBag, ItemOf, ItemsOf, ListsLinked, ListsBag, ItemsOfLists, Is, Value, Bag, Unique;
    ghost var x := Link(g.rest.node, g.rest.right);
    RestLink(g.rest);
    PassBag(g.kept, ListsBag(g.lists), g.rest);
    LinkedAppend(g.kept, [x], Root(g.rest.left));
    ItemsAppend(g.kept, [x]);
    d := c.(prev := curr);
    h := g.(kept := g.kept + [x], rest := g.rest.left);
  }

  /** Allocating and filling the new operator of `set_new_parent`. */
  method MakeParent(curr: Predicate, op: Op, ghost tree: Shape) returns (newParent: Predicate)
    requires tree.Cell? && tree.node == curr && Is(tree)
    ensures fresh(newParent) && newParent.kind == KOp(op) && Is(Cell(newParent, Null, tree))
      && Value(Cell(newParent, Null, tree)) == Wrap(Value(tree), op)
    ensures Is(tree) && Value(tree) == old(Value(tree))
  {
    hide Is, Value, Bag;
    assert allocated(Bag(tree));
    RateOf(tree);
    var rate := if op == Comma then 1.0 else ConstrainRate(curr.Rate());
    newParent := new Predicate(KOp(op), false, Meta(false, NEEDS_NOTHING, rate), null);
    newParent.left := null;
    newParent.right := curr;
    NullShape();
    Joined(newParent, Null, tree);
  }

  lemma NullShape()
    ensures Is(Null) && Value(Null) == Nil && Bag(Null) == multiset{}
  {
  }

  lemma RateOf(s: Shape)
    requires Is(s) && s.Cell?
    ensures NodeRate(Value(s)) == s.node.Rate()
  {
    hide Is, Value;
    IsOf(s);
    ValueOf(s);
  }

  lemma WrapBag(k: multiset<Predicate>, l: multiset<Predicate>, n: Predicate, tree: Shape)
    requires Unique(k + l + Bag(tree)) && n !in k && n !in l && n !in Bag(tree)
    ensures Bag(Cell(n, Null, tree)) == Bag(tree) + multiset{n}
    ensures Unique(k + l + Bag(Cell(n, Null, tree)))
    ensures k + l + Bag(Cell(n, Null, tree)) == k + l + Bag(tree) + multiset{n}
  {
    hide Unique;
    assert Bag(Cell(n, Null, tree)) == multiset{n} + Bag(Null) + Bag(tree);
    OneMoreUnique(k + l + Bag(tree), n);
    assert k + l + Bag(Cell(n, Null, tree)) == k + l + Bag(tree) + multiset{n};
  }

  lemma OneMoreUnique(b: multiset<Predicate>, n: Predicate)
    requires Unique(b) && n !in b
    ensures Unique(b + multiset{n})
  {
    var c := b + multiset{n};
    forall m | m in c
      ensures c[m] == 1
    {
      assert c[m] == b[m] + multiset{n}[m];
      if m == n {
      } else {
        assert m in b;
      }
    }
  }

  /** A tree's top node as a chain of its own. */
  lemma RestLink(s: Shape)
    requires Is(s) && s.Cell? && s.node.kind.KOp?
    ensures var x := Link(s.node, s.right);
      Linked([x], Root(s.left)) && ItemsOf([x]) == [Item(s.node.kind.op, s.node.meta, Value(s.right))]
      && LinksBag([x]) == multiset{s.node} + Bag(s.right) && Carries(x)
      && ItemOf(x) == Item(s.node.kind.op, s.node.meta, Value(s.right))
    ensures s.node.left == Root(s.left) && s.node.right == Root(s.right) && Is(s.left) && Is(s.right) && s.right.Cell?
    ensures Value(s) == Bin(s.node.kind.op, s.node.meta, Value(s.left), Value(s.right))
  {
    hide Is, Value, Bag;
    IsOf(s);
    ValueOf(s);
    LinkedOne(Link(s.node, s.right), Root(s.left));
  }

  lemma PassBag(kept: seq<Link>, l: multiset<Predicate>, s: Shape)
    requires s.Cell?
    ensures LinksBag(kept + [Link(s.node, s.right)]) + l + Bag(s.left) == LinksBag(kept) + l + Bag(s)
  {
    hide LinksBag;
    var x := Link(s.node, s.right);
    BagAppend(kept, [x]);
    LinkedOne(x, null);
    assert LinkBag(x) == multiset{s.node} + Bag(s.right);
  }

  /** The parts of a scan that `predlist_insert` moves about. */
  lemma TakeBag(kept: multiset<Predicate>, lists: multiset<Predicate>, s: Shape)
    requires s.Cell? && Unique(kept + lists + Bag(s))
    ensures var x := Link(s.node, s.right);
      && kept + (lists + LinkBag(x)) + Bag(s.left) == kept + lists + Bag(s)
      && Unique(lists + LinkBag(x)) && Unique(LinkBag(x)) && s.node in Bag(s)
      && (forall n | n in Bag(s.left) :: n !in kept && n !in lists && n != s.node)
      && forall n | n in LinkBag(x) :: n !in kept && n !in lists
  {
    var x := Link(s.node, s.right);
    assert Bag(s) == LinkBag(x) + Bag(s.left);
    assert kept + lists + (LinkBag(x) + Bag(s.left)) == kept + (lists + LinkBag(x)) + Bag(s.left);
    PlaceApart(kept, lists + LinkBag(x), Bag(s.left));
    Parted(lists, LinkBag(x));
    InLink(x);
  }

  // ---------------------------------------------------------------- normalising

  /** Every node down the left edge is a binary operator. */
  predicate Spine(s: Shape) {
    s.Null? || (s.node.kind.KOp? && Spine(s.left))
  }

  lemma {:induction false} SpineHung(xs: seq<Link>, s: Shape)
    requires (forall x | x in xs :: x.node.kind.KOp?) && Spine(s)
    ensures Spine(HangShape(xs, s))
  {
    if xs != [] {
      SpineHung(xs[1..], s);
    }
  }

  lemma {:induction false} HangOneMore(xs: seq<Link>, x: Link, s: Shape)
    ensures HangShape(xs + [x], s) == HangShape(xs, Cell(x.node, s, x.right))
  {
    if xs == [] {
      assert xs + [x] == [x];
    } else {
      assert (xs + [x])[1..] == xs[1..] + [x];
      HangOneMore(xs[1..], x, s);
    }
  }

  function LastOp(items: seq<Item>, prev: Op): Op {
    if items == [] then prev else items[|items| - 1].op
  }

  lemma {:induction false} NormaliseHung(items: seq<Item>, t: Tree, prev: Op)
    requires !t.Nil?
    ensures Normalise(Hang(items, t), prev) == Hang(items, Normalise(t, LastOp(items, prev)))
    decreases |items|
  {
    if items != [] {
      NormaliseHung(items[1..], t, items[0].op);
      assert Hang(items[1..], t) != Nil;
    }
  }

  lemma {:induction false} LastItemOp(xs: seq<Link>, prev: Op)
    requires forall x | x in xs :: x.node.kind.KOp?
    ensures LastOp(ItemsOf(xs), prev) == if xs == [] then prev else xs[|xs| - 1].node.kind.op
  {
    if xs != [] {
      assert xs[0] in xs;
      LastItemOp(xs[1..], prev);
      if |xs| > 1 {
        assert ItemsOf(xs)[1..] == ItemsOf(xs[1..]);
      }
    }
  }

  /** The first part of `opt_expr`: give the leftmost expression of the chain a parent, unless it is
      a binary operator. */
  method NormaliseLeft(tree: Predicate, ghost s: Shape) returns (top: Predicate, ghost n: Shape)
    requires Is(s) && Root(s) == tree && Unique(Bag(s))
    modifies Bag(s)
    ensures Is(n) && Root(n) == top && Spine(n) && Unique(Bag(n))
    ensures Value(n) == Normalise(old(Value(s)), And)
    ensures Bag(s) <= Bag(n) && forall m | m in Bag(n) :: m in Bag(s) || fresh(m)
  {
    hide Linked, LinksBag, ItemsOf, Is, Value, Bag, Unique, Normalise;
    var prev: Predicate? := null;
    var prevOp, curr: Predicate := And, tree;
    ghost var path: seq<Link>, rest := [], s;
    while curr.left != null
      invariant s == HangShape(path, rest) && Root(rest) == curr && prev == Tail(path)
      invariant (forall x | x in path :: x.node.kind.KOp?) && Is(HangShape(path, rest))
      invariant Value(HangShape(path, rest)) == old(Value(s))
      invariant prevOp == if path == [] then And else path[|path| - 1].node.kind.op
      decreases rest
    {
      Unhung(path, rest);
      IsOf(rest);
      HangOneMore(path, Link(curr, rest.right), rest.left);
      path := path + [Link(curr, rest.right)];
      rest := rest.left;
      prev, prevOp := curr, curr.kind.op;
      curr := curr.left;
    }
    top, n := tree, s;
    Unhung(path, rest);
    Hung(path, rest);
    IsOf(rest);
    ValueOf(rest);
    RightNotNull(rest);
    NormaliseHung(ItemsOf(path), Value(rest), And);
    LastItemOp(path, And);
    if curr.kind.KOp? {
      NormaliseOp(Value(rest), prevOp);
      SpineHung(path, rest);
    } else {
      HungBag(path, rest);
      NormaliseOther(Value(rest), prevOp);
      top, n := GiveParent(tree, prev, prevOp, curr, path, rest);
    }
  }

  lemma HungBag(path: seq<Link>, rest: Shape)
    ensures forall m | m in LinksBag(path) :: m in LinksBag(path) + Bag(rest)
  {
  }

  /** The case in which a parent is needed: `prev` is the operator above, if there is one. */
  method GiveParent(tree: Predicate, prev: Predicate?, prevOp: Op, curr: Predicate, ghost path: seq<Link>,
                    ghost rest: Shape)
    returns (top: Predicate, ghost n: Shape)
    requires Is(HangShape(path, rest)) && Root(HangShape(path, rest)) == tree && Unique(Bag(HangShape(path, rest)))
    requires Root(rest) == curr && prev == Tail(path) && !curr.kind.KOp?
    requires forall x | x in path :: x.node.kind.KOp?
    modifies LinksBag(path)
    ensures Is(n) && Root(n) == top && Spine(n) && Unique(Bag(n))
    ensures Value(n) == Hang(old(ItemsOf(path)), Wrap(old(Value(rest)), prevOp))
    ensures Bag(HangShape(path, rest)) <= Bag(n)
      && forall m | m in Bag(n) :: m in Bag(HangShape(path, rest)) || fresh(m)
  {
    hide Linked, LinksBag, ItemsOf, Is, Value, Bag, Unique;
    Unhung(path, rest);
    Hung(path, rest);
    Parted(LinksBag(path), Bag(rest));
    assert allocated(LinksBag(path)) && allocated(Bag(rest));
    var np := MakeParent(curr, prevOp, rest);
    ghost var u := Cell(np, Null, rest);
    ParentBag(LinksBag(path), np, rest);
    assert allocated(Bag(u));
    if prev == null {
      top := np;
      NoLinks(np);
    } else {
      LastLink(path, curr);
      SetLast(prev, np, curr, path);
      top := tree;
    }
    Hung(path, u);
    n := HangShape(path, u);
    SpineHung(path, u);
  }

  lemma ParentBag(k: multiset<Predicate>, n: Predicate, tree: Shape)
    requires Unique(k + Bag(tree)) && n !in k && n !in Bag(tree)
    ensures Unique(k + Bag(Cell(n, Null, tree))) && k + Bag(tree) <= k + Bag(Cell(n, Null, tree))
    ensures forall m | m in k + Bag(Cell(n, Null, tree)) :: m in k + Bag(tree) || m == n
    ensures forall m | m in k :: m !in Bag(Cell(n, Null, tree))
  {
    assert Bag(Cell(n, Null, tree)) == multiset{n} + Bag(Null) + Bag(tree);
    OneMoreUnique(k + Bag(tree), n);
    assert k + Bag(Cell(n, Null, tree)) == k + Bag(tree) + multiset{n};
    Parted(k, Bag(Cell(n, Null, tree)));
  }

  lemma RightNotNull(s: Shape)
    requires s.Cell? && Is(s)
    ensures Value(s) != Nil && (s.node.left == null ==> s.left == Null)
  {
  }

  lemma NormaliseOther(t: Tree, prev: Op)
    requires t.Prim? || t.Not?
    ensures Normalise(t, prev) == Wrap(t, prev)
  {
  }

  lemma NormaliseOp(t: Tree, prev: Op)
    requires t.Bin? && t.left.Nil?
    ensures Normalise(t, prev) == t
  {
  }
}
