/** Left-linked chains of operator nodes in memory. */
module FindChain {
  import opened FindTree
  import opened FindParser
  import opened FindHeap
  import opened FindOpt

  /** A node of a chain with what hangs to its right. */
  datatype Link = Link(node: Predicate, right: Shape)

  ghost function LinkBag(x: Link): multiset<Predicate> {
    multiset{x.node} + Bag(x.right)
  }

  ghost function LinksBag(xs: seq<Link>): multiset<Predicate> {
    if xs == [] then multiset{} else LinkBag(xs[0]) + LinksBag(xs[1..])
  }

  /** The first node, or what follows an empty chain. */
  function Head(xs: seq<Link>, end: Predicate?): Predicate? {
    if xs == [] then end else xs[0].node
  }

  /** The last node; null for an empty chain. */
  function Tail(xs: seq<Link>): Predicate? {
    if xs == [] then null else xs[|xs| - 1].node
  }

  /** A node is a binary operator with this right operand. */
  ghost predicate Carries(x: Link)
    reads LinkBag(x)
  {
    x.node.kind.KOp? && x.node.right == Root(x.right) && x.right.Cell? && Is(x.right)
  }

  /** The left pointers lead through these nodes and then to `end`. */
  ghost predicate Linked(xs: seq<Link>, end: Predicate?)
    reads LinksBag(xs)
  {
    xs == [] || (xs[0].node.left == Head(xs[1..], end) && Carries(xs[0]) && Linked(xs[1..], end))
  }

  ghost function ItemOf(x: Link): Item
    requires x.node.kind.KOp?
    reads LinkBag(x)
  {
    Item(x.node.kind.op, x.node.meta, Value(x.right))
  }

  ghost function ItemsOf(xs: seq<Link>): (items: seq<Item>)
    reads LinksBag(xs)
    ensures |items| == |xs|
  {
    if xs == [] then []
    else [if xs[0].node.kind.KOp? then ItemOf(xs[0]) else Item(Comma, PARSED, Nil)] + ItemsOf(xs[1..])
  }

  function HangShape(xs: seq<Link>, s: Shape): Shape {
    if xs == [] then s else Cell(xs[0].node, HangShape(xs[1..], s), xs[0].right)
  }

  /** One place of a chain. */
  lemma {:induction false} LinkAt(xs: seq<Link>, i: nat, end: Predicate?)
    requires Linked(xs, end) && i < |xs|
    ensures xs[i].node.left == Head(xs[i + 1..], end) && Carries(xs[i])
    ensures ItemsOf(xs)[i] == ItemOf(xs[i])
    decreases i
  {
    hide Carries, ItemOf;
    if i == 0 {
      assert Carries(xs[0]) ==> xs[0].node.kind.KOp? by {
        CarriesOf(xs[0]);
      }
    } else {
      assert xs[1..][i - 1] == xs[i] && xs[1..][i..] == xs[i + 1..];
      LinkAt(xs[1..], i - 1, end);
    }
  }

  lemma CarriesOf(x: Link)
    ensures Carries(x) ==> x.node.kind.KOp? && x.right.Cell?
  {
  }

  // ---------------------------------------------------------------- putting chains together

  lemma {:induction false} BagAppend(xs: seq<Link>, ys: seq<Link>)
    ensures LinksBag(xs + ys) == LinksBag(xs) + LinksBag(ys)
  {
    if xs == [] {
      assert xs + ys == ys;
    } else {
      assert (xs + ys)[1..] == xs[1..] + ys;
      BagAppend(xs[1..], ys);
    }
  }

  lemma {:induction false} ItemsAppend(xs: seq<Link>, ys: seq<Link>)
    ensures ItemsOf(xs + ys) == ItemsOf(xs) + ItemsOf(ys)
  {
    hide ItemOf;
    if xs == [] {
      assert xs + ys == ys;
    } else {
      assert (xs + ys)[1..] == xs[1..] + ys;
      ItemsAppend(xs[1..], ys);
    }
  }

  /** Two chains of which the first leads to the second make one. */
  lemma {:induction false} LinkedAppend(xs: seq<Link>, ys: seq<Link>, end: Predicate?)
    requires Linked(xs, Head(ys, end)) && Linked(ys, end)
    ensures Linked(xs + ys, end) && Head(xs + ys, end) == Head(xs, Head(ys, end))
  {
    hide Carries;
    if xs == [] {
      assert xs + ys == ys;
    } else {
      assert (xs + ys)[1..] == xs[1..] + ys;
      LinkedAppend(xs[1..], ys, end);
    }
  }

  lemma {:induction false} LinkedSplit(xs: seq<Link>, ys: seq<Link>, end: Predicate?)
    requires Linked(xs + ys, end)
    ensures Linked(xs, Head(ys, end)) && Linked(ys, end)
  {
    hide Carries;
    if xs == [] {
      assert xs + ys == ys;
    } else {
      assert (xs + ys)[1..] == xs[1..] + ys;
      LinkedSplit(xs[1..], ys, end);
    }
  }

  /** A chain hung above a tree is a tree. */
  lemma {:induction false} Hung(xs: seq<Link>, s: Shape)
    requires Linked(xs, Root(s)) && Is(s)
    ensures var h := HangShape(xs, s);
      Is(h) && Root(h) == Head(xs, Root(s)) && Value(h) == Hang(ItemsOf(xs), Value(s))
        && Bag(h) == LinksBag(xs) + Bag(s)
  {
    hide Is, Value, Bag;
    if xs != [] {
      Hung(xs[1..], s);
      Joined(xs[0].node, HangShape(xs[1..], s), xs[0].right);
      assert ItemsOf(xs)[1..] == ItemsOf(xs[1..]);
    }
  }

  /** And the other way round. */
  lemma {:induction false} Unhung(xs: seq<Link>, s: Shape)
    requires Is(HangShape(xs, s)) && forall x | x in xs :: x.node.kind.KOp?
    ensures Linked(xs, Root(s)) && Is(s)
  {
    hide Is, Value, Bag;
    if xs != [] {
      assert xs[0] in xs;
      IsOf(HangShape(xs, s));
      Unhung(xs[1..], s);
    }
  }

  /** The left pointer of the last node can be set to lead elsewhere. */
  lemma {:induction false} LastLink(xs: seq<Link>, end: Predicate?)
    requires xs != [] && Linked(xs, end)
    ensures Tail(xs) != null && Tail(xs).left == end && Tail(xs) in LinksBag(xs)
    decreases |xs|
  {
    hide Carries;
    if |xs| == 1 {
      assert xs[1..] == [];
    } else {
      LastLink(xs[1..], end);
      assert Tail(xs) == Tail(xs[1..]);
    }
  }

  lemma LinkedOne(x: Link, end: Predicate?)
    ensures Linked([x], end) <==> x.node.left == end && Carries(x)
    ensures LinksBag([x]) == LinkBag(x)
    ensures x.node.kind.KOp? ==> ItemsOf([x]) == [ItemOf(x)]
  {
    hide Carries, ItemOf, LinkBag;
    assert [x][1..] == [];
    assert LinksBag([x]) == LinkBag(x) + LinksBag([]);
  }

  lemma Init(xs: seq<Link>)
    requires xs != []
    ensures xs == xs[..|xs| - 1] + [xs[|xs| - 1]]
  {
  }

  /** Lets the last node of a chain lead elsewhere. */
  method SetLast(last: Predicate, end: Predicate?, ghost before: Predicate?, ghost xs: seq<Link>)
    requires xs != [] && Tail(xs) == last && Linked(xs, before) && Unique(LinksBag(xs))
    modifies last`left
    ensures Linked(xs, end) && ItemsOf(xs) == old(ItemsOf(xs))
  {
    hide Is, Value, Bag, Linked, LinksBag, ItemsOf, Unique;
    ghost var init, x := xs[..|xs| - 1], xs[|xs| - 1];
    Init(xs);
    BagAppend(init, [x]);
    LinkedSplit(init, [x], before);
    ItemsAppend(init, [x]);
    LinkedOne(x, before);
    LastApart(init, x);
    last.left := end;
    LinkedOne(x, end);
    LinkedAppend(init, [x], end);
    ItemsAppend(init, [x]);
  }

  lemma LastApart(init: seq<Link>, x: Link)
    requires Unique(LinksBag(init) + LinkBag(x))
    ensures x.node !in LinksBag(init) && x.node !in Bag(x.right)
  {
    Parted(LinksBag(init), LinkBag(x));
    Parted(multiset{x.node}, Bag(x.right));
    assert x.node in LinkBag(x) && x.node in multiset{x.node};
  }
}
