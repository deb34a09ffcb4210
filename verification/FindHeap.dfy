/** The predicate structures of find as they lie in memory, and the trees they stand for. */
module FindHeap {
  import opened FindTree
  import opened FindParser

  /** `struct predicate`, without the argument of the primary and the performance counters. */
  class Predicate {
    const kind: Kind
    const artificial: bool
    var meta: Meta
    var left: Predicate?
    var right: Predicate?
    var next: Predicate?

    constructor (kind: Kind, artificial: bool, meta: Meta, next: Predicate?)
      ensures this.kind == kind && this.artificial == artificial && this.meta == meta
      ensures left == null && right == null && this.next == next
    {
      this.kind, this.artificial, this.meta, this.next := kind, artificial, meta, next;
      left, right := null, null;
    }

    function Op(): Op
      requires kind.KOp?
    {
      kind.op
    }

    /** The `side_effects` flag. */
    function SideEffects(): bool
      reads this`meta
    {
      if kind.KPrim? then kind.p.fx else meta.fx
    }

    function Cost(): Cost
      reads this`meta
    {
      if kind.KPrim? then kind.p.cost else meta.cost
    }

    function Rate(): real
      reads this`meta
    {
      if kind.KPrim? then kind.p.rate else meta.rate
    }
  }

  /** Which structures hang below a pointer, and where. */
  datatype Shape = Null | Cell(node: Predicate, left: Shape, right: Shape)

  function Root(s: Shape): Predicate? {
    if s.Null? then null else s.node
  }

  ghost function Bag(s: Shape): multiset<Predicate> {
    if s.Null? then multiset{} else multiset{s.node} + Bag(s.left) + Bag(s.right)
  }

  /** No structure hangs in two places. */
  ghost predicate Unique(b: multiset<Predicate>) {
    forall n | n in b :: b[n] == 1
  }

  /** A node's pointers are as the shape says, and it has the operands its kind needs. */
  ghost predicate Fits(s: Shape)
    requires s.Cell?
    reads s.node`left, s.node`right
  {
    && s.node.left == Root(s.left) && s.node.right == Root(s.right)
    && match s.node.kind
       case KPrim(_) => s.left.Null? && s.right.Null?
       case KNot => s.left.Null? && s.right.Cell?
       case KOp(_) => s.right.Cell?
       case _ => false
  }

  ghost predicate Is(s: Shape)
    reads Bag(s)
  {
    s.Cell? ==> Fits(s) && Is(s.left) && Is(s.right)
  }

  lemma IsMade(s: Shape)
    requires s.Null? || (Fits(s) && Is(s.left) && Is(s.right))
    ensures Is(s)
  {
  }

  lemma IsOf(s: Shape)
    requires Is(s) && s.Cell?
    ensures Fits(s) && Is(s.left) && Is(s.right)
  {
  }

  /** The tree the structures stand for. */
  ghost function Value(s: Shape): (t: Tree)
    reads Bag(s)
    ensures t.Nil? ==> s.Null? || s.node.kind.KOpen? || s.node.kind.KClose?
    ensures s.Null? ==> t.Nil?
  {
    if s.Null? then Nil
    else
      match s.node.kind
      case KPrim(p) => Prim(p)
      case KNot => Not(s.node.meta, Value(s.right))
      case KOp(op) => Bin(op, s.node.meta, Value(s.left), Value(s.right))
      case _ => Nil
  }

  lemma ValueOf(s: Shape)
    requires s.Cell?
    ensures match s.node.kind
            case KPrim(p) => Value(s) == Prim(p)
            case KNot => Value(s) == Not(s.node.meta, Value(s.right))
            case KOp(op) => Value(s) == Bin(op, s.node.meta, Value(s.left), Value(s.right))
            case _ => true
  {
  }

  lemma {:induction false} ValueIsWellFormed(s: Shape)
    requires Is(s)
    ensures if s.Null? then Value(s).Nil? else WellFormed(Value(s))
  {
    if s.Cell? {
      ValueIsWellFormed(s.left);
      ValueIsWellFormed(s.right);
    }
  }

  lemma Parted(a: multiset<Predicate>, b: multiset<Predicate>)
    requires Unique(a + b)
    ensures Unique(a) && Unique(b) && (forall n | n in a :: n !in b) && forall n | n in b :: n !in a
  {
    forall n | n in a
      ensures a[n] == 1 && n !in b
    {
      assert n in a + b;
    }
    forall n | n in b
      ensures b[n] == 1
    {
      assert n in a + b;
    }
  }

  /** The three parts of a node's shape have no structure in common. */
  lemma Apart(s: Shape)
    requires Unique(Bag(s)) && s.Cell?
    ensures Unique(Bag(s.left)) && Unique(Bag(s.right))
    ensures s.node !in Bag(s.left) && s.node !in Bag(s.right)
    ensures forall n | n in Bag(s.left) :: n !in Bag(s.right)
    ensures forall n | n in Bag(s.right) :: n !in Bag(s.left)
  {
    Parted(multiset{s.node} + Bag(s.left), Bag(s.right));
    Parted(multiset{s.node}, Bag(s.left));
    assert s.node in multiset{s.node} + Bag(s.left);
  }

  lemma Below(s: Shape)
    requires s.Cell?
    ensures s.node in Bag(s) && |Bag(s.left)| < |Bag(s)| && |Bag(s.right)| < |Bag(s)|
    ensures (forall n | n in Bag(s.left) :: n in Bag(s)) && forall n | n in Bag(s.right) :: n in Bag(s)
  {
  }

  lemma BagOf(s: Shape)
    requires s.Cell?
    ensures Bag(s) == multiset{s.node} + Bag(s.left) + Bag(s.right)
  {
  }

  lemma Leaf(n: Predicate)
    requires n.kind.KPrim? && n.left == null && n.right == null
    ensures var s := Cell(n, Null, Null);
      Is(s) && Value(s) == Prim(n.kind.p) && Bag(s) == multiset{n}
  {
    var s := Cell(n, Null, Null);
    assert Bag(Null) == multiset{};
    IsMade(Null);
    IsMade(s);
  }

  lemma Negated(n: Predicate, a: Shape)
    requires n.kind.KNot? && n.left == null && n.right == Root(a) && Is(a) && a.Cell?
    ensures var s := Cell(n, Null, a);
      Is(s) && Value(s) == Not(n.meta, Value(a)) && Bag(s) == multiset{n} + Bag(a)
  {
    hide Is, Value;
    var s := Cell(n, Null, a);
    assert Bag(Null) == multiset{};
    IsMade(Null);
    IsMade(s);
    ValueOf(s);
  }

  lemma Joined(n: Predicate, l: Shape, r: Shape)
    requires n.kind.KOp? && n.left == Root(l) && n.right == Root(r) && Is(l) && Is(r) && r.Cell?
    ensures var s := Cell(n, l, r);
      Is(s) && Value(s) == Bin(n.kind.op, n.meta, Value(l), Value(r)) && Bag(s) == multiset{n} + Bag(l) + Bag(r)
  {
    hide Is, Value;
    var s := Cell(n, l, r);
    IsMade(s);
    ValueOf(s);
  }
}
