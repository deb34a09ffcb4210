/** `opt_expr` as a function on trees: normalise into left-linked chains, then reorder the pure
    primaries of each chain between the items that have side effects. */
module FindOpt {
  import opened FindTree

  /** One binary node of a chain, without its left pointer. */
  datatype Item = Item(op: Op, meta: Meta, right: Tree)

  /** The `predlist`s of one group, in the order they are merged: name tests, regular expression
      tests, then one list for every evaluation cost. Each lists nodes from head to tail along
      `pred_left`. */
  type Lists = ls: seq<seq<Item>> | |ls| == 2 + NUM_EVALUATION_COSTS
    witness [[], [], [], [], [], [], [], [], [], [], [], [], []]

  const EMPTY_LISTS: Lists := [[], [], [], [], [], [], [], [], [], [], [], [], []]

  /** The left-linked chain with these nodes, root first, ending in `t`. */
  function Hang(items: seq<Item>, t: Tree): Tree {
    if items == [] then t
    else Bin(items[0].op, items[0].meta, Hang(items[1..], t), items[0].right)
  }

  // ---------------------------------------------------------------- normalisation

  function ConstrainRate(rate: real): real {
    if rate > 1.0 then 1.0 else if rate < 0.0 then 0.0 else rate
  }

  /** The fields `set_new_parent` gives the operator it puts above `curr`. */
  function NewMeta(curr: Tree, op: Op): Meta {
    Meta(false, NEEDS_NOTHING, if op == Comma then 1.0 else ConstrainRate(NodeRate(curr)))
  }

  /** `set_new_parent`: an operator with no left operand above `curr`. */
  function Wrap(curr: Tree, op: Op): Tree {
    Bin(op, NewMeta(curr, op), Nil, curr)
  }

  /** Give the leftmost expression of the chain a binary parent if it has none. `prev` is the
      operator above it. */
  function Normalise(t: Tree, prev: Op): (n: Tree)
    ensures t.Bin? ==> n.Bin? && n.op == t.op && n.right == t.right && n.meta == t.meta
    ensures !t.Nil? ==> n.Bin?
    ensures Weight(n) == Weight(t)
  {
    match t
    case Bin(op, m, l, r) => if l.Nil? then t else Bin(op, m, Normalise(l, op), r)
    case Nil => t
    case _ => Wrap(t, prev)
  }

  // ---------------------------------------------------------------- which items move

  /** Where an item goes: it stays, or it is moved to a list. */
  datatype Slot = Stay | To(list: nat)

  const NAMES: nat := 0
  const REGEXES: nat := 1

  function CostList(c: Cost): nat {
    2 + c
  }

  /** `predicate_is_cost_free` for a primary. */
  predicate IsCostFree(p: Primary, level: nat) {
    p.nameTest || (level > 0 && p.cost == NEEDS_NOTHING)
  }

  function Classify(right: Tree, biop: Op, level: nat): (slot: Slot)
    ensures slot.To? ==> slot.list < 2 + NUM_EVALUATION_COSTS
    ensures slot.To? ==> right.Prim? && !right.p.fx && biop != Comma
  {
    if !right.Prim? || biop == Comma || right.p.fx then Stay
    else
      var p := right.p;
      if IsCostFree(p, level) then To(NAMES)
      else if p.regex then To(REGEXES)
      else if (level > 1 && (p.cost == NEEDS_TYPE || p.cost == NEEDS_INODE_NUMBER) && !p.needStat)
              || level > 2 then To(CostList(p.cost))
      else Stay
  }

  /** `predlist_insert`. */
  function Insert(ls: Lists, k: nat, x: Item): Lists
    requires k < |ls|
  {
    ls[k := [x] + ls[k]]
  }

  // ---------------------------------------------------------------- the so-called merge sort

  function CostCompare(t: Tree, u: Tree, wantFailure: bool): int {
    if NodeCost(t) == NodeCost(u) then
      if NodeRate(t) == NodeRate(u) then 0
      else if wantFailure then (if NodeRate(t) < NodeRate(u) then -1 else 1)
      else (if NodeRate(t) < NodeRate(u) then 1 else -1)
    else if NodeCost(t) < NodeCost(u) then -1 else 1
  }

  predicate StopsAt(x: Item, q: Item) {
    CostCompare(x.right, q.right, x.op != Or) >= 0
  }

  /** Index of the first node the insertion loop stops at; the length when it runs off the end. */
  function StopIndex(s: seq<Item>, q: Item): (k: nat)
    ensures k <= |s|
    ensures k < |s| ==> StopsAt(s[k], q)
    ensures forall i | 0 <= i < k :: !StopsAt(s[i], q)
  {
    if s == [] || StopsAt(s[0], q) then 0 else 1 + StopIndex(s[1..], q)
  }

  /** After the node the loop stopped at, or before everything. */
  function Place(s: seq<Item>, q: Item): seq<Item> {
    var k := StopIndex(s, q);
    if k < |s| then s[..k + 1] + [q] + s[k + 1..] else [q] + s
  }

  function MergeSort(list: seq<Item>, acc: seq<Item>): seq<Item> {
    if list == [] then acc else MergeSort(list[1..], Place(acc, list[0]))
  }

  /** `merge_lists`: the last list merged lies nearest the root. */
  function MergeLists(ls: seq<seq<Item>>, n: nat): seq<Item>
    requires n <= |ls|
  {
    if n == 0 then [] else MergeSort(ls[n - 1], []) + MergeLists(ls, n - 1)
  }

  // ---------------------------------------------------------------- the scan

  /** Reorder one chain, given root first: `ls` holds what has been taken out of the chain so
      far and is put back above the next item with side effects, or at the end. */
  function Arrange(items: seq<Item>, ls: Lists, biop: Op, level: nat): seq<Item>
    decreases |items|
  {
    if items == [] then MergeLists(ls, |ls|)
    else
      var x := items[0];
      var slot := Classify(x.right, biop, level);
      if slot.To? then Arrange(items[1..], Insert(ls, slot.list, x), biop, level)
      else if Fx(x.right) then MergeLists(ls, |ls|) + [x] + Arrange(items[1..], EMPTY_LISTS, biop, level)
      else [x] + Arrange(items[1..], ls, biop, level)
  }

  predicate AnyFx(items: seq<Item>) {
    exists x | x in items :: Fx(x.right)
  }

  /** The nodes of the chain rooted at the normalised tree `t`, root first, each with its right
      operand optimised. Where the chain goes on with another operator the rest is pushed down
      to the right of a new parent. */
  function Items(t: Tree, biop: Op, level: nat): (s: seq<Item>)
    requires t.Nil? || t.Bin?
    decreases Weight(t), if t.Bin? && t.op == biop then 1 else 3
  {
    if t.Nil? then []
    else if t.op != biop then
      var (u, fx) := Opt(t, level);
      [Item(biop, NewMeta(t, biop), WithFx(u, fx))]
    else
      [Item(t.op, t.meta, OptRight(t.right, level))]
      + if t.left.Bin? then Items(t.left, biop, level) else []
  }

  /** The right operand of a chain node after the scan has looked at it. */
  function OptRight(r: Tree, level: nat): Tree
    decreases Weight(r), if r.Bin? then 3 else 0
  {
    match r
    case Not(m, a) =>
      var (a', fx) := Opt(a, level);
      Not(m.(fx := fx), a')
    case Bin(_, _, _, _) =>
      var (r', fx) := Opt(r, level);
      WithFx(r', fx)
    case _ => r
  }

  /** `opt_expr`: the new tree and whether it has side effects. */
  function Opt(t: Tree, level: nat): (Tree, bool)
    decreases Weight(t), 2
  {
    if t.Nil? then (Nil, false)
    else
      var n := Normalise(t, And);
      var items := Items(n, n.op, level);
      (Hang(Arrange(items, EMPTY_LISTS, n.op, level), Nil), AnyFx(items))
  }
}
