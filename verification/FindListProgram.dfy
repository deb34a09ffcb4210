/** The `predlist`s of `opt_expr` in memory: inserting, the so-called merge sort, and merging back
    into the tree. */
module FindListProgram {
  import opened FindTree
  import opened FindParser
  import opened FindHeap
  import opened FindOpt
  import opened FindChain

  /** `pred_cost_compare`. */
  function PredCostCompare(p: Predicate, q: Predicate, wantFailure: bool): int
    reads p`meta, q`meta
  {
    if p.Cost() == q.Cost() then
      if p.Rate() == q.Rate() then 0
      else if wantFailure then (if p.Rate() < q.Rate() then -1 else 1)
      else (if p.Rate() < q.Rate() then 1 else -1)
    else if p.Cost() < q.Cost() then -1 else 1
  }

  lemma ComparesValues(s: Shape, t: Shape, wantFailure: bool)
    requires s.Cell? && t.Cell? && Is(s) && Is(t)
    ensures PredCostCompare(s.node, t.node, wantFailure) == CostCompare(Value(s), Value(t), wantFailure)
  {
    hide Value, Is;
    IsOf(s);
    IsOf(t);
    ValueOf(s);
    ValueOf(t);
  }

  lemma StopIndexIs(s: seq<Item>, q: Item, k: nat)
    requires k <= |s| && (k < |s| ==> StopsAt(s[k], q)) && forall i | 0 <= i < k :: !StopsAt(s[i], q)
    ensures StopIndex(s, q) == k
  {
  }

  /** The search of `predlist_merge_sort` for a node to insert after; null at the end of the list. */
  method FindPlace(head: Predicate?, q: Predicate, ghost ys: seq<Link>, ghost x: Link)
    returns (p: Predicate?, ghost k: nat)
    requires Linked(ys, null) && head == Head(ys, null) && Carries(x) && x.node == q
    ensures k == StopIndex(ItemsOf(ys), ItemOf(x)) && k <= |ys| && p == Head(ys[k..], null)
  {
    hide Linked, ItemsOf, Carries, StopIndex, StopsAt;
    CarriesOf(x);
    p := head;
    k := 0;
    assert ys[0..] == ys;
    while p != null && !Stops(p, q)
      invariant k <= |ys| && p == Head(ys[k..], null) && Linked(ys, null) && Carries(x)
      invariant forall i | 0 <= i < k :: !StopsAt(ItemsOf(ys)[i], ItemOf(x))
      decreases |ys| - k
    {
      LinkAt(ys, k, null);
      StopsIs(ys[k], x);
      p := p.left;
      k := k + 1;
    }
    if p != null {
      LinkAt(ys, k, null);
      StopsIs(ys[k], x);
    }
    StopIndexIs(ItemsOf(ys), ItemOf(x), k);
  }

  /** Where the search stops. */
  predicate Stops(p: Predicate, q: Predicate)
    reads p, q, p.right, q.right
  {
    p.right != null && q.right != null && p.kind.KOp? && PredCostCompare(p.right, q.right, p.kind.op != Or) >= 0
  }

  lemma StopsIs(x: Link, q: Link)
    requires Carries(x) && Carries(q)
    ensures Stops(x.node, q.node) == StopsAt(ItemOf(x), ItemOf(q))
  {
    ComparesValues(x.right, q.right, x.node.kind.op != Or);
  }

  /** The chain with a node inserted where `FindPlace` says. */
  function Placed(ys: seq<Link>, x: Link, k: nat): seq<Link>
    requires k <= |ys|
  {
    if k < |ys| then ys[..k + 1] + [x] + ys[k + 1..] else [x] + ys
  }

  lemma PlacedBag(ys: seq<Link>, x: Link, k: nat)
    requires k <= |ys|
    ensures LinksBag(Placed(ys, x, k)) == LinksBag(ys) + LinkBag(x)
    ensures k < |ys| ==> LinksBag(ys) == LinksBag(ys[..k + 1]) + LinksBag(ys[k + 1..])
  {
    hide LinksBag, LinkBag;
    LinkedOne(x, null);
    if k < |ys| {
      assert ys == ys[..k + 1] + ys[k + 1..];
      BagAppend(ys[..k + 1], ys[k + 1..]);
      BagAppend(ys[..k + 1], [x]);
      BagAppend(ys[..k + 1] + [x], ys[k + 1..]);
    } else {
      BagAppend([x], ys);
    }
  }

  /** Inserting after a node of the list. */
  method InsertAfter(p: Predicate, q: Predicate, ghost ys: seq<Link>, ghost x: Link, ghost k: nat)
    requires Linked(ys, null) && Carries(x) && x.node == q && k < |ys| && p == ys[k].node
    requires Unique(LinksBag(ys) + LinkBag(x))
    modifies p`left, q`left
    ensures var zs := Placed(ys, x, k);
      Linked(zs, null) && ItemsOf(zs) == old(ItemsOf(ys))[..k + 1] + [old(ItemOf(x))] + old(ItemsOf(ys))[k + 1..]
  {
    hide Is, Value, Bag, Linked, LinksBag, LinkBag, ItemsOf, Unique;
    ghost var front, back := ys[..k + 1], ys[k + 1..];
    assert ys == front + back;
    PlacedBag(ys, x, k);
    PlaceApart(LinksBag(front), LinksBag(back), LinkBag(x));
    LinkedSplit(front, back, null);
    ItemsAppend(front, back);
    LastLink(front, Head(back, null));
    assert x.node in LinkBag(x) by {
      InLink(x);
    }
    LinkApart(x);
    assert Tail(front) == p;
    q.left := p.left;
    LinkedOne(x, Head(back, null));
    assert allocated(LinksBag(back)) && allocated(LinksBag([x]));
    SetLast(p, q, Head(back, null), front);
    LinkedAppend([x], back, null);
    LinkedAppend(front, [x] + back, null);
    ItemsAppend(front + [x], back);
    ItemsAppend(front, [x]);
    assert front + ([x] + back) == Placed(ys, x, k);
  }

  lemma InLink(x: Link)
    ensures x.node in LinkBag(x)
  {
  }

  lemma LinkApart(x: Link)
    requires Unique(LinkBag(x))
    ensures x.node !in Bag(x.right)
  {
    Parted(multiset{x.node}, Bag(x.right));
    assert x.node in multiset{x.node};
  }

  lemma PlaceApart(a: multiset<Predicate>, b: multiset<Predicate>, c: multiset<Predicate>)
    requires Unique(a + b + c)
    ensures Unique(a) && Unique(b) && Unique(c)
    ensures (forall n | n in a :: n !in b && n !in c) && (forall n | n in b :: n !in a && n !in c)
    ensures forall n | n in c :: n !in a && n !in b
  {
    Parted(a + b, c);
    Parted(a, b);
  }

  /** One turn of the loop of `predlist_merge_sort`: put `q` into the new list. */
  method PlaceOne(q: Predicate, head: Predicate?, tail: Predicate?, ghost ys: seq<Link>, ghost x: Link)
    returns (newHead: Predicate?, newTail: Predicate?, ghost zs: seq<Link>)
    requires Linked(ys, null) && head == Head(ys, null) && tail == Tail(ys) && Carries(x) && x.node == q
    requires Unique(LinksBag(ys) + LinkBag(x))
    modifies LinksBag(ys), q`left
    ensures Linked(zs, null) && newHead == Head(zs, null) && newTail == Tail(zs)
    ensures LinksBag(zs) == LinksBag(ys) + LinkBag(x)
    ensures ItemsOf(zs) == Place(old(ItemsOf(ys)), old(ItemOf(x)))
  {
    hide Is, Value, Bag, Linked, LinksBag, LinkBag, ItemsOf, Unique;
    newHead, newTail := head, tail;
    assert allocated(LinksBag(ys)) && allocated(LinkBag(x));
    var p;
    ghost var k;
    p, k := FindPlace(head, q, ys, x);
    zs := Placed(ys, x, k);
    PlacedBag(ys, x, k);
    if p != null {
      LinkAt(ys, k, null);
      InLinks(ys, k);
      var atEnd := p.left == null;
      InsertAfter(p, q, ys, x, k);
      if atEnd {
        newTail := q;
      }
    } else {
      PrependApart(ys, x);
      assert Carries(x) && Is(x.right);
      q.left := head;
      assert Carries(x);
      newHead := q;
      if tail == null {
        newTail := q;
      }
      LinkedOne(x, head);
      LinkedAppend([x], ys, null);
      ItemsAppend([x], ys);
    }
  }

  lemma InLinks(xs: seq<Link>, i: nat)
    requires i < |xs|
    ensures xs[i].node in LinksBag(xs)
    decreases i
  {
    if i > 0 {
      assert xs[1..][i - 1] == xs[i];
      InLinks(xs[1..], i - 1);
    }
  }

  lemma PrependApart(ys: seq<Link>, x: Link)
    requires Unique(LinksBag(ys) + LinkBag(x)) || Unique(LinkBag(x) + LinksBag(ys))
    ensures x.node !in LinksBag(ys) && x.node !in Bag(x.right)
  {
    assert LinkBag(x) + LinksBag(ys) == LinksBag(ys) + LinkBag(x);
    Parted(LinksBag(ys), LinkBag(x));
    Parted(multiset{x.node}, Bag(x.right));
    assert x.node in LinkBag(x) && x.node in multiset{x.node};
  }

  /** Taking the head off a list. */
  method RemoveHead(list: Predicate, ghost xs: seq<Link>) returns (rest: Predicate?)
    requires xs != [] && Linked(xs, null) && list == Head(xs, null) && Unique(LinksBag(xs))
    modifies list`left
    ensures rest == Head(xs[1..], null) && Linked(xs[1..], null) && Carries(xs[0])
    ensures old(ItemsOf(xs)) == [ItemOf(xs[0])] + ItemsOf(xs[1..])
  {
    hide Is, Value, Bag, Linked, LinksBag, LinkBag, ItemsOf, Unique;
    ghost var x, more := xs[0], xs[1..];
    FirstLink(xs);
    PrependApart(more, x);
    assert Carries(x) && Is(x.right);
    rest := list.left;
    list.left := null;
    assert Carries(x);
  }

  /** One turn of the outer loop. */
  method SortOne(list: Predicate, head: Predicate?, tail: Predicate?, ghost ys: seq<Link>, ghost rest: seq<Link>)
    returns (next: Predicate?, newHead: Predicate?, newTail: Predicate?, ghost zs: seq<Link>)
    requires rest != [] && Linked(rest, null) && list == Head(rest, null)
    requires Linked(ys, null) && head == Head(ys, null) && tail == Tail(ys)
    requires Unique(LinksBag(ys) + LinksBag(rest))
    modifies LinksBag(ys), LinksBag(rest)
    ensures Linked(rest[1..], null) && next == Head(rest[1..], null)
    ensures Linked(zs, null) && newHead == Head(zs, null) && newTail == Tail(zs)
    ensures LinksBag(zs) + LinksBag(rest[1..]) == LinksBag(ys) + LinksBag(rest)
    ensures MergeSort(ItemsOf(rest[1..]), ItemsOf(zs)) == MergeSort(old(ItemsOf(rest)), old(ItemsOf(ys)))
  {
    hide Is, Value, Bag, Linked, LinksBag, LinkBag, ItemOf, ItemsOf, Carries, Unique, Place, MergeSort;
    ghost var x, more := rest[0], rest[1..];
    FirstLink(rest);
    SortApart(LinksBag(ys), LinkBag(x), LinksBag(more));
    InLink(x);
    InAll(LinkBag(x), LinksBag(more));
    assert allocated(LinksBag(more)) && allocated(LinksBag(ys));
    next := RemoveHead(list, rest);
    SortNext(ItemOf(x), ItemsOf(more), ItemsOf(ys));
    newHead, newTail, zs := PlaceOne(list, head, tail, ys, x);
  }

  /** `predlist_merge_sort`, up to the merge into the tree. */
  method SortList(head: Predicate?, ghost xs: seq<Link>)
    returns (newHead: Predicate?, newTail: Predicate?, ghost ys: seq<Link>)
    requires Linked(xs, null) && head == Head(xs, null) && Unique(LinksBag(xs))
    modifies LinksBag(xs)
    ensures Linked(ys, null) && newHead == Head(ys, null) && newTail == Tail(ys)
    ensures LinksBag(ys) == LinksBag(xs) && ItemsOf(ys) == MergeSort(old(ItemsOf(xs)), [])
  {
    hide Linked, LinksBag, ItemsOf, Unique, MergeSort;
    newHead, newTail, ys := null, null, [];
    ghost var rest := xs;
    var list := head;
    Nothing();
    while list != null
      invariant Linked(rest, null) && list == Head(rest, null)
      invariant Linked(ys, null) && newHead == Head(ys, null) && newTail == Tail(ys)
      invariant LinksBag(ys) + LinksBag(rest) == LinksBag(xs)
      invariant MergeSort(ItemsOf(rest), ItemsOf(ys)) == MergeSort(old(ItemsOf(xs)), [])
      decreases |rest|
    {
      InAll(LinksBag(ys), LinksBag(rest));
      list, newHead, newTail, ys := SortOne(list, newHead, newTail, ys, rest);
      rest := rest[1..];
    }
    SortEnds(ItemsOf(ys));
  }

  lemma InAll(a: multiset<Predicate>, b: multiset<Predicate>)
    ensures forall n | n in a || n in b :: n in a + b
  {
  }

  lemma SortNext(item: Item, more: seq<Item>, acc: seq<Item>)
    ensures MergeSort([item] + more, acc) == MergeSort(more, Place(acc, item))
  {
    hide Place;
    assert ([item] + more)[1..] == more;
  }

  lemma SortEnds(acc: seq<Item>)
    ensures MergeSort([], acc) == acc
  {
  }

  lemma Nothing()
    ensures Linked([], null) && LinksBag([]) == multiset{} && ItemsOf([]) == []
  {
  }

  lemma FirstLink(xs: seq<Link>)
    requires xs != [] && Linked(xs, null)
    ensures xs[0].node.left == Head(xs[1..], null) && Carries(xs[0]) && Linked(xs[1..], null)
    ensures LinksBag(xs) == LinkBag(xs[0]) + LinksBag(xs[1..])
    ensures ItemsOf(xs) == [ItemOf(xs[0])] + ItemsOf(xs[1..])
  {
    CarriesOf(xs[0]);
  }

  lemma SortApart(a: multiset<Predicate>, b: multiset<Predicate>, c: multiset<Predicate>)
    requires Unique(a + (b + c))
    ensures Unique(a + b) && Unique(c) && (forall n | n in c :: n !in a && n !in b)
      && forall n | n in b :: n !in a && n !in c
    ensures forall n | n in a :: n !in b && n !in c
    ensures Unique(b + c) && Unique(b)
  {
    Parted(a, b + c);
    assert a + (b + c) == a + b + c;
    PlaceApart(a, b, c);
    Parted(a + b, c);
  }

  // ---------------------------------------------------------------- all lists of one group

  ghost function ListsBag(lists: seq<seq<Link>>): multiset<Predicate> {
    if lists == [] then multiset{} else LinksBag(lists[0]) + ListsBag(lists[1..])
  }

  /** These are the heads and tails of the lists. */
  ghost predicate ListsLinked(lists: seq<seq<Link>>, heads: seq<Predicate?>, tails: seq<Predicate?>)
    reads ListsBag(lists)
  {
    && |heads| == |lists| && |tails| == |lists|
    && (lists != [] ==>
          && Linked(lists[0], null) && heads[0] == Head(lists[0], null) && tails[0] == Tail(lists[0])
          && ListsLinked(lists[1..], heads[1..], tails[1..]))
  }

  ghost function ItemsOfLists(lists: seq<seq<Link>>): (items: seq<seq<Item>>)
    reads ListsBag(lists)
    ensures |items| == |lists|
  {
    if lists == [] then [] else [ItemsOf(lists[0])] + ItemsOfLists(lists[1..])
  }

  lemma {:induction false} ListsAppend(a: seq<seq<Link>>, b: seq<seq<Link>>)
    ensures ListsBag(a + b) == ListsBag(a) + ListsBag(b)
    ensures ItemsOfLists(a + b) == ItemsOfLists(a) + ItemsOfLists(b)
  {
    hide LinksBag, ItemsOf;
    if a == [] {
      assert a + b == b;
    } else {
      assert (a + b)[1..] == a[1..] + b;
      ListsAppend(a[1..], b);
    }
  }

  lemma {:induction false} ListsLinkedAppend(a: seq<seq<Link>>, ah: seq<Predicate?>, at: seq<Predicate?>,
                                             b: seq<seq<Link>>, bh: seq<Predicate?>, bt: seq<Predicate?>)
    requires |ah| == |at| == |a| && |bh| == |bt| == |b|
    ensures ListsLinked(a + b, ah + bh, at + bt) <==> ListsLinked(a, ah, at) && ListsLinked(b, bh, bt)
    decreases |a|
  {
    hide Linked, LinksBag;
    if a == [] {
      assert a + b == b && ah + bh == bh && at + bt == bt;
    } else {
      assert (a + b)[1..] == a[1..] + b && (ah + bh)[1..] == ah[1..] + bh && (at + bt)[1..] == at[1..] + bt;
      ListsLinkedAppend(a[1..], ah[1..], at[1..], b, bh, bt);
    }
  }

  /** One list and those behind it. */
  lemma ListsFirst(a: seq<Link>, b: seq<seq<Link>>, h: Predicate?, hs: seq<Predicate?>, t: Predicate?,
                   ts: seq<Predicate?>)
    ensures ListsLinked([a] + b, [h] + hs, [t] + ts)
       <==> Linked(a, null) && h == Head(a, null) && t == Tail(a) && ListsLinked(b, hs, ts)
    ensures ListsBag([a] + b) == LinksBag(a) + ListsBag(b)
    ensures ItemsOfLists([a] + b) == [ItemsOf(a)] + ItemsOfLists(b)
  {
    hide Linked, LinksBag, ItemsOf;
    assert ([a] + b)[1..] == b && ([h] + hs)[1..] == hs && ([t] + ts)[1..] == ts;
  }

  lemma Around<T>(s: seq<T>, k: nat)
    requires k < |s|
    ensures s == s[..k] + ([s[k]] + s[k + 1..])
  {
  }

  /** The lists before number `k`, list `k`, and those behind it. */
  lemma ListsSplit(lists: seq<seq<Link>>, heads: seq<Predicate?>, tails: seq<Predicate?>, k: nat)
    requires k < |lists| == |heads| == |tails|
    ensures ListsLinked(lists, heads, tails) <==>
      && ListsLinked(lists[..k], heads[..k], tails[..k])
      && Linked(lists[k], null) && heads[k] == Head(lists[k], null) && tails[k] == Tail(lists[k])
      && ListsLinked(lists[k + 1..], heads[k + 1..], tails[k + 1..])
    ensures ListsBag(lists) == ListsBag(lists[..k]) + (LinksBag(lists[k]) + ListsBag(lists[k + 1..]))
    ensures ItemsOfLists(lists) == ItemsOfLists(lists[..k]) + ([ItemsOf(lists[k])] + ItemsOfLists(lists[k + 1..]))
  {
    hide Linked, LinksBag, ItemsOf, ListsLinked, ListsBag, ItemsOfLists;
    Around(lists, k);
    Around(heads, k);
    Around(tails, k);
    ListsFirst(lists[k], lists[k + 1..], heads[k], heads[k + 1..], tails[k], tails[k + 1..]);
    ListsAppend(lists[..k], [lists[k]] + lists[k + 1..]);
    ListsLinkedAppend(lists[..k], heads[..k], tails[..k],
                      [lists[k]] + lists[k + 1..], [heads[k]] + heads[k + 1..], [tails[k]] + tails[k + 1..]);
  }

  /** `predlist_insert`, but for the assignment to `*pprev`: the node becomes the head of list `k`. */
  method PredlistInsert(heads: seq<Predicate?>, tails: seq<Predicate?>, k: nat, curr: Predicate,
                        ghost lists: seq<seq<Link>>, ghost x: Link)
    returns (newHeads: seq<Predicate?>, newTails: seq<Predicate?>)
    requires ListsLinked(lists, heads, tails) && k < |lists| && Carries(x) && x.node == curr
    requires Unique(ListsBag(lists) + LinkBag(x))
    modifies curr`left
    ensures var newLists := lists[k := [x] + lists[k]];
      && ListsLinked(newLists, newHeads, newTails) && ListsBag(newLists) == ListsBag(lists) + LinkBag(x)
      && ItemsOfLists(newLists) == old(ItemsOfLists(lists))[k := [old(ItemOf(x))] + old(ItemsOfLists(lists))[k]]
  {
    hide Is, Value, Bag, Linked, LinksBag, LinkBag, ItemsOf, ListsLinked, ListsBag, ItemsOfLists, Unique;
    ListsLengths(lists, heads, tails);
    ListsSplit(lists, heads, tails, k);
    InsertApart(lists, x);
    LinkApart(x);
    assert Carries(x) && Is(x.right);
    curr.left := heads[k];
    assert Carries(x);
    newHeads := heads[k := curr];
    newTails := if tails[k] == null then tails[k := curr] else tails;
    LinkedOne(x, heads[k]);
    LinkedAppend([x], lists[k], null);
    ItemsAppend([x], lists[k]);
    BagAppend([x], lists[k]);
    ghost var newLists := lists[k := [x] + lists[k]];
    ListsSplit(newLists, newHeads, newTails, k);
    Updated(lists, k, newLists[k]);
    Updated(heads, k, newHeads[k]);
    Updated(tails, k, newTails[k]);
    InsertBag(ListsBag(lists[..k]), LinkBag(x), LinksBag(lists[k]), ListsBag(lists[k + 1..]));
    UpdatedItems(ItemsOfLists(lists[..k]), ItemsOf(lists[k]), ItemsOfLists(lists[k + 1..]),
      [ItemOf(x)] + ItemsOf(lists[k]));
  }

  lemma Updated<T>(s: seq<T>, k: nat, x: T)
    requires k < |s|
    ensures s[k := x][..k] == s[..k] && s[k := x][k] == x && s[k := x][k + 1..] == s[k + 1..]
    ensures s[k := s[k]] == s
  {
  }

  lemma UpdatedItems<T>(a: seq<T>, x: T, b: seq<T>, y: T)
    ensures (a + ([x] + b))[|a| := y] == a + ([y] + b) && (a + ([x] + b))[|a|] == x
  {
  }

  lemma InsertBag(a: multiset<Predicate>, x: multiset<Predicate>, b: multiset<Predicate>, c: multiset<Predicate>)
    ensures a + ((x + b) + c) == (a + (b + c)) + x
  {
  }

  lemma InsertApart(lists: seq<seq<Link>>, x: Link)
    requires Unique(ListsBag(lists) + LinkBag(x))
    ensures x.node !in ListsBag(lists) && Unique(LinkBag(x))
  {
    Parted(ListsBag(lists), LinkBag(x));
    assert x.node in LinkBag(x);
  }

  /** `merge_lists`: sort every list and put it above what `last` pointed to; the answer is what
      `last` then points to. */
  method MergeListsInPlace(heads: seq<Predicate?>, tails: seq<Predicate?>, last: Predicate?,
                           ghost lists: seq<seq<Link>>)
    returns (top: Predicate?, ghost merged: seq<Link>)
    requires ListsLinked(lists, heads, tails) && Unique(ListsBag(lists))
    modifies ListsBag(lists)
    ensures Linked(merged, last) && top == Head(merged, last) && LinksBag(merged) == ListsBag(lists)
    ensures ItemsOf(merged) == MergeLists(old(ItemsOfLists(lists)), |lists|)
  {
    hide Linked, LinksBag, ItemsOf, Unique, MergeSort, MergeLists, ListsLinked, ListsBag, ItemsOfLists;
    top, merged := last, [];
    ghost var all := ItemsOfLists(lists);
    NoLinks(last);
    NoLists(all);
    ListsLengths(lists, heads, tails);
    assert lists[0..] == lists && heads[0..] == heads && tails[0..] == tails;
    for k := 0 to |heads|
      invariant Linked(merged, last) && top == Head(merged, last)
      invariant ListsLinked(lists[k..], heads[k..], tails[k..])
      invariant LinksBag(merged) + ListsBag(lists[k..]) == ListsBag(lists)
      invariant ItemsOfLists(lists[k..]) == all[k..]
      invariant ItemsOf(merged) == MergeLists(all, k)
    {
      NextList(lists, heads, tails, k);
      SortApart(LinksBag(merged), LinksBag(lists[k]), ListsBag(lists[k + 1..]));
      Within(LinksBag(merged), LinksBag(lists[k]), ListsBag(lists[k + 1..]));
      MergeNext(all, k);
      assert allocated(LinksBag(merged)) && allocated(ListsBag(lists[k + 1..]));
      top, merged := MergeOne(heads[k], tails[k], top, lists[k], merged, last);
    }
    NoMoreLists(lists);
  }

  /** `predlist_merge_sort` with `merge_pred`. */
  method MergeOne(head: Predicate?, tail: Predicate?, last: Predicate?, ghost xs: seq<Link>, ghost below: seq<Link>,
                  ghost end: Predicate?)
    returns (top: Predicate?, ghost merged: seq<Link>)
    requires Linked(xs, null) && head == Head(xs, null) && Linked(below, end) && last == Head(below, end)
    requires Unique(LinksBag(xs)) && forall n | n in LinksBag(xs) :: n !in LinksBag(below)
    modifies LinksBag(xs)
    ensures Linked(merged, end) && top == Head(merged, end) && LinksBag(merged) == LinksBag(xs) + LinksBag(below)
    ensures ItemsOf(merged) == MergeSort(old(ItemsOf(xs)), []) + old(ItemsOf(below))
  {
    hide Linked, LinksBag, ItemsOf, Unique, MergeSort;
    assert allocated(LinksBag(below));
    if head == null {
      NothingToMerge(xs, below);
      return last, below;
    }
    var newHead, newTail;
    ghost var ys;
    newHead, newTail, ys := SortList(head, xs);
    SortedNonempty(xs, ys);
    merged := ys + below;
    LastLink(ys, null);
    assert allocated(LinksBag(ys));
    SetLast(newTail, last, null, ys);
    top := newHead;
    LinkedAppend(ys, below, end);
    BagAppend(ys, below);
    ItemsAppend(ys, below);
  }

  lemma NoLinks(end: Predicate?)
    ensures Linked([], end) && LinksBag([]) == multiset{} && ItemsOf([]) == []
  {
  }

  lemma NoLists(all: seq<seq<Item>>)
    ensures MergeLists(all, 0) == []
  {
  }

  lemma NoMoreLists(lists: seq<seq<Link>>)
    ensures lists[|lists|..] == [] && ListsBag([]) == multiset{}
  {
  }

  lemma ListsLengths(lists: seq<seq<Link>>, heads: seq<Predicate?>, tails: seq<Predicate?>)
    requires ListsLinked(lists, heads, tails)
    ensures |heads| == |lists| == |tails|
  {
  }

  lemma NextList(lists: seq<seq<Link>>, heads: seq<Predicate?>, tails: seq<Predicate?>, k: nat)
    requires k < |lists| == |heads| == |tails| && ListsLinked(lists[k..], heads[k..], tails[k..])
    ensures Linked(lists[k], null) && heads[k] == Head(lists[k], null) && tails[k] == Tail(lists[k])
    ensures ListsLinked(lists[k + 1..], heads[k + 1..], tails[k + 1..])
    ensures ListsBag(lists[k..]) == LinksBag(lists[k]) + ListsBag(lists[k + 1..])
    ensures ItemsOfLists(lists[k..]) == [ItemsOf(lists[k])] + ItemsOfLists(lists[k + 1..])
  {
    hide Linked, LinksBag, ItemsOf;
    assert lists[k..][1..] == lists[k + 1..] && heads[k..][1..] == heads[k + 1..] && tails[k..][1..] == tails[k + 1..];
  }

  lemma Within(a: multiset<Predicate>, b: multiset<Predicate>, c: multiset<Predicate>)
    ensures forall n | n in b :: n in a + (b + c)
    ensures a + (b + c) == (b + a) + c
  {
  }

  lemma MergeNext(all: seq<seq<Item>>, k: nat)
    requires k < |all|
    ensures MergeLists(all, k + 1) == MergeSort(all[k], []) + MergeLists(all, k)
  {
  }

  lemma NothingToMerge(xs: seq<Link>, below: seq<Link>)
    requires xs == []
    ensures LinksBag(xs) + LinksBag(below) == LinksBag(below)
    ensures MergeSort(ItemsOf(xs), []) + ItemsOf(below) == ItemsOf(below)
  {
    assert ItemsOf(xs) == [] && MergeSort([], []) == [];
  }

  lemma SortedNonempty(xs: seq<Link>, ys: seq<Link>)
    requires LinksBag(ys) == LinksBag(xs) && xs != []
    ensures ys != []
  {
    InLinks(xs, 0);
    assert ys == [] ==> LinksBag(ys) == multiset{};
  }
}
