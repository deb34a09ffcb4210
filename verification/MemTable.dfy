/** A hash table of singly linked chains, as mem.c keeps two of them: one for memory chunks by
    address, one for memory types by number. */
module MemTable {

  class Node<V> {
    var key: nat
    var value: V
    var next: Node?<V>

    constructor (key: nat, value: V)
      ensures this.key == key && this.value == value
    {
      this.key, this.value, next := key, value, null;
    }
  }

  /** The node at a place of a chain; null behind the last one. */
  function At<V>(chain: seq<Node<V>>, i: nat): (node: Node?<V>)
    ensures node == null <==> i >= |chain|
  {
    if i < |chain| then chain[i] else null
  }

  function Without<T>(s: seq<T>, k: nat): seq<T>
    requires k < |s|
  {
    s[..k] + s[k + 1..]
  }

  class Table<V> {
    /** `mem_hash`, of which nothing is known but its range. */
    const hash: nat -> nat
    const buckets: array<Node?<V>>
    /** The chain of each bucket, the node of each key, and all nodes ever linked. */
    ghost var chains: seq<seq<Node<V>>>
    ghost var nodes: map<nat, Node<V>>
    ghost var repr: set<Node<V>>
    /** The map the table stands for. */
    ghost var content: map<nat, V>

    /** Chain `b` is what following the links from bucket `b` leads through. */
    ghost predicate Linked(b: nat)
      requires b < |chains| && b < buckets.Length
      reads this`chains, this`repr, buckets, repr`next
    {
      && buckets[b] == At(chains[b], 0)
      && forall i | 0 <= i < |chains[b]| :: chains[b][i] in repr && chains[b][i].next == At(chains[b], i + 1)
    }

    /** Chain `b` holds each node once, and only nodes of its own keys. */
    ghost predicate Holds(b: nat)
      requires b < |chains|
      reads this`chains, this`nodes, this`repr, repr`key
    {
      && (forall i, j | 0 <= i < j < |chains[b]| :: chains[b][i] != chains[b][j])
      && forall i | 0 <= i < |chains[b]| ::
           var node := chains[b][i];
           node in repr && hash(node.key) == b && node.key in nodes && nodes[node.key] == node
    }

    /** Every key's node is in its chain. */
    ghost predicate Found()
      requires forall k :: hash(k) < |chains|
      reads this`chains, this`nodes, this`repr, repr`key
    {
      forall k | k in nodes :: nodes[k] in repr && nodes[k].key == k && nodes[k] in chains[hash(k)]
    }

    ghost predicate Stands()
      reads this`nodes, this`content, this`repr, repr`value
    {
      forall k | k in nodes :: k in content && nodes[k] in repr && nodes[k].value == content[k]
    }

    ghost predicate Valid()
      reads this, buckets, repr
    {
      && |chains| == buckets.Length > 0 && (forall k :: hash(k) < |chains|)
      && (forall b | 0 <= b < |chains| :: Linked(b))
      && (forall b | 0 <= b < |chains| :: Holds(b))
      && Found() && Stands() && content.Keys == nodes.Keys
    }

    /** The node is the one linked for its key. */
    ghost predicate Owns(node: Node<V>)
      reads this`nodes, node`key
    {
      node.key in nodes && nodes[node.key] == node
    }

    constructor (size: nat, hash: nat -> nat)
      requires size > 0 && forall k :: hash(k) < size
      ensures Valid() && content == map[] && this.hash == hash && buckets.Length == size && fresh(buckets) && repr == {}
    {
      this.hash := hash;
      buckets := new Node?<V>[size](_ => null);
      chains := seq(size, _ => []);
      nodes, content, repr := map[], map[], {};
    }

    /** The chain of a key's bucket has the key's node and no other of that key. */
    lemma InChain(key: nat)
      requires Valid()
      ensures hash(key) < |chains| == buckets.Length && buckets[hash(key)] == At(chains[hash(key)], 0)
      ensures key in nodes <==> key in content
      ensures key in nodes ==>
        nodes[key] in chains[hash(key)] && nodes[key].key == key && nodes[key] in repr
          && nodes[key].value == content[key]
      ensures forall i | 0 <= i < |chains[hash(key)]| ::
                var node := chains[hash(key)][i];
                && node.next == At(chains[hash(key)], i + 1) && node in repr
                && (node.key == key <==> key in nodes && nodes[key] == node)
    {
      assert Linked(hash(key)) && Holds(hash(key));
    }

    /** What a walk along one bucket meets at one place. */
    lemma OnChain(b: nat, i: nat)
      requires Valid() && b < buckets.Length
      ensures b < |chains| && buckets[b] == At(chains[b], 0)
      ensures i < |chains[b]| ==>
        var node := chains[b][i];
        && At(chains[b], i) == node && node.next == At(chains[b], i + 1) && node in repr && hash(node.key) == b
        && Owns(node) && node.key in content && node.value == content[node.key]
    {
      assert Linked(b) && Holds(b);
    }

    /** The keys a walk along one bucket has still to meet. */
    ghost function KeysFrom(b: nat, j: nat): (ks: set<nat>)
      requires b < |chains|
      reads this`chains, this`nodes, this`content
      ensures ks <= content.Keys
    {
      set k | k in content && k in nodes && hash(k) == b && j <= |chains[b]| && nodes[k] in chains[b][j..]
    }

    /** From the start it meets all keys of the bucket, and each once. */
    lemma BucketKeys(b: nat, j: nat)
      requires Valid() && b < buckets.Length
      ensures b < |chains| && KeysFrom(b, 0) == (set k | k in content && hash(k) == b) && KeysFrom(b, |chains[b]|) == {}
      ensures j < |chains[b]| ==>
        var k := chains[b][j].key;
        k in KeysFrom(b, j) && KeysFrom(b, j + 1) == KeysFrom(b, j) - {k}
    {
      forall k | k in content && hash(k) == b
        ensures k in KeysFrom(b, 0)
      {
        InChain(k);
        assert chains[b][0..] == chains[b];
      }
      if j < |chains[b]| {
        var chain := chains[b];
        assert Holds(b);
        OnChain(b, j);
        assert chain[j..] == [chain[j]] + chain[j + 1..];
        assert chain[j] !in chain[j + 1..];
        forall k | k in nodes
          ensures nodes[k] == chain[j] <==> k == chain[j].key
        {
          InChain(k);
        }
      }
    }

    /** No two places of a chain have the same key. */
    lemma OnePlace(b: nat, j: nat)
      requires Valid() && b < |chains| && j < |chains[b]|
      ensures forall k | 0 <= k < |chains[b]| && chains[b][k].key == chains[b][j].key :: k == j
    {
      assert Holds(b);
    }

    lemma AllChains()
      requires Valid()
      ensures |chains| == buckets.Length > 0 && (forall k :: hash(k) < |chains|) && Found() && Stands()
      ensures forall b | 0 <= b < |chains| :: Linked(b)
      ensures forall b | 0 <= b < |chains| :: Holds(b)
    {
    }

    /** The node of a key, from its own bucket. */
    method Find(key: nat) returns (node: Node?<V>)
      requires Valid()
      ensures node != null <==> key in content
      ensures node != null ==> node.key == key && Owns(node) && node in repr && node.value == content[key]
    {
      hide Valid;
      InChain(key);
      ghost var chain := chains[hash(key)];
      ghost var i := 0;
      node := buckets[hash(key)];
      while node != null && node.key != key
        invariant 0 <= i <= |chain| && node == At(chain, i)
        invariant forall j | 0 <= j < i :: chain[j].key != key
        decreases |chain| - i
      {
        node := node.next;
        i := i + 1;
      }
    }

    /** A node whose key was not in the table was in no chain. */
    twostate lemma Elsewhere(new node: Node<V>)
      requires old(Valid()) && node.key !in old(nodes) && forall n | n in old(repr) :: n.key == old(n.key)
      ensures forall c, i | 0 <= c < |old(chains)| && 0 <= i < |old(chains)[c]| ::
                old(chains)[c][i] in old(repr) && old(chains)[c][i] != node
    {
      forall c | 0 <= c < |old(chains)|
        ensures forall i | 0 <= i < |old(chains)[c]| :: old(chains)[c][i] in old(repr) && old(chains)[c][i] != node
      {
        assert old(Holds(c));
      }
    }

    /** Chains share no nodes. */
    twostate lemma Apart(b: nat)
      requires old(Valid()) && b < |old(chains)|
      ensures forall c, i | 0 <= c < |old(chains)| && 0 <= i < |old(chains)[c]| :: old(chains)[c][i] in old(repr)
      ensures forall c, i, j | 0 <= c < |old(chains)| && 0 <= i < |old(chains)[c]| && 0 <= j < |old(chains)[b]| ::
                old(chains)[c][i] == old(chains)[b][j] ==> c == b && i == j
    {
      forall c | 0 <= c < |old(chains)|
        ensures forall i | 0 <= i < |old(chains)[c]| :: old(chains)[c][i] in old(repr)
        ensures forall i, j | 0 <= i < |old(chains)[c]| && 0 <= j < |old(chains)[b]|
          && old(chains)[c][i] == old(chains)[b][j] ::
                  c == b && i == j
      {
        assert old(Holds(b)) && old(Holds(c));
      }
    }

    // ---- what a step does to one chain

    twostate lemma StillLinked(c: nat)
      requires c < |chains| == |old(chains)| && c < buckets.Length && old(Linked(c)) && old(repr) <= repr
      requires chains[c] == old(chains)[c] && buckets[c] == old(buckets[c])
      requires forall i | 0 <= i < |chains[c]| :: chains[c][i].next == old(chains[c][i].next)
      ensures Linked(c)
    {
    }

    twostate lemma PushedLinked(c: nat, new node: Node<V>)
      requires c < |chains| == |old(chains)| && c < buckets.Length && old(Linked(c)) && old(repr) <= repr
      requires chains[c] == [node] + old(chains)[c] && buckets[c] == node && node in repr
        && node.next == old(buckets[c])
      requires forall i | 0 <= i < |old(chains)[c]| :: old(chains)[c][i].next == old(chains[c][i].next)
      ensures Linked(c)
    {
      assert forall i | 0 < i < |chains[c]| :: chains[c][i] == old(chains)[c][i - 1];
    }

    twostate lemma CutLinked(c: nat, new k: nat)
      requires c < |chains| == |old(chains)| && c < buckets.Length && old(Linked(c)) && old(repr) <= repr
      requires k < |old(chains)[c]|
      requires chains[c] == old(chains)[c][..k] + old(chains)[c][k + 1..]
      requires buckets[c] == if k == 0 then old(chains[c][k].next) else old(buckets[c])
      requires k > 0 ==> old(chains)[c][k - 1].next == old(chains[c][k].next)
      requires forall i | 0 <= i < |old(chains)[c]| && i + 1 != k :: old(chains)[c][i].next == old(chains[c][i].next)
      ensures Linked(c)
    {
      var chain := old(chains)[c];
      forall i | 0 <= i < |chains[c]|
        ensures chains[c][i] in repr && chains[c][i].next == At(chains[c], i + 1)
      {
        assert chains[c][i] == chain[if i < k then i else i + 1];
      }
    }

    twostate lemma PushedHolds(c: nat, new node: Node<V>)
      requires c < |chains| == |old(chains)| && old(Holds(c)) && old(repr) <= repr && node in repr
      requires node.key !in old(nodes) && nodes == old(nodes)[node.key := node]
      requires chains[c] == if c == hash(node.key) then [node] + old(chains)[c] else old(chains)[c]
      requires forall n | n in old(repr) :: n.key == old(n.key)
      ensures Holds(c)
    {
    }

    twostate lemma CutHolds(c: nat, new key: nat, new k: nat)
      requires c < |chains| == |old(chains)| && old(Holds(c)) && old(repr) <= repr
      requires key in old(nodes) && nodes == old(nodes) - {key} && old(nodes[key].key) == key
      requires c == hash(key) ==> k < |old(chains)[c]|
      requires c == hash(key) ==> old(chains)[c][k] == old(nodes)[key]
      requires c == hash(key) ==> chains[c] == old(chains)[c][..k] + old(chains)[c][k + 1..]
      requires c != hash(key) ==> chains[c] == old(chains)[c]
      requires forall n | n in old(repr) :: n.key == old(n.key)
      ensures Holds(c)
    {
      var chain := old(chains)[c];
      assert forall i | 0 <= i < |chains[c]| :: chains[c][i] == chain[if c == hash(key) && k <= i then i + 1 else i];
    }

    twostate lemma PushedFound(new node: Node<V>)
      requires |chains| == |old(chains)| && (forall k :: hash(k) < |chains|) && old(Found()) && old(repr) <= repr
      requires node.key !in old(nodes) && nodes == old(nodes)[node.key := node] && node in repr
      requires chains == old(chains)[hash(node.key) := [node] + old(chains)[hash(node.key)]]
      requires forall n | n in old(repr) :: n.key == old(n.key)
      ensures Found()
    {
      forall k | k in nodes
        ensures nodes[k] in repr && nodes[k].key == k && nodes[k] in chains[hash(k)]
      {
        assert k == node.key ==> chains[hash(k)][0] == node;
      }
    }

    twostate lemma CutFound(key: nat, new k: nat)
      requires |chains| == |old(chains)| && (forall n :: hash(n) < |chains|) && old(Found()) && old(repr) <= repr
      requires key in old(nodes) && nodes == old(nodes) - {key}
      requires k < |old(chains)[hash(key)]| && old(chains)[hash(key)][k] == old(nodes)[key]
      requires chains == old(chains)[hash(key) := Without(old(chains)[hash(key)], k)]
      requires forall n | n in old(repr) :: n.key == old(n.key)
      ensures Found()
    {
      var chain := old(chains)[hash(key)];
      forall n | n in nodes
        ensures nodes[n] in repr && nodes[n].key == n && nodes[n] in chains[hash(n)]
      {
        if hash(n) == hash(key) {
          var i :| 0 <= i < |chain| && chain[i] == nodes[n];
          assert i != k && Without(chain, k)[if i < k then i else i - 1] == nodes[n];
        }
      }
    }

    twostate lemma PushedStands(new node: Node<V>)
      requires old(Stands()) && old(repr) <= repr && node in repr && node.key !in old(nodes)
      requires nodes == old(nodes)[node.key := node] && content == old(content)[node.key := node.value]
      requires forall n | n in old(repr) :: n.value == old(n.value)
      ensures Stands()
    {
    }

    twostate lemma CutStands(key: nat)
      requires old(Stands()) && old(repr) <= repr
      requires nodes == old(nodes) - {key} && content == old(content) - {key}
      requires forall n | n in old(repr) :: n.value == old(n.value)
      ensures Stands()
    {
    }

    // ---- what a step does to the table

    twostate predicate SameData()
      reads this, repr
    {
      old(repr) <= repr && forall n | n in old(repr) :: n.key == old(n.key) && n.value == old(n.value)
    }

    /** The effect of `Push`, assignment by assignment. */
    twostate predicate DidPush(new node: Node<V>)
      requires hash(node.key) < |old(chains)| == buckets.Length
      reads this, buckets, repr, node
    {
      var b := hash(node.key);
      && SameData() && repr == old(repr) + {node}
      && chains == old(chains)[b := [node] + old(chains)[b]]
      && nodes == old(nodes)[node.key := node] && content == old(content)[node.key := node.value]
      && node.next == old(buckets[b])
      && (forall c | 0 <= c < buckets.Length :: buckets[c] == if c == b then node else old(buckets[c]))
      && forall n | n in old(repr) && n != node :: n.next == old(n.next)
    }

    twostate lemma PushKeepsLinks(new node: Node<V>)
      requires old(Valid()) && node.key !in old(nodes) && hash(node.key) < |old(chains)| && DidPush(node)
      ensures forall c | 0 <= c < |chains| :: Linked(c)
    {
      hide Linked, Holds, Found, Stands;
      Elsewhere(node);
      forall c | 0 <= c < |chains|
        ensures Linked(c)
      {
        assert old(Linked(c));
        if c == hash(node.key) {
          PushedLinked(c, node);
        } else {
          StillLinked(c);
        }
      }
    }

    twostate lemma PushKeepsKeys(new node: Node<V>)
      requires old(Valid()) && node.key !in old(nodes) && hash(node.key) < |old(chains)| && DidPush(node)
      ensures (forall c | 0 <= c < |chains| :: Holds(c)) && (forall k :: hash(k) < |chains|) && Found() && Stands()
    {
      hide Linked, Holds, Found, Stands;
      forall c | 0 <= c < |chains|
        ensures Holds(c)
      {
        assert old(Holds(c));
        PushedHolds(c, node);
      }
      PushedFound(node);
      PushedStands(node);
    }

    /** Puts a node in front of its chain. */
    method Push(node: Node<V>)
      requires Valid() && node.key !in content
      modifies this`chains, this`nodes, this`content, this`repr, buckets, node`next
      ensures Valid() && Owns(node) && repr == old(repr) + {node}
      ensures content == old(content)[node.key := node.value]
      ensures chains == old(chains)[hash(node.key) := [node] + old(chains)[hash(node.key)]]
    {
      hide Linked, Holds, Found, Stands;
      var b := hash(node.key);
      Elsewhere(node);
      var first := buckets[b];
      buckets[b] := node;
      node.next := first;
      chains := chains[b := [node] + chains[b]];
      nodes := nodes[node.key := node];
      content := content[node.key := node.value];
      repr := repr + {node};
      assert DidPush(node);
      hide DidPush;
      PushKeepsLinks(node);
      PushKeepsKeys(node);
    }

    /** The effect of `Unlink`, assignment by assignment. */
    twostate predicate DidUnlink(key: nat, new k: nat)
      requires key in old(nodes) && hash(key) < |old(chains)| == buckets.Length && k < |old(chains)[hash(key)]|
      reads this, buckets, repr
    {
      var b := hash(key);
      var chain := old(chains)[b];
      && SameData() && repr == old(repr) && chain[k] == old(nodes)[key] && old(nodes[key].key) == key
      && chains == old(chains)[b := Without(chain, k)]
      && nodes == old(nodes) - {key} && content == old(content) - {key}
      && (forall c | 0 <= c < buckets.Length :: buckets[c]
           == if c == b && k == 0 then old(chains[b][k].next) else old(buckets[c]))
      && (forall n | n in old(repr) && !(k > 0 && n == chain[k - 1]) :: n.next == old(n.next))
      && (k > 0 ==> chain[k - 1] in repr && chain[k - 1].next == old(chains[b][k].next))
    }

    twostate lemma CutKeepsLinks(key: nat, new k: nat)
      requires old(Valid()) && key in old(nodes) && hash(key) < |old(chains)| && k < |old(chains)[hash(key)]|
      requires DidUnlink(key, k)
      ensures forall c | 0 <= c < |chains| :: Linked(c)
    {
      hide Linked, Holds, Found, Stands;
      var b := hash(key);
      Apart(b);
      forall c | 0 <= c < |chains|
        ensures Linked(c)
      {
        assert old(Linked(c));
        if c == b {
          CutLinked(c, k);
        } else {
          StillLinked(c);
        }
      }
    }

    twostate lemma CutKeepsKeys(key: nat, new k: nat)
      requires old(Valid()) && key in old(nodes) && hash(key) < |old(chains)| && k < |old(chains)[hash(key)]|
      requires DidUnlink(key, k)
      ensures (forall c | 0 <= c < |chains| :: Holds(c)) && (forall n :: hash(n) < |chains|) && Found() && Stands()
    {
      hide Linked, Holds, Found, Stands;
      forall c | 0 <= c < |chains|
        ensures Holds(c)
      {
        assert old(Holds(c));
        CutHolds(c, key, k);
      }
      CutFound(key, k);
      CutStands(key);
    }

    /** Takes the node of a key out of its chain, with the node before it in hand. */
    method Unlink(key: nat) returns (ghost k: nat)
      requires Valid() && key in content
      modifies this`chains, this`nodes, this`content, buckets, repr`next
      ensures Valid() && content == old(content) - {key}
      ensures k < |old(chains)[hash(key)]| && old(chains)[hash(key)][k].key == key
      ensures chains == old(chains)[hash(key) := Without(old(chains)[hash(key)], k)]
    {
      hide Linked, Holds, Found, Stands;
      var b := hash(key);
      var prev, node;
      Apart(b);
      prev, node, k := Search(key);
      if prev == null {
        buckets[b] := node.next;
      } else {
        prev.next := node.next;
      }
      chains := chains[b := Without(chains[b], k)];
      nodes := nodes - {key};
      content := content - {key};
      assert DidUnlink(key, k);
      hide DidUnlink;
      CutKeepsLinks(key, k);
      CutKeepsKeys(key, k);
    }

    /** The loop that looks for a node and remembers the one before it. */
    method Search(key: nat) returns (prev: Node?<V>, node: Node<V>, ghost k: nat)
      requires Valid() && key in nodes
      ensures node == nodes[key] && node.key == key && k < |chains[hash(key)]| && chains[hash(key)][k] == node
      ensures prev == if k == 0 then null else chains[hash(key)][k - 1]
    {
      hide Valid;
      InChain(key);
      ghost var chain := chains[hash(key)];
      k := 0;
      prev := null;
      var list := buckets[hash(key)];
      while list != null && list.key != key
        invariant 0 <= k <= |chain| && list == At(chain, k) && prev == if k == 0 then null else chain[k - 1]
        invariant forall j | 0 <= j < k :: chain[j].key != key
        decreases |chain| - k
      {
        prev := list;
        list := list.next;
        k := k + 1;
      }
      node := list;
    }

    /** Changes what is known of a key. */
    method SetValue(node: Node<V>, value: V)
      requires Valid() && Owns(node)
      modifies this`content, node`value
      ensures Valid() && content == old(content)[node.key := value]
    {
      hide Linked, Holds;
      AllChains();
      node.value := value;
      content := content[node.key := value];
      assert forall c | 0 <= c < |chains| :: old(Linked(c)) && old(Holds(c));
    }

    /** Gives a node that is in no chain a new key. */
    method Rekey(node: Node<V>, key: nat)
      requires Valid() && node.key !in content
      modifies node`key
      ensures Valid() && node.key == key
    {
      AllChains();
      Elsewhere(node);
      node.key := key;
      hide Linked;
      forall c | 0 <= c < |chains|
        ensures Linked(c) && Holds(c)
      {
        assert old(Linked(c)) && old(Holds(c));
      }
    }
  }
}
