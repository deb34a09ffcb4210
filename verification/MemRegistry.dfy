/** mem.c: a registry of memory chunks by type, in two chained hash tables, refines a map from
    pointers to chunks and a set of types. */
module MemRegistry {
  import opened MemTable

  /** An unsigned int of 32 bits. */
  type Word = x: int | 0 <= x < 0x1_0000_0000

  /** An address; 0 is NULL. */
  type Ptr = nat

  /** What is known of a registered pointer. `kind` is the number of the type its `p_info` is. */
  datatype Chunk = Chunk(kind: nat, size: Word, stored: bool)

  datatype Info = Info

  const MEM_HASH_SIZE: nat := 10240

  const MEM_RES_BADTYPE := -6
  const MEM_RES_ISNULL := -5
  const MEM_RES_INUSE := -3
  const MEM_RES_SYSCALL := -2
  const MEM_RES_EXISTS := -1
  const MEM_RES_OK := 0

  // ---------------------------------------------------------------- sizes

  function SizeIf(c: Chunk, kind: nat): nat {
    if c.kind == kind then c.size else 0
  }

  /** The sizes of the chunks of a type among some pointers. */
  ghost function SizeOf(m: map<Ptr, Chunk>, ps: set<Ptr>, kind: nat): nat
    requires ps <= m.Keys
    decreases |ps|
  {
    if ps == {} then 0
    else
      var p :| p in ps;
      SizeIf(m[p], kind) + SizeOf(m, ps - {p}, kind)
  }

  /** The order in which the pointers are visited does not matter. */
  lemma {:induction false} SizeWithout(m: map<Ptr, Chunk>, ps: set<Ptr>, kind: nat, p: Ptr)
    requires ps <= m.Keys && p in ps
    ensures SizeOf(m, ps, kind) == SizeIf(m[p], kind) + SizeOf(m, ps - {p}, kind)
    decreases |ps|
  {
    var q :| q in ps && SizeOf(m, ps, kind) == SizeIf(m[q], kind) + SizeOf(m, ps - {q}, kind);
    if q != p {
      SizeWithout(m, ps - {q}, kind, p);
      SizeWithout(m, ps - {p}, kind, q);
      assert ps - {q} - {p} == ps - {p} - {q};
    }
  }

  /** Equal in an unsigned int. */
  predicate Wrapped(a: int, b: int) {
    a % 0x1_0000_0000 == b % 0x1_0000_0000
  }

  function AddWrapped(total: Word, size: Word): Word {
    (total + size) % 0x1_0000_0000
  }

  lemma AddedWrapped(total: Word, size: Word, rest: nat, all: nat)
    requires Wrapped(total + (size + rest), all)
    ensures Wrapped(AddWrapped(total, size) + rest, all)
  {
  }

  // ---------------------------------------------------------------- freeing by type

  /** `mem_free_all` of this type, or of everything, takes the chunk. */
  predicate Doomed(c: Chunk, kind: nat) {
    kind == 0 || c.kind == kind
  }

  function Spared(m: map<Ptr, Chunk>, kind: nat): map<Ptr, Chunk> {
    map p | p in m && !Doomed(m[p], kind) :: m[p]
  }

  lemma {:induction false} SameSizes(m: map<Ptr, Chunk>, n: map<Ptr, Chunk>, ps: set<Ptr>, kind: nat)
    requires ps <= m.Keys && ps <= n.Keys
    requires forall p | p in ps :: SizeIf(m[p], kind) == SizeIf(n[p], kind)
    ensures SizeOf(m, ps, kind) == SizeOf(n, ps, kind)
    decreases |ps|
  {
    if ps != {} {
      var p :| p in ps;
      SizeWithout(m, ps, kind, p);
      SizeWithout(n, ps, kind, p);
      SameSizes(m, n, ps - {p}, kind);
    }
  }

  lemma {:induction false} Dropped(m: map<Ptr, Chunk>, ps: set<Ptr>, qs: set<Ptr>, kind: nat)
    requires qs <= ps <= m.Keys && forall p | p in ps - qs :: SizeIf(m[p], kind) == 0
    ensures SizeOf(m, ps, kind) == SizeOf(m, qs, kind)
    decreases |ps|
  {
    if p :| p in ps - qs {
      SizeWithout(m, ps, kind, p);
      Dropped(m, ps - {p}, qs, kind);
    } else {
      assert ps == qs;
    }
  }

  /** Freeing a type leaves the size of the others as it was, and of that type none. */
  lemma SizesAfterFreeAll(m: map<Ptr, Chunk>, freed: nat, kind: nat)
    ensures var now := Spared(m, freed);
      SizeOf(now, now.Keys, kind) == if Doomed(Chunk(kind, 0, false), freed) then 0 else SizeOf(m, m.Keys, kind)
  {
    var now := Spared(m, freed);
    if Doomed(Chunk(kind, 0, false), freed) {
      Dropped(now, now.Keys, {}, kind);
    } else {
      Dropped(m, m.Keys, now.Keys, kind);
      SameSizes(m, now, now.Keys, kind);
    }
  }

  /** A new chunk adds its size to its type and to no other. */
  lemma SizesAfterAlloc(m: map<Ptr, Chunk>, p: Ptr, c: Chunk, kind: nat)
    requires p !in m
    ensures SizeOf(m[p := c], m[p := c].Keys, kind) == SizeOf(m, m.Keys, kind) + SizeIf(c, kind)
  {
    var now := m[p := c];
    SizeWithout(now, now.Keys, kind, p);
    assert now.Keys - {p} == m.Keys;
    SameSizes(now, m, m.Keys, kind);
  }

  /** Between the chunks of `before` and those of `now`, the memory given back is that of the
      chunks gone, each once, but not that of stored pointers. */
  ghost predicate GivenBack(given: seq<Ptr>, before: map<Ptr, Chunk>, now: map<Ptr, Chunk>) {
    && (forall i, j | 0 <= i < j < |given| :: given[i] != given[j])
    && forall p :: p in given <==> p in before && p !in now && !before[p].stored
  }

  lemma GiveBack(given: seq<Ptr>, before: map<Ptr, Chunk>, now: map<Ptr, Chunk>, p: Ptr)
    requires GivenBack(given, before, now) && p in now && p in before
    ensures GivenBack(if before[p].stored then given else given + [p], before, now - {p})
  {
    var more := if before[p].stored then given else given + [p];
    assert p !in given;
    forall q
      ensures q in more <==> q in before && q !in now - {p} && !before[q].stored
    {
    }
  }

  /** Only doomed chunks are gone. */
  ghost predicate Fewer(now: map<Ptr, Chunk>, before: map<Ptr, Chunk>, kind: nat) {
    && (forall p | p in now :: p in before && now[p] == before[p])
    && forall p | p in before && p !in now :: Doomed(before[p], kind)
  }

  // ---------------------------------------------------------------- the registry

  ghost function Footprint<V>(t: Table<V>): set<object>
    reads t
  {
    {t, t.buckets} + t.repr
  }

  class Memory {
    const lists: Table<Chunk>
    const infos: Table<Info>
    /** The addresses given back to the system. */
    var freed: seq<Ptr>

    ghost predicate Valid()
      reads lists, lists.buckets, lists.repr, infos, infos.buckets, infos.repr
    {
      && lists.Valid() && infos.Valid()
      && lists.buckets.Length == MEM_HASH_SIZE && infos.buckets.Length == MEM_HASH_SIZE
      && Footprint(lists) !! Footprint(infos)
      && 0 !in Chunks() && 0 !in Types()
      && forall p | p in Chunks() :: Chunks()[p].kind in Types()
    }

    ghost function Chunks(): map<Ptr, Chunk>
      reads lists`content
    {
      lists.content
    }

    ghost function Types(): set<nat>
      reads infos`content
    {
      infos.content.Keys
    }

    /** Some registered pointer is of the type. */
    ghost predicate InUse(kind: nat)
      reads lists`content
    {
      exists p :: p in Chunks() && Chunks()[p].kind == kind
    }

    /** `mem_init`. */
    constructor (hashPtr: nat -> nat, hashType: nat -> nat)
      requires forall k :: hashPtr(k) < MEM_HASH_SIZE && hashType(k) < MEM_HASH_SIZE
      ensures Valid() && Chunks() == map[] && Types() == {} && freed == []
    {
      lists := new Table<Chunk>(MEM_HASH_SIZE, hashPtr);
      infos := new Table<Info>(MEM_HASH_SIZE, hashType);
      freed := [];
    }

    /** `mem_find_type`. */
    method FindType(kind: nat) returns (info: Node?<Info>)
      requires Valid()
      ensures info != null <==> kind in Types()
    {
      hide Table.Valid;
      info := infos.Find(kind);
    }

    /** `mem_find_ptr`. When the pointer is not in its bucket the program searches the whole table,
        and finds nothing. */
    method FindPtr(ptr: Ptr) returns (entry: Node?<Chunk>)
      requires Valid()
      ensures entry != null <==> ptr in Chunks()
      ensures entry != null ==>
        entry.key == ptr && lists.Owns(entry) && entry in lists.repr && entry.value == Chunks()[ptr]
    {
      hide Table.Valid;
      entry := lists.Find(ptr);
      if entry == null {
        for i := 0 to lists.buckets.Length
          invariant entry == null
        {
          lists.OnChain(i, 0);
          ghost var j := 0;
          entry := lists.buckets[i];
          while entry != null && entry.key != ptr
            invariant 0 <= j <= |lists.chains[i]| && entry == At(lists.chains[i], j)
            decreases |lists.chains[i]| - j
          {
            lists.OnChain(i, j);
            entry := entry.next;
            j := j + 1;
          }
          lists.OnChain(i, j);
        }
      }
    }

    /** `mem_add_type`; `room` tells whether malloc has room for the new structure. */
    method AddType(kind: nat, room: bool) returns (res: int)
      requires Valid()
      modifies infos, infos.buckets
      ensures Valid() && Chunks() == old(Chunks())
      ensures res == if kind == 0 then MEM_RES_BADTYPE else if kind in old(Types()) then MEM_RES_EXISTS
                     else if !room then MEM_RES_SYSCALL else MEM_RES_OK
      ensures Types() == if res == MEM_RES_OK then old(Types()) + {kind} else old(Types())
    {
      hide Table.Valid;
      var info := FindType(kind);
      if kind == 0 {
        return MEM_RES_BADTYPE;
      }
      if info != null {
        return MEM_RES_EXISTS;
      }
      if !room {
        return MEM_RES_SYSCALL;
      }
      var new_ := new Node<Info>(kind, Info);
      infos.Push(new_);
      return MEM_RES_OK;
    }

    /** The loops of `mem_del_type` over all pointers. */
    method IsInUse(kind: nat) returns (used: bool)
      requires Valid()
      ensures used <==> InUse(kind)
    {
      hide Table.Valid;
      for i := 0 to lists.buckets.Length
        invariant forall p | p in Chunks() && lists.hash(p) < i :: Chunks()[p].kind != kind
      {
        lists.OnChain(i, 0);
        ghost var j := 0;
        var list := lists.buckets[i];
        while list != null
          invariant 0 <= j <= |lists.chains[i]| && list == At(lists.chains[i], j)
          invariant forall k | 0 <= k < j :: lists.chains[i][k].value.kind != kind
          decreases |lists.chains[i]| - j
        {
          lists.OnChain(i, j);
          if list.value.kind == kind {
            assert Chunks()[list.key].kind == kind;
            return true;
          }
          list := list.next;
          j := j + 1;
        }
        forall p | p in Chunks() && lists.hash(p) == i
          ensures Chunks()[p].kind != kind
        {
          lists.InChain(p);
        }
      }
      forall p | p in Chunks()
        ensures Chunks()[p].kind != kind
      {
        lists.InChain(p);
      }
      return false;
    }

    /** `mem_del_type`. */
    method DelType(kind: nat) returns (res: int, ghost k: nat)
      requires Valid()
      modifies infos, infos.buckets, infos.repr`next
      ensures Valid() && Chunks() == old(Chunks())
      ensures res == if kind !in old(Types()) then MEM_RES_EXISTS
                     else if old(InUse(kind)) then MEM_RES_INUSE else MEM_RES_OK
      ensures Types() == if res == MEM_RES_OK then old(Types()) - {kind} else old(Types())
      ensures res == MEM_RES_OK ==>
        && k < |old(infos.chains)[infos.hash(kind)]|
        && old(infos.chains)[infos.hash(kind)][k].key == kind
        && infos.chains == old(infos.chains)[infos.hash(kind) := Without(old(infos.chains)[infos.hash(kind)], k)]
      ensures infos.repr == old(infos.repr)
    {
      hide Table.Valid;
      k := 0;
      var info := FindType(kind);
      if info == null {
        return MEM_RES_EXISTS, k;
      }
      var used := IsInUse(kind);
      if used {
        return MEM_RES_INUSE, k;
      }
      k := infos.Unlink(kind);
      return MEM_RES_OK, k;
    }

    /** Puts a new entry into the list of its pointer. */
    method Register(ptr: Ptr, chunk: Chunk)
      requires Valid() && ptr != 0 && ptr !in Chunks() && chunk.kind in Types()
      modifies lists, lists.buckets
      ensures Valid() && Types() == old(Types()) && Chunks() == old(Chunks())[ptr := chunk]
      ensures fresh(lists.repr - old(lists.repr))
    {
      hide Table.Valid;
      var entry := new Node<Chunk>(ptr, chunk);
      lists.Push(entry);
    }

    /** `mem_alloc`. `room` tells whether malloc has room for the entry; `core` is what it answers
        for the chunk itself: an address not in use, or NULL. */
    method Alloc(kind: nat, size: Word, room: bool, core: Ptr) returns (ptr: Ptr)
      requires Valid() && core !in Chunks()
      modifies lists, lists.buckets
      ensures Valid() && Types() == old(Types())
      ensures ptr == if kind in Types() && room then core else 0
      ensures Chunks() == if ptr == 0 then old(Chunks()) else old(Chunks())[ptr := Chunk(kind, size, false)]
      ensures fresh(lists.repr - old(lists.repr))
    {
      hide Table.Valid;
      var info := FindType(kind);
      if info == null || !room || core == 0 {
        return 0;
      }
      Register(core, Chunk(kind, size, false));
      return core;
    }

    /** `mem_store`. */
    method Store(ptr: Ptr, kind: nat, size: Word, room: bool) returns (res: int)
      requires Valid()
      modifies lists, lists.buckets
      ensures Valid() && Types() == old(Types())
      ensures res == if ptr == 0 then MEM_RES_ISNULL else if ptr in old(Chunks()) then MEM_RES_EXISTS
                     else if kind !in Types() then MEM_RES_EXISTS else if !room then MEM_RES_SYSCALL else MEM_RES_OK
      ensures Chunks() == if res == MEM_RES_OK then old(Chunks())[ptr := Chunk(kind, size, true)] else old(Chunks())
      ensures fresh(lists.repr - old(lists.repr))
    {
      hide Table.Valid;
      var info := FindType(kind);
      var entry := FindPtr(ptr);
      if ptr == 0 {
        return MEM_RES_ISNULL;
      }
      if entry != null || info == null {
        return MEM_RES_EXISTS;
      }
      if !room {
        return MEM_RES_SYSCALL;
      }
      Register(ptr, Chunk(kind, size, true));
      return MEM_RES_OK;
    }

    /** `mem_realloc`. `answer` is what realloc gives: the same address, one not in use, or NULL. */
    method Realloc(ptr: Ptr, newSize: Word, answer: Ptr) returns (res: Ptr)
      requires Valid() && (answer == ptr || answer !in Chunks())
      modifies lists, lists.buckets, lists.repr
      ensures Valid() && Types() == old(Types())
      ensures res == if ptr in old(Chunks()) && !old(Chunks())[ptr].stored then answer else 0
      ensures Chunks() == if res == 0 then old(Chunks())
                          else (old(Chunks()) - {ptr})[res := old(Chunks())[ptr].(size := newSize)]
      ensures lists.repr == old(lists.repr)
    {
      hide Table.Valid;
      var entry := FindPtr(ptr);
      if entry == null || entry.value.stored || answer == 0 {
        return 0;
      }
      if answer != ptr {
        ghost var k := lists.Unlink(ptr);
        lists.Rekey(entry, answer);
        lists.Push(entry);
      }
      lists.SetValue(entry, entry.value.(size := newSize));
      return answer;
    }

    /** `mem_free`: a stored pointer is forgotten but its memory is left to its owner. */
    method Free(ptr: Ptr) returns (ghost k: nat)
      requires Valid()
      modifies this`freed, lists, lists.buckets, lists.repr`next
      ensures Valid() && Types() == old(Types()) && Chunks() == old(Chunks()) - {ptr}
      ensures freed == if ptr in old(Chunks()) && !old(Chunks())[ptr].stored then old(freed) + [ptr] else old(freed)
      ensures lists.repr == old(lists.repr)
      ensures ptr in old(Chunks()) ==>
        && k < |old(lists.chains)[lists.hash(ptr)]|
        && old(lists.chains)[lists.hash(ptr)][k].key == ptr
        && lists.chains == old(lists.chains)[lists.hash(ptr) := Without(old(lists.chains)[lists.hash(ptr)], k)]
    {
      hide Table.Valid;
      k := 0;
      var entry := FindPtr(ptr);
      if entry == null {
        assert Chunks() == Chunks() - {ptr};
        return k;
      }
      k := lists.Unlink(ptr);
      if !entry.value.stored {
        freed := freed + [ptr];
      }
    }

    /** What a walk at place `j` of bucket `i` has still to add. */
    ghost function Left(i: nat, j: nat, kind: nat): nat
      requires Valid() && i < lists.buckets.Length
      reads lists, lists.buckets, lists.repr, infos, infos.buckets, infos.repr
    {
      lists.BucketKeys(i, 0);
      SizeOf(Chunks(), lists.KeysFrom(i, j) + InBuckets(i + 1), kind)
    }

    lemma BucketStarts(i: nat, kind: nat)
      requires Valid() && i < lists.buckets.Length
      ensures SizeOf(Chunks(), InBuckets(i), kind) == Left(i, 0, kind)
    {
      lists.OnChain(i, 0);
      lists.BucketKeys(i, 0);
      assert InBuckets(i) == lists.KeysFrom(i, 0) + InBuckets(i + 1);
    }

    lemma NextInBucket(i: nat, j: nat, kind: nat)
      requires Valid() && i < lists.buckets.Length && i < |lists.chains| && j < |lists.chains[i]|
      ensures Left(i, j, kind) == SizeIf(lists.chains[i][j].value, kind) + Left(i, j + 1, kind)
    {
      hide SizeOf;
      lists.OnChain(i, j);
      lists.BucketKeys(i, j);
      var key := lists.chains[i][j].key;
      SizeWithout(Chunks(), lists.KeysFrom(i, j) + InBuckets(i + 1), kind, key);
      assert lists.KeysFrom(i, j) + InBuckets(i + 1) - {key} == lists.KeysFrom(i, j + 1) + InBuckets(i + 1);
    }

    lemma AddNext(i: nat, j: nat, kind: nat, total: Word, all: nat)
      requires Valid() && i < lists.buckets.Length && i < |lists.chains| && j < |lists.chains[i]|
      requires Wrapped(total + Left(i, j, kind), all)
      ensures var chunk := lists.chains[i][j].value;
        Wrapped((if chunk.kind == kind then AddWrapped(total, chunk.size) else total) + Left(i, j + 1, kind), all)
    {
      hide Wrapped, AddWrapped, Left;
      NextInBucket(i, j, kind);
      var chunk := lists.chains[i][j].value;
      if chunk.kind == kind {
        assert total + (chunk.size + Left(i, j + 1, kind)) == total + Left(i, j, kind);
        AddedWrapped(total, chunk.size, Left(i, j + 1, kind), all);
      }
    }

    lemma BucketEnds(i: nat, kind: nat)
      requires Valid() && i < lists.buckets.Length && i < |lists.chains|
      ensures Left(i, |lists.chains[i]|, kind) == SizeOf(Chunks(), InBuckets(i + 1), kind)
    {
      lists.BucketKeys(i, |lists.chains[i]|);
      assert {} + InBuckets(i + 1) == InBuckets(i + 1);
    }

    lemma NothingLeft(kind: nat, total: Word, all: nat)
      requires Valid() && Wrapped(total + SizeOf(Chunks(), InBuckets(lists.buckets.Length), kind), all)
      ensures total == all % 0x1_0000_0000
    {
      assert InBuckets(lists.buckets.Length) == {};
    }

    lemma NothingAdded(kind: nat)
      requires Valid()
      ensures var all := SizeOf(Chunks(), Chunks().Keys, kind);
        Wrapped(0 + SizeOf(Chunks(), InBuckets(0), kind), all)
    {
      assert InBuckets(0) == Chunks().Keys;
    }

    /** The inner loop of `mem_get_size`. */
    method AddBucket(i: nat, kind: nat, start: Word, ghost all: nat) returns (total: Word)
      requires Valid() && i < lists.buckets.Length && Wrapped(start + SizeOf(Chunks(), InBuckets(i), kind), all)
      ensures Wrapped(total + SizeOf(Chunks(), InBuckets(i + 1), kind), all)
    {
      hide Table.Valid, Table.Owns, At, SizeOf, Wrapped, AddWrapped, InBuckets, Left;
      lists.OnChain(i, 0);
      BucketStarts(i, kind);
      BucketEnds(i, kind);
      ghost var j := 0;
      total := start;
      var list := lists.buckets[i];
      while list != null
        invariant 0 <= j <= |lists.chains[i]| && list == At(lists.chains[i], j)
        invariant Wrapped(total + Left(i, j, kind), all)
        decreases |lists.chains[i]| - j
      {
        lists.OnChain(i, j);
        AddNext(i, j, kind, total, all);
        if list.value.kind == kind {
          total := AddWrapped(total, list.value.size);
        }
        list := list.next;
        j := j + 1;
      }
    }

    /** `mem_get_size`, with the wrap-around of its total. */
    method GetSize(kind: nat) returns (total: Word)
      requires Valid()
      ensures total == SizeOf(Chunks(), Chunks().Keys, kind) % 0x1_0000_0000
    {
      hide Table.Valid, SizeOf, Wrapped, InBuckets;
      total := 0;
      ghost var all := SizeOf(Chunks(), Chunks().Keys, kind);
      NothingAdded(kind);
      for i := 0 to lists.buckets.Length
        invariant Wrapped(total + SizeOf(Chunks(), InBuckets(i), kind), all)
      {
        total := AddBucket(i, kind, total, all);
      }
      NothingLeft(kind, total, all);
    }

    /** Pointers in the buckets from `i` on. */
    ghost function InBuckets(i: nat): set<Ptr>
      reads lists`content
      ensures InBuckets(i) <= Chunks().Keys
      ensures i == 0 ==> InBuckets(i) == Chunks().Keys
    {
      set p | p in Chunks() && lists.hash(p) >= i
    }

    /** No doomed chunk is left in the buckets before `i`. */
    ghost predicate Swept(i: nat, kind: nat)
      reads lists`content
    {
      forall p | p in Chunks() && lists.hash(p) < i :: !Doomed(Chunks()[p], kind)
    }

    /** Since the log was `log` and the chunks were `before`, only doomed chunks have gone, and their
        memory was given back. */
    ghost predicate Accounted(log: seq<Ptr>, before: map<Ptr, Chunk>, kind: nat)
      reads this`freed, lists`content
    {
      log <= freed && GivenBack(freed[|log|..], before, Chunks()) && Fewer(Chunks(), before, kind)
    }

    twostate lemma OneMoreFreed(log: seq<Ptr>, new before: map<Ptr, Chunk>, new kind: nat, new p: Ptr)
      requires old(Accounted(log, before, kind)) && p in old(Chunks()) && Doomed(old(Chunks())[p], kind)
      requires Chunks() == old(Chunks()) - {p}
      requires freed == if old(Chunks())[p].stored then old(freed) else old(freed) + [p]
      ensures Accounted(log, before, kind)
      ensures forall i :: old(Swept(i, kind)) ==> Swept(i, kind)
    {
      hide Doomed, GivenBack;
      GiveBack(old(freed)[|log|..], before, old(Chunks()), p);
      assert before[p] == old(Chunks())[p];
      assert freed[|log|..] == if before[p].stored then old(freed)[|log|..] else old(freed)[|log|..] + [p];
    }

    /** `mem_free` for the chunk at place `j` of chain `i`: the chain closes up behind it. */
    method FreeAt(ghost i: nat, ghost j: nat, ptr: Ptr)
      requires Valid() && i < lists.buckets.Length && i < |lists.chains| && j < |lists.chains[i]|
      requires lists.chains[i][j].key == ptr
      modifies this`freed, lists, lists.buckets, lists.repr`next
      ensures Valid() && Types() == old(Types()) && Chunks() == old(Chunks()) - {ptr}
      ensures ptr in old(Chunks())
      ensures freed == if old(Chunks())[ptr].stored then old(freed) else old(freed) + [ptr]
      ensures lists.repr == old(lists.repr)
      ensures i < |lists.chains| && lists.chains[i] == Without(old(lists.chains)[i], j)
    {
      hide Table.Valid;
      lists.OnChain(i, j);
      lists.OnePlace(i, j);
      var k := Free(ptr);
    }

    /** The inner loop of `mem_free_all` over chunks. */
    method FreeBucket(i: nat, kind: nat, ghost log: seq<Ptr>, ghost before: map<Ptr, Chunk>)
      requires Valid() && i < lists.buckets.Length && Swept(i, kind) && Accounted(log, before, kind)
      modifies this`freed, lists, lists.buckets, lists.repr`next
      ensures Valid() && Types() == old(Types()) && lists.repr == old(lists.repr)
      ensures Swept(i + 1, kind) && Accounted(log, before, kind)
    {
      hide Table.Valid, Accounted, Swept, At;
      lists.OnChain(i, 0);
      ghost var j := 0;
      var list := lists.buckets[i];
      while list != null
        invariant Valid() && Types() == old(Types()) && lists.repr == old(lists.repr)
        invariant i < |lists.chains| && 0 <= j <= |lists.chains[i]| && list == At(lists.chains[i], j)
        invariant forall k | 0 <= k < j :: !Doomed(lists.chains[i][k].value, kind)
        invariant Swept(i, kind) && Accounted(log, before, kind)
        decreases |lists.chains[i]| - j
      {
        lists.OnChain(i, j);
        var tmp := list.key;
        var listType := list.value.kind;
        list := list.next;
        if kind == 0 || listType == kind {
          ClosesUp(lists.chains[i], j);
          label L:
          FreeAt(i, j, tmp);
          OneMoreFreed@L(log, before, kind, tmp);
        } else {
          j := j + 1;
        }
      }
      AllMet(i, kind);
    }

    /** After a walk through bucket `i` it is swept. */
    lemma AllMet(i: nat, kind: nat)
      requires Valid() && i < |lists.chains| && Swept(i, kind)
      requires forall k | 0 <= k < |lists.chains[i]| :: !Doomed(lists.chains[i][k].value, kind)
      ensures Swept(i + 1, kind)
    {
      hide Doomed;
      forall p | p in Chunks() && lists.hash(p) == i
        ensures !Doomed(Chunks()[p], kind)
      {
        lists.InChain(p);
      }
    }

    /** The first half of `mem_free_all`. */
    method FreeChunks(kind: nat)
      requires Valid()
      modifies this`freed, lists, lists.buckets, lists.repr`next
      ensures Valid() && Types() == old(Types()) && lists.repr == old(lists.repr)
      ensures Chunks() == Spared(old(Chunks()), kind)
      ensures old(freed) <= freed && GivenBack(freed[|old(freed)|..], old(Chunks()), Chunks())
    {
      hide Table.Valid;
      for i := 0 to lists.buckets.Length
        invariant Valid() && Types() == old(Types()) && lists.repr == old(lists.repr)
        invariant Swept(i, kind) && Accounted(old(freed), old(Chunks()), kind)
      {
        FreeBucket(i, kind, old(freed), old(Chunks()));
      }
      assert forall p | p in Chunks() :: lists.hash(p) < lists.buckets.Length by {
        lists.AllChains();
      }
    }

    /** `mem_free_all`: it removes exactly the chunks of the type, giving back the memory of those
        that are not stored, and for type 0 everything, the types too. */
    method FreeAll(kind: nat)
      requires Valid()
      modifies this`freed, lists, lists.buckets, lists.repr`next, infos, infos.buckets, infos.repr`next
      ensures Valid()
      ensures Chunks() == Spared(old(Chunks()), kind)
      ensures Types() == if kind == 0 then {} else old(Types())
      ensures old(freed) <= freed && GivenBack(freed[|old(freed)|..], old(Chunks()), Chunks())
    {
      hide Table.Valid;
      FreeChunks(kind);
      if kind != 0 {
        return;
      }
      FreeTypes();
    }

    /** The second half of `mem_free_all`: no type is in use any more, so every `mem_del_type`
        succeeds. */
    method FreeTypes()
      requires Valid() && Chunks() == map[]
      modifies infos, infos.buckets, infos.repr`next
      ensures Valid() && Chunks() == map[] && Types() == {}
    {
      hide Table.Valid;
      for i := 0 to infos.buckets.Length
        invariant Valid() && Chunks() == map[] && infos.repr == old(infos.repr)
        invariant forall t | t in Types() :: infos.hash(t) >= i
      {
        infos.OnChain(i, 0);
        var info := infos.buckets[i];
        while info != null
          invariant Valid() && Chunks() == map[] && infos.repr == old(infos.repr)
          invariant forall t | t in Types() :: infos.hash(t) >= i
          invariant i < |infos.chains| && info == At(infos.chains[i], 0)
          decreases |infos.chains[i]|
        {
          infos.OnChain(i, 0);
          var listType := info.key;
          info := info.next;
          infos.OnePlace(i, 0);
          ClosesUp(infos.chains[i], 0);
          var res, k := DelType(listType);
        }
        forall t | t in Types()
          ensures infos.hash(t) != i
        {
          infos.InChain(t);
        }
      }
      forall t | t in Types()
        ensures false
      {
        infos.AllChains();
      }
    }
  }

  lemma ClosesUp<V>(chain: seq<Node<V>>, j: nat)
    requires j < |chain|
    ensures At(Without(chain, j), j) == At(chain, j + 1)
    ensures forall k | 0 <= k < j :: Without(chain, j)[k] == chain[k]
  {
  }
}
