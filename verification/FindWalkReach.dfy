/** Which paths the walk evaluates, said without its stack discipline and without its link counts. */
module FindWalkReach {
  import opened Wrappers
  import opened FindWalk
  import opened FindWalkTheorem

  // ---------------------------------------------------------------- the plain walk

  function Here(o: Options, path: Path): seq<Path> {
    if |path| >= o.minDepth then [path] else []
  }

  predicate Descends(fs: FileSystem, o: Options, root: Id, id: Id, path: Path, stack: seq<Id>): (r: bool)
    requires id in fs
    ensures r ==> fs[id].isDir && id !in stack
  {
    fs[id].isDir && !StopsHere(o, root, id, path, stack)
  }

  /** The paths at and below `path`, in the order in which they are evaluated. */
  function Plain(fs: FileSystem, o: Options, root: Id, id: Id, path: Path, stack: seq<Id>): seq<Path>
    requires Sound(fs) && id in fs && Elements(stack) <= fs.Keys
    decreases fs.Keys - Elements(stack), 1, 0
  {
    if !Descends(fs, o, root, id, path, stack) then Here(o, path)
    else
      assert Elements(stack + [id]) == Elements(stack) + {id};
      var inner := PlainEntries(fs, o, root, id, fs[id].entries, path, stack + [id]);
      if o.dirFirst then Here(o, path) + inner else inner + Here(o, path)
  }

  function PlainEntries(fs: FileSystem, o: Options, root: Id, dir: Id, entries: seq<Entry>, path: Path,
                        stack: seq<Id>): seq<Path>
    requires Sound(fs) && dir in fs && Elements(stack) <= fs.Keys
    requires forall e | e in entries :: e in fs[dir].entries
    decreases fs.Keys - Elements(stack), 2, |entries|
  {
    if entries == [] then []
    else
      var e, rest := entries[0], entries[1..];
      assert e in entries;
      var more := PlainEntries(fs, o, root, dir, rest, path, stack);
      if Skipped(e.name) then more else Plain(fs, o, root, e.id, path + [e.name], stack) + more
  }

  lemma {:induction false} PathIsPlain(fs: FileSystem, o: Options, root: Id, id: Id, path: Path, stack: seq<Id>,
                                       knownDir: Option<bool>)
    requires Sound(fs) && id in fs && Elements(stack) <= fs.Keys
    requires knownDir.Some? ==> knownDir.value == fs[id].isDir
    ensures var w := VisitPath(fs, o, root, id, path, stack, knownDir, false, true);
      w.visited == Plain(fs, o, root, id, path, stack) && w.noLeaf
    decreases fs.Keys - Elements(stack), 1, 0
  {
    hide StopsHere;
    if Descends(fs, o, root, id, path, stack) {
      assert Elements(stack + [id]) == Elements(stack) + {id};
      var n := fs[id];
      EntriesArePlain(fs, o, root, id, n.entries, path, stack + [id],
        if n.nlink < 2 then 0 else n.nlink - 2, n.nlink < 2);
    }
  }

  lemma {:induction false} EntriesArePlain(fs: FileSystem, o: Options, root: Id, dir: Id, entries: seq<Entry>,
                                           path: Path, stack: seq<Id>, left: int, unreliable: bool)
    requires Sound(fs) && dir in fs && Elements(stack) <= fs.Keys
    requires forall e | e in entries :: e in fs[dir].entries
    ensures var w := VisitEntries(fs, o, root, dir, entries, path, stack, left, unreliable, true);
      w.visited == PlainEntries(fs, o, root, dir, entries, path, stack) && w.noLeaf
    decreases fs.Keys - Elements(stack), 2, |entries|
  {
    hide Skipped, VisitPath, Plain;
    if entries != [] {
      var e, rest := entries[0], entries[1..];
      assert e in entries && forall x | x in rest :: x in entries;
      EntriesArePlain(fs, o, root, dir, rest, path, stack, left, unreliable);
      if !Skipped(e.name) {
        PathIsPlain(fs, o, root, e.id, path + [e.name], stack, e.knownDir);
      }
    }
  }

  // ---------------------------------------------------------------- everything lies below

  ghost predicate AllBelow(visited: seq<Path>, path: Path) {
    forall q | q in visited :: path <= q
  }

  ghost predicate StrictlyBelow(visited: seq<Path>, path: Path) {
    forall q | q in visited :: path < q
  }

  lemma {:induction false} PlainBelow(fs: FileSystem, o: Options, root: Id, id: Id, path: Path, stack: seq<Id>)
    requires Sound(fs) && id in fs && Elements(stack) <= fs.Keys
    ensures AllBelow(Plain(fs, o, root, id, path, stack), path)
    decreases fs.Keys - Elements(stack), 1, 0
  {
    hide StopsHere;
    if Descends(fs, o, root, id, path, stack) {
      assert Elements(stack + [id]) == Elements(stack) + {id};
      EntriesBelow(fs, o, root, id, fs[id].entries, path, stack + [id]);
    }
  }

  lemma {:induction false} EntriesBelow(fs: FileSystem, o: Options, root: Id, dir: Id, entries: seq<Entry>, path: Path,
                                        stack: seq<Id>)
    requires Sound(fs) && dir in fs && Elements(stack) <= fs.Keys
    requires forall e | e in entries :: e in fs[dir].entries
    ensures StrictlyBelow(PlainEntries(fs, o, root, dir, entries, path, stack), path)
    decreases fs.Keys - Elements(stack), 2, |entries|
  {
    hide Skipped, Plain, AllBelow;
    if entries != [] {
      var e, rest := entries[0], entries[1..];
      assert e in entries && forall x | x in rest :: x in entries;
      EntriesBelow(fs, o, root, dir, rest, path, stack);
      if !Skipped(e.name) {
        PlainBelow(fs, o, root, e.id, path + [e.name], stack);
        DeeperBelow(Plain(fs, o, root, e.id, path + [e.name], stack), path, e.name);
      }
    }
  }

  lemma DeeperBelow(visited: seq<Path>, path: Path, name: Name)
    requires AllBelow(visited, path + [name])
    ensures StrictlyBelow(visited, path)
  {
    forall q | q in visited
      ensures path < q
    {
      assert path < path + [name] <= q;
    }
  }

  // ---------------------------------------------------------------- exactly once

  /** No directory has two entries of the same name. */
  ghost predicate NamesUnique(fs: FileSystem) {
    forall id | id in fs :: DistinctNames(fs[id].entries)
  }

  predicate DistinctNames(entries: seq<Entry>) {
    forall i, j | 0 <= i < j < |entries| :: entries[i].name != entries[j].name
  }

  function Lookup(entries: seq<Entry>, name: Name): (r: Option<Entry>)
    ensures r.Some? ==> r.value in entries && r.value.name == name && !Skipped(name)
  {
    if entries == [] then None
    else if entries[0].name == name && !Skipped(name) then Some(entries[0])
    else Lookup(entries[1..], name)
  }

  /** From the directory or file `id`, found at `path` below the directories `stack`, the names
      `p` lead somewhere, and every directory on the way is one the walk reads. */
  predicate Reached(fs: FileSystem, o: Options, root: Id, id: Id, path: Path, stack: seq<Id>, p: Path)
    requires Sound(fs) && id in fs
    decreases |p|
  {
    p == [] ||
    (Descends(fs, o, root, id, path, stack) && ReachedIn(fs, o, root, fs[id].entries, path, stack + [id], p))
  }

  predicate ReachedIn(fs: FileSystem, o: Options, root: Id, entries: seq<Entry>, path: Path, stack: seq<Id>, p: Path)
    requires Sound(fs) && p != [] && forall e | e in entries :: e.id in fs
    decreases |p|, 0
  {
    var r := Lookup(entries, p[0]);
    r.Some? && Reached(fs, o, root, r.value.id, path + [p[0]], stack, p[1..])
  }

  function Times(visited: seq<Path>, q: Path): nat {
    multiset(visited)[q]
  }

  /** What is expected for the path `path + p`. */
  function Once(o: Options, path: Path, p: Path, reached: bool): nat {
    if reached && |path| + |p| >= o.minDepth then 1 else 0
  }

  lemma TimesAppend(a: seq<Path>, b: seq<Path>, q: Path)
    ensures Times(a + b, q) == Times(a, q) + Times(b, q)
  {
  }

  lemma NeverInside(visited: seq<Path>, path: Path)
    requires StrictlyBelow(visited, path)
    ensures Times(visited, path + []) == 0
  {
    assert path + [] == path;
    assert path !in visited;
  }

  lemma NeverBeside(visited: seq<Path>, path: Path, name: Name, p: Path)
    requires AllBelow(visited, path + [name]) && p != [] && p[0] != name
    ensures Times(visited, path + p) == 0
  {
    assert (path + p)[|path|] == p[0] && (path + [name])[|path|] == name;
    assert path + p !in visited;
  }

  lemma OneStepDown(o: Options, path: Path, p: Path)
    requires p != []
    ensures path + p == path + [p[0]] + p[1..]
    ensures forall reached :: Once(o, path, p, reached) == Once(o, path + [p[0]], p[1..], reached)
  {
  }

  lemma HereTimes(o: Options, path: Path, p: Path)
    ensures Times(Here(o, path), path + p) == if p == [] then Once(o, path, p, true) else 0
  {
    if p == [] {
      assert path + p == path;
    } else {
      assert |path + p| > |path|;
    }
  }

  lemma {:induction false} PlainTimes(fs: FileSystem, o: Options, root: Id, id: Id, path: Path, stack: seq<Id>, p: Path)
    requires Sound(fs) && NamesUnique(fs) && id in fs && Elements(stack) <= fs.Keys
    ensures Times(Plain(fs, o, root, id, path, stack), path + p)
         == Once(o, path, p, Reached(fs, o, root, id, path, stack, p))
    decreases fs.Keys - Elements(stack), 1, 0
  {
    hide Descends, Times, ReachedIn, PlainEntries;
    HereTimes(o, path, p);
    if Descends(fs, o, root, id, path, stack) {
      assert Elements(stack + [id]) == Elements(stack) + {id};
      var inner := PlainEntries(fs, o, root, id, fs[id].entries, path, stack + [id]);
      TimesAppend(Here(o, path), inner, path + p);
      TimesAppend(inner, Here(o, path), path + p);
      if p == [] {
        EntriesBelow(fs, o, root, id, fs[id].entries, path, stack + [id]);
        NeverInside(inner, path);
      } else {
        EntriesTimes(fs, o, root, id, fs[id].entries, path, stack + [id], p);
      }
    }
  }

  lemma {:induction false} EntriesTimes(fs: FileSystem, o: Options, root: Id, dir: Id, entries: seq<Entry>, path: Path,
                                        stack: seq<Id>, p: Path)
    requires Sound(fs) && NamesUnique(fs) && dir in fs && Elements(stack) <= fs.Keys && p != []
    requires DistinctNames(entries) && forall e | e in entries :: e in fs[dir].entries
    ensures Times(PlainEntries(fs, o, root, dir, entries, path, stack), path + p)
         == Once(o, path, p, ReachedIn(fs, o, root, entries, path, stack, p))
    decreases fs.Keys - Elements(stack), 2, |entries|
  {
    hide Plain, Reached, Skipped, AllBelow;
    if entries != [] {
      hide Times, Once, NamesUnique, Sound;
      var e, rest := entries[0], entries[1..];
      assert e in entries && forall x | x in rest :: x in entries;
      EntriesTimes(fs, o, root, dir, rest, path, stack, p);
      if !Skipped(e.name) {
        var below := path + [e.name];
        var visited := Plain(fs, o, root, e.id, below, stack);
        TimesAppend(visited, PlainEntries(fs, o, root, dir, rest, path, stack), path + p);
        if e.name == p[0] {
          OneStepDown(o, path, p);
          PlainTimes(fs, o, root, e.id, below, stack, p[1..]);
          NotTwice(entries, rest, p[0]);
        } else {
          PlainBelow(fs, o, root, e.id, below, stack);
          NeverBeside(visited, path, e.name, p);
        }
      }
    }
  }

  lemma {:induction false} NotTwice(all: seq<Entry>, entries: seq<Entry>, name: Name)
    requires all != [] && DistinctNames(all) && all[0].name == name
    requires |entries| < |all| && entries == all[|all| - |entries|..]
    ensures Lookup(entries, name).None?
  {
    if entries != [] {
      assert entries[0] == all[|all| - |entries|] && all[0].name != all[|all| - |entries|].name;
      assert entries[1..] == all[|all| - |entries[1..]|..];
      NotTwice(all, entries[1..], name);
    }
  }

  // ---------------------------------------------------------------- reachability by paths

  /** A name as it may stand for something in a directory: not "", not ".", and not with two dots in
      front. */
  predicate Listed(name: Name) {
    name != "" && name != "." && !(".." <= name)
  }

  /** Through the directory `ids[k]`, named by the first `k` names, the next name leads on: it is a
      directory above the maximum depth, not one of those passed before, on the file system of the
      starting point if that matters, and not pruned. */
  ghost predicate LeadsOn(fs: FileSystem, o: Options, p: Path, ids: seq<Id>, k: nat)
    requires k < |p| && |ids| == |p| + 1
  {
    && ids[k] in fs && fs[ids[k]].isDir
    && (o.maxDepth < 0 || k < o.maxDepth)
    && (forall i | 0 <= i < k :: ids[i] != ids[k])
    && (o.oneFileSystem ==> ids[k].dev == ids[0].dev)
    && (o.dirFirst && k >= o.minDepth ==> !o.prunes(p[..k]))
    && Listed(p[k]) && exists e :: e in fs[ids[k]].entries && e.name == p[k] && e.id == ids[k + 1]
  }

  /** `ids` are the directories that lead to `p`, and what is there. */
  ghost predicate Leads(fs: FileSystem, o: Options, root: Id, p: Path, ids: seq<Id>) {
    |ids| == |p| + 1 && ids[0] == root && forall k | 0 <= k < |p| :: LeadsOn(fs, o, p, ids, k)
  }

  ghost predicate Reachable(fs: FileSystem, o: Options, root: Id, p: Path) {
    exists ids :: Leads(fs, o, root, p, ids)
  }

  lemma ListedIsNotSkipped(name: Name)
    ensures Listed(name) <==> !Skipped(name)
  {
    if |name| >= 2 {
      assert name[..2] == [name[0], name[1]];
    }
  }

  lemma {:induction false} LookupFinds(entries: seq<Entry>, e: Entry)
    requires DistinctNames(entries) && e in entries && !Skipped(e.name)
    ensures Lookup(entries, e.name) == Some(e)
  {
    if entries[0] != e {
      var i :| 0 <= i < |entries| && entries[i] == e;
      assert entries[0].name != entries[i].name;
      assert entries[1..][i - 1] == e;
      LookupFinds(entries[1..], e);
    }
  }

  /** What is left to show at the `n`-th name of `p`. */
  ghost predicate LeadsFrom(fs: FileSystem, o: Options, p: Path, ids: seq<Id>, n: nat) {
    |ids| == |p| + 1 && n <= |p| && forall k | n <= k < |p| :: LeadsOn(fs, o, p, ids, k)
  }

  lemma {:induction false} ReachedLeads(fs: FileSystem, o: Options, root: Id, id: Id, path: Path, stack: seq<Id>,
                                        p: Path)
    returns (ids: seq<Id>)
    requires Sound(fs) && NamesUnique(fs) && id in fs && |stack| == |path| && (stack + [id])[0] == root
    requires Reached(fs, o, root, id, path, stack, p)
    ensures |ids| == |path + p| + 1 && ids[..|path| + 1] == stack + [id] && LeadsFrom(fs, o, path + p, ids, |path|)
    decreases |p|
  {
    if p == [] {
      assert path + p == path;
      return stack + [id];
    }
    var e := Lookup(fs[id].entries, p[0]).value;
    ids := ReachedLeads(fs, o, root, e.id, path + [p[0]], stack + [id], p[1..]);
    assert path + [p[0]] + p[1..] == path + p;
    var n := |path|;
    assert ids[..n + 1] == ids[..n + 2][..n + 1] == stack + [id];
    assert ids[n] == ids[..n + 1][n] == id && ids[n + 1] == ids[..n + 2][n + 1] == e.id
      && ids[..n] == ids[..n + 1][..n] == stack;
    assert (path + p)[..n] == path && (path + p)[n] == p[0];
    StepLeads(fs, o, root, id, path, stack, path + p, ids);
  }

  lemma StepLeads(fs: FileSystem, o: Options, root: Id, id: Id, path: Path, stack: seq<Id>, q: Path, ids: seq<Id>)
    requires Sound(fs) && NamesUnique(fs) && id in fs && |stack| == |path| < |q| && |ids| == |q| + 1
    requires ids[..|path|] == stack && ids[|path|] == id && ids[0] == root && q[..|path|] == path
    ensures LeadsOn(fs, o, q, ids, |path|) <==>
      && Descends(fs, o, root, id, path, stack)
      && Lookup(fs[id].entries, q[|path|]).Some? && Lookup(fs[id].entries, q[|path|]).value.id == ids[|path| + 1]
  {
    var n, entries := |path|, fs[id].entries;
    ListedIsNotSkipped(q[n]);
    assert id in stack <==> exists i | 0 <= i < n :: ids[i] == id by {
      assert forall i | 0 <= i < n :: ids[i] == stack[i];
    }
    if LeadsOn(fs, o, q, ids, n) {
      var e :| e in entries && e.name == q[n] && e.id == ids[n + 1];
      LookupFinds(entries, e);
    }
  }

  lemma {:induction false} LeadsReached(fs: FileSystem, o: Options, root: Id, id: Id, path: Path, stack: seq<Id>,
                                        p: Path,
                                        ids: seq<Id>)
    requires Sound(fs) && NamesUnique(fs) && id in fs && |stack| == |path|
    requires |ids| == |path + p| + 1 && ids[0] == root && ids[..|path| + 1] == stack + [id]
    requires LeadsFrom(fs, o, path + p, ids, |path|)
    ensures Reached(fs, o, root, id, path, stack, p)
    decreases |p|
  {
    if p != [] {
      var n, q := |path|, path + p;
      assert ids[n] == ids[..n + 1][n] == id && ids[..n] == ids[..n + 1][..n] == stack;
      assert q[..n] == path && q[n] == p[0];
      StepLeads(fs, o, root, id, path, stack, q, ids);
      var e := Lookup(fs[id].entries, p[0]).value;
      assert path + [p[0]] + p[1..] == q;
      assert ids[..n + 2] == ids[..n + 1] + [ids[n + 1]];
      LeadsReached(fs, o, root, e.id, path + [p[0]], stack + [id], p[1..], ids);
    }
  }

  lemma ReachedIsReachable(fs: FileSystem, o: Options, root: Id, p: Path)
    requires Sound(fs) && NamesUnique(fs) && root in fs
    ensures Reached(fs, o, root, root, [], [], p) <==> Reachable(fs, o, root, p)
  {
    assert [] + p == p;
    if Reached(fs, o, root, root, [], [], p) {
      var ids := ReachedLeads(fs, o, root, root, [], [], p);
      assert ids[0] == ids[..1][0];
      assert Leads(fs, o, root, p, ids);
    }
    if Reachable(fs, o, root, p) {
      var ids: seq<Id> :| Leads(fs, o, root, p, ids);
      assert ids[..1] == [] + [root];
      LeadsReached(fs, o, root, root, [], [], p, ids);
    }
  }

  /** On every finite graph, cyclic or not, and whatever is pruned, the walk evaluates the
      expression exactly once for every reachable path that is deep enough, and for no other. */
  lemma VisitsExactlyOnce(fs: FileSystem, o: Options, root: Id, p: Path)
    requires Sound(fs) && NamesUnique(fs) && root in fs
    ensures multiset(WalkFrom(fs, o, root, true).visited)[p]
         == if Reachable(fs, o, root, p) && |p| >= o.minDepth then 1 else 0
  {
    PathIsPlain(fs, o, root, root, [], [], None);
    PlainTimes(fs, o, root, root, [], [], p);
    ReachedIsReachable(fs, o, root, p);
    assert [] + p == p;
  }

  ghost predicate OnDevice(o: Options, root: Id, ids: seq<Id>) {
    o.oneFileSystem ==> forall i | 0 <= i < |ids| - 1 :: ids[i].dev == root.dev
  }

  /** No path outside the depth limits is evaluated, and with -xdev nothing behind a directory of
      another file system. */
  lemma VisitsWithinLimits(fs: FileSystem, o: Options, root: Id, p: Path)
    requires Sound(fs) && NamesUnique(fs) && root in fs && p in WalkFrom(fs, o, root, true).visited
    ensures o.minDepth <= |p| && (o.maxDepth >= 0 ==> |p| <= o.maxDepth)
    ensures exists ids: seq<Id> :: Leads(fs, o, root, p, ids) && OnDevice(o, root, ids)
  {
    VisitsExactlyOnce(fs, o, root, p);
    assert multiset(WalkFrom(fs, o, root, true).visited)[p] > 0;
    var ids: seq<Id> :| Leads(fs, o, root, p, ids);
    if p != [] {
      assert LeadsOn(fs, o, p, ids, |p| - 1);
    }
    forall i | o.oneFileSystem && 0 <= i < |ids| - 1
      ensures ids[i].dev == root.dev
    {
      assert LeadsOn(fs, o, p, ids, i);
    }
  }

  // ---------------------------------------------------------------- order

  /** A directory comes before what is in it, or, with -depth, after. */
  ghost predicate Ordered(o: Options, visited: seq<Path>) {
    forall i, j | 0 <= i < j < |visited| :: if o.dirFirst then !(visited[j] < visited[i])
      else !(visited[i] < visited[j])
  }

  lemma {:induction false} PlainOrdered(fs: FileSystem, o: Options, root: Id, id: Id, path: Path, stack: seq<Id>)
    requires Sound(fs) && NamesUnique(fs) && id in fs && Elements(stack) <= fs.Keys
    ensures Ordered(o, Plain(fs, o, root, id, path, stack))
    decreases fs.Keys - Elements(stack), 1, 0
  {
    hide Descends, PlainEntries;
    if Descends(fs, o, root, id, path, stack) {
      assert Elements(stack + [id]) == Elements(stack) + {id};
      var inner := PlainEntries(fs, o, root, id, fs[id].entries, path, stack + [id]);
      EntriesBelow(fs, o, root, id, fs[id].entries, path, stack + [id]);
      EntriesOrdered(fs, o, root, id, fs[id].entries, path, stack + [id]);
      OrderedAround(o, path, inner);
    }
  }

  lemma OrderedAround(o: Options, path: Path, inner: seq<Path>)
    requires Ordered(o, inner) && StrictlyBelow(inner, path)
    ensures o.dirFirst ==> Ordered(o, Here(o, path) + inner)
    ensures !o.dirFirst ==> Ordered(o, inner + Here(o, path))
  {
    forall k | 0 <= k < |inner|
      ensures !(inner[k] < path)
    {
      assert inner[k] in inner;
      assert |path| < |inner[k]|;
    }
  }

  lemma {:induction false} EntriesOrdered(fs: FileSystem, o: Options, root: Id, dir: Id, entries: seq<Entry>,
                                          path: Path,
                                          stack: seq<Id>)
    requires Sound(fs) && NamesUnique(fs) && dir in fs && Elements(stack) <= fs.Keys
    requires DistinctNames(entries) && forall e | e in entries :: e in fs[dir].entries
    ensures Ordered(o, PlainEntries(fs, o, root, dir, entries, path, stack))
    decreases fs.Keys - Elements(stack), 2, |entries|
  {
    hide Plain, AllBelow, Skipped;
    if entries != [] {
      hide Ordered;
      var e, rest := entries[0], entries[1..];
      assert e in entries && forall x | x in rest :: x in entries;
      EntriesOrdered(fs, o, root, dir, rest, path, stack);
      if !Skipped(e.name) {
        PlainBelow(fs, o, root, e.id, path + [e.name], stack);
        PlainOrdered(fs, o, root, e.id, path + [e.name], stack);
        EntriesApart(fs, o, root, dir, rest, path, stack, e.name);
        OrderedBeside(o, path, e.name, Plain(fs, o, root, e.id, path + [e.name], stack),
                      PlainEntries(fs, o, root, dir, rest, path, stack));
      }
    }
  }

  ghost predicate Apart(visited: seq<Path>, path: Path, name: Name) {
    forall q | q in visited :: path < q && q[|path|] != name
  }

  lemma {:induction false} EntriesApart(fs: FileSystem, o: Options, root: Id, dir: Id, entries: seq<Entry>, path: Path,
                                        stack: seq<Id>, name: Name)
    requires Sound(fs) && dir in fs && Elements(stack) <= fs.Keys
    requires forall e | e in entries :: e in fs[dir].entries && e.name != name
    ensures Apart(PlainEntries(fs, o, root, dir, entries, path, stack), path, name)
    decreases |entries|
  {
    hide Plain, Skipped, AllBelow;
    if entries != [] {
      var e, rest := entries[0], entries[1..];
      assert e in entries && forall x | x in rest :: x in entries;
      EntriesApart(fs, o, root, dir, rest, path, stack, name);
      if !Skipped(e.name) {
        PlainBelow(fs, o, root, e.id, path + [e.name], stack);
        BelowIsApart(Plain(fs, o, root, e.id, path + [e.name], stack), path, e.name, name);
      }
    }
  }

  lemma BelowIsApart(visited: seq<Path>, path: Path, name: Name, other: Name)
    requires AllBelow(visited, path + [name]) && name != other
    ensures Apart(visited, path, other)
  {
    forall q | q in visited
      ensures path < q && q[|path|] != other
    {
      assert path < path + [name] <= q && (path + [name])[|path|] == name;
    }
  }

  lemma OrderedBeside(o: Options, path: Path, name: Name, first: seq<Path>, more: seq<Path>)
    requires Ordered(o, first) && Ordered(o, more)
    requires AllBelow(first, path + [name]) && Apart(more, path, name)
    ensures Ordered(o, first + more)
  {
    forall i, j | 0 <= i < |first| && 0 <= j < |more|
      ensures !(first[i] < more[j]) && !(more[j] < first[i])
    {
      assert first[i] in first && more[j] in more;
      assert path + [name] <= first[i] && (path + [name])[|path|] == name;
    }
    var all := first + more;
    forall i, j | 0 <= i < j < |all|
      ensures if o.dirFirst then !(all[j] < all[i]) else !(all[i] < all[j])
    {
      if |first| <= i {
        assert all[i] == more[i - |first|] && all[j] == more[j - |first|];
      } else if j >= |first| {
        assert all[j] == more[j - |first|];
      }
    }
  }

  /** Without -depth a directory is evaluated before everything in it, with -depth after. */
  lemma WalkOrdered(fs: FileSystem, o: Options, root: Id)
    requires Sound(fs) && NamesUnique(fs) && root in fs
    ensures Ordered(o, WalkFrom(fs, o, root, true).visited)
  {
    PathIsPlain(fs, o, root, root, [], [], None);
    PlainOrdered(fs, o, root, root, [], []);
  }

  // ---------------------------------------------------------------- the order of any two paths

  /** Where a name stands in a directory. */
  function Position(entries: seq<Entry>, name: Name): nat {
    if entries == [] || entries[0].name == name then 0 else 1 + Position(entries[1..], name)
  }

  /** From `id`, the names `u` are to be evaluated before the names `v`: where they part, a directory
      comes before or after what is in it, and siblings come as readdir tells them. */
  predicate Sooner(fs: FileSystem, o: Options, id: Id, u: Path, v: Path)
    requires Sound(fs) && id in fs
    decreases |u|
  {
    if u == [] then v != [] && o.dirFirst
    else if v == [] then !o.dirFirst
    else if u[0] != v[0] then Position(fs[id].entries, u[0]) < Position(fs[id].entries, v[0])
    else
      var e := Lookup(fs[id].entries, u[0]);
      e.Some? && Sooner(fs, o, e.value.id, u[1..], v[1..])
  }

  ghost predicate Sorted(fs: FileSystem, o: Options, id: Id, path: Path, visited: seq<Path>)
    requires Sound(fs) && id in fs
  {
    forall i, j | 0 <= i < j < |visited| :: SoonerBelow(fs, o, id, path, visited[i], visited[j])
  }

  ghost predicate SoonerBelow(fs: FileSystem, o: Options, id: Id, path: Path, p: Path, q: Path)
    requires Sound(fs) && id in fs
  {
    path <= p && path <= q && Sooner(fs, o, id, p[|path|..], q[|path|..])
  }

  lemma {:induction false} PlainSorted(fs: FileSystem, o: Options, root: Id, id: Id, path: Path, stack: seq<Id>)
    requires Sound(fs) && NamesUnique(fs) && id in fs && Elements(stack) <= fs.Keys
    ensures Sorted(fs, o, id, path, Plain(fs, o, root, id, path, stack))
    decreases fs.Keys - Elements(stack), 1, 0
  {
    hide Descends, PlainEntries, SoonerBelow;
    if Descends(fs, o, root, id, path, stack) {
      assert Elements(stack + [id]) == Elements(stack) + {id};
      var entries := fs[id].entries;
      var inner := PlainEntries(fs, o, root, id, entries, path, stack + [id]);
      EntriesBelow(fs, o, root, id, entries, path, stack + [id]);
      EntriesSorted(fs, o, root, id, 0, path, stack + [id]);
      assert entries[0..] == entries;
      SortedAround(fs, o, id, path, inner);
    }
  }

  lemma SortedAround(fs: FileSystem, o: Options, id: Id, path: Path, inner: seq<Path>)
    requires Sound(fs) && id in fs && Sorted(fs, o, id, path, inner) && StrictlyBelow(inner, path)
    ensures o.dirFirst ==> Sorted(fs, o, id, path, Here(o, path) + inner)
    ensures !o.dirFirst ==> Sorted(fs, o, id, path, inner + Here(o, path))
  {
    forall k | 0 <= k < |inner|
      ensures if o.dirFirst then SoonerBelow(fs, o, id, path, path, inner[k])
        else SoonerBelow(fs, o, id, path, inner[k], path)
    {
      assert inner[k] in inner && |path| < |inner[k]|;
      assert path[|path|..] == [] && inner[k][|path|..] != [];
    }
    hide SoonerBelow;
  }

  /** The entries from the `n`-th one on. */
  lemma {:induction false} EntriesSorted(fs: FileSystem, o: Options, root: Id, dir: Id, n: nat, path: Path,
                                         stack: seq<Id>)
    requires Sound(fs) && NamesUnique(fs) && dir in fs && Elements(stack) <= fs.Keys && n <= |fs[dir].entries|
    ensures Sorted(fs, o, dir, path, PlainEntries(fs, o, root, dir, fs[dir].entries[n..], path, stack))
    ensures From(fs, dir, n, path, PlainEntries(fs, o, root, dir, fs[dir].entries[n..], path, stack))
    decreases fs.Keys - Elements(stack), 2, |fs[dir].entries| - n
  {
    hide Plain, AllBelow, Skipped, Sorted, From;
    var entries := fs[dir].entries;
    if n == |entries| {
      NothingSorted(fs, o, dir, n, path);
    } else {
      var e := entries[n];
      assert entries[n..][1..] == entries[n + 1..];
      EntriesSorted(fs, o, root, dir, n + 1, path, stack);
      var more := PlainEntries(fs, o, root, dir, entries[n + 1..], path, stack);
      FromEarlier(fs, dir, n, path, more);
      if !Skipped(e.name) {
        var first := Plain(fs, o, root, e.id, path + [e.name], stack);
        PlainBelow(fs, o, root, e.id, path + [e.name], stack);
        PlainSorted(fs, o, root, e.id, path + [e.name], stack);
        PositionAt(entries, n);
        LookupFinds(entries, e);
        SortedHigher(fs, o, dir, e, path, first);
        SortedBeside(fs, o, dir, n, path, first, more);
      }
    }
  }

  /** The paths lead through entries from the `n`-th one on. */
  ghost predicate From(fs: FileSystem, dir: Id, n: nat, path: Path, visited: seq<Path>)
    requires dir in fs
  {
    forall q | q in visited :: path < q && Position(fs[dir].entries, q[|path|]) >= n
  }

  lemma NothingSorted(fs: FileSystem, o: Options, dir: Id, n: nat, path: Path)
    requires Sound(fs) && dir in fs
    ensures Sorted(fs, o, dir, path, []) && From(fs, dir, n, path, [])
  {
  }

  lemma FromEarlier(fs: FileSystem, dir: Id, n: nat, path: Path, visited: seq<Path>)
    requires dir in fs && From(fs, dir, n + 1, path, visited)
    ensures From(fs, dir, n, path, visited)
  {
  }

  lemma {:induction false} PositionAt(entries: seq<Entry>, n: nat)
    requires DistinctNames(entries) && n < |entries|
    ensures Position(entries, entries[n].name) == n
  {
    if n > 0 {
      assert entries[0].name != entries[n].name && entries[1..][n - 1] == entries[n];
      PositionAt(entries[1..], n - 1);
    }
  }

  lemma SortedHigher(fs: FileSystem, o: Options, dir: Id, e: Entry, path: Path, visited: seq<Path>)
    requires Sound(fs) && dir in fs && e in fs[dir].entries && Lookup(fs[dir].entries, e.name) == Some(e)
    requires Sorted(fs, o, e.id, path + [e.name], visited)
    ensures Sorted(fs, o, dir, path, visited)
  {
    forall i, j | 0 <= i < j < |visited|
      ensures SoonerBelow(fs, o, dir, path, visited[i], visited[j])
    {
      SoonerHigher(fs, o, dir, e, path, visited[i], visited[j]);
    }
  }

  lemma SoonerHigher(fs: FileSystem, o: Options, dir: Id, e: Entry, path: Path, p: Path, q: Path)
    requires Sound(fs) && dir in fs && e in fs[dir].entries && Lookup(fs[dir].entries, e.name) == Some(e)
    requires SoonerBelow(fs, o, e.id, path + [e.name], p, q)
    ensures SoonerBelow(fs, o, dir, path, p, q)
  {
    var n := |path|;
    assert path < path + [e.name] && (path + [e.name])[n] == e.name;
    assert p[n] == e.name && q[n] == e.name;
    assert p[n..][1..] == p[n + 1..] && q[n..][1..] == q[n + 1..];
  }

  lemma SortedBeside(fs: FileSystem, o: Options, dir: Id, n: nat, path: Path, first: seq<Path>, more: seq<Path>)
    requires Sound(fs) && dir in fs && n < |fs[dir].entries| && Position(fs[dir].entries, fs[dir].entries[n].name) == n
    requires AllBelow(first, path + [fs[dir].entries[n].name]) && From(fs, dir, n + 1, path, more)
    requires Sorted(fs, o, dir, path, first) && Sorted(fs, o, dir, path, more)
    ensures Sorted(fs, o, dir, path, first + more) && From(fs, dir, n, path, first + more)
  {
    var name := fs[dir].entries[n].name;
    forall p | p in first
      ensures path < p && p[|path|] == name
    {
      assert path < path + [name] <= p && (path + [name])[|path|] == name;
    }
    forall i, j | 0 <= i < |first| && 0 <= j < |more|
      ensures SoonerBelow(fs, o, dir, path, first[i], more[j])
    {
      assert first[i] in first && more[j] in more;
    }
    SortedAppend(fs, o, dir, path, first, more);
  }

  lemma SortedAppend(fs: FileSystem, o: Options, dir: Id, path: Path, first: seq<Path>, more: seq<Path>)
    requires Sound(fs) && dir in fs && Sorted(fs, o, dir, path, first) && Sorted(fs, o, dir, path, more)
    requires forall i, j | 0 <= i < |first| && 0 <= j < |more| :: SoonerBelow(fs, o, dir, path, first[i], more[j])
    ensures Sorted(fs, o, dir, path, first + more)
  {
    hide SoonerBelow;
    var all := first + more;
    forall i, j | 0 <= i < j < |all|
      ensures SoonerBelow(fs, o, dir, path, all[i], all[j])
    {
      if |first| <= i {
        assert all[i] == more[i - |first|] && all[j] == more[j - |first|];
      } else if j >= |first| {
        assert all[j] == more[j - |first|];
      }
    }
  }

  /** The walk evaluates its paths in this order and no other. */
  lemma WalkSorted(fs: FileSystem, o: Options, root: Id, i: nat, j: nat)
    requires Sound(fs) && NamesUnique(fs) && root in fs && i < j < |WalkFrom(fs, o, root, true).visited|
    ensures var visited := WalkFrom(fs, o, root, true).visited;
      Sooner(fs, o, root, visited[i], visited[j])
  {
    var visited := WalkFrom(fs, o, root, true).visited;
    PathIsPlain(fs, o, root, root, [], [], None);
    PlainSorted(fs, o, root, root, [], []);
    assert SoonerBelow(fs, o, root, [], visited[i], visited[j]);
    assert visited[i][0..] == visited[i] && visited[j][0..] == visited[j];
  }
}
