/** What the walk visits, and that the leaf optimisation does not change it. */
module FindWalkTheorem {
  import opened Wrappers
  import opened FindWalk

  // ---------------------------------------------------------------- the leaf optimisation

  /** Directories among the entries the walk looks at. */
  function Subdirs(fs: FileSystem, entries: seq<Entry>): nat
    requires forall e | e in entries :: e.id in fs
  {
    if entries == [] then 0
    else
      var e := entries[0];
      assert e in entries;
      Subdirs(fs, entries[1..]) + if !Skipped(e.name) && fs[e.id].isDir then 1 else 0
  }

  /** Unix link counts: one for the name, one for ".", and one for each subdirectory's "..", or
      some value below 2 that tells nothing. */
  ghost predicate HonestLinks(fs: FileSystem)
    requires Sound(fs)
  {
    forall id | id in fs && fs[id].isDir :: fs[id].nlink < 2 || fs[id].nlink >= 2 + Subdirs(fs, fs[id].entries)
  }

  /** Two walks that cannot be told apart from outside. */
  predicate Agree(fast: Walk, plain: Walk) {
    fast.visited == plain.visited && fast.dives == plain.dives && fast.isDir == plain.isDir
    && !fast.noLeaf && plain.noLeaf
  }

  lemma {:induction false} PathRefines(fs: FileSystem, o: Options, root: Id, id: Id, path: Path, stack: seq<Id>,
                                       knownDir: Option<bool>, leaf: bool)
    requires Sound(fs) && HonestLinks(fs) && id in fs && Elements(stack) <= fs.Keys
    requires knownDir.Some? ==> knownDir.value == fs[id].isDir
    requires leaf ==> !fs[id].isDir
    ensures var fast := VisitPath(fs, o, root, id, path, stack, knownDir, leaf, false);
      Agree(fast, VisitPath(fs, o, root, id, path, stack, knownDir, false, true)) && fast.isDir == fs[id].isDir
    decreases fs.Keys - Elements(stack), 1, 0
  {
    if fs[id].isDir && !StopsHere(o, root, id, path, stack) {
      assert Elements(stack + [id]) == Elements(stack) + {id};
      var n := fs[id];
      var left := if n.nlink < 2 then 0 else n.nlink - 2;
      EntriesRefine(fs, o, root, id, n.entries, path, stack + [id], left, n.nlink < 2, left, n.nlink < 2);
    }
  }

  lemma {:induction false} EntriesRefine(fs: FileSystem, o: Options, root: Id, dir: Id, entries: seq<Entry>, path: Path,
                                         stack: seq<Id>, left: int, unreliable: bool, left2: int, unreliable2: bool)
    requires Sound(fs) && HonestLinks(fs) && dir in fs && Elements(stack) <= fs.Keys
    requires forall e | e in entries :: e in fs[dir].entries
    requires unreliable || left >= Subdirs(fs, entries)
    ensures Agree(VisitEntries(fs, o, root, dir, entries, path, stack, left, unreliable, false),
                  VisitEntries(fs, o, root, dir, entries, path, stack, left2, unreliable2, true))
    decreases fs.Keys - Elements(stack), 2, |entries|
  {
    if entries != [] {
      var e, rest := entries[0], entries[1..];
      assert e in entries && forall x | x in rest :: x in entries;
      if Skipped(e.name) {
        EntriesRefine(fs, o, root, dir, rest, path, stack, left, unreliable, left2, unreliable2);
      } else {
        var leaf := !unreliable && left == 0;
        PathRefines(fs, o, root, e.id, path + [e.name], stack, e.knownDir, leaf);
        var left1 := if unreliable then left else left - (if fs[e.id].isDir then 1 else 0);
        EntriesRefine(fs, o, root, dir, rest, path, stack, left1, unreliable, left2, unreliable2);
      }
    }
  }

  /** With honest link counts the walk that trusts them evaluates the expression for the same
      paths in the same order as the walk with -noleaf, whatever is pruned, and reads the same
      directories. */
  lemma LeafOptimisationRefines(fs: FileSystem, o: Options, root: Id)
    requires Sound(fs) && HonestLinks(fs) && root in fs
    ensures WalkFrom(fs, o, root, false).visited == WalkFrom(fs, o, root, true).visited
    ensures WalkFrom(fs, o, root, false).dives == WalkFrom(fs, o, root, true).dives
  {
    PathRefines(fs, o, root, root, [], [], None, false);
  }

  // ---------------------------------------------------------------- termination and loops

  predicate Distinct(stack: seq<Id>) {
    forall i, j | 0 <= i < j < |stack| :: stack[i] != stack[j]
  }

  /** The stacks of directories being read hold no directory twice, and end where they began. */
  ghost predicate GoodDives(dives: seq<seq<Id>>, stack: seq<Id>) {
    forall d | d in dives :: stack <= d && |d| > |stack| && Distinct(d)
  }

  lemma {:induction false} PathDives(fs: FileSystem, o: Options, root: Id, id: Id, path: Path, stack: seq<Id>,
                                     knownDir: Option<bool>, leaf: bool, noLeaf: bool)
    requires Sound(fs) && id in fs && Elements(stack) <= fs.Keys && Distinct(stack)
    ensures GoodDives(VisitPath(fs, o, root, id, path, stack, knownDir, leaf, noLeaf).dives, stack)
    decreases fs.Keys - Elements(stack), 1, 0
  {
    if TakenForDir(fs, id, knownDir, leaf) && !StopsHere(o, root, id, path, stack) {
      assert Elements(stack + [id]) == Elements(stack) + {id};
      var n := fs[id];
      EntriesDives(fs, o, root, id, n.entries, path, stack + [id],
        if n.nlink < 2 then 0 else n.nlink - 2, n.nlink < 2, noLeaf);
    }
  }

  lemma {:induction false} EntriesDives(fs: FileSystem, o: Options, root: Id, dir: Id, entries: seq<Entry>, path: Path,
                                        stack: seq<Id>, left: int, unreliable: bool, noLeaf: bool)
    requires Sound(fs) && dir in fs && Elements(stack) <= fs.Keys && Distinct(stack)
    requires forall e | e in entries :: e in fs[dir].entries
    ensures GoodDives(VisitEntries(fs, o, root, dir, entries, path, stack, left, unreliable, noLeaf).dives, stack)
    decreases fs.Keys - Elements(stack), 2, |entries|
  {
    if entries != [] {
      var e, rest := entries[0], entries[1..];
      assert e in entries && forall x | x in rest :: x in entries;
      if Skipped(e.name) {
        EntriesDives(fs, o, root, dir, rest, path, stack, left, unreliable, noLeaf);
      } else if !noLeaf && !unreliable {
        var wrong := e.knownDir == Some(true) && left == 0;
        var left1 := if wrong then 1 else left;
        var w := VisitPath(fs, o, root, e.id, path + [e.name], stack, e.knownDir, left1 == 0, noLeaf || wrong);
        PathDives(fs, o, root, e.id, path + [e.name], stack, e.knownDir, left1 == 0, noLeaf || wrong);
        EntriesDives(fs, o, root, dir, rest, path, stack, left1 - (if w.isDir then 1 else 0), unreliable || wrong,
          w.noLeaf);
      } else {
        var w := VisitPath(fs, o, root, e.id, path + [e.name], stack, e.knownDir, false, noLeaf);
        PathDives(fs, o, root, e.id, path + [e.name], stack, e.knownDir, false, noLeaf);
        EntriesDives(fs, o, root, dir, rest, path, stack, left, unreliable, w.noLeaf);
      }
    }
  }

  /** On every graph, cyclic or not, the directories being read at one time are all different. */
  lemma NoDirectoryInsideItself(fs: FileSystem, o: Options, root: Id, noLeaf: bool)
    requires Sound(fs) && root in fs
    ensures forall d | d in WalkFrom(fs, o, root, noLeaf).dives :: Distinct(d) && d != [] && d[0] == root
  {
    PathDives(fs, o, root, root, [], [], None, false, noLeaf);
    DivesStartAt(fs, o, root, noLeaf);
  }

  lemma DivesStartAt(fs: FileSystem, o: Options, root: Id, noLeaf: bool)
    requires Sound(fs) && root in fs
    ensures forall d | d in WalkFrom(fs, o, root, noLeaf).dives :: d != [] && d[0] == root
  {
    if fs[root].isDir && !StopsHere(o, root, root, [], []) {
      var n := fs[root];
      assert [] + [root] == [root];
      assert Elements([root]) == Elements([]) + {root};
      EntriesDives(fs, o, root, root, n.entries, [], [root],
        if n.nlink < 2 then 0 else n.nlink - 2, n.nlink < 2, noLeaf);
    }
  }
}
