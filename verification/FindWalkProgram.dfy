/** `process_path` and `process_dir` as the program runs them: on one growing stack of directory
    ids and a handful of global variables. */
module FindWalkProgram {
  import opened Wrappers
  import opened FindWalk

  /** Room the stack grows by. */
  const DIR_ALLOC_STEP: nat := 32

  /** What the walk has done so far. */
  datatype Log = Log(visited: seq<Path>, dives: seq<seq<Id>>)

  function After(l: Log, w: Walk): Log {
    Log(l.visited + w.visited, l.dives + w.dives)
  }

  lemma AfterThen(l: Log, a: Walk, b: Walk)
    ensures After(After(l, a), b) == After(l, Then(a, b))
  {
  }

  lemma AfterNothing(l: Log, w: Walk)
    requires w.visited == [] && w.dives == []
    ensures After(l, w) == l
  {
  }

  lemma ThenNothing(l: Log, done: Walk, b: bool)
    ensures var w := Then(done, Walk([], [], false, b));
      w.noLeaf == b && After(l, w) == After(l, done)
  {
  }

  /** One path evaluated, if it is deep enough. */
  function Alone(o: Options, path: Path): Walk {
    Walk(if |path| >= o.minDepth then [path] else [], [], false, false)
  }

  function Dive(dive: seq<Id>): Walk {
    Walk([], [dive], true, false)
  }

  lemma AfterAlone(l: Log, o: Options, path: Path, isDir: bool, noLeaf: bool)
    ensures After(l, Alone(o, path).(isDir := isDir, noLeaf := noLeaf)) == After(l, Alone(o, path))
  {
  }

  lemma AfterAround(l: Log, o: Options, path: Path, dive: seq<Id>, w: Walk)
    ensures Around(o, path, dive, w).isDir && Around(o, path, dive, w).noLeaf == w.noLeaf
    ensures o.dirFirst ==> After(After(After(l, Alone(o, path)), Dive(dive)), w) == After(l, Around(o, path, dive, w))
    ensures !o.dirFirst ==> After(After(After(l, Dive(dive)), w), Alone(o, path)) == After(l, Around(o, path, dive, w))
  {
  }

  lemma NothingThen(w: Walk, b: bool)
    ensures Then(Walk([], [], false, b), w) == w
  {
  }

  lemma ThenAssociative(a: Walk, b: Walk, c: Walk)
    ensures Then(Then(a, b), c) == Then(a, Then(b, c))
  {
  }

  lemma Popped(stack: seq<Id>, id: Id)
    ensures (stack + [id])[..|stack + [id]| - 1] == stack
  {
  }

  /** What reading a directory adds, given what its entries add. */
  function Around(o: Options, path: Path, dive: seq<Id>, w: Walk): Walk {
    var here := Alone(o, path).visited;
    Walk(if o.dirFirst then here + w.visited else w.visited + here, [dive] + w.dives, true, w.noLeaf)
  }

  function InDir(fs: FileSystem, o: Options, root: Id, dir: Id, path: Path, stack: seq<Id>, noLeaf: bool): Walk
    requires Sound(fs) && dir in fs && Elements(stack) <= fs.Keys
  {
    var n := fs[dir];
    VisitEntries(fs, o, root, dir, n.entries, path, stack, if n.nlink < 2 then 0 else n.nlink - 2, n.nlink < 2, noLeaf)
  }

  lemma VisitPathBy(fs: FileSystem, o: Options, root: Id, id: Id, path: Path, stack: seq<Id>,
                    knownDir: Option<bool>, leaf: bool, noLeaf: bool)
    requires Sound(fs) && id in fs && Elements(stack) <= fs.Keys
    ensures Elements(stack + [id]) <= fs.Keys
    ensures VisitPath(fs, o, root, id, path, stack, knownDir, leaf, noLeaf)
         == if !TakenForDir(fs, id, knownDir, leaf) then Alone(o, path).(isDir := false, noLeaf := noLeaf)
            else if StopsHere(o, root, id, path, stack) then Alone(o, path).(isDir := true, noLeaf := noLeaf)
            else Around(o, path, stack + [id], InDir(fs, o, root, id, path, stack + [id], noLeaf))
  {
    hide StopsHere, TakenForDir;
    Pushed(stack, id);
  }

  lemma EmptyEntries(fs: FileSystem, o: Options, root: Id, dir: Id, path: Path, stack: seq<Id>, left: int,
                     unreliable: bool, noLeaf: bool)
    requires Sound(fs) && dir in fs && Elements(stack) <= fs.Keys
    ensures VisitEntries(fs, o, root, dir, [], path, stack, left, unreliable, noLeaf) == Walk([], [], false, noLeaf)
  {
  }

  lemma SkippedEntry(fs: FileSystem, o: Options, root: Id, dir: Id, entries: seq<Entry>, path: Path, stack: seq<Id>,
                     left: int, unreliable: bool, noLeaf: bool)
    requires Sound(fs) && dir in fs && Elements(stack) <= fs.Keys
    requires forall e | e in entries :: e in fs[dir].entries
    requires entries != [] && Skipped(entries[0].name)
    ensures VisitEntries(fs, o, root, dir, entries, path, stack, left, unreliable, noLeaf)
         == Then(Walk([], [], false, noLeaf),
           VisitEntries(fs, o, root, dir, entries[1..], path, stack, left, unreliable, noLeaf))
  {
    hide Skipped;
    NothingThen(VisitEntries(fs, o, root, dir, entries[1..], path, stack, left, unreliable, noLeaf), noLeaf);
  }

  lemma CountedEntry(fs: FileSystem, o: Options, root: Id, dir: Id, entries: seq<Entry>, path: Path, stack: seq<Id>,
                     left: int, unreliable: bool, noLeaf: bool)
    requires Sound(fs) && dir in fs && Elements(stack) <= fs.Keys
    requires forall e | e in entries :: e in fs[dir].entries
    requires entries != [] && !Skipped(entries[0].name)
    requires !noLeaf && !unreliable && entries[0] in fs[dir].entries
    ensures var e := entries[0];
      var wrong := e.knownDir == Some(true) && left == 0;
      var left1 := if wrong then 1 else left;
      var w := VisitPath(fs, o, root, e.id, path + [e.name], stack, e.knownDir, left1 == 0, wrong);
      VisitEntries(fs, o, root, dir, entries, path, stack, left, unreliable, noLeaf)
      == Then(w,
        VisitEntries(fs, o, root, dir, entries[1..], path, stack, left1 - (if w.isDir then 1 else 0), wrong, w.noLeaf))
  {
    hide Skipped, VisitPath, Then;
  }

  lemma UncountedEntry(fs: FileSystem, o: Options, root: Id, dir: Id, entries: seq<Entry>, path: Path, stack: seq<Id>,
                       left: int, unreliable: bool, noLeaf: bool)
    requires Sound(fs) && dir in fs && Elements(stack) <= fs.Keys
    requires forall e | e in entries :: e in fs[dir].entries
    requires entries != [] && !Skipped(entries[0].name)
    requires (noLeaf || unreliable) && entries[0] in fs[dir].entries
    ensures var e := entries[0];
      var w := VisitPath(fs, o, root, e.id, path + [e.name], stack, e.knownDir, false, noLeaf);
      VisitEntries(fs, o, root, dir, entries, path, stack, left, unreliable, noLeaf)
      == Then(w, VisitEntries(fs, o, root, dir, entries[1..], path, stack, left, unreliable, w.noLeaf))
  {
    hide Skipped, VisitPath, Then;
  }

  lemma Pushed(stack: seq<Id>, id: Id)
    ensures Elements(stack + [id]) == Elements(stack) + {id}
  {
  }

  lemma NotYetOnStack(fs: FileSystem, o: Options, root: Id, id: Id, path: Path, stack: seq<Id>)
    requires !StopsHere(o, root, id, path, stack) && id in fs && Elements(stack) <= fs.Keys
    ensures fs.Keys - Elements(stack + [id]) < fs.Keys - Elements(stack)
  {
    Pushed(stack, id);
    assert id in fs.Keys - Elements(stack);
  }

  lemma EntryLeads(fs: FileSystem, dir: Id, i: nat)
    requires Sound(fs) && dir in fs && i < |fs[dir].entries|
    ensures fs[dir].entries[i].id in fs
  {
    assert fs[dir].entries[i] in fs[dir].entries;
  }

  class Finder {
    const fs: FileSystem
    const o: Options
    const root: Id
    var dirIds: array<Id>
    var dirCurr: int
    var curDepth: nat
    var stopAtCurrentLevel: bool
    var noLeafCheck: bool
    var rootDev: nat
    ghost var log: Log

    /** The ids of the directories being read: the used part of the array. */
    ghost var stack: seq<Id>

    ghost predicate Stacked()
      reads this`dirIds, this`dirCurr, this`stack, dirIds
    {
      -1 <= dirCurr < dirIds.Length && dirIds[..dirCurr + 1] == stack
    }

    ghost predicate Valid()
      reads this`dirIds, this`dirCurr, this`rootDev, this`stack, dirIds
    {
      && Sound(fs) && root in fs
      && Stacked() && Elements(stack) <= fs.Keys
      && (o.oneFileSystem && stack != [] ==> rootDev == root.dev)
    }

    lemma StackInFs()
      requires Valid()
      ensures Sound(fs) && Elements(stack) <= fs.Keys
    {
    }

    constructor (fs: FileSystem, o: Options, root: Id, noLeaf: bool)
      requires Sound(fs) && root in fs
      ensures Valid() && fresh(dirIds) && stack == [] && curDepth == 0
      ensures this.fs == fs && this.o == o && this.root == root && noLeafCheck == noLeaf
      ensures log == Log([], [])
    {
      this.fs, this.o, this.root := fs, o, root;
      dirIds := new Id[DIR_ALLOC_STEP](_ => Id(0, 0));
      dirCurr, curDepth, stopAtCurrentLevel, noLeafCheck, rootDev := -1, 0, false, noLeaf, 0;
      log, stack := Log([], []), [];
    }

    /** Puts a directory on the stack, in a larger array when the old one is full. */
    method Push(id: Id)
      requires Stacked()
      modifies this`dirIds, this`dirCurr, this`stack, dirIds
      ensures dirIds == old(dirIds) || fresh(dirIds)
      ensures Stacked() && stack == old(stack) + [id]
    {
      dirCurr := dirCurr + 1;
      if dirIds.Length <= dirCurr {
        var less := dirIds;
        var more := new Id[less.Length + DIR_ALLOC_STEP](i requires 0 <= i reads less =>
          if i < less.Length then less[i] else Id(0, 0));
        assert more[..dirCurr] == stack;
        dirIds := more;
      }
      dirIds[dirCurr] := id;
      stack := stack + [id];
    }

    method Pop()
      requires Valid() && stack != []
      modifies this`dirCurr, this`stack
      ensures Valid() && stack == old(stack)[..|old(stack)| - 1]
    {
      ghost var before := stack;
      dirCurr := dirCurr - 1;
      stack := stack[..|stack| - 1];
      assert forall id | id in stack :: id in before;
    }

    /** Whether a directory is one of those being read: the loop over the stack. */
    method OnStack(id: Id) returns (found: bool)
      requires Stacked()
      ensures found <==> id in stack
    {
      found := false;
      for i := 0 to dirCurr + 1
        invariant found <==> id in dirIds[..i]
      {
        assert dirIds[..i + 1] == dirIds[..i] + [dirIds[i]];
        if dirIds[i] == id {
          found := true;
        }
      }
    }

    /** The first decisions about a directory, before the expression has a say. */
    method Enter(id: Id, path: Path)
      requires Valid() && id in fs && curDepth == |path|
      requires if path == [] then id == root else stack != []
      modifies this`dirIds, this`dirCurr, this`stack, this`stopAtCurrentLevel, this`rootDev, dirIds
      ensures dirIds == old(dirIds) || fresh(dirIds)
      ensures Valid() && stack == old(stack) + [id]
      ensures (stopAtCurrentLevel || (o.dirFirst && |path| >= o.minDepth && o.prunes(path)))
          <==> StopsHere(o, root, id, path, old(stack))
    {
      hide Sound, Elements;
      stopAtCurrentLevel := o.maxDepth >= 0 && curDepth >= o.maxDepth;
      var seen := OnStack(id);
      if seen {
        stopAtCurrentLevel := true;
      }
      Pushed(stack, id);
      Push(id);
      if o.oneFileSystem {
        if curDepth == 0 {
          rootDev := id.dev;
        } else if id.dev != rootDev {
          stopAtCurrentLevel := true;
        }
      }
    }

    /** `apply_predicate`, of which the walk sees only that it ran, and -prune; not above the
        minimum depth. */
    method Apply(path: Path)
      requires curDepth == |path|
      modifies this`log, this`stopAtCurrentLevel
      ensures log == After(old(log), Alone(o, path))
      ensures stopAtCurrentLevel == (old(stopAtCurrentLevel) || (o.dirFirst && |path| >= o.minDepth && o.prunes(path)))
    {
      if curDepth >= o.minDepth {
        log := After(log, Alone(o, path));
        if o.dirFirst && o.prunes(path) {
          stopAtCurrentLevel := true;
        }
      } else {
        AfterNothing(log, Alone(o, path));
      }
    }

    /** What a call leaves as it was, and what it adds. */
    twostate predicate Did(w: Walk)
      reads this
    {
      && stack == old(stack) && curDepth == old(curDepth)
      && log == After(old(log), w)
      && noLeafCheck == w.noLeaf && (old(noLeafCheck) ==> noLeafCheck)
    }

    method ProcessPath(id: Id, path: Path, knownDir: Option<bool>, leaf: bool) returns (isDir: bool)
      requires Valid() && id in fs && curDepth == |path|
      requires if path == [] then id == root else stack != []
      modifies this, dirIds
      ensures dirIds == old(dirIds) || fresh(dirIds)
      ensures Valid()
      ensures var w := VisitPath(fs, o, root, id, path, old(stack), knownDir, leaf, old(noLeafCheck));
        Did(w) && isDir == w.isDir
      decreases fs.Keys - Elements(stack), 1, 0
    {
      hide StopsHere, TakenForDir, VisitPath, InDir, Sound, Elements, Valid, After, Alone, Around, Dive;
      StackInFs();
      ghost var before, outer := log, stack;
      VisitPathBy(fs, o, root, id, path, outer, knownDir, leaf, noLeafCheck);
      if !TakenForDir(fs, id, knownDir, leaf) {
        Apply(path);
        AfterAlone(before, o, path, false, noLeafCheck);
        return false;
      }
      Enter(id, path);
      if o.dirFirst {
        Apply(path);
      }
      if stopAtCurrentLevel {
        AfterAlone(before, o, path, true, noLeafCheck);
      } else {
        NotYetOnStack(fs, o, root, id, path, outer);
        AfterAround(before, o, path, stack, InDir(fs, o, root, id, path, stack, noLeafCheck));
        log := After(log, Dive(stack));
        ProcessDir(id, path);
      }
      if !o.dirFirst {
        Apply(path);
      }
      Pop();
      Popped(outer, id);
      return true;
    }

    method ProcessDir(dir: Id, path: Path)
      requires Valid() && dir in fs && curDepth == |path| && stack != []
      modifies this, dirIds
      ensures dirIds == old(dirIds) || fresh(dirIds)
      ensures Valid()
      ensures Did(InDir(fs, o, root, dir, path, old(stack), old(noLeafCheck)))
      decreases fs.Keys - Elements(stack), 3, 0
    {
      hide VisitEntries, Elements, Sound, Valid, After, Then;
      var n := fs[dir];
      var unreliable := n.nlink < 2;
      var left: int := if unreliable then 0 else n.nlink - 2;
      StackInFs();
      ghost var whole := VisitEntries(fs, o, root, dir, n.entries, path, stack, left, unreliable, noLeafCheck);
      ghost var done := Walk([], [], false, noLeafCheck);
      AfterNothing(log, done);
      NothingThen(whole, noLeafCheck);
      assert n.entries[0..] == n.entries;
      for i := 0 to |n.entries|
        invariant dirIds == old(dirIds) || fresh(dirIds)
        invariant Valid() && stack == old(stack) && curDepth == |path|
        invariant log == After(old(log), done)
        invariant whole
          == Then(done, VisitEntries(fs, o, root, dir, n.entries[i..], path, stack, left, unreliable, noLeafCheck))
        invariant old(noLeafCheck) ==> noLeafCheck
        invariant unreliable ==> left == 0 || noLeafCheck
      {
        ghost var w;
        left, unreliable, w := ProcessEntry(dir, i, path, left, unreliable);
        ThenAssociative(done, w,
          VisitEntries(fs, o, root, dir, n.entries[i + 1..], path, stack, left, unreliable, noLeafCheck));
        AfterThen(old(log), done, w);
        done := Then(done, w);
      }
      EmptyEntries(fs, o, root, dir, path, stack, left, unreliable, noLeafCheck);
      ThenNothing(old(log), done, noLeafCheck);
      assert n.entries[|n.entries|..] == [];
      // the link count was not used once it was known to be wrong
      assert unreliable ==> left == 0 || noLeafCheck;
    }

    /** One turn of the loop of `process_dir`. */
    method ProcessEntry(dir: Id, i: nat, path: Path, left: int, unreliable: bool)
      returns (left': int, unreliable': bool, ghost w: Walk)
      requires Valid() && dir in fs && curDepth == |path| && stack != []
      requires i < |fs[dir].entries|
      modifies this, dirIds
      ensures dirIds == old(dirIds) || fresh(dirIds)
      ensures Valid() && Did(w)
      ensures VisitEntries(fs, o, root, dir, fs[dir].entries[i..], path, stack, left, unreliable, old(noLeafCheck))
           == Then(w,
             VisitEntries(fs, o, root, dir, fs[dir].entries[i + 1..], path, stack, left', unreliable', noLeafCheck))
      ensures (unreliable ==> left == 0 || old(noLeafCheck)) ==> (unreliable' ==> left' == 0 || noLeafCheck)
      decreases fs.Keys - Elements(stack), 2, 0
    {
      hide VisitPath, VisitEntries, Elements, Skipped, Sound, Valid, After, Then;
      left', unreliable' := left, unreliable;
      StackInFs();
      ghost var entries := fs[dir].entries[i..];
      var e := fs[dir].entries[i];
      assert entries[0] == e && entries[1..] == fs[dir].entries[i + 1..];
      if Skipped(e.name) {
        SkippedEntry(fs, o, root, dir, entries, path, stack, left, unreliable, noLeafCheck);
        w := Walk([], [], false, noLeafCheck);
        AfterNothing(log, w);
        return;
      }
      EntryLeads(fs, dir, i);
      curDepth := curDepth + 1;
      if !noLeafCheck && !unreliable {
        CountedEntry(fs, o, root, dir, entries, path, stack, left, unreliable, noLeafCheck);
        if e.knownDir == Some(true) && left == 0 {
          noLeafCheck, unreliable', left' := true, true, 1;
        }
        w := VisitPath(fs, o, root, e.id, path + [e.name], stack, e.knownDir, left' == 0, noLeafCheck);
        var isDir := ProcessPath(e.id, path + [e.name], e.knownDir, left' == 0);
        left' := left' - if isDir then 1 else 0;
      } else {
        UncountedEntry(fs, o, root, dir, entries, path, stack, left, unreliable, noLeafCheck);
        w := VisitPath(fs, o, root, e.id, path + [e.name], stack, e.knownDir, false, noLeafCheck);
        var _ := ProcessPath(e.id, path + [e.name], e.knownDir, false);
      }
      curDepth := curDepth - 1;
    }

    /** A starting point is walked as `WalkFrom` says, and afterwards no directory is left on the
        stack. */
    method Find() returns (isDir: bool)
      requires Valid() && stack == [] && curDepth == 0 && log == Log([], [])
      modifies this, dirIds
      ensures Valid() && stack == [] && curDepth == 0
      ensures var w := WalkFrom(fs, o, root, old(noLeafCheck));
        log == Log(w.visited, w.dives)
    {
      isDir := ProcessPath(root, [], None, false);
    }
  }
}
