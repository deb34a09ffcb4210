/** What the link count of a directory makes of its entries. */
module FindWalkLeaf {
  import opened Wrappers
  import opened FindWalk
  import opened FindWalkTheorem
  import opened FindWalkReach

  // ---------------------------------------------------------------- a wrong link count

  /** The entries that the loop takes and that readdir names as directories. */
  function KnownDirs(entries: seq<Entry>): nat {
    if entries == [] then 0
    else (if !Skipped(entries[0].name) && entries[0].knownDir == Some(true) then 1 else 0) + KnownDirs(entries[1..])
  }

  /** What one turn of the loop evaluates, and what it leaves for the next one. */
  datatype Turn = Turn(visited: seq<Path>, left: int, unreliable: bool, noLeaf: bool)

  function OneTurn(fs: FileSystem, o: Options, root: Id, dir: Id, e: Entry, path: Path, stack: seq<Id>, s: Turn): Turn
    requires Sound(fs) && dir in fs && Elements(stack) <= fs.Keys && e in fs[dir].entries
  {
    if Skipped(e.name) then s.(visited := [])
    else
      var check := !s.noLeaf && !s.unreliable;
      var wrong := check && e.knownDir == Some(true) && s.left == 0;
      var left := if wrong then 1 else s.left;
      var w := VisitPath(fs, o, root, e.id, path + [e.name], stack, e.knownDir, check && left == 0, s.noLeaf || wrong);
      Turn(w.visited, left - (if check && w.isDir then 1 else 0), s.unreliable || wrong, w.noLeaf)
  }

  lemma SkippedTurn(fs: FileSystem, o: Options, root: Id, dir: Id, entries: seq<Entry>, path: Path, stack: seq<Id>,
                    s: Turn)
    requires Sound(fs) && dir in fs && Elements(stack) <= fs.Keys
    requires entries != [] && forall e | e in entries :: e in fs[dir].entries
    requires Skipped(entries[0].name)
    ensures entries[0] in fs[dir].entries && forall e | e in entries[1..] :: e in fs[dir].entries
    ensures var t := OneTurn(fs, o, root, dir, entries[0], path, stack, s);
      var w := VisitEntries(fs, o, root, dir, entries, path, stack, s.left, s.unreliable, s.noLeaf);
      var more := VisitEntries(fs, o, root, dir, entries[1..], path, stack, t.left, t.unreliable, t.noLeaf);
      w.visited == t.visited + more.visited && w.noLeaf == more.noLeaf
  {
    hide VisitPath, Skipped, Elements, Sound;
    assert entries[0] in entries && forall x | x in entries[1..] :: x in entries;
    Emptily(VisitEntries(fs, o, root, dir, entries[1..], path, stack, s.left, s.unreliable, s.noLeaf).visited);
  }

  lemma TakenTurn(fs: FileSystem, o: Options, root: Id, dir: Id, entries: seq<Entry>, path: Path, stack: seq<Id>,
                  s: Turn)
    requires Sound(fs) && dir in fs && Elements(stack) <= fs.Keys
    requires entries != [] && forall e | e in entries :: e in fs[dir].entries
    requires !Skipped(entries[0].name)
    ensures entries[0] in fs[dir].entries && forall e | e in entries[1..] :: e in fs[dir].entries
    ensures var t := OneTurn(fs, o, root, dir, entries[0], path, stack, s);
      var w := VisitEntries(fs, o, root, dir, entries, path, stack, s.left, s.unreliable, s.noLeaf);
      var more := VisitEntries(fs, o, root, dir, entries[1..], path, stack, t.left, t.unreliable, t.noLeaf);
      w.visited == t.visited + more.visited && w.noLeaf == more.noLeaf
  {
    hide VisitPath, Skipped, Elements, Sound;
    assert entries[0] in entries && forall x | x in entries[1..] :: x in entries;
  }

  lemma TurnByTurn(fs: FileSystem, o: Options, root: Id, dir: Id, entries: seq<Entry>, path: Path, stack: seq<Id>,
                   s: Turn)
    requires Sound(fs) && dir in fs && Elements(stack) <= fs.Keys
    requires entries != [] && forall e | e in entries :: e in fs[dir].entries
    ensures entries[0] in fs[dir].entries && forall e | e in entries[1..] :: e in fs[dir].entries
    ensures var t := OneTurn(fs, o, root, dir, entries[0], path, stack, s);
      var w := VisitEntries(fs, o, root, dir, entries, path, stack, s.left, s.unreliable, s.noLeaf);
      var more := VisitEntries(fs, o, root, dir, entries[1..], path, stack, t.left, t.unreliable, t.noLeaf);
      w.visited == t.visited + more.visited && w.noLeaf == more.noLeaf
  {
    hide VisitPath, Skipped, Elements, Sound, VisitEntries, OneTurn;
    if Skipped(entries[0].name) {
      SkippedTurn(fs, o, root, dir, entries, path, stack, s);
    } else {
      TakenTurn(fs, o, root, dir, entries, path, stack, s);
    }
  }

  lemma Emptily(a: seq<Path>)
    ensures [] + a == a
  {
  }

  predicate CountedOff(entries: seq<Entry>, s: Turn) {
    s.noLeaf || (!s.unreliable && s.left >= 0 && KnownDirs(entries) >= s.left)
  }

  lemma CountsOff(fs: FileSystem, o: Options, root: Id, dir: Id, entries: seq<Entry>, path: Path, stack: seq<Id>,
                  s: Turn)
    requires Sound(fs) && dir in fs && Elements(stack) <= fs.Keys
    requires entries != [] && entries[0] in fs[dir].entries && CountedOff(entries, s)
    ensures CountedOff(entries[1..], OneTurn(fs, o, root, dir, entries[0], path, stack, s))
  {
    hide VisitPath, Skipped;
    var e := entries[0];
    WalksDirs(fs, o, root, e, path, stack, false, true);
    WalksDirs(fs, o, root, e, path, stack, s.left == 0, false);
    if s.noLeaf {
      PathIsPlain(fs, o, root, e.id, path + [e.name], stack, e.knownDir);
    }
  }

  /** A link count that is too low shows at the first known directory too many: what comes before is
      walked as if nothing followed, and from there on the walk is the plain one. */
  lemma {:induction false} WrongCountNoticed(fs: FileSystem, o: Options, root: Id, dir: Id, entries: seq<Entry>,
                                             path: Path,
                                             stack: seq<Id>, s: Turn, k: nat)
    requires Sound(fs) && dir in fs && Elements(stack) <= fs.Keys
    requires forall e | e in entries :: e in fs[dir].entries
    requires k < |entries| && !Skipped(entries[k].name) && entries[k].knownDir == Some(true)
    requires CountedOff(entries[..k], s)
    ensures var w := VisitEntries(fs, o, root, dir, entries, path, stack, s.left, s.unreliable, s.noLeaf);
      && w.visited == VisitEntries(fs, o, root, dir, entries[..k], path, stack, s.left, s.unreliable, s.noLeaf).visited
                    + PlainEntries(fs, o, root, dir, entries[k..], path, stack)
      && w.noLeaf
    decreases |entries|
  {
    if k == 0 {
      TooManyHere(fs, o, root, dir, entries, path, stack, s);
      assert entries[0..] == entries && entries[..0] == [];
    } else {
      hide Skipped, PlainEntries, VisitEntries, Sound, OneTurn;
      var some, rest := entries[..k], entries[1..];
      assert forall x | x in some :: x in entries;
      assert rest[k - 1] == entries[k] && some[1..] == rest[..k - 1] && rest[k - 1..] == entries[k..];
      TurnByTurn(fs, o, root, dir, entries, path, stack, s);
      TurnByTurn(fs, o, root, dir, some, path, stack, s);
      CountsOff(fs, o, root, dir, some, path, stack, s);
      var t := OneTurn(fs, o, root, dir, entries[0], path, stack, s);
      WrongCountNoticed(fs, o, root, dir, rest, path, stack, t, k - 1);
      var before := VisitEntries(fs, o, root, dir, rest[..k - 1], path, stack, t.left, t.unreliable, t.noLeaf).visited;
      Regrouped(t.visited, before, PlainEntries(fs, o, root, dir, entries[k..], path, stack));
    }
  }

  lemma Regrouped(a: seq<Path>, b: seq<Path>, c: seq<Path>)
    ensures a + (b + c) == a + b + c
  {
  }

  lemma TooManyHere(fs: FileSystem, o: Options, root: Id, dir: Id, entries: seq<Entry>, path: Path, stack: seq<Id>,
                    s: Turn)
    requires Sound(fs) && dir in fs && Elements(stack) <= fs.Keys
    requires forall e | e in entries :: e in fs[dir].entries
    requires entries != [] && !Skipped(entries[0].name) && entries[0].knownDir == Some(true)
    requires s.noLeaf || (!s.unreliable && s.left == 0)
    ensures var w := VisitEntries(fs, o, root, dir, entries, path, stack, s.left, s.unreliable, s.noLeaf);
      w.visited == PlainEntries(fs, o, root, dir, entries, path, stack) && w.noLeaf
  {
    hide VisitEntries, Plain, VisitPath;
    var e, rest := entries[0], entries[1..];
    TurnByTurn(fs, o, root, dir, entries, path, stack, s);
    WalksDirs(fs, o, root, e, path, stack, false, true);
    PathIsPlain(fs, o, root, e.id, path + [e.name], stack, e.knownDir);
    var t := OneTurn(fs, o, root, dir, e, path, stack, s);
    EntriesArePlain(fs, o, root, dir, rest, path, stack, t.left, t.unreliable);
  }

  lemma WalksDirs(fs: FileSystem, o: Options, root: Id, e: Entry, path: Path, stack: seq<Id>, leaf: bool, noLeaf: bool)
    requires Sound(fs) && e.id in fs && Elements(stack) <= fs.Keys
    requires e.knownDir.Some? ==> e.knownDir.value == fs[e.id].isDir
    ensures var w := VisitPath(fs, o, root, e.id, path + [e.name], stack, e.knownDir, leaf, noLeaf);
      && (w.isDir <==> if e.knownDir.Some? then e.knownDir.value else !leaf && fs[e.id].isDir)
      && (noLeaf ==> w.noLeaf)
  {
    hide StopsHere;
    if noLeaf {
      PathIsPlain(fs, o, root, e.id, path + [e.name], stack, if leaf then Some(fs[e.id].isDir) else e.knownDir);
    }
  }

  // ---------------------------------------------------------------- leaves on trust

  /** One visit to every entry, and none below. */
  function Leaves(o: Options, entries: seq<Entry>, path: Path): seq<Path> {
    if entries == [] then []
    else (if Listed(entries[0].name) then Here(o, path + [entries[0].name]) else []) + Leaves(o, entries[1..], path)
  }

  /** When no subdirectory should be left, what readdir does not name as a directory is taken for a
      file, even where it is none. */
  lemma {:induction false} LeavesOnTrust(fs: FileSystem, o: Options, root: Id, dir: Id, entries: seq<Entry>, path: Path,
                                         stack: seq<Id>)
    requires Sound(fs) && dir in fs && Elements(stack) <= fs.Keys
    requires forall e | e in entries :: e in fs[dir].entries && e.knownDir != Some(true)
    ensures var w := VisitEntries(fs, o, root, dir, entries, path, stack, 0, false, false);
      w.visited == Leaves(o, entries, path) && !w.noLeaf
    decreases |entries|
  {
    if entries != [] {
      hide Skipped, Listed;
      var e, rest := entries[0], entries[1..];
      assert e in entries && forall x | x in rest :: x in entries;
      ListedIsNotSkipped(e.name);
      LeavesOnTrust(fs, o, root, dir, rest, path, stack);
    }
  }

  /** So a directory of two links, if it is read, counts as one without subdirectories. */
  lemma TwoLinks(fs: FileSystem, o: Options, root: Id, id: Id, path: Path, stack: seq<Id>, knownDir: Option<bool>)
    requires Sound(fs) && id in fs && Elements(stack) <= fs.Keys
    requires fs[id].nlink == 2 && forall e | e in fs[id].entries :: e.knownDir != Some(true)
    ensures var w := VisitPath(fs, o, root, id, path, stack, knownDir, false, false);
      w.dives != [] ==>
        w.visited == if o.dirFirst then Here(o, path) + Leaves(o, fs[id].entries, path)
                     else Leaves(o, fs[id].entries, path) + Here(o, path)
  {
    hide StopsHere;
    assert Elements(stack + [id]) == Elements(stack) + {id};
    LeavesOnTrust(fs, o, root, id, fs[id].entries, path, stack + [id]);
  }
}
