/** The directory walk of find: `process_path` and `process_dir`, as functions on a finite and
    possibly cyclic directory graph. */
module FindWalk {
  import opened Wrappers

  /** Device and inode number. */
  datatype Id = Id(dev: nat, ino: nat)

  type Name = string

  /** A name in a directory, with the type readdir tells, if it tells. */
  datatype Entry = Entry(name: Name, id: Id, knownDir: Option<bool>)

  datatype Node = Node(isDir: bool, nlink: nat, entries: seq<Entry>)

  type FileSystem = map<Id, Node>

  /** A path below the starting point, name by name; the starting point is the empty path. */
  type Path = seq<Name>

  /** The options that shape the walk; `prunes` says for which paths the expression runs -prune.
      No maximum depth is -1. */
  datatype Options = Options(minDepth: nat, maxDepth: int, dirFirst: bool, oneFileSystem: bool,
                             prunes: Path -> bool)

  /** Entries lead somewhere, and readdir does not lie about types. */
  ghost predicate Sound(fs: FileSystem) {
    forall id, e | id in fs && e in fs[id].entries ::
      e.id in fs && (e.knownDir.Some? ==> e.knownDir.value == fs[e.id].isDir)
  }

  /** Names `process_dir` passes over: "", ".", and everything that begins with two dots. */
  predicate Skipped(name: Name) {
    name == "" || (name[0] == '.' && (|name| == 1 || name[1] == '.'))
  }

  /** The paths the expression was evaluated for, in order; the ancestor stacks of the directories
      read; whether the path was a directory; and whether the leaf check is now off. */
  datatype Walk = Walk(visited: seq<Path>, dives: seq<seq<Id>>, isDir: bool, noLeaf: bool)

  function Elements(stack: seq<Id>): set<Id> {
    set id | id in stack
  }

  /** What `digest_mode` takes the type to be. */
  function TakenForDir(fs: FileSystem, id: Id, knownDir: Option<bool>, leaf: bool): bool
    requires id in fs
  {
    if knownDir.Some? then knownDir.value else if leaf then false else fs[id].isDir
  }

  /** Why `process_path` does not read a directory. */
  predicate StopsHere(o: Options, root: Id, id: Id, path: Path, stack: seq<Id>) {
    || (o.maxDepth >= 0 && |path| >= o.maxDepth)
    || id in stack
    || (o.oneFileSystem && |path| > 0 && id.dev != root.dev)
    || (o.dirFirst && |path| >= o.minDepth && o.prunes(path))
  }

  /** `process_path`. */
  function VisitPath(fs: FileSystem, o: Options, root: Id, id: Id, path: Path, stack: seq<Id>,
                     knownDir: Option<bool>, leaf: bool, noLeaf: bool): Walk
    requires Sound(fs) && id in fs && Elements(stack) <= fs.Keys
    decreases fs.Keys - Elements(stack), 1, 0
  {
    var here := if |path| >= o.minDepth then [path] else [];
    if !TakenForDir(fs, id, knownDir, leaf) then Walk(here, [], false, noLeaf)
    else if StopsHere(o, root, id, path, stack) then Walk(here, [], true, noLeaf)
    else
      assert Elements(stack + [id]) == Elements(stack) + {id};
      var n := fs[id];
      var w := VisitEntries(fs, o, root, id, n.entries, path, stack + [id],
                            if n.nlink < 2 then 0 else n.nlink - 2, n.nlink < 2, noLeaf);
      Walk(if o.dirFirst then here + w.visited else w.visited + here, [stack + [id]] + w.dives, true, w.noLeaf)
  }

  /** The loop of `process_dir`: `left` is the number of subdirectories the link count still
      allows for, `unreliable` says that it is not to be trusted. */
  function VisitEntries(fs: FileSystem, o: Options, root: Id, dir: Id, entries: seq<Entry>, path: Path, stack: seq<Id>,
                        left: int, unreliable: bool, noLeaf: bool): Walk
    requires Sound(fs) && dir in fs && Elements(stack) <= fs.Keys
    requires forall e | e in entries :: e in fs[dir].entries
    decreases fs.Keys - Elements(stack), 2, |entries|
  {
    if entries == [] then Walk([], [], false, noLeaf)
    else
      var e, rest := entries[0], entries[1..];
      assert e in entries;
      if Skipped(e.name) then VisitEntries(fs, o, root, dir, rest, path, stack, left, unreliable, noLeaf)
      else if !noLeaf && !unreliable then
        // a known directory when none should be left: the link count is wrong
        var wrong := e.knownDir == Some(true) && left == 0;
        var left1 := if wrong then 1 else left;
        var w := VisitPath(fs, o, root, e.id, path + [e.name], stack, e.knownDir, left1 == 0, noLeaf || wrong);
        Then(w, VisitEntries(fs, o, root, dir, rest, path, stack, left1 - (if w.isDir then 1 else 0),
                             unreliable || wrong, w.noLeaf))
      else
        var w := VisitPath(fs, o, root, e.id, path + [e.name], stack, e.knownDir, false, noLeaf);
        Then(w, VisitEntries(fs, o, root, dir, rest, path, stack, left, unreliable, w.noLeaf))
  }

  function Then(a: Walk, b: Walk): Walk {
    Walk(a.visited + b.visited, a.dives + b.dives, b.isDir, b.noLeaf)
  }

  /** The walk from a starting point. */
  function WalkFrom(fs: FileSystem, o: Options, root: Id, noLeaf: bool): Walk
    requires Sound(fs) && root in fs
  {
    VisitPath(fs, o, root, root, [], [], None, false, noLeaf)
  }
}
