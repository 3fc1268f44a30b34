/**
 * What `RecursiveSorter.runFilter` and `revertSort` do to the file system, as functions of the
 * tree before the call: the folder name derived for each level, the target of each file, the run
 * that creates folders and moves files one by one, and the revert that moves them back and prunes
 * the folders left empty.
 */
module SortPlan {
  import opened Wrappers
  import opened Text
  import opened Seqs
  import opened FileSystem

  /** File name to that file's attribute map. */
  type Metadata = map<string, map<string, string>>

  /** One performed move, as recorded in the history. */
  datatype MoveRecord = MoveRecord(source: Path, target: Path)

  /** The tree after a run, the history it leaves and whether it threw. */
  datatype RunState = RunState(tree: Tree, history: seq<MoveRecord>, outcome: Outcome<IoError>)

  // ---------------------------------------------------------------------------------------------
  // Folder names and targets

  /** The folder name one level contributes: "Unknown_" + the attribute when the value is absent
      or blank, otherwise the value with its unsafe characters replaced by '_' and then trimmed. */
  function FolderName(fileMeta: map<string, string>, attr: string): string
  {
    if attr !in fileMeta || IsBlank(fileMeta[attr]) then "Unknown_" + attr
    else Trim(Sanitize(fileMeta[attr]))
  }

  /** The folder a file goes to: the root resolved against each level's folder name in turn. */
  function TargetDir(root: Path, fileMeta: map<string, string>, attrs: seq<string>): Path
  {
    if attrs == [] then root
    else Resolve(TargetDir(root, fileMeta, attrs[..|attrs| - 1]), FolderName(fileMeta, attrs[|attrs| - 1]))
  }

  /** The names the levels add below the root, level after level. */
  function LevelNames(fileMeta: map<string, string>, attrs: seq<string>): Path
  {
    if attrs == [] then []
    else LevelNames(fileMeta, attrs[..|attrs| - 1]) + Components(FolderName(fileMeta, attrs[|attrs| - 1]))
  }

  /** Where a file of the root goes: its folder, then its own name. */
  function TargetOf(root: Path, fileMeta: map<string, string>, attrs: seq<string>, name: string): Path
  {
    TargetDir(root, fileMeta, attrs) + [name]
  }

  /** The moves a run intends: one per listed file that has metadata, in listing order. */
  function Plan(files: seq<Path>, root: Path, meta: Metadata, attrs: seq<string>): seq<MoveRecord>
  {
    if files == [] then []
    else
      (if Name(files[0]) in meta
       then [MoveRecord(files[0], TargetOf(root, meta[Name(files[0])], attrs, Name(files[0])))]
       else [])
      + Plan(files[1..], root, meta, attrs)
  }

  /** The extension filter of `runFilter`: no list or an empty list lets every file through;
      otherwise the lower-cased name must end with some lower-cased entry, taken as it is. */
  predicate PassesExtensionFilter(name: string, exts: Option<seq<string>>)
  {
    exts.None? || exts.value == [] || exists e :: e in exts.value && EndsWith(Lower(name), Lower(e))
  }

  // ---------------------------------------------------------------------------------------------
  // The run

  /** One file's turn: create its folder unless something already exists there, then move it. */
  function SortStep(t: Tree, locked: set<Path>, f: Path, dir: Path): (Tree, Outcome<IoError>)
  {
    var (t1, o1) := if dir in t then (t, Pass) else MakeDirs(t, locked, dir);
    if o1.Fail? then (t1, o1)
    else match MoveEntry(t1, locked, f, dir + [Name(f)])
      case Failure(e) => (t1, Fail(e))
      case Success(t2) => (t2, Pass)
  }

  /** The loop of `runFilter` over the listed files, from a cleared history: a file without
      metadata is skipped; the first exception ends the run with the history of the moves made. */
  function SortRun(t: Tree, locked: set<Path>, files: seq<Path>, root: Path, meta: Metadata,
                   attrs: seq<string>): RunState
    decreases |files|
  {
    if files == [] then RunState(t, [], Pass)
    else
      var f := files[0];
      if Name(f) !in meta then SortRun(t, locked, files[1..], root, meta, attrs)
      else
        var dir := TargetDir(root, meta[Name(f)], attrs);
        var (t1, o1) := SortStep(t, locked, f, dir);
        if o1.Fail? then RunState(t1, [], o1)
        else
          var rest := SortRun(t1, locked, files[1..], root, meta, attrs);
          RunState(rest.tree, [MoveRecord(f, dir + [Name(f)])] + rest.history, rest.outcome)
  }

  // ---------------------------------------------------------------------------------------------
  // The revert

  /** The loop of `revertSort`: each record whose target still exists is moved back over its
      source; a record whose target is gone is skipped; the first exception ends the loop. */
  function RevertMoves(t: Tree, locked: set<Path>, h: seq<MoveRecord>): (Tree, Outcome<IoError>)
    decreases |h|
  {
    if h == [] then (t, Pass)
    else if h[0].target !in t then RevertMoves(t, locked, h[1..])
    else match MoveEntry(t, locked, h[0].target, h[0].source)
      case Failure(e) => (t, Fail(e))
      case Success(t1) => RevertMoves(t1, locked, h[1..])
  }

  /** One walk of `cleanUpEmptyFolders`: delete `dir` while it is an empty folder other than
      `stop`, then go on with its parent; a listing or deletion error ends the walk silently. */
  function Walk(t: Tree, locked: set<Path>, dir: Option<Path>, stop: Path): Tree
    decreases if dir.Some? then |dir.value| + 1 else 0
  {
    if dir.None? || dir.value == stop then t
    else if ListError(t, locked, dir.value).Some? then t
    else if Children(t, dir.value) != {} then t
    else match DeleteEntry(t, locked, dir.value)
      case Failure(_) => t
      case Success(t1) => Walk(t1, locked, Parent(dir.value), stop)
  }

  /** The walks of `cleanUpEmptyFolders`, one per starting folder, in order. */
  function Walks(t: Tree, locked: set<Path>, dirs: seq<Option<Path>>, stop: Path): Tree
    decreases |dirs|
  {
    if dirs == [] then t else Walks(Walk(t, locked, dirs[0], stop), locked, dirs[1..], stop)
  }

  /** The parent of each recorded target, in history order. */
  function TargetParents(h: seq<MoveRecord>): (r: seq<Option<Path>>)
    ensures |r| == |h| && forall i :: 0 <= i < |h| ==> r[i] == Parent(h[i].target)
  {
    if h == [] then [] else [Parent(h[0].target)] + TargetParents(h[1..])
  }

  /** `cleanUpEmptyFolders`: one walk from each distinct parent of a recorded target. */
  function Cleanup(t: Tree, locked: set<Path>, h: seq<MoveRecord>, stop: Path): Tree
  {
    Walks(t, locked, Distinct(TargetParents(h)), stop)
  }

  /** `revertSort`: nothing at all on an empty history; otherwise the moves back, then, if none
      threw, the clean-up and a cleared history.  When a move back throws, the clean-up does not
      run and the history is kept. */
  function RevertRun(t: Tree, locked: set<Path>, h: seq<MoveRecord>, stop: Path): (r: RunState)
    ensures r.outcome == Pass ==> r.history == []
    ensures r.outcome.Fail? ==> r.history == h
  {
    if h == [] then RunState(t, [], Pass)
    else
      var (t1, o) := RevertMoves(t, locked, h);
      if o.Fail? then RunState(t1, h, o)
      else RunState(Cleanup(t1, locked, h, stop), [], Pass)
  }
}
