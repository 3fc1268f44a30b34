/**
 * The part of java.nio.file the sorter uses, over an abstract tree: a map from absolute paths
 * (sequences of names; [] is the file-system root) to entries.  Paths in `locked` stand for
 * files and folders the process may not touch: an operation on one throws AccessDeniedException.
 */
module FileSystem {
  import opened Wrappers
  import opened Seqs

  type Path = seq<string>

  /** A regular file (with its contents, so that a move can be seen to carry them) or a folder. */
  datatype Entry = File(content: string) | Dir

  /** The IOExceptions the sorter can meet. */
  datatype IoError =
    | NoSuchFile(path: Path)
    | NotDirectory(path: Path)
    | FileAlreadyExists(path: Path)
    | DirectoryNotEmpty(path: Path)
    | AccessDenied(path: Path)
    | InvalidMove(path: Path)

  type Tree = map<Path, Entry>

  /** `Path.getParent`: none for the root. */
  function Parent(p: Path): Option<Path>
  {
    if p == [] then None else Some(p[..|p| - 1])
  }

  /** `Path.getFileName().toString()`; the root has no name, written here as "". */
  function Name(p: Path): string
  {
    if p == [] then "" else p[|p| - 1]
  }

  /** The names of a path string: the parts between slashes, empty parts dropped (Unix syntax). */
  function Components(s: string): (r: Path)
    ensures forall i :: 0 <= i < |r| ==> r[i] != "" && '/' !in r[i]
    decreases |s|
  {
    if s == [] then []
    else if s[0] == '/' then Components(s[1..])
    else
      var k := NameLength(s);
      [s[..k]] + Components(s[k..])
  }

  /** Length of the leading run of `s` that holds no slash. */
  function NameLength(s: string): (k: nat)
    requires s != [] && s[0] != '/'
    ensures 0 < k <= |s|
    ensures forall i :: 0 <= i < k ==> s[i] != '/'
    decreases |s|
  {
    if |s| == 1 || s[1] == '/' then 1 else 1 + NameLength(s[1..])
  }

  /** `Path.resolve(String)`: an absolute string replaces the path, any other is appended name by
      name; in particular resolving "" gives the path back unchanged. */
  function Resolve(p: Path, s: string): Path
  {
    if s != [] && s[0] == '/' then Components(s) else p + Components(s)
  }

  predicate IsDirAt(t: Tree, p: Path)
  {
    p in t && t[p].Dir?
  }

  predicate IsFileAt(t: Tree, p: Path)
  {
    p in t && t[p].File?
  }

  /** `c` is an immediate child of `d`. */
  predicate IsChildOf(c: Path, d: Path)
  {
    |c| == |d| + 1 && d < c
  }

  /** What `Files.list(d)` yields, as a set. */
  function Children(t: Tree, d: Path): set<Path>
  {
    set c | c in t && IsChildOf(c, d)
  }

  /** Every entry but the root sits in a folder, and the root is a folder. */
  ghost predicate WellFormed(t: Tree)
  {
    IsDirAt(t, []) && forall p :: p in t && p != [] ==> IsDirAt(t, p[..|p| - 1])
  }

  /** Why `Files.list(d)` throws, if it does. */
  function ListError(t: Tree, locked: set<Path>, d: Path): Option<IoError>
  {
    if d !in t then Some(NoSuchFile(d))
    else if t[d].File? then Some(NotDirectory(d))
    else if d in locked then Some(AccessDenied(d))
    else None
  }

  /** `Files.move(s, d, REPLACE_EXISTING)`: the entry at `s` is renamed to `d`, replacing a file or an
      empty folder there.  A non-empty folder is never moved (as on a move between file stores). */
  function MoveEntry(t: Tree, locked: set<Path>, s: Path, d: Path): Result<Tree, IoError>
  {
    if s !in t then Failure(NoSuchFile(s))
    else if s == d then Success(t)
    else if s in locked then Failure(AccessDenied(s))
    else if d in locked then Failure(AccessDenied(d))
    else if d in t && t[d].Dir? && Children(t, d) != {} then Failure(DirectoryNotEmpty(d))
    else if Parent(d).None? || Parent(d).value !in t then Failure(NoSuchFile(d))
    else if t[Parent(d).value].File? then Failure(NotDirectory(d))
    else if t[s].Dir? && Children(t, s) != {} then Failure(DirectoryNotEmpty(s))
    else if s < d then Failure(InvalidMove(d))
    else Success((t - {s})[d := t[s]])
  }

  /** `Files.createDirectories(d)`: creates the missing folders of `d` from the top down.  It can
      fail part-way, keeping the folders it already made. */
  function MakeDirs(t: Tree, locked: set<Path>, d: Path): (Tree, Outcome<IoError>)
    decreases |d|
  {
    if d in t then (t, if t[d].Dir? then Pass else Fail(FileAlreadyExists(d)))
    else if d == [] then (t, Fail(NoSuchFile(d)))
    else
      var (t1, o) := MakeDirs(t, locked, d[..|d| - 1]);
      if o.Fail? then (t1, o)
      else if d in locked then (t1, Fail(AccessDenied(d)))
      else (t1[d := Dir], Pass)
  }

  /** `Files.delete(p)`. */
  function DeleteEntry(t: Tree, locked: set<Path>, p: Path): Result<Tree, IoError>
  {
    if p !in t then Failure(NoSuchFile(p))
    else if p in locked then Failure(AccessDenied(p))
    else if t[p].Dir? && Children(t, p) != {} then Failure(DirectoryNotEmpty(p))
    else Success(t - {p})
  }

  /** The file system the sorter runs against, changed in place by each operation. */
  class Disk {
    var tree: Tree
    const locked: set<Path>

    constructor (tree: Tree, locked: set<Path>)
      ensures this.tree == tree && this.locked == locked
    {
      this.tree := tree;
      this.locked := locked;
    }

    /** `Files.list(d)`: the children of `d`, each once, in an order the file system chooses. */
    method List(d: Path) returns (r: Result<seq<Path>, IoError>)
      ensures ListError(tree, locked, d).Some? ==> r == Failure(ListError(tree, locked, d).value)
      ensures ListError(tree, locked, d).None? ==>
                r.Success? && NoDuplicates(r.value) && (forall c :: c in r.value <==> c in Children(tree, d))
    {
      var err := ListError(tree, locked, d);
      if err.Some? {
        return Failure(err.value);
      }
      var rest := Children(tree, d);
      var listed := [];
      while rest != {}
        invariant rest <= Children(tree, d)
        invariant forall c :: c in listed <==> c in Children(tree, d) && c !in rest
        invariant NoDuplicates(listed)
        decreases |rest|
      {
        var c :| c in rest;
        listed := listed + [c];
        rest := rest - {c};
      }
      return Success(listed);
    }

    /** `Files.exists(p)`. */
    method Exists(p: Path) returns (b: bool)
      ensures b == (p in tree)
    {
      b := p in tree;
    }

    /** `Files.isRegularFile(p)`. */
    method IsRegularFile(p: Path) returns (b: bool)
      ensures b == IsFileAt(tree, p)
    {
      b := IsFileAt(tree, p);
    }

    method CreateDirectories(d: Path) returns (o: Outcome<IoError>)
      modifies this
      ensures (tree, o) == MakeDirs(old(tree), locked, d)
    {
      var (t, out) := MakeDirs(tree, locked, d);
      tree, o := t, out;
    }

    method Move(s: Path, d: Path) returns (o: Outcome<IoError>)
      modifies this
      ensures MoveEntry(old(tree), locked, s, d).Success? ==>
                o == Pass && tree == MoveEntry(old(tree), locked, s, d).value
      ensures MoveEntry(old(tree), locked, s, d).Failure? ==>
                o == Fail(MoveEntry(old(tree), locked, s, d).error) && tree == old(tree)
    {
      var r := MoveEntry(tree, locked, s, d);
      if r.Success? {
        tree, o := r.value, Pass;
      } else {
        o := Fail(r.error);
      }
    }

    method Delete(p: Path) returns (o: Outcome<IoError>)
      modifies this
      ensures DeleteEntry(old(tree), locked, p).Success? ==>
                o == Pass && tree == DeleteEntry(old(tree), locked, p).value
      ensures DeleteEntry(old(tree), locked, p).Failure? ==>
                o == Fail(DeleteEntry(old(tree), locked, p).error) && tree == old(tree)
    {
      var r := DeleteEntry(tree, locked, p);
      if r.Success? {
        tree, o := r.value, Pass;
      } else {
        o := Fail(r.error);
      }
    }
  }
}
