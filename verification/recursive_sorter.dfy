/**
 * `RecursiveSorter`: the object that sorts the files of a folder into sub-folders named after
 * their metadata and can undo the last such sort.  Its history is a field the methods clear and
 * append to; the file system is the `Disk` it is handed.  Each method is proved to do exactly
 * what the corresponding function of `SortPlan` describes.
 */
module RecursiveSorting {
  import opened Wrappers
  import opened Seqs
  import opened FileSystem
  import opened SortPlan

  /** The files a run works on: the regular files listed in `root` whose names pass the filter,
      each once, in the (unspecified) order of the listing. */
  ghost predicate IsFilteredListing(files: seq<Path>, t: Tree, root: Path, exts: Option<seq<string>>)
  {
    && NoDuplicates(files)
    && forall f :: f in files <==> f in Children(t, root) && IsFileAt(t, f) && PassesExtensionFilter(Name(f), exts)
  }

  class RecursiveSorter {
    const selectedFolderPath: Path
    const fileMetadataMap: Metadata
    var lastOperationHistory: seq<MoveRecord>

    constructor (selectedFolderPath: Path, fileMetadataMap: Metadata)
      ensures this.selectedFolderPath == selectedFolderPath && this.fileMetadataMap == fileMetadataMap
      ensures lastOperationHistory == []
    {
      this.selectedFolderPath := selectedFolderPath;
      this.fileMetadataMap := fileMetadataMap;
      lastOperationHistory := [];
    }

    /** Sorts the files directly in `rootPath` into one folder level per selected attribute.
        The history is cleared first; if listing the root throws, nothing else happens.  Otherwise
        the files that were listed and passed the filter (returned as `files`) are handled as
        `SortRun` describes, and the history ends up holding exactly the moves that were made. */
    method RunFilter(disk: Disk, rootPath: Path, selectedAttributes: seq<string>,
                     allowedExtensions: Option<seq<string>>)
      returns (o: Outcome<IoError>, ghost files: seq<Path>)
      modifies this, disk
      ensures ListError(old(disk.tree), disk.locked, rootPath).Some? ==>
                && o == Fail(ListError(old(disk.tree), disk.locked, rootPath).value)
                && disk.tree == old(disk.tree) && lastOperationHistory == [] && files == []
      ensures ListError(old(disk.tree), disk.locked, rootPath).None? ==>
                && IsFilteredListing(files, old(disk.tree), rootPath, allowedExtensions)
                && RunState(disk.tree, lastOperationHistory, o)
                   == SortRun(old(disk.tree), disk.locked, files, rootPath, fileMetadataMap, selectedAttributes)
    {
      lastOperationHistory := [];
      var listed := disk.List(rootPath);
      if listed.Failure? {
        o, files := Fail(listed.error), [];
        return;
      }
      var kept := KeepRegularFiles(disk, listed.value, allowedExtensions);
      files := kept;
      o := SortFiles(disk, kept, rootPath, selectedAttributes);
    }

    /** The two stream filters of `runFilter`: regular files whose names pass the extension filter,
        in listing order. */
    static method KeepRegularFiles(disk: Disk, candidates: seq<Path>, allowedExtensions: Option<seq<string>>)
      returns (kept: seq<Path>)
      requires NoDuplicates(candidates)
      ensures NoDuplicates(kept)
      ensures forall f :: f in kept <==>
                f in candidates && IsFileAt(disk.tree, f) && PassesExtensionFilter(Name(f), allowedExtensions)
    {
      kept := [];
      for i := 0 to |candidates|
        invariant NoDuplicates(kept)
        invariant forall f :: f in kept <==>
                    f in candidates[..i] && IsFileAt(disk.tree, f) && PassesExtensionFilter(Name(f), allowedExtensions)
      {
        var f := candidates[i];
        var regular := disk.IsRegularFile(f);
        if regular && PassesExtensionFilter(Name(f), allowedExtensions) {
          assert f !in candidates[..i];
          kept := kept + [f];
        }
        assert candidates[..i + 1] == candidates[..i] + [f];
      }
      assert candidates[..|candidates|] == candidates;
    }

    /** The folder `runFilter` builds for one file: the root resolved against each level's name. */
    static method FolderFor(rootPath: Path, fileMeta: map<string, string>, selectedAttributes: seq<string>)
      returns (dir: Path)
      ensures dir == TargetDir(rootPath, fileMeta, selectedAttributes)
    {
      dir := rootPath;
      for j := 0 to |selectedAttributes|
        invariant dir == TargetDir(rootPath, fileMeta, selectedAttributes[..j])
      {
        assert selectedAttributes[..j + 1][..j] == selectedAttributes[..j];
        dir := Resolve(dir, FolderName(fileMeta, selectedAttributes[j]));
      }
      assert selectedAttributes[..|selectedAttributes|] == selectedAttributes;
    }

    /** The main loop of `runFilter`, from an empty history. */
    method SortFiles(disk: Disk, files: seq<Path>, rootPath: Path, selectedAttributes: seq<string>)
      returns (o: Outcome<IoError>)
      requires lastOperationHistory == []
      modifies this, disk
      ensures RunState(disk.tree, lastOperationHistory, o)
              == SortRun(old(disk.tree), disk.locked, files, rootPath, fileMetadataMap, selectedAttributes)
    {
      ghost var goal := SortRun(disk.tree, disk.locked, files, rootPath, fileMetadataMap, selectedAttributes);
      assert files[0..] == files && [] + goal.history == goal.history;
      var k := 0;
      while k < |files|
        invariant 0 <= k <= |files|
        invariant var rest := SortRun(disk.tree, disk.locked, files[k..], rootPath, fileMetadataMap, selectedAttributes);
                  goal == RunState(rest.tree, lastOperationHistory + rest.history, rest.outcome)
      {
        var f := files[k];
        var name := Name(f);
        assert files[k..][0] == f && files[k..][1..] == files[k + 1..];
        if name in fileMetadataMap {
          var dir := FolderFor(rootPath, fileMetadataMap[name], selectedAttributes);
          var step := SortOne(disk, f, dir);
          if step.Fail? {
            return step;
          }
          lastOperationHistory := lastOperationHistory + [MoveRecord(f, dir + [name])];
        }
        k := k + 1;
      }
      o := Pass;
    }

    /** One file's turn: create the folder unless something exists there, then move with
        overwrite. */
    static method SortOne(disk: Disk, f: Path, dir: Path) returns (o: Outcome<IoError>)
      modifies disk
      ensures (disk.tree, o) == SortStep(old(disk.tree), disk.locked, f, dir)
    {
      var present := disk.Exists(dir);
      if !present {
        var created := disk.CreateDirectories(dir);
        if created.Fail? {
          return created;
        }
      }
      o := disk.Move(f, dir + [Name(f)]);
    }

    /** Undoes the last run: nothing at all if the history is empty; otherwise each recorded
        move whose target still exists is moved back, the folders left empty are pruned and the
        history is cleared.  A move back that throws ends it there, history intact. */
    method RevertSort(disk: Disk) returns (o: Outcome<IoError>)
      modifies this, disk
      ensures RunState(disk.tree, lastOperationHistory, o)
              == RevertRun(old(disk.tree), disk.locked, old(lastOperationHistory), selectedFolderPath)
    {
      if |lastOperationHistory| == 0 {
        return Pass;
      }
      var h := lastOperationHistory;
      ghost var goal := RevertMoves(disk.tree, disk.locked, h);
      for i := 0 to |h|
        invariant lastOperationHistory == h
        invariant goal == RevertMoves(disk.tree, disk.locked, h[i..])
      {
        assert h[i..][0] == h[i] && h[i..][1..] == h[i + 1..];
        var present := disk.Exists(h[i].target);
        if !present {
          continue;
        }
        var moved := disk.Move(h[i].target, h[i].source);
        if moved.Fail? {
          return moved;
        }
      }
      CleanUpEmptyFolders(disk);
      lastOperationHistory := [];
      o := Pass;
    }

    /** Walks up from the parent of each recorded target (each parent once), deleting empty
        folders until a non-empty one or the selected folder is reached; errors end a walk. */
    method CleanUpEmptyFolders(disk: Disk)
      modifies disk
      ensures disk.tree == Cleanup(old(disk.tree), disk.locked, lastOperationHistory, selectedFolderPath)
    {
      var dirs := Distinct(TargetParents(lastOperationHistory));
      ghost var goal := Walks(disk.tree, disk.locked, dirs, selectedFolderPath);
      for i := 0 to |dirs|
        invariant goal == Walks(disk.tree, disk.locked, dirs[i..], selectedFolderPath)
      {
        assert dirs[i..][0] == dirs[i] && dirs[i..][1..] == dirs[i + 1..];
        ghost var walked := Walk(disk.tree, disk.locked, dirs[i], selectedFolderPath);
        var dir := dirs[i];
        while dir.Some? && dir.value != selectedFolderPath
          invariant walked == Walk(disk.tree, disk.locked, dir, selectedFolderPath)
          decreases if dir.Some? then |dir.value| + 1 else 0
        {
          var listing := disk.List(dir.value);
          if listing.Failure? {
            break;
          }
          if |listing.value| > 0 {
            assert listing.value[0] in Children(disk.tree, dir.value);
            break;
          }
          assert Children(disk.tree, dir.value) == {} by {
            assert listing.value == [];
          }
          var deleted := disk.Delete(dir.value);
          if deleted.Fail? {
            break;
          }
          dir := Parent(dir.value);
        }
      }
    }
  }
}
