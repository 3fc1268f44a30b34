/**
 * The sort-options page: the list of chosen levels (edited by the add, remove and clear buttons and
 * by drag and drop), the extension filter field, the preview tree of where each file would go, and
 * the buttons that run the sort and revert it.
 */
module SortOptions {
  import opened Wrappers
  import opened Seqs
  import opened Text
  import opened FileSystem
  import opened SortPlan
  import opened RecursiveSorting
  import opened PreviewRules
  import opened PreviewTree
  import opened LevelList

  // ---------------------------------------------------------------------------------------------
  // What the preview shows

  ghost function PreviewPathsOf(meta: Metadata, files: set<string>, levels: seq<string>, exts: seq<string>)
    : set<seq<string>>
  {
    set f, k | f in files && f in meta && PreviewPasses(f, exts) && 1 <= k <= |levels| + 1
             :: (PreviewSegments(meta[f], levels) + [f])[..k]
  }

  /** Each passing file is a leaf at depth one more than the number of levels, under its folder
      names. */
  lemma PreviewLeaves(meta: Metadata, levels: seq<string>, exts: seq<string>)
    ensures forall f :: f in meta && PreviewPasses(f, exts) ==>
              PreviewSegments(meta[f], levels) + [f] in PreviewPathsOf(meta, meta.Keys, levels, exts)
  {
    forall f | f in meta && PreviewPasses(f, exts)
      ensures PreviewSegments(meta[f], levels) + [f] in PreviewPathsOf(meta, meta.Keys, levels, exts)
    {
      var s := PreviewSegments(meta[f], levels) + [f];
      assert s[..|levels| + 1] == s;
    }
  }

  /** No path of the preview is deeper than a leaf, and a path as deep as a leaf ends in the name
      of a passing file. */
  lemma PreviewDepth(meta: Metadata, levels: seq<string>, exts: seq<string>)
    ensures forall p :: p in PreviewPathsOf(meta, meta.Keys, levels, exts) ==>
              1 <= |p| <= |levels| + 1
              && (|p| == |levels| + 1 ==> p[|levels|] in meta && PreviewPasses(p[|levels|], exts))
  {
    forall p | p in PreviewPathsOf(meta, meta.Keys, levels, exts)
      ensures 1 <= |p| <= |levels| + 1
      ensures |p| == |levels| + 1 ==> p[|levels|] in meta && PreviewPasses(p[|levels|], exts)
    {
      var f, k :| f in meta && PreviewPasses(f, exts) && 1 <= k <= |levels| + 1
                  && p == (PreviewSegments(meta[f], levels) + [f])[..k];
      assert k == |levels| + 1 ==> p[|levels|] == f;
    }
  }

  lemma PreviewPathsStep(meta: Metadata, done: set<string>, f: string, levels: seq<string>, exts: seq<string>)
    requires f in meta
    ensures PreviewPathsOf(meta, done + {f}, levels, exts)
            == PreviewPathsOf(meta, done, levels, exts)
               + (if PreviewPasses(f, exts) then Prefixes(PreviewSegments(meta[f], levels) + [f]) else {})
  {
  }

  /** A file not handled yet has no full path in the preview. */
  lemma NewLeaf(meta: Metadata, done: set<string>, f: string, levels: seq<string>, exts: seq<string>)
    requires f !in done && f in meta
    ensures PreviewSegments(meta[f], levels) + [f] !in PreviewPathsOf(meta, done, levels, exts)
  {
    var s := PreviewSegments(meta[f], levels) + [f];
    forall g, k | g in done && g in meta && PreviewPasses(g, exts) && 1 <= k <= |levels| + 1
      ensures (PreviewSegments(meta[g], levels) + [g])[..k] != s
    {
      var t := (PreviewSegments(meta[g], levels) + [g])[..k];
      if |t| == |s| {
        assert t[|levels|] == g;
      }
    }
  }

  /** One passing file added to an up-to-date preview of the files handled before it. */
  lemma AddToPreview(root: Node, meta: Metadata, done: set<string>, f: string, levels: seq<string>,
                     exts: seq<string>)
    requires f in meta && f !in done && PreviewPasses(f, exts)
    requires Paths(root) == PreviewPathsOf(meta, done, levels, exts) && SiblingsDistinct(root)
    ensures var r := Insert(root, PreviewSegments(meta[f], levels), f);
            && Paths(r) == PreviewPathsOf(meta, done + {f}, levels, exts)
            && SiblingsDistinct(r)
  {
    var segs := PreviewSegments(meta[f], levels);
    NewLeaf(meta, done, f, levels, exts);
    InsertKeepsSiblingsDistinct(root, segs, f);
    InsertPaths(root, segs, f);
    PreviewPathsStep(meta, done, f, levels, exts);
  }

  /** `root` shows exactly the files of `done` and no two siblings share a label. */
  ghost predicate Shows(root: Node, meta: Metadata, done: set<string>, levels: seq<string>, exts: seq<string>)
  {
    Paths(root) == PreviewPathsOf(meta, done, levels, exts) && SiblingsDistinct(root)
  }

  /** A fresh root shows no file. */
  lemma ShowsNothing(name: string, meta: Metadata, levels: seq<string>, exts: seq<string>)
    ensures Shows(Node(name, []), meta, {}, levels, exts)
  {
    assert Paths(Node(name, [])) == {};
    assert PreviewPathsOf(meta, {}, levels, exts) == {};
  }

  /** Handling one more file: a passing file is inserted under its folder names, any other file
      leaves the tree as it is. */
  lemma ShowsOneMore(root: Node, meta: Metadata, done: set<string>, f: string, levels: seq<string>,
                     exts: seq<string>, passes: bool)
    requires f in meta && f !in done && Shows(root, meta, done, levels, exts)
    requires passes == PreviewPasses(f, exts)
    ensures Shows(if passes then Insert(root, PreviewSegments(meta[f], levels), f) else root,
                  meta, done + {f}, levels, exts)
  {
    if passes {
      AddToPreview(root, meta, done, f, levels, exts);
    } else {
      PreviewPathsStep(meta, done, f, levels, exts);
    }
  }

  /** Taking one file off the to-do set adds it to the handled ones. */
  lemma Handled(keys: set<string>, todo: set<string>, f: string)
    requires f in todo && todo <= keys
    ensures f in keys && f !in keys - todo
    ensures keys - (todo - {f}) == (keys - todo) + {f}
  {
  }

  /** A preview tree for the given folder, metadata, levels and filter text: the root is labelled
      with the folder; without levels it has no children; otherwise it shows exactly the files
      that pass the parsed filter and no two siblings share a label. */
  ghost predicate PreviewOf(root: Node, name: string, meta: Metadata, levels: seq<string>, filterText: string)
  {
    && root.name == name
    && (levels == [] ==> root.children == [])
    && (levels != [] ==> Shows(root, meta, meta.Keys, levels, ParseExtensions(filterText)))
  }

  /** `updatePreview`: a fresh root, and nothing more without levels; otherwise the filter text is
      parsed and every file of the metadata map is handled. */
  method RebuildPreview(name: string, meta: Metadata, levels: seq<string>, filterText: string)
    returns (root: Node)
    ensures PreviewOf(root, name, meta, levels, filterText)
  {
    if |levels| == 0 {
      return Node(name, []);
    }
    var exts := ParseExtensions(filterText);
    root := BuildPreview(name, meta, levels, exts);
  }

  /** The loop of `updatePreview` over the metadata map, in the map's (unspecified) order. */
  method BuildPreview(name: string, meta: Metadata, levels: seq<string>, exts: seq<string>)
    returns (root: Node)
    ensures root.name == name && Shows(root, meta, meta.Keys, levels, exts)
  {
    root := Node(name, []);
    var todo := meta.Keys;
    ShowsNothing(name, meta, levels, exts);
    assert meta.Keys - todo == {};
    while todo != {}
      invariant todo <= meta.Keys
      invariant root.name == name
      invariant Shows(root, meta, meta.Keys - todo, levels, exts)
      decreases |todo|
    {
      var fileName :| fileName in todo;
      Handled(meta.Keys, todo, fileName);
      root := AddFile(root, meta, meta.Keys - todo, fileName, levels, exts);
      todo := todo - {fileName};
    }
  }

  /** One turn of that loop: a file that passes the filter is put under its folder names. */
  method AddFile(root: Node, meta: Metadata, ghost done: set<string>, fileName: string, levels: seq<string>,
                 exts: seq<string>) returns (r: Node)
    requires fileName in meta && fileName !in done && Shows(root, meta, done, levels, exts)
    ensures r.name == root.name && Shows(r, meta, done + {fileName}, levels, exts)
  {
    var passes := true;
    if |exts| > 0 {
      passes := MatchesAny(Lower(fileName), exts);
    }
    ShowsOneMore(root, meta, done, fileName, levels, exts, passes);
    r := root;
    if passes {
      var segs := PreviewFolderNames(meta[fileName], levels);
      r := InsertPath(root, segs, fileName);
    }
  }

  // ---------------------------------------------------------------------------------------------
  // The page

  class SortOptionsPage {
    const selectedFolderPath: string
    const fileMetadataMap: Metadata
    const recursiveSorter: RecursiveSorter
    /** The chosen levels, in order (`selectedLevelsModel`). */
    var levels: seq<string>
    /** The text of the extension filter field. */
    var filterText: string
    var previewRoot: Node
    var revertEnabled: bool
    /** The index the transfer handler recorded when the last drag from the list started. */
    var dragIndex: int

    constructor (selectedFolderPath: string, fileMetadataMap: Metadata)
      ensures this.selectedFolderPath == selectedFolderPath && this.fileMetadataMap == fileMetadataMap
      ensures Wired() && fresh(recursiveSorter) && recursiveSorter.lastOperationHistory == []
      ensures levels == [] && filterText == "" && previewRoot == Node("Preview Root", [])
      ensures !revertEnabled && dragIndex == -1
    {
      this.selectedFolderPath := selectedFolderPath;
      this.fileMetadataMap := fileMetadataMap;
      recursiveSorter := new RecursiveSorter(Components(selectedFolderPath), fileMetadataMap);
      levels := [];
      filterText := "";
      previewRoot := Node("Preview Root", []);
      revertEnabled := false;
      dragIndex := -1;
    }

    /** The sorter was made for this page's folder and metadata. */
    ghost predicate Wired()
    {
      recursiveSorter.selectedFolderPath == Components(selectedFolderPath)
      && recursiveSorter.fileMetadataMap == fileMetadataMap
    }

    /** The preview shows the current levels and filter. */
    ghost predicate PreviewUpToDate()
      reads this
    {
      PreviewOf(previewRoot, selectedFolderPath, fileMetadataMap, levels, filterText)
    }

    /** Rebuilds the preview tree from scratch. */
    method UpdatePreview()
      modifies this`previewRoot
      ensures PreviewUpToDate()
    {
      previewRoot := RebuildPreview(selectedFolderPath, fileMetadataMap, levels, filterText);
    }

    /** Typing in the filter field; the preview follows only when the field's action fires. */
    method SetFilterText(text: string)
      modifies this`filterText
      ensures filterText == text
    {
      filterText := text;
    }

    /** The add button, with the combo box's selected item (none if nothing is selected). */
    method AddLevel(selected: Option<string>)
      modifies this`levels, this`previewRoot
      ensures levels == Added(old(levels), selected)
      ensures selected.Some? && selected.value !in old(levels) ==> PreviewUpToDate()
      ensures !(selected.Some? && selected.value !in old(levels)) ==> previewRoot == old(previewRoot)
    {
      if selected.Some? && selected.value !in levels {
        levels := levels + [selected.value];
        UpdatePreview();
      }
    }

    /** The remove button, with the list's selected index (-1 if nothing is selected). */
    method RemoveLevel(idx: int)
      requires -1 <= idx < |levels|
      modifies this`levels, this`previewRoot
      ensures idx == -1 ==> levels == old(levels) && previewRoot == old(previewRoot)
      ensures idx != -1 ==> levels == RemoveAt(old(levels), idx) && PreviewUpToDate()
    {
      if idx != -1 {
        levels := RemoveAt(levels, idx);
        UpdatePreview();
      }
    }

    /** The clear button. */
    method ClearLevels()
      modifies this`levels, this`previewRoot
      ensures levels == [] && PreviewUpToDate()
    {
      levels := [];
      UpdatePreview();
    }

    /** `createTransferable`: a drag from the list records the selected index and carries the
        selected entry. */
    method CreateTransferable(selectedIndex: nat) returns (data: string)
      requires selectedIndex < |levels|
      modifies this`dragIndex
      ensures dragIndex == selectedIndex && data == levels[selectedIndex]
    {
      dragIndex := selectedIndex;
      data := levels[selectedIndex];
    }

    /** `importData`: a drop of `data` at `dropIndex`.  A recorded index out of range makes the
        removal throw, which is caught: the drop is refused and nothing changes. */
    method ImportData(dropIndex: nat, data: string) returns (ok: bool)
      requires dropIndex <= |levels| && -1 <= dragIndex
      modifies this`levels, this`previewRoot
      ensures ok <==> dragIndex == -1 || dragIndex < |old(levels)|
      ensures ok ==> levels == Reorder(old(levels), dragIndex, dropIndex, data) && PreviewUpToDate()
      ensures !ok ==> levels == old(levels) && previewRoot == old(previewRoot)
    {
      var drop := dropIndex;
      if dragIndex != -1 {
        if dragIndex >= |levels| {
          return false;
        }
        levels := RemoveAt(levels, dragIndex);
        if drop > dragIndex {
          drop := drop - 1;
        }
      }
      levels := InsertAt(levels, drop, data);
      UpdatePreview();
      ok := true;
    }

    /** The run button: the sorter runs on the page's folder with the levels and the whole filter
        text as its one extension; on success revert is enabled and the preview rebuilt. */
    method StartSorting(disk: Disk) returns (o: Outcome<IoError>, ghost files: seq<Path>)
      requires Wired()
      modifies this`revertEnabled, this`previewRoot, recursiveSorter, disk
      ensures var root := Components(selectedFolderPath);
              ListError(old(disk.tree), disk.locked, root).Some? ==>
                && o == Fail(ListError(old(disk.tree), disk.locked, root).value)
                && disk.tree == old(disk.tree) && recursiveSorter.lastOperationHistory == []
      ensures var root := Components(selectedFolderPath);
              ListError(old(disk.tree), disk.locked, root).None? ==>
                && IsFilteredListing(files, old(disk.tree), root, Some([filterText]))
                && RunState(disk.tree, recursiveSorter.lastOperationHistory, o)
                   == SortRun(old(disk.tree), disk.locked, files, root, fileMetadataMap, levels)
      ensures o.Pass? ==> revertEnabled && PreviewUpToDate()
      ensures o.Fail? ==> revertEnabled == old(revertEnabled) && previewRoot == old(previewRoot)
    {
      var attributes := levels;
      var filter := filterText;
      o, files := recursiveSorter.RunFilter(disk, Components(selectedFolderPath), attributes, Some([filter]));
      ghost var tree, history := disk.tree, recursiveSorter.lastOperationHistory;
      if o.Pass? {
        revertEnabled := true;
        UpdatePreview();
      }
      assert disk.tree == tree && recursiveSorter.lastOperationHistory == history;
    }

    /** The revert button: on success revert is disabled and the preview rebuilt. */
    method HandleRevert(disk: Disk) returns (o: Outcome<IoError>)
      requires Wired()
      modifies this`revertEnabled, this`previewRoot, recursiveSorter, disk
      ensures RunState(disk.tree, recursiveSorter.lastOperationHistory, o)
              == RevertRun(old(disk.tree), disk.locked, old(recursiveSorter.lastOperationHistory),
                           Components(selectedFolderPath))
      ensures o.Pass? ==> !revertEnabled && PreviewUpToDate()
      ensures o.Fail? ==> revertEnabled == old(revertEnabled) && previewRoot == old(previewRoot)
    {
      o := recursiveSorter.RevertSort(disk);
      if o.Pass? {
        revertEnabled := false;
        UpdatePreview();
      }
    }
  }
}

