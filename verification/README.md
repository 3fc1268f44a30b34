# file-sorter in Dafny

A Dafny model of the core of file-sorter, a Java desktop tool. The tool reorganises the files of one folder into nested sub-folders named after their metadata, for example `Artist/Album/`. It can also undo the last such sort. The model covers four classes:

- RecursiveSorter (`runFilter`, `revertSort`, `cleanUpEmptyFolders` and the move history). It is modelled as a class whose history field its methods update, running against a `Disk` object that holds an abstract file-system tree. Each method is proved to do exactly what a pure function of the tree before the call describes (`SortRun`, `RevertRun`, `Cleanup`). Lemmas then prove what those functions promise, ending with the round trip: sorting and then reverting restores the folder exactly.
- Both copies of `FolderAnalyser` (`de.tjorven.folder` and `de.tjorven.algorithm`). Their `findSimilarities`, `getFileNames` and `loadBlacklist` are the same code, so one class models both. `FindSimilarities` is proved to return a ranking:
  - every key that some file carries and no blacklist line prefixes;
  - each key once, with the number of files that carry it;
  - most frequent first.

  Any two rankings are proved to hold the same entries, so the two copies, and any hash order, agree up to the order of ties.
- SortOptionsPage, which has five parts:
  - the level list with its add, remove and clear buttons;
  - the drag-and-drop reorder;
  - the extension filter field;
  - the preview tree that `updatePreview` rebuilds, together with `getOrCreateChild`;
  - the run and revert buttons.

  The preview is proved to show exactly the paths of the files that pass its filter, with no two siblings sharing a label.

The files, module by module:

| file | module | what it holds |
|---|---|---|
| `wrappers.dfy` | `Wrappers` | `Option`, `Result` and `Outcome`, standing for null and for checked exceptions |
| `seqs.dfy` | `Seqs` | `NoDuplicates` and `Distinct` (`Stream.distinct`) |
| `text.dfy` | `Text` | the `String` operations the code uses: `isBlank`, `trim`, `toLowerCase`, `startsWith`, `endsWith`, the unsafe-character `replaceAll` and `split("[, ]+")` |
| `filesystem.dfy` | `FileSystem` | paths, the tree, `Path.resolve`, and the `Files` operations as functions and as methods of `Disk` |
| `sort_plan.dfy` | `SortPlan` | folder names, targets, the plan, and the run, revert and clean-up as functions |
| `recursive_sorter.dfy` | `RecursiveSorting` | the `RecursiveSorter` class |
| `sort_properties.dfy` | `SortProperties` | folder-name, plan, history and clean-up lemmas |
| `round_trip.dfy` | `SortRoundTrip` | the sort-then-revert round trip |
| `folder_analyser.dfy` | `FolderAnalysis` | the `FolderAnalyser` class and the ranking lemmas |
| `preview_rules.dfy` | `PreviewRules` | the preview's filter parsing and matching, and its folder names |
| `preview_tree.dfy` | `PreviewTree` | the preview tree and `getOrCreateChild` |
| `level_list.dfy` | `LevelList` | the add rule and the drag-and-drop reorder |
| `sort_options.dfy` | `SortOptions` | the preview rebuild and the `SortOptionsPage` class |

Where the tool's intended design and the code disagree, the model follows the code:

- **The sort's extension filter adds no dot.** The intended design normalises every allowed extension to a leading dot. `runFilter` only lower-cases it, so "mp3" also keeps "xmp3". The preview does add the dot.
- **The run button passes the raw filter text.** `startSorting` hands the whole filter text to the sort as one extension. The preview splits it on commas and spaces. The two can disagree in both directions (`PreviewAndSortFiltersDisagree`).
- **Blank and trimmed use different characters.** The intended design calls a value blank "after trimming". The code tests `isBlank` (Unicode whitespace) but trims with `trim` (every character up to U+0020). A value made of control characters is therefore not blank, yet trims to "" and adds no folder level (`ControlCharacterValueAddsNoFolder`).
- **Revert stops at the first failing move.** The intended design says a failing record is skipped and the others still run. In the code, the first move back that throws ends `revertSort`: no clean-up runs and the history is kept (`RevertRun`). The history is cleared only after a revert that did not throw.
- **The clean-up stops at the page's folder.** The walk stops at `selectedFolderPath`, not at the `rootPath` the run was given. It never deletes that folder or anything above it (`WalkSparesStopAndAbove`).
- **Tie order is unspecified.** The intended design asks for first-seen order among equal counts. The code sorts the entries of a `HashMap`, so the order of ties is whatever the hash order gives. The model leaves it open and proves that every admissible ranking holds the same entries (`RankingsAgree`).
- **The preview's folder names differ from the sort's.** The preview sanitises but does not trim. It shows a blank value as it is, and an absent attribute as "Unknown" rather than "Unknown_" + the attribute (`PreviewAndSortNamesDiffer`).
- **Revert is not offered after a failed sort.** The intended design says revert stays available after a run that fails part-way. The code enables the revert button only after a run that did not throw (`StartSorting`). After a failure, the moves made stay in the sorter's history, but the button keeps its previous state.
- **The sanitising example differs.** The intended design turns "AC/DC: Back*?" into "AC_DC__Back__". The code keeps the space, giving "AC_DC_ Back__" (`SanitizeExample`).
- **The drag index is never reset.** It stays set after a drag ends. A later drop of text from outside the list removes the entry at that stale index, and a foreign drop can duplicate a level even though the add button refuses duplicates (`ForeignDrops`).

## Model

| member | source | states |
|---|---|---|
| FileSystem.Components | src/main/java/de/tjorven/algorithm/RecursiveSorter.java:47 | resolving a string appends only non-empty, slash-free names |
| FileSystem.Disk.List | src/main/java/de/tjorven/algorithm/RecursiveSorter.java:29 | `Files.list` throws exactly when the folder is missing, is a file or is locked; otherwise it yields every child once and nothing else |
| FileSystem.Disk.Exists | src/main/java/de/tjorven/algorithm/RecursiveSorter.java:50 | `Files.exists` is true exactly when the path is in the tree |
| FileSystem.Disk.IsRegularFile | src/main/java/de/tjorven/algorithm/RecursiveSorter.java:30 | `Files.isRegularFile` is true exactly for a file entry |
| FileSystem.Disk.CreateDirectories | src/main/java/de/tjorven/algorithm/RecursiveSorter.java:50 | the new tree and outcome are those of `MakeDirs`, which creates the missing folders top-down and keeps those made before a failure |
| FileSystem.Disk.Move | src/main/java/de/tjorven/algorithm/RecursiveSorter.java:53 | a move that can happen renames the entry, replacing a file or an empty folder; one that throws leaves the tree unchanged |
| FileSystem.Disk.Delete | src/main/java/de/tjorven/algorithm/RecursiveSorter.java:87 | a delete that can happen removes the entry; one that throws leaves the tree unchanged |
| Seqs.Distinct | src/main/java/de/tjorven/algorithm/RecursiveSorter.java:78 | `distinct()` keeps exactly the same elements, each once, in the order of their first occurrence |
| SortPlan.TargetParents | src/main/java/de/tjorven/algorithm/RecursiveSorter.java:76-77 | one entry per history record, the parent of its target |
| SortPlan.RevertRun | src/main/java/de/tjorven/algorithm/RecursiveSorter.java:58-73 | a revert that does not throw clears the history; one that throws keeps it unchanged |
| RecursiveSorting.RecursiveSorter.constructor | src/main/java/de/tjorven/algorithm/RecursiveSorter.java:16-23 | the sorter keeps its folder and metadata, with an empty history |
| RecursiveSorting.RecursiveSorter.RunFilter | src/main/java/de/tjorven/algorithm/RecursiveSorter.java:25-56 | a listing failure throws with the history cleared and the tree untouched; otherwise the files handled are the listed regular files passing the filter, each once, and the new tree, history and outcome are those of `SortRun` |
| RecursiveSorting.RecursiveSorter.KeepRegularFiles | src/main/java/de/tjorven/algorithm/RecursiveSorter.java:30-36 | keeps exactly the listed regular files whose lower-cased name ends with some lower-cased allowed extension (all of them when the list is absent or empty), without duplicates |
| RecursiveSorting.RecursiveSorter.FolderFor | src/main/java/de/tjorven/algorithm/RecursiveSorter.java:43-48 | the loop over the levels yields `TargetDir`, the root resolved against each level's folder name in order |
| RecursiveSorting.RecursiveSorter.SortFiles | src/main/java/de/tjorven/algorithm/RecursiveSorter.java:39-55 | the loop over the files ends in the tree, history and outcome of `SortRun`: files without metadata are skipped and the first exception stops it with the moves made so far recorded |
| RecursiveSorting.RecursiveSorter.SortOne | src/main/java/de/tjorven/algorithm/RecursiveSorter.java:50-53 | creates the folder only when nothing exists there, then moves the file into it under its own name |
| RecursiveSorting.RecursiveSorter.RevertSort | src/main/java/de/tjorven/algorithm/RecursiveSorter.java:58-73 | the new tree, history and outcome are those of `RevertRun` on the old history: an empty history changes nothing; records whose target is gone are skipped; a throwing move ends it, history kept; otherwise the clean-up runs and the history is cleared |
| RecursiveSorting.RecursiveSorter.CleanUpEmptyFolders | src/main/java/de/tjorven/algorithm/RecursiveSorter.java:75-94 | the tree becomes `Cleanup` of the old one: one upward walk per distinct target parent, deleting empty folders, stopping at a non-empty folder, at the selected folder or at any I/O error |
| SortProperties.TrimSanitizeCommute | src/main/java/de/tjorven/algorithm/RecursiveSorter.java:46 | replacing unsafe characters and trimming commute, because neither the nine characters nor '_' are trimmed |
| SortProperties.FolderNameOfValue | src/main/java/de/tjorven/algorithm/RecursiveSorter.java:46-47 | a present, non-blank value gives the trimmed value with the nine unsafe characters replaced; it holds none of them and is at most one folder |
| SortProperties.FolderNameOfMissing | src/main/java/de/tjorven/algorithm/RecursiveSorter.java:46-47 | an absent or blank value gives "Unknown_" + the attribute, which is one folder when the attribute has no slash |
| SortProperties.FolderNameIsRelative | src/main/java/de/tjorven/algorithm/RecursiveSorter.java:46-47 | a folder name never starts with '/', so `resolve` never takes it as an absolute path ("." and ".." stay possible and are treated as ordinary names) |
| SortProperties.TargetDirShape | src/main/java/de/tjorven/algorithm/RecursiveSorter.java:43-48 | a file's folder is the root followed by the names the levels add, in level order |
| SortProperties.OneFolderPerLevel | src/main/java/de/tjorven/algorithm/RecursiveSorter.java:43-48 | when each level gives one folder, the path below the root has one name per level, the i-th being level i's folder name |
| SortProperties.SanitizeExample | src/main/java/de/tjorven/algorithm/RecursiveSorter.java:46 | "AC/DC: Back*?" becomes the folder "AC_DC_ Back__" |
| SortProperties.MissingAttributeExample | src/main/java/de/tjorven/algorithm/RecursiveSorter.java:46 | a file without "Artist" goes to "Unknown_Artist" |
| SortProperties.FallbackKeepsUnsafeCharacters | src/main/java/de/tjorven/algorithm/RecursiveSorter.java:46 | the fallback name is not sanitised: "xmpDM:artist" keeps its colon |
| SortProperties.ControlCharacterValueAddsNoFolder | src/main/java/de/tjorven/algorithm/RecursiveSorter.java:46-47 | a value of one control character is not blank but trims away, so its level adds no folder |
| SortProperties.PlanCoversFilesWithMetadata | src/main/java/de/tjorven/algorithm/RecursiveSorter.java:39-54 | every planned move takes a listed file with metadata to its levels' folder under its own name, and every such file is planned |
| SortProperties.PlanSourcesDistinct | src/main/java/de/tjorven/algorithm/RecursiveSorter.java:39-54 | distinct listed files give distinct planned sources |
| SortProperties.PlanTargetsDistinct | src/main/java/de/tjorven/algorithm/RecursiveSorter.java:39-54 | files of one folder get distinct targets |
| SortProperties.HistoryIsPlanPrefix | src/main/java/de/tjorven/algorithm/RecursiveSorter.java:39-55 | the history is always a prefix of the plan, and the whole plan exactly when the run did not throw |
| SortProperties.WalkOnlyDeletesFoldersOnItsWay | src/main/java/de/tjorven/algorithm/RecursiveSorter.java:81-89 | a walk only deletes: the entries it keeps are unchanged, and each entry it removes was a folder on its way up, never the stop folder |
| SortProperties.WalkSparesStopAndAbove | src/main/java/de/tjorven/algorithm/RecursiveSorter.java:81-89 | a walk keeps the tree well-formed and never deletes the selected folder or anything above it |
| SortProperties.WalksSpareStopAndAbove | src/main/java/de/tjorven/algorithm/RecursiveSorter.java:76-93 | the whole clean-up keeps the tree well-formed, keeps the selected folder and its ancestors, changes no kept entry and deletes only folders |
| SortRoundTrip.MakeDirsAddsMissing | src/main/java/de/tjorven/algorithm/RecursiveSorter.java:50 | `createDirectories` below an existing folder succeeds and adds exactly the missing folders |
| SortRoundTrip.SortRunExecutesPlan | src/main/java/de/tjorven/algorithm/RecursiveSorter.java:39-55 | `runFilter`'s loop executes exactly its plan, record by record |
| SortRoundTrip.WholeRun | src/main/java/de/tjorven/algorithm/RecursiveSorter.java:39-55 | under the round-trip hypotheses every planned move succeeds, the history is the whole plan and the tree is the start tree with the files moved and the needed folders made |
| SortRoundTrip.MovesBack | src/main/java/de/tjorven/algorithm/RecursiveSorter.java:63-69 | from there every move back succeeds and only the made folders remain besides the start tree |
| SortRoundTrip.CleanUpAfterRevert | src/main/java/de/tjorven/algorithm/RecursiveSorter.java:75-94 | the clean-up then removes exactly the made folders |
| SortRoundTrip.SortThenRevertRestores | src/main/java/de/tjorven/algorithm/RecursiveSorter.java:25-93 | a plan whose folders are all new runs completely, and reverting right after gives back exactly the start tree with an empty history |
| SortRoundTrip.SortThenRevertRestoresFolder | src/main/java/de/tjorven/algorithm/RecursiveSorter.java:25-93 | the same for `runFilter`'s own plan |
| SortRoundTrip.RunRecordsAppend | src/main/java/de/tjorven/algorithm/RecursiveSorter.java:39-55 | a run whose first records all succeed continues from the tree they left, its history following theirs |
| SortRoundTrip.FailedRunReverts | src/main/java/de/tjorven/algorithm/RecursiveSorter.java:25-93 | when the records before the k-th meet the round-trip hypotheses and the k-th fails before creating any folder while nothing is at its target, the run throws with those k records as its history, and reverting right after puts each of their files back and restores the start tree exactly |
| SortRoundTrip.FailedSortReverts | src/main/java/de/tjorven/algorithm/RecursiveSorter.java:25-93 | the same for `runFilter`'s own plan failing at its k-th planned move |
| FolderAnalysis.Count | src/main/java/de/tjorven/folder/FolderAnalyser.java:56-59 | a key's count is at most the number of files, and positive exactly when some file carries it |
| FolderAnalysis.LoadBlacklist | src/main/java/de/tjorven/folder/FolderAnalyser.java:73-81 | the blacklist is exactly the non-blank lines, or empty when the file is absent or cannot be opened; it never holds "" (the same code is at `algorithm/FolderAnalyser.java` lines 70-78) |
| FolderAnalysis.DropBlacklisted | src/main/java/de/tjorven/folder/FolderAnalyser.java:64 | keeps exactly the entries that no blacklist line prefixes, as a sub-multiset |
| FolderAnalysis.SortByCount | src/main/java/de/tjorven/folder/FolderAnalyser.java:65 | the result is ordered by non-increasing count and is a permutation of its input |
| FolderAnalysis.FolderAnalyser.FileNames | src/main/java/de/tjorven/folder/FolderAnalyser.java:69-71 | `getFileNames` holds exactly the files with metadata (the same code is at `algorithm/FolderAnalyser.java` lines 66-68) |
| FolderAnalysis.FolderAnalyser.CountKeys | src/main/java/de/tjorven/folder/FolderAnalyser.java:56-59 | the counter holds exactly the keys some file carries, each with the number of files carrying it, whatever the visiting order |
| FolderAnalysis.FolderAnalyser.MergeKeys | src/main/java/de/tjorven/folder/FolderAnalyser.java:58 | `merge(key, 1, sum)` adds one for every key of one file and starts a new key at 1 |
| FolderAnalysis.FolderAnalyser.EntriesOf | src/main/java/de/tjorven/folder/FolderAnalyser.java:63 | the entry stream holds each counter entry once |
| FolderAnalysis.FolderAnalyser.FindSimilarities | src/main/java/de/tjorven/folder/FolderAnalyser.java:55-67 | the result is a ranking: exactly the carried, non-blacklisted keys, each once, with its count between 1 and the number of files, by non-increasing count (the same code is at `algorithm/FolderAnalyser.java` lines 52-64) |
| FolderAnalysis.RankingFacts | src/main/java/de/tjorven/folder/FolderAnalyser.java:61-66 | names, uniqueness and counts carry over from the counter through the filter and the sort |
| FolderAnalysis.RankingsAgree | src/main/java/de/tjorven/algorithm/FolderAnalyser.java:52-64 | any two rankings of the same metadata and blacklist hold the same entries and have the same length, so this second copy of `findSimilarities`, like any hash order, can only reorder ties |
| FolderAnalysis.EmptyMetadataRanksNothing | src/main/java/de/tjorven/folder/FolderAnalyser.java:55-67 | with no files the ranking is empty |
| FolderAnalysis.BlacklistExample | src/main/java/de/tjorven/folder/FolderAnalyser.java:64-77 | "xmp:" hides "xmp:CreatorTool" but not "Author", and the blank line is dropped; the empty prefix would hide everything |
| Text.Trim | src/main/java/de/tjorven/page/SortOptionsPage.java:141 | `trim` gives the middle slice with only characters up to U+0020 cut off, starting and ending with neither |
| Text.Lower | src/main/java/de/tjorven/page/SortOptionsPage.java:141 | `toLowerCase` maps each character and keeps the length |
| Text.Sanitize | src/main/java/de/tjorven/page/SortOptionsPage.java:159 | each unsafe character becomes '_', every other stays, none remains |
| Text.SplitFields | src/main/java/de/tjorven/page/SortOptionsPage.java:142 | `split("[, ]+")` gives fields without separators, none empty after the first, made of the input's characters; a text of only commas and spaces gives no field at all |
| Text.SplitKeepsText | src/main/java/de/tjorven/page/SortOptionsPage.java:142 | the fields put back together are the input without its commas and spaces |
| Text.SplitFieldsOfInterleave | src/main/java/de/tjorven/page/SortOptionsPage.java:142 | `split("[, ]+")` breaks exactly at the runs of commas and spaces: fields joined by non-empty separator runs, possibly with a trailing run, split back into exactly those fields, a leading empty field included |
| Text.SplitExamples | src/main/java/de/tjorven/page/SortOptionsPage.java:142 | "ab,c" splits into "ab" and "c"; ", a" splits into "" and "a" |
| PreviewRules.ParseExtensions | src/main/java/de/tjorven/page/SortOptionsPage.java:141-142 | a filter text that is empty or only commas and spaces after trimming gives no extensions; otherwise lower-case fields without separators |
| PreviewRules.ParseKeepsText | src/main/java/de/tjorven/page/SortOptionsPage.java:141-142 | parsing loses nothing but commas and spaces of the trimmed, lower-cased text |
| PreviewRules.ParseExtensionsOfInterleave | src/main/java/de/tjorven/page/SortOptionsPage.java:141-142 | the extensions are exactly the fields between the separator runs of the trimmed, lower-cased text |
| PreviewRules.MatchesAny | src/main/java/de/tjorven/page/SortOptionsPage.java:145-153 | the early-exit loop answers true exactly when the name ends with some extension, dotted |
| PreviewRules.PreviewFilterIsSortFilterOfFields | src/main/java/de/tjorven/page/SortOptionsPage.java:145-153 | the preview's filter equals the sort's filter given the dotted fields, in both directions |
| PreviewRules.SortFilterTakesRawText | src/main/java/de/tjorven/page/SortOptionsPage.java:234-238 | the sort keeps a file exactly when its lower-cased name ends with the whole lower-cased filter text |
| PreviewRules.PreviewAndSortFiltersDisagree | src/main/java/de/tjorven/page/SortOptionsPage.java:142-148 | "a,b" keeps "x.b" in the preview but not in the sort; "b" keeps "xb" in the sort but not in the preview |
| PreviewRules.PreviewFolderName | src/main/java/de/tjorven/page/SortOptionsPage.java:159 | is "Unknown" for an absent attribute; otherwise the value with each of the nine unsafe characters replaced by '_' and every other character kept in place, nothing trimmed |
| PreviewRules.PreviewSegments | src/main/java/de/tjorven/page/SortOptionsPage.java:157-161 | one preview folder name per level, in level order |
| PreviewRules.PreviewFolderNames | src/main/java/de/tjorven/page/SortOptionsPage.java:157-161 | the loop over the levels yields those names |
| PreviewRules.PreviewAndSortNamesDiffer | src/main/java/de/tjorven/page/SortOptionsPage.java:159 | an absent, a blank and a padded value each give a different folder in the preview than in the sort |
| PreviewTree.FindChild | src/main/java/de/tjorven/page/SortOptionsPage.java:172-175 | finds the first child with the label, or reports that none has it |
| PreviewTree.GetOrCreateChild | src/main/java/de/tjorven/page/SortOptionsPage.java:171-179 | returns the first child with the label unchanged, or appends a new empty one; distinct sibling labels stay distinct |
| PreviewTree.InsertPath | src/main/java/de/tjorven/page/SortOptionsPage.java:156-162 | the descent along a file's folder names gives `Insert` |
| PreviewTree.InsertPaths | src/main/java/de/tjorven/page/SortOptionsPage.java:156-162 | inserting a file adds exactly the prefixes of its path to the tree's paths |
| PreviewTree.InsertKeepsSiblingsDistinct | src/main/java/de/tjorven/page/SortOptionsPage.java:171-179 | inserting a path not yet in the tree keeps sibling labels distinct at every depth |
| SortOptions.PreviewLeaves | src/main/java/de/tjorven/page/SortOptionsPage.java:156-162 | each passing file is a leaf under its folder names |
| SortOptions.PreviewDepth | src/main/java/de/tjorven/page/SortOptionsPage.java:156-162 | no preview path is deeper than a leaf, and a leaf-deep path ends in a passing file |
| SortOptions.AddToPreview | src/main/java/de/tjorven/page/SortOptionsPage.java:156-162 | adding a passing file to an up-to-date preview gives the up-to-date preview of one more file |
| SortOptions.BuildPreview | src/main/java/de/tjorven/page/SortOptionsPage.java:144-163 | the loop over the metadata map, in any order, ends with the tree showing exactly the passing files, siblings distinct |
| SortOptions.AddFile | src/main/java/de/tjorven/page/SortOptionsPage.java:145-162 | one turn of that loop keeps the tree showing exactly the handled files |
| SortOptions.RebuildPreview | src/main/java/de/tjorven/page/SortOptionsPage.java:132-169 | a fresh root labelled with the folder; no children without levels; otherwise exactly the files passing the parsed filter |
| SortOptions.SortOptionsPage.constructor | src/main/java/de/tjorven/page/SortOptionsPage.java:26-48 | the page's sorter is made for its folder and metadata; no levels, empty filter, empty preview, revert disabled |
| SortOptions.SortOptionsPage.UpdatePreview | src/main/java/de/tjorven/page/SortOptionsPage.java:132-169 | afterwards the preview shows the current levels and filter |
| SortOptions.SortOptionsPage.SetFilterText | src/main/java/de/tjorven/page/SortOptionsPage.java:33 | typing changes only the filter text |
| SortOptions.SortOptionsPage.AddLevel | src/main/java/de/tjorven/page/SortOptionsPage.java:190-196 | the chosen attribute is appended only if one is chosen and it is not listed yet, and only then is the preview rebuilt |
| SortOptions.SortOptionsPage.RemoveLevel | src/main/java/de/tjorven/page/SortOptionsPage.java:198-204 | with a selection the entry is removed and the preview rebuilt; without one nothing changes |
| SortOptions.SortOptionsPage.ClearLevels | src/main/java/de/tjorven/page/SortOptionsPage.java:206-209 | no levels and an up-to-date preview |
| SortOptions.SortOptionsPage.CreateTransferable | src/main/java/de/tjorven/page/SortOptionsPage.java:101-104 | a drag records the selected index and carries the selected entry |
| SortOptions.SortOptionsPage.ImportData | src/main/java/de/tjorven/page/SortOptionsPage.java:112-128 | the drop succeeds exactly when the recorded index is unset or in range; it then reorders and rebuilds the preview, otherwise nothing changes |
| SortOptions.SortOptionsPage.StartSorting | src/main/java/de/tjorven/page/SortOptionsPage.java:232-248 | the sorter runs on the page's folder with the levels and the whole filter text as its one extension; on success revert is enabled and the preview rebuilt |
| SortOptions.SortOptionsPage.HandleRevert | src/main/java/de/tjorven/page/SortOptionsPage.java:250-259 | the sorter's revert runs; on success revert is disabled and the preview rebuilt, on failure the page is unchanged |
| LevelList.AddedKeepsLevelsDistinct | src/main/java/de/tjorven/page/SortOptionsPage.java:190-196 | the add rule keeps the list free of duplicates and adds only the chosen attribute |
| LevelList.ReorderMoves | src/main/java/de/tjorven/page/SortOptionsPage.java:118-122 | dragging an entry moves it: same entries, the moved one at its landing place, the others in order, no duplicates introduced |
| LevelList.ReorderUndo | src/main/java/de/tjorven/page/SortOptionsPage.java:118-122 | dragging it back from its landing place restores the list |
| LevelList.ForeignDrops | src/main/java/de/tjorven/page/SortOptionsPage.java:112-122 | a drop from outside the list can duplicate a level, and after an earlier drag it also removes the entry at the stale index |

## Left out

- Metadata extraction with Apache Tika (`readToMap`) and its parallel stream are not modelled. The metadata map is a parameter of the model.
- Reading `blacklist.txt` is file I/O. `LoadBlacklist` takes its lines as a parameter, or None when the file is absent or cannot be opened.
- FolderAnalysis.LoadBlacklist does not model a `blacklist.txt` holding malformed UTF-8. `Files.lines` decodes lazily, so the decoding error surfaces during the collection as an `UncheckedIOException`. The `catch (IOException e)` does not catch it, so `findSimilarities` throws instead of using an empty blacklist.
- Swing is left out: layout, fonts, dialogs, tree expansion and `treeModel.reload`. The button and field listeners are modelled as the methods they call.
- The executor and `invokeLater` are not modelled. `StartSorting` runs the sort and its follow-up synchronously, so the model says nothing about concurrent sorts or reverts.
- `Integer::sum` overflow is not modelled. The counts are unbounded, which matters only past 2^31 files.
- toLowerCase is modelled for ASCII letters only. Locale rules and non-ASCII case folding are not modelled.
- The file system is an abstract tree of absolute Unix paths. `Path.resolve` splits on '/' and drops empty names. Relative paths, symbolic links, file stores and path syntax errors are not modelled.
- A metadata value of "." or ".." is treated as an ordinary folder name. In Java, `resolve("..")` names the root's parent, so such a file is moved out of the selected folder. `resolve(".")` names the folder itself, so that level adds no folder. The model instead creates a literal folder of that name.
- Java's `Files.move` can rename a non-empty folder within one file store. The model treats that case as a failure, since the sorter only moves regular files back and forth.
- The preview tree is a value. Node identity and aliasing of `DefaultMutableTreeNode` are not modelled, and the rebuilt tree replaces the old one.
- SortOptions.AddFile lower-cases the file name once before the matching loop. The source lower-cases it again on every iteration, with the same result.
- The preview root is labelled "Preview" when the folder path is null, and the preview is empty when the metadata map is null. Both are unmodelled: the folder path and the map are never null here.
- SortOptions.SortOptionsPage.CreateTransferable requires a selected entry. A drag started with nothing selected, which would carry null, is not modelled.
- A drop whose transfer data cannot be read is refused in the source by the caught exception. That path is not modelled; only the stale-index failure is.
- FolderAnalysis.SortByCount does not fix the order of entries with equal counts. The source's order of ties follows `HashMap` iteration, which is unspecified.
- FileSystem.Disk.Move treats a replacing move as atomic: a move that throws leaves the tree unchanged. `Files.move` with `REPLACE_EXISTING` deletes an existing target before it renames, so a rename refused after that delete loses the target. The model does not capture that loss, and SortRoundTrip.FailedRunReverts and SortRoundTrip.FailedSortReverts assume the failing move's target is absent.
- SortRoundTrip.FailedRunReverts covers a run that fails part-way only when the failing step changes nothing. A step that fails after `createDirectories` made some of its folders leaves them behind. The model states no guarantee for that case.
- SortRoundTrip.SortThenRevertRestores is proved only under its hypotheses. Every needed folder must be new and unlocked, no target may double as a needed folder, and every file must go at least one folder down. A folder named like a file that was moved earlier, for example, breaks the round trip and is not covered.
