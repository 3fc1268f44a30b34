/**
 * The round trip of `RecursiveSorter`: when every planned folder is new, nothing involved is
 * locked and each file gets at least one folder level, a run performs its whole plan, and
 * `revertSort` right after it puts every file back and removes every folder the run created,
 * leaving exactly the tree the run started from.
 */
module SortRoundTrip {
  import opened Wrappers
  import opened Seqs
  import opened FileSystem
  import opened SortPlan
  import opened SortProperties

  // ---------------------------------------------------------------------------------------------
  // Vocabulary

  /** The folder a record's target lies in. */
  function Folder(r: MoveRecord): Path
  {
    if r.target == [] then [] else r.target[..|r.target| - 1]
  }

  /** The prefixes of `d` that lie strictly below `root`, `d` included. */
  function Between(d: Path, root: Path): set<Path>
  {
    set n | |root| < n <= |d| :: d[..n]
  }

  /** The folders below the root that a record's target needs. */
  function Chain(r: MoveRecord, root: Path): set<Path>
  {
    Between(Folder(r), root)
  }

  /** All folders below the root that the targets of `h` need. */
  function Folders(h: seq<MoveRecord>, root: Path): set<Path>
  {
    set i, q | 0 <= i < |h| && q in Chain(h[i], root) :: q
  }

  function Sources(h: seq<MoveRecord>, moved: set<int>): set<Path>
  {
    set i | i in moved && 0 <= i < |h| :: h[i].source
  }

  function Targets(h: seq<MoveRecord>, moved: set<int>): set<Path>
  {
    set i | i in moved && 0 <= i < |h| :: h[i].target
  }

  predicate TargetsDistinct(h: seq<MoveRecord>)
  {
    forall i, j :: 0 <= i < j < |h| ==> h[i].target != h[j].target
  }

  /** One record of a fresh plan: a regular file of the root, moved under a new name-preserving
      target at least one folder below the root, neither end locked. */
  predicate Movable(t0: Tree, locked: set<Path>, r: MoveRecord, root: Path)
  {
    && IsChildOf(r.source, root) && IsFileAt(t0, r.source) && r.source !in locked
    && |r.target| >= |root| + 2 && root < r.target && r.target !in locked
    && Name(r.target) == Name(r.source)
  }

  /** The hypotheses of the round trip: a well-formed tree whose root folder exists; distinct
      movable records; no target doubles as a needed folder; and every needed folder is new and
      unlocked.  (The last excludes a folder named like a file of the root.) */
  ghost predicate Fresh(t0: Tree, locked: set<Path>, h: seq<MoveRecord>, root: Path)
  {
    && WellFormed(t0) && IsDirAt(t0, root)
    && SourcesDistinct(h) && TargetsDistinct(h)
    && AllMovable(t0, locked, h, root)
    && TargetsAreNotFolders(h, root)
    && FoldersAreNew(t0, locked, h, root)
  }

  predicate AllMovable(t0: Tree, locked: set<Path>, h: seq<MoveRecord>, root: Path)
  {
    forall i :: 0 <= i < |h| ==> Movable(t0, locked, h[i], root)
  }

  predicate TargetsAreNotFolders(h: seq<MoveRecord>, root: Path)
  {
    forall i :: 0 <= i < |h| ==> h[i].target !in Folders(h, root)
  }

  predicate FoldersAreNew(t0: Tree, locked: set<Path>, h: seq<MoveRecord>, root: Path)
  {
    forall q :: q in Folders(h, root) ==> q !in t0 && q !in locked
  }

  /** `t` is the starting tree with the records in `moved` done and the folders `made` added. */
  ghost predicate Layout(t: Tree, t0: Tree, h: seq<MoveRecord>, moved: set<int>, made: set<Path>)
  {
    && (forall i :: i in moved ==> 0 <= i < |h|)
    && t.Keys == (t0.Keys - Sources(h, moved)) + made + Targets(h, moved)
    && KeepsOthers(t, t0, h, moved)
    && HoldsFolders(t, made)
    && HoldsMoved(t, t0, h, moved)
  }

  /** Every entry of the starting tree that was not moved away is still there, unchanged. */
  ghost predicate KeepsOthers(t: Tree, t0: Tree, h: seq<MoveRecord>, moved: set<int>)
  {
    forall q :: q in t0 && q !in Sources(h, moved) ==> q in t && t[q] == t0[q]
  }

  ghost predicate HoldsFolders(t: Tree, made: set<Path>)
  {
    forall q :: q in made ==> q in t && t[q] == Dir
  }

  /** Each moved file sits at its target with the contents it had at its source. */
  ghost predicate HoldsMoved(t: Tree, t0: Tree, h: seq<MoveRecord>, moved: set<int>)
  {
    forall i :: i in moved && 0 <= i < |h| ==> h[i].target in t && h[i].source in t0 && t[h[i].target] == t0[h[i].source]
  }

  /** Every folder of `s` lies below the root, and so do the folders above it. */
  predicate Closed(s: set<Path>, root: Path)
  {
    && (forall q :: q in s ==> root < q)
    && (forall q, n :: q in s && |root| < n < |q| ==> q[..n] in s)
  }

  // ---------------------------------------------------------------------------------------------
  // Facts about the vocabulary

  lemma AncestorsExist(t: Tree, p: Path, q: Path)
    requires WellFormed(t) && q <= p
    ensures p in t ==> q in t
  {
    if p in t {
      PrefixesExist(t, p, q);
    }
  }

  lemma InChain(h: seq<MoveRecord>, root: Path, i: int, n: int)
    requires 0 <= i < |h| && |root| < n <= |Folder(h[i])|
    ensures Folder(h[i])[..n] in Chain(h[i], root) && Folder(h[i])[..n] in Folders(h, root)
  {
  }

  lemma FoldersClosed(h: seq<MoveRecord>, root: Path)
    requires forall i :: 0 <= i < |h| ==> root < Folder(h[i])
    ensures Closed(Folders(h, root), root)
  {
    forall q, n | q in Folders(h, root) && |root| < n < |q| ensures q[..n] in Folders(h, root) {
      var i, m :| 0 <= i < |h| && |root| < m <= |Folder(h[i])| && q == Folder(h[i])[..m];
      assert q[..n] == Folder(h[i])[..n];
      InChain(h, root, i, n);
    }
    forall q | q in Folders(h, root) ensures root < q {
      var i, m :| 0 <= i < |h| && |root| < m <= |Folder(h[i])| && q == Folder(h[i])[..m];
      assert q[..|root|] == Folder(h[i])[..|root|];
    }
  }

  lemma FoldersOfPrefix(h: seq<MoveRecord>, root: Path, k: int)
    requires 0 <= k < |h|
    ensures Folders(h[..k + 1], root) == Folders(h[..k], root) + Chain(h[k], root)
    ensures Folders(h[..k], root) <= Folders(h, root)
  {
    var a, b := h[..k + 1], h[..k];
    forall q | q in Folders(a, root) ensures q in Folders(b, root) + Chain(h[k], root) {
      var i :| 0 <= i < |a| && q in Chain(a[i], root);
      if i < k {
        assert a[i] == b[i];
      }
    }
    forall q | q in Folders(b, root) + Chain(h[k], root) ensures q in Folders(a, root) {
      if q in Folders(b, root) {
        var i :| 0 <= i < |b| && q in Chain(b[i], root);
        assert a[i] == b[i];
      } else {
        assert a[k] == h[k];
      }
    }
    forall q | q in Folders(b, root) ensures q in Folders(h, root) {
      var i :| 0 <= i < |b| && q in Chain(b[i], root);
      assert h[i] == b[i];
    }
  }

  /** Under the hypotheses the sources, the targets, the needed folders and the root are pairwise
      apart, and no target is in the starting tree. */
  lemma FreshFacts(t0: Tree, locked: set<Path>, h: seq<MoveRecord>, root: Path, i: int)
    requires Fresh(t0, locked, h, root) && 0 <= i < |h|
    ensures h[i].target !in t0 && h[i].source !in Folders(h, root) && root !in Folders(h, root)
    ensures root < Folder(h[i]) && h[i].target == Folder(h[i]) + [Name(h[i].source)]
    ensures h[i].source[..|root|] == root && h[i].source == root + [Name(h[i].source)]
    ensures !(h[i].source < h[i].target)
  {
    var r := h[i];
    assert Movable(t0, locked, r, root);
    RecordShape(r, root);
    InChain(h, root, i, |root| + 1);
    var top := Folder(r)[..|root| + 1];
    assert top !in t0;
    AncestorsExist(t0, r.target, top);
  }

  /** The shape of a movable record: its source sits right in the root and its target one
      folder or more below, under the same name; a source that is a prefix of the target is the
      target's topmost folder. */
  lemma RecordShape(r: MoveRecord, root: Path)
    requires IsChildOf(r.source, root) && |r.target| >= |root| + 2 && root < r.target
    requires Name(r.target) == Name(r.source)
    ensures root < Folder(r) && r.target == Folder(r) + [Name(r.source)]
    ensures r.source[..|root|] == root && r.source == root + [Name(r.source)]
    ensures Folder(r)[..|root| + 1] <= r.target
    ensures r.source < r.target ==> r.source == Folder(r)[..|root| + 1]
  {
    var f := Folder(r);
    assert r.target[..|root|] == root;
    assert f[..|root|] == root;
    assert r.target == f + [Name(r.target)];
    assert r.source == root + [Name(r.source)];
    assert f[..|root| + 1] == r.target[..|root| + 1];
  }

  // ---------------------------------------------------------------------------------------------
  // The run, step by step

  /** `createDirectories` on a path whose existing prefixes below the root are folders with
      existing parents: it succeeds and adds exactly the missing prefixes, as folders. */
  lemma {:induction false} MakeDirsAddsMissing(t: Tree, locked: set<Path>, d: Path, root: Path)
    requires IsDirAt(t, root) && root <= d
    requires forall n :: |root| < n <= |d| ==> d[..n] !in locked
    requires forall n :: |root| < n <= |d| && d[..n] in t ==> t[d[..n]] == Dir && d[..n - 1] in t
    ensures MakeDirs(t, locked, d).1 == Pass
    ensures var t' := MakeDirs(t, locked, d).0;
            && t'.Keys == t.Keys + Between(d, root)
            && (forall q :: q in t ==> t'[q] == t[q])
            && (forall q :: q in Between(d, root) ==> t'[q] == Dir)
    decreases |d|
  {
    if d == root {
      assert Between(d, root) == {};
    } else if d in t {
      assert d[..|d|] == d;
      PrefixChainPresent(t, d, root, |d|);
    } else {
      var p := d[..|d| - 1];
      forall m | |root| <= m <= |p| ensures p[..m] == d[..m] {
      }
      MakeDirsAddsMissing(t, locked, p, root);
      assert d[..|d|] == d;
      assert Between(d, root) == Between(p, root) + {d} by {
        forall q | q in Between(d, root) ensures q in Between(p, root) + {d} {
          var n :| |root| < n <= |d| && q == d[..n];
          if n < |d| {
            assert q == p[..n];
          }
        }
        forall q | q in Between(p, root) ensures q in Between(d, root) {
          var n :| |root| < n <= |p| && q == p[..n];
          assert q == d[..n];
        }
      }
    }
  }

  lemma {:induction false} PrefixChainPresent(t: Tree, d: Path, root: Path, m: int)
    requires root <= d && |root| < m <= |d| && d[..m] in t
    requires forall n :: |root| < n <= |d| && d[..n] in t ==> t[d[..n]] == Dir && d[..n - 1] in t
    ensures forall n :: |root| < n <= m ==> d[..n] in t
    decreases m
  {
    if m > |root| + 1 {
      PrefixChainPresent(t, d, root, m - 1);
    }
  }

  /** The first half of a file's turn: when the prefixes of its folder below the root are unlocked
      and those that exist are among the made folders (all folders, closed under taking
      prefixes), the folder exists afterwards with every folder above it, nothing else changed. */
  lemma PrepareFolder(t: Tree, locked: set<Path>, d: Path, root: Path, made: set<Path>)
    requires IsDirAt(t, root) && root < d
    requires forall n :: |root| < n <= |d| ==> d[..n] !in locked && (d[..n] in t ==> d[..n] in made)
    requires forall q :: q in made ==> q in t && t[q] == Dir
    requires Closed(made, root)
    ensures d in Between(d, root)
    ensures var t1 := if d in t then t else MakeDirs(t, locked, d).0;
            && (d !in t ==> MakeDirs(t, locked, d).1 == Pass)
            && t1.Keys == t.Keys + Between(d, root)
            && (forall q :: q in t ==> t1[q] == t[q])
            && (forall q :: q in Between(d, root) ==> t1[q] == Dir)
  {
    assert d[..|d|] == d;
    if d in t {
      forall q | q in Between(d, root) ensures q in made {
        var n :| |root| < n <= |d| && q == d[..n];
        if n < |d| {
          assert d[..n] in made;
        }
      }
    } else {
      forall n | |root| < n <= |d| && d[..n] in t ensures t[d[..n]] == Dir && d[..n - 1] in t {
        var q := d[..n];
        assert q in made;
        if n - 1 > |root| {
          assert q[..n - 1] == d[..n - 1];
        } else {
          assert d[..n - 1] == root;
        }
      }
      MakeDirsAddsMissing(t, locked, d, root);
    }
  }

  /** In a layout, the folders a record needs are unlocked, and those that exist were made. */
  lemma ChainFreeInLayout(t0: Tree, locked: set<Path>, h: seq<MoveRecord>, root: Path, t: Tree,
                          moved: set<int>, made: set<Path>, k: int)
    requires Fresh(t0, locked, h, root)
    requires Layout(t, t0, h, moved, made)
    requires 0 <= k < |h|
    ensures forall n :: |root| < n <= |Folder(h[k])| ==>
              Folder(h[k])[..n] !in locked && (Folder(h[k])[..n] in t ==> Folder(h[k])[..n] in made)
  {
    var d := Folder(h[k]);
    forall n | |root| < n <= |d|
      ensures d[..n] !in locked && (d[..n] in t ==> d[..n] in made)
    {
      InChain(h, root, k, n);
      forall i | i in moved ensures h[i].target != d[..n] {
      }
    }
  }

  /** `Files.move` of a regular file to a free place in an existing folder renames it. */
  lemma MoveFileToFreePlace(t: Tree, locked: set<Path>, s: Path, d: Path)
    requires IsFileAt(t, s) && s !in locked && d !in locked && d !in t
    requires Parent(d).Some? && IsDirAt(t, Parent(d).value) && !(s < d)
    ensures MoveEntry(t, locked, s, d) == Success((t - {s})[d := t[s]])
  {
  }

  lemma SourcesTargetsAdd(h: seq<MoveRecord>, moved: set<int>, k: int)
    requires 0 <= k < |h|
    ensures Sources(h, moved + {k}) == Sources(h, moved) + {h[k].source}
    ensures Targets(h, moved + {k}) == Targets(h, moved) + {h[k].target}
  {
  }

  lemma KeysAdd(k0: set<Path>, k: set<Path>, k1: set<Path>, k2: set<Path>, srcs: set<Path>, tgts: set<Path>,
                made: set<Path>, chain: set<Path>, s: Path, d: Path)
    requires k == (k0 - srcs) + made + tgts && k1 == k + chain && k2 == (k1 - {s}) + {d}
    requires s in k0 && s !in made + chain + tgts
    ensures k2 == (k0 - (srcs + {s})) + (made + chain) + (tgts + {d})
  {
  }

  /** The layout after one more record is done and its folders are made. */
  lemma LayoutAdd(t0: Tree, h: seq<MoveRecord>, t: Tree, moved: set<int>, made: set<Path>, k: int,
                  chain: set<Path>, t1: Tree)
    requires Layout(t, t0, h, moved, made) && 0 <= k < |h|
    requires t1.Keys == t.Keys + chain && (forall q :: q in t ==> t1[q] == t[q])
    requires forall q :: q in chain ==> q in t1 && t1[q] == Dir
    requires h[k].source in t0 && h[k].source !in Sources(h, moved)
    requires h[k].source !in made + chain + Targets(h, moved)
    requires h[k].target !in t0 && h[k].target !in made + chain + Targets(h, moved)
    ensures Layout((t1 - {h[k].source})[h[k].target := t0[h[k].source]], t0, h, moved + {k}, made + chain)
  {
    var s, d := h[k].source, h[k].target;
    var t2 := (t1 - {s})[d := t0[s]];
    SourcesTargetsAdd(h, moved, k);
    KeysAdd(t0.Keys, t.Keys, t1.Keys, t2.Keys, Sources(h, moved), Targets(h, moved), made, chain, s, d);
    LayoutAddOld(t0, h, t, moved, k, t1);
    LayoutAddFolders(t, made, chain, t1, s, d, t0[s]);
    LayoutAddMoved(t0, h, t, moved, k, t1);
  }

  lemma LayoutAddOld(t0: Tree, h: seq<MoveRecord>, t: Tree, moved: set<int>, k: int, t1: Tree)
    requires KeepsOthers(t, t0, h, moved) && 0 <= k < |h| && h[k].source in t0
    requires t.Keys <= t1.Keys && (forall q :: q in t ==> t1[q] == t[q])
    requires h[k].target !in t0
    ensures KeepsOthers((t1 - {h[k].source})[h[k].target := t0[h[k].source]], t0, h, moved + {k})
  {
    SourcesTargetsAdd(h, moved, k);
  }

  lemma LayoutAddFolders(t: Tree, made: set<Path>, chain: set<Path>, t1: Tree, s: Path, d: Path, v: Entry)
    requires HoldsFolders(t, made)
    requires t.Keys <= t1.Keys && (forall q :: q in t ==> t1[q] == t[q])
    requires forall q :: q in chain ==> q in t1 && t1[q] == Dir
    requires s !in made + chain && d !in made + chain
    ensures HoldsFolders((t1 - {s})[d := v], made + chain)
  {
  }

  lemma LayoutAddMoved(t0: Tree, h: seq<MoveRecord>, t: Tree, moved: set<int>, k: int, t1: Tree)
    requires HoldsMoved(t, t0, h, moved) && 0 <= k < |h|
    requires t.Keys <= t1.Keys && (forall q :: q in t ==> t1[q] == t[q])
    requires h[k].source in t0 && h[k].source !in Targets(h, moved) && h[k].target !in Targets(h, moved)
    ensures HoldsMoved((t1 - {h[k].source})[h[k].target := t0[h[k].source]], t0, h, moved + {k})
  {
    var t2 := (t1 - {h[k].source})[h[k].target := t0[h[k].source]];
    forall i | i in moved + {k} && 0 <= i < |h|
      ensures h[i].target in t2 && h[i].source in t0 && t2[h[i].target] == t0[h[i].source]
    {
      if i != k {
        assert h[i].target in Targets(h, moved);
      }
    }
  }

  lemma SortStepSucceeds(t: Tree, locked: set<Path>, f: Path, d: Path, t1: Tree, t2: Tree)
    requires d !in t ==> MakeDirs(t, locked, d).1 == Pass
    requires t1 == if d in t then t else MakeDirs(t, locked, d).0
    requires MoveEntry(t1, locked, f, d + [Name(f)]) == Success(t2)
    ensures SortStep(t, locked, f, d) == (t2, Pass)
  {
  }

  /** What a layout and the hypotheses say about the record to be done next. */
  lemma StepFacts(t0: Tree, locked: set<Path>, h: seq<MoveRecord>, root: Path, t: Tree,
                  moved: set<int>, made: set<Path>, k: int)
    requires Fresh(t0, locked, h, root)
    requires Layout(t, t0, h, moved, made) && made <= Folders(h, root)
    requires 0 <= k < |h| && k !in moved
    ensures h[k].source in t0 && h[k].source !in Sources(h, moved)
    ensures h[k].source !in made + Chain(h[k], root) + Targets(h, moved)
    ensures h[k].target !in t0 && h[k].target !in made + Chain(h[k], root) + Targets(h, moved)
    ensures IsDirAt(t, root) && IsFileAt(t, h[k].source) && t[h[k].source] == t0[h[k].source]
    ensures h[k].source !in locked && h[k].target !in locked
    ensures root < Folder(h[k]) && Parent(h[k].target) == Some(Folder(h[k]))
    ensures Folder(h[k]) + [Name(h[k].source)] == h[k].target && !(h[k].source < h[k].target)
  {
    FreshFacts(t0, locked, h, root, k);
    OthersApart(t0, locked, h, root, moved, k);
    ChainInFolders(h, root, k);
    assert root !in Sources(h, moved);
  }

  /** The record to be done next shares neither end with a record already done. */
  lemma OthersApart(t0: Tree, locked: set<Path>, h: seq<MoveRecord>, root: Path, moved: set<int>, k: int)
    requires Fresh(t0, locked, h, root)
    requires (forall i :: i in moved ==> 0 <= i < |h|) && 0 <= k < |h| && k !in moved
    ensures h[k].source !in Sources(h, moved) && h[k].source !in Targets(h, moved)
    ensures h[k].target !in Targets(h, moved)
  {
    var r := h[k];
    assert Movable(t0, locked, r, root);
    forall i | i in moved ensures h[i].target != r.source && h[i].source != r.source && h[i].target != r.target {
      assert Movable(t0, locked, h[i], root);
    }
  }

  lemma ChainInFolders(h: seq<MoveRecord>, root: Path, k: int)
    requires 0 <= k < |h|
    ensures Chain(h[k], root) <= Folders(h, root)
  {
  }

  /** One file's turn from a layout: it succeeds, adds the folders of its target and moves it. */
  lemma StepForward(t0: Tree, locked: set<Path>, h: seq<MoveRecord>, root: Path, t: Tree,
                    moved: set<int>, made: set<Path>, k: int)
    requires Fresh(t0, locked, h, root)
    requires Layout(t, t0, h, moved, made) && made <= Folders(h, root) && Closed(made, root)
    requires 0 <= k < |h| && k !in moved
    ensures var (t', o) := SortStep(t, locked, h[k].source, Folder(h[k]));
            o == Pass && Layout(t', t0, h, moved + {k}, made + Chain(h[k], root))
  {
    var r := h[k];
    var d := Folder(r);
    FreshFacts(t0, locked, h, root, k);
    StepFacts(t0, locked, h, root, t, moved, made, k);
    ChainFreeInLayout(t0, locked, h, root, t, moved, made, k);
    PrepareFolder(t, locked, d, root, made);
    var t1 := if d in t then t else MakeDirs(t, locked, d).0;
    MoveFileToFreePlace(t1, locked, r.source, r.target);
    SortStepSucceeds(t, locked, r.source, d, t1, (t1 - {r.source})[r.target := t1[r.source]]);
    LayoutAdd(t0, h, t, moved, made, k, Chain(r, root), t1);
  }

  // ---------------------------------------------------------------------------------------------
  // The whole run

  lemma SplitAt<T>(s: seq<T>, k: int)
    requires 0 <= k < |s|
    ensures s[k..] == [s[k]] + s[k + 1..] && s[k..][0] == s[k] && s[k..][1..] == s[k + 1..]
  {
  }

  /** A run as the execution of a list of records: each record's file goes to its target's
      folder, the first failure ends it, and the history holds the records done before that. */
  function RunRecords(t: Tree, locked: set<Path>, h: seq<MoveRecord>): RunState
    decreases |h|
  {
    if h == [] then RunState(t, [], Pass)
    else
      var (t1, o1) := SortStep(t, locked, h[0].source, Folder(h[0]));
      if o1.Fail? then RunState(t1, [], o1)
      else
        var rest := RunRecords(t1, locked, h[1..]);
        RunState(rest.tree, [h[0]] + rest.history, rest.outcome)
  }

  /** `runFilter` executes exactly its plan. */
  lemma {:induction false} SortRunExecutesPlan(t: Tree, locked: set<Path>, files: seq<Path>, root: Path,
                                               meta: Metadata, attrs: seq<string>)
    ensures SortRun(t, locked, files, root, meta, attrs) == RunRecords(t, locked, Plan(files, root, meta, attrs))
    decreases |files|
  {
    if files != [] {
      var f := files[0];
      var rest := Plan(files[1..], root, meta, attrs);
      if Name(f) in meta {
        var dir := TargetDir(root, meta[Name(f)], attrs);
        var r := MoveRecord(f, dir + [Name(f)]);
        var p := Plan(files, root, meta, attrs);
        assert p == [r] + rest;
        assert p[0] == r && p[1..] == rest;
        assert Folder(r) == dir;
        var (t1, o1) := SortStep(t, locked, f, dir);
        if o1.Pass? {
          SortRunExecutesPlan(t1, locked, files[1..], root, meta, attrs);
        }
      } else {
        assert Plan(files, root, meta, attrs) == rest;
        SortRunExecutesPlan(t, locked, files[1..], root, meta, attrs);
      }
    }
  }

  lemma PrefixFolders(t0: Tree, locked: set<Path>, h: seq<MoveRecord>, root: Path, k: int)
    requires Fresh(t0, locked, h, root) && 0 <= k <= |h|
    ensures Closed(Folders(h[..k], root), root) && Folders(h[..k], root) <= Folders(h, root)
  {
    forall i | 0 <= i < |h[..k]| ensures root < Folder(h[..k][i]) {
      FreshFacts(t0, locked, h, root, i);
    }
    FoldersClosed(h[..k], root);
    if k < |h| {
      FoldersOfPrefix(h, root, k);
    } else {
      assert h[..k] == h;
    }
  }

  lemma NextLayout(t0: Tree, h: seq<MoveRecord>, root: Path, t: Tree, moved: set<int>, k: int)
    requires 0 <= k < |h| && forall i :: i in moved <==> 0 <= i < k
    requires Layout(t, t0, h, moved + {k}, Folders(h[..k], root) + Chain(h[k], root))
    ensures Layout(t, t0, h, moved + {k}, Folders(h[..k + 1], root))
    ensures forall i :: i in moved + {k} <==> 0 <= i < k + 1
  {
    FoldersOfPrefix(h, root, k);
  }

  /** From the layout with the first `k` records done, the rest of the run succeeds and ends
      with every record done and every needed folder made. */
  lemma {:induction false} RunForward(t0: Tree, locked: set<Path>, h: seq<MoveRecord>, root: Path, t: Tree,
                                      moved: set<int>, k: int) returns (all: set<int>)
    requires Fresh(t0, locked, h, root) && 0 <= k <= |h|
    requires forall i :: i in moved <==> 0 <= i < k
    requires Layout(t, t0, h, moved, Folders(h[..k], root))
    ensures forall i :: i in all <==> 0 <= i < |h|
    ensures var r := RunRecords(t, locked, h[k..]);
            r.outcome == Pass && r.history == h[k..] && Layout(r.tree, t0, h, all, Folders(h, root))
    decreases |h| - k
  {
    if k == |h| {
      all := moved;
      assert h[..k] == h;
    } else {
      var t1 := ForwardStep(t0, locked, h, root, t, moved, k);
      SplitAt(h, k);
      RunRecordsStep(t, locked, h[k..], t1);
      all := RunForward(t0, locked, h, root, t1, moved + {k}, k + 1);
    }
  }

  /** The `k`-th record done from the layout with the records before it done. */
  lemma ForwardStep(t0: Tree, locked: set<Path>, h: seq<MoveRecord>, root: Path, t: Tree,
                    moved: set<int>, k: int) returns (t1: Tree)
    requires Fresh(t0, locked, h, root) && 0 <= k < |h|
    requires forall i :: i in moved <==> 0 <= i < k
    requires Layout(t, t0, h, moved, Folders(h[..k], root))
    ensures SortStep(t, locked, h[k].source, Folder(h[k])) == (t1, Pass)
    ensures Layout(t1, t0, h, moved + {k}, Folders(h[..k + 1], root))
    ensures forall i :: i in moved + {k} <==> 0 <= i < k + 1
  {
    PrefixFolders(t0, locked, h, root, k);
    FoldersOfPrefix(h, root, k);
    StepForward(t0, locked, h, root, t, moved, Folders(h[..k], root), k);
    t1 := SortStep(t, locked, h[k].source, Folder(h[k])).0;
    NextLayout(t0, h, root, t1, moved, k);
  }

  lemma RunRecordsStep(t: Tree, locked: set<Path>, h: seq<MoveRecord>, t1: Tree)
    requires h != [] && SortStep(t, locked, h[0].source, Folder(h[0])) == (t1, Pass)
    ensures var rest := RunRecords(t1, locked, h[1..]);
            RunRecords(t, locked, h) == RunState(rest.tree, [h[0]] + rest.history, rest.outcome)
  {
  }

  // ---------------------------------------------------------------------------------------------
  // The moves back

  lemma SourcesTargetsRemove(h: seq<MoveRecord>, moved: set<int>, j: int)
    requires 0 <= j < |h| && SourcesDistinct(h) && TargetsDistinct(h)
    ensures Sources(h, moved - {j}) == Sources(h, moved) - {h[j].source}
    ensures Targets(h, moved - {j}) == Targets(h, moved) - {h[j].target}
  {
    forall q | q in Sources(h, moved) - {h[j].source} ensures q in Sources(h, moved - {j}) {
    }
    forall q | q in Targets(h, moved) - {h[j].target} ensures q in Targets(h, moved - {j}) {
    }
    forall i | i in moved && 0 <= i < |h| && i != j
      ensures h[i].source != h[j].source && h[i].target != h[j].target
    {
      if i < j {
        assert h[i].source != h[j].source && h[i].target != h[j].target;
      }
    }
  }

  /** What a layout and the hypotheses say about a record to be undone. */
  lemma BackFacts(t0: Tree, locked: set<Path>, h: seq<MoveRecord>, root: Path, t: Tree,
                  moved: set<int>, made: set<Path>, j: int)
    requires Fresh(t0, locked, h, root)
    requires Layout(t, t0, h, moved, made) && made <= Folders(h, root)
    requires j in moved
    ensures 0 <= j < |h|
    ensures Sources(h, moved - {j}) == Sources(h, moved) - {h[j].source}
    ensures Targets(h, moved - {j}) == Targets(h, moved) - {h[j].target}
    ensures h[j].source in t0 && h[j].source !in made && h[j].target !in made && h[j].target !in t0
    ensures IsFileAt(t, h[j].target) && t[h[j].target] == t0[h[j].source] && h[j].source !in t
    ensures IsDirAt(t, root) && Parent(h[j].source) == Some(root)
    ensures h[j].source !in locked && h[j].target !in locked && !(h[j].target < h[j].source)
    ensures forall i :: i in moved && 0 <= i < |h| && i != j ==> h[i].target != h[j].target && h[i].target != h[j].source
  {
    var r := h[j];
    FreshFacts(t0, locked, h, root, j);
    SourcesTargetsRemove(h, moved, j);
    forall i | i in moved && i != j ensures h[i].target != r.target && h[i].target != r.source {
      FreshFacts(t0, locked, h, root, i);
      if i < j {
        assert h[i].target != r.target;
      }
    }
    assert r.source in Sources(h, moved);
    assert r.source !in Targets(h, moved);
    assert root !in Sources(h, moved);
    assert r.source[..|r.source| - 1] == root;
  }

  lemma BackKeepsOthers(t0: Tree, h: seq<MoveRecord>, t: Tree, moved: set<int>, j: int)
    requires KeepsOthers(t, t0, h, moved) && 0 <= j < |h| && h[j].source in t0 && h[j].target in t
    requires Sources(h, moved - {j}) == Sources(h, moved) - {h[j].source}
    requires t[h[j].target] == t0[h[j].source] && h[j].target !in t0
    ensures KeepsOthers((t - {h[j].target})[h[j].source := t[h[j].target]], t0, h, moved - {j})
  {
  }

  lemma BackHoldsFolders(t: Tree, made: set<Path>, s: Path, d: Path, v: Entry)
    requires HoldsFolders(t, made) && s !in made && d !in made
    ensures HoldsFolders((t - {d})[s := v], made)
  {
  }

  lemma BackHoldsMoved(t0: Tree, h: seq<MoveRecord>, t: Tree, moved: set<int>, j: int)
    requires HoldsMoved(t, t0, h, moved) && 0 <= j < |h| && h[j].target in t
    requires forall i :: i in moved && 0 <= i < |h| && i != j ==> h[i].target != h[j].target && h[i].target != h[j].source
    ensures HoldsMoved((t - {h[j].target})[h[j].source := t[h[j].target]], t0, h, moved - {j})
  {
  }

  /** `Files.move` of a regular file back to its free place in an existing folder. */
  lemma MoveBack(t: Tree, locked: set<Path>, s: Path, d: Path)
    requires IsFileAt(t, s) && s !in locked && d !in locked && d !in t && s != d
    requires Parent(d).Some? && IsDirAt(t, Parent(d).value) && !(s < d)
    ensures MoveEntry(t, locked, s, d) == Success((t - {s})[d := t[s]])
  {
  }

  /** Undoing one done record from a layout succeeds and gives the layout without it. */
  lemma StepBack(t0: Tree, locked: set<Path>, h: seq<MoveRecord>, root: Path, t: Tree,
                 moved: set<int>, made: set<Path>, j: int)
    requires Fresh(t0, locked, h, root)
    requires Layout(t, t0, h, moved, made) && made <= Folders(h, root)
    requires j in moved
    ensures 0 <= j < |h| && h[j].target in t
    ensures MoveEntry(t, locked, h[j].target, h[j].source).Success?
    ensures Layout(MoveEntry(t, locked, h[j].target, h[j].source).value, t0, h, moved - {j}, made)
  {
    BackFacts(t0, locked, h, root, t, moved, made, j);
    var r := h[j];
    MoveBack(t, locked, r.target, r.source);
    BackKeepsOthers(t0, h, t, moved, j);
    BackHoldsFolders(t, made, r.source, r.target, t[r.target]);
    BackHoldsMoved(t0, h, t, moved, j);
    var t' := (t - {r.target})[r.source := t[r.target]];
    assert t'.Keys == (t0.Keys - Sources(h, moved - {j})) + made + Targets(h, moved - {j});
  }

  /** A state the moves back pass through: the hypotheses hold and the tree is the layout with
      the needed folders made and the records from `j` on, `moved`, still done. */
  ghost predicate Undoing(t0: Tree, locked: set<Path>, h: seq<MoveRecord>, root: Path, t: Tree,
                          moved: set<int>, j: int)
  {
    && Fresh(t0, locked, h, root) && 0 <= j <= |h|
    && (forall i :: i in moved <==> j <= i < |h|)
    && Layout(t, t0, h, moved, Folders(h, root))
  }

  /** From a layout with the records from `j` on done, the moves back of those records succeed
      and leave only the made folders besides the starting tree. */
  lemma {:induction false} RevertBack(t0: Tree, locked: set<Path>, h: seq<MoveRecord>, root: Path, t: Tree,
                                      moved: set<int>, j: int)
    requires Undoing(t0, locked, h, root, t, moved, j)
    ensures RevertMoves(t, locked, h[j..]).1 == Pass
    ensures Layout(RevertMoves(t, locked, h[j..]).0, t0, h, {}, Folders(h, root))
    decreases |h| - j
  {
    if j == |h| {
      NoneMovedBack(t0, locked, h, root, t, moved, j);
    } else {
      var t1 := BackStep(t0, locked, h, root, t, moved, j);
      RevertBack(t0, locked, h, root, t1, moved - {j}, j + 1);
    }
  }

  lemma NoneMovedBack(t0: Tree, locked: set<Path>, h: seq<MoveRecord>, root: Path, t: Tree,
                      moved: set<int>, j: int)
    requires j == |h| && (forall i :: i in moved <==> j <= i < |h|)
    requires Layout(t, t0, h, moved, Folders(h, root))
    ensures RevertMoves(t, locked, h[j..]) == (t, Pass) && Layout(t, t0, h, {}, Folders(h, root))
  {
    assert h[j..] == [];
    assert forall i :: i !in moved;
    assert moved == {};
  }

  /** The `j`-th record moved back from the layout with the records from `j` on done. */
  lemma BackStep(t0: Tree, locked: set<Path>, h: seq<MoveRecord>, root: Path, t: Tree,
                 moved: set<int>, j: int) returns (t1: Tree)
    requires Undoing(t0, locked, h, root, t, moved, j) && j < |h|
    ensures RevertMoves(t, locked, h[j..]) == RevertMoves(t1, locked, h[j + 1..])
    ensures Undoing(t0, locked, h, root, t1, moved - {j}, j + 1)
  {
    StepBack(t0, locked, h, root, t, moved, Folders(h, root), j);
    t1 := MoveEntry(t, locked, h[j].target, h[j].source).value;
    SplitAt(h, j);
    RevertMovesStep(t, locked, h[j..], t1);
  }

  lemma RevertMovesStep(t: Tree, locked: set<Path>, h: seq<MoveRecord>, t1: Tree)
    requires h != [] && h[0].target in t && MoveEntry(t, locked, h[0].target, h[0].source) == Success(t1)
    ensures RevertMoves(t, locked, h) == RevertMoves(t1, locked, h[1..])
  {
  }

  // ---------------------------------------------------------------------------------------------
  // The clean-up

  /** The starting tree plus the folders `made`, with nothing moved. */
  ghost predicate Residue(t: Tree, t0: Tree, made: set<Path>)
  {
    && t.Keys == t0.Keys + made
    && (forall q :: q in t0 ==> t[q] == t0[q])
    && HoldsFolders(t, made)
  }

  /** What the clean-up may rely on about the made folders: they lie below the root, are closed
      under taking prefixes, are new and are unlocked. */
  ghost predicate MadeFolders(t0: Tree, locked: set<Path>, root: Path, made: set<Path>)
  {
    && WellFormed(t0) && IsDirAt(t0, root) && Closed(made, root)
    && (forall q :: q in made ==> q !in t0 && q !in locked)
  }

  lemma PrefixTransitive(a: Path, b: Path, c: Path)
    requires a <= b && b <= c
    ensures a <= c
  {
    assert c[..|a|] == c[..|b|][..|a|];
  }

  /** Every entry strictly below a made folder is a made folder too, and so is the child of that
      folder on the way down to it. */
  lemma BelowMade(t0: Tree, locked: set<Path>, root: Path, t: Tree, made: set<Path>, d: Path, c: Path)
    requires MadeFolders(t0, locked, root, made) && Residue(t, t0, made) && d in made
    ensures c in t && d < c ==> c in made && c[..|d| + 1] in made && c[..|d| + 1] in Children(t, d)
  {
    if c in t && d < c {
      AncestorsExist(t0, c, d);
      var e := c[..|d| + 1];
      assert e[..|d|] == d;
      if |d| + 1 < |c| {
        assert e in made;
      } else {
        assert e == c;
      }
    }
  }

  /** Deleting an empty made folder leaves the rest made and closed. */
  lemma DeleteEmptyMade(t0: Tree, locked: set<Path>, root: Path, t: Tree, made: set<Path>, d: Path)
    requires MadeFolders(t0, locked, root, made) && Residue(t, t0, made) && d in made
    requires Children(t, d) == {}
    ensures DeleteEntry(t, locked, d) == Success(t - {d})
    ensures MadeFolders(t0, locked, root, made - {d}) && Residue(t - {d}, t0, made - {d})
  {
    forall s | s in made ensures !(d < s) {
      BelowMade(t0, locked, root, t, made, d, s);
    }
  }

  /** A walk that meets a made folder that is not empty stops there; every folder on its way up
      holds a child of that folder, which is off its way. */
  lemma WalkStopsAtFull(t0: Tree, locked: set<Path>, root: Path, t: Tree, made: set<Path>, d: Path)
    requires MadeFolders(t0, locked, root, made) && Residue(t, t0, made) && d in made
    requires Children(t, d) != {}
    ensures Walk(t, locked, Some(d), root) == t
    ensures forall s :: s in made && s <= d ==> exists c :: c in made && s < c && !(c <= d)
  {
    var c :| c in Children(t, d);
    BelowMade(t0, locked, root, t, made, d, c);
    forall s | s in made && s <= d ensures exists c' :: c' in made && s < c' && !(c' <= d) {
      PrefixTransitive(s, d, c);
      assert s < c && !(c <= d);
    }
  }

  /** A prefix of `d` other than `d` is a prefix of its parent. */
  lemma PrefixOfParent(s: Path, d: Path)
    requires d != []
    ensures s <= d && s != d ==> s <= d[..|d| - 1]
  {
  }

  /** One walk from a made folder: it deletes only made folders on its way up, keeps the rest
      closed, and a kept folder on its way up still holds a kept folder off its way. */
  lemma {:induction false} WalkFromMade(t0: Tree, locked: set<Path>, root: Path, t: Tree, made: set<Path>, d: Path)
    returns (kept: set<Path>)
    requires MadeFolders(t0, locked, root, made) && Residue(t, t0, made) && d in made
    ensures kept <= made && MadeFolders(t0, locked, root, kept)
    ensures Residue(Walk(t, locked, Some(d), root), t0, kept)
    ensures forall s :: s in made && s !in kept ==> s <= d
    ensures forall s :: s in kept && s <= d ==> exists c :: c in kept && s < c && !(c <= d)
    decreases |d|
  {
    assert root < d;
    if Children(t, d) != {} {
      kept := made;
      WalkStopsAtFull(t0, locked, root, t, made, d);
    } else {
      DeleteEmptyMade(t0, locked, root, t, made, d);
      var t1, made1 := t - {d}, made - {d};
      var p := d[..|d| - 1];
      assert Walk(t, locked, Some(d), root) == Walk(t1, locked, Some(p), root);
      if p == root {
        kept := made1;
        forall s | s in kept ensures !(s <= d) {
          PrefixOfParent(s, d);
        }
      } else {
        assert p == d[..|p|] && |root| < |p|;
        kept := WalkFromMade(t0, locked, root, t1, made1, p);
        forall s | s in kept && s <= d ensures exists c :: c in kept && s < c && !(c <= d) {
          PrefixOfParent(s, d);
          var c :| c in kept && s < c && !(c <= p);
          PrefixOfParent(c, d);
        }
        forall s | s in made && s !in kept ensures s <= d {
          if s != d {
            PrefixTransitive(s, p, d);
          }
        }
      }
    }
  }

  /** The walk at position `j` starts from a made folder at or below `s`. */
  ghost predicate CoversAt(made: set<Path>, dirs: seq<Option<Path>>, j: int, s: Path)
  {
    0 <= j < |dirs| && dirs[j].Some? && dirs[j].value in made && s <= dirs[j].value
  }

  /** `s` is a made folder that a later walk still has to delete (a trigger of its own, so that
      the folders `Covered` names do not set off further instances of it). */
  ghost predicate Needs(made: set<Path>, s: Path)
  {
    s in made
  }

  /** Every made folder lies on the way up of a walk from position `k` on. */
  ghost predicate Covered(made: set<Path>, dirs: seq<Option<Path>>, k: int)
  {
    forall s {:trigger Needs(made, s)} :: Needs(made, s) ==> exists j :: k <= j && CoversAt(made, dirs, j, s)
  }

  /** A walk from a folder that is no longer there leaves the others covered by the later walks. */
  lemma CoveredAfterSkip(made: set<Path>, dirs: seq<Option<Path>>, k: int)
    requires Covered(made, dirs, k) && 0 <= k < |dirs| && dirs[k].Some? && dirs[k].value !in made
    ensures Covered(made, dirs, k + 1)
  {
    forall s | Needs(made, s) ensures exists j :: k + 1 <= j && CoversAt(made, dirs, j, s) {
      var j :| k <= j && CoversAt(made, dirs, j, s);
      assert j != k;
    }
  }

  /** After a walk from a made folder, what it kept is covered by the later walks. */
  lemma CoveredAfterWalk(made: set<Path>, kept: set<Path>, dirs: seq<Option<Path>>, k: int, d: Path)
    requires Covered(made, dirs, k) && 0 <= k < |dirs| && dirs[k] == Some(d)
    requires kept <= made
    requires forall s :: s in made && s !in kept ==> s <= d
    requires forall s :: s in kept && s <= d ==> exists c :: c in kept && s < c && !(c <= d)
    ensures Covered(kept, dirs, k + 1)
  {
    forall s | Needs(kept, s) ensures exists j :: k + 1 <= j && CoversAt(kept, dirs, j, s) {
      CoveredKept(made, kept, dirs, k, d, s);
    }
  }

  lemma CoveredKept(made: set<Path>, kept: set<Path>, dirs: seq<Option<Path>>, k: int, d: Path, s: Path)
    requires Covered(made, dirs, k) && 0 <= k < |dirs| && dirs[k] == Some(d)
    requires kept <= made && s in kept
    requires forall s :: s in made && s !in kept ==> s <= d
    requires forall s :: s in kept && s <= d ==> exists c :: c in kept && s < c && !(c <= d)
    ensures exists j :: k + 1 <= j && CoversAt(kept, dirs, j, s)
  {
    var top := s;
    if s <= d {
      var c :| c in kept && s < c && !(c <= d);
      top := c;
    }
    assert Needs(made, top);
    var j :| k <= j && CoversAt(made, dirs, j, top);
    var e := dirs[j].value;
    assert j != k;
    if e !in kept {
      PrefixTransitive(top, e, d);
    }
    PrefixTransitive(s, top, e);
    assert CoversAt(kept, dirs, j, s);
  }

  /** Once no walk is left, no made folder can be left to cover. */
  lemma NoneLeftToCover(made: set<Path>, dirs: seq<Option<Path>>)
    requires Covered(made, dirs, |dirs|)
    ensures forall q :: q !in made
  {
    forall q ensures q !in made {
      assert !exists j :: |dirs| <= j && CoversAt(made, dirs, j, q);
      assert !Needs(made, q);
    }
  }

  /** The walks from the `k`-th on delete every made folder, so that the starting tree is left. */
  lemma {:induction false} WalksClear(t0: Tree, locked: set<Path>, root: Path, dirs: seq<Option<Path>>, k: int,
                                      t: Tree, made: set<Path>)
    requires MadeFolders(t0, locked, root, made) && Residue(t, t0, made)
    requires 0 <= k <= |dirs| && forall j :: 0 <= j < |dirs| ==> dirs[j].Some? && dirs[j].value !in t0 && root < dirs[j].value
    requires Covered(made, dirs, k)
    ensures Walks(t, locked, dirs[k..], root) == t0
    decreases |dirs| - k
  {
    if k == |dirs| {
      NoneLeftToCover(made, dirs);
      assert t == t0;
    } else {
      var d := dirs[k].value;
      SplitAt(dirs, k);
      if d !in made {
        assert ListError(t, locked, d).Some?;
        CoveredAfterSkip(made, dirs, k);
        WalksClear(t0, locked, root, dirs, k + 1, t, made);
      } else {
        var kept := WalkFromMade(t0, locked, root, t, made, d);
        CoveredAfterWalk(made, kept, dirs, k, d);
        WalksClear(t0, locked, root, dirs, k + 1, Walk(t, locked, Some(d), root), kept);
      }
    }
  }

  /** The walks of the clean-up start from the folders of the targets, each of them needed, and
      every needed folder lies on the way up of one of them. */
  lemma {:induction false} CleanupStarts(t0: Tree, h: seq<MoveRecord>, root: Path)
    requires forall i :: 0 <= i < |h| ==> h[i].target != [] && root < Folder(h[i])
    requires forall q :: q in Folders(h, root) ==> q !in t0
    ensures var dirs := Distinct(TargetParents(h));
            && (forall j :: 0 <= j < |dirs| ==> dirs[j].Some? && dirs[j].value !in t0 && root < dirs[j].value)
            && Covered(Folders(h, root), dirs, 0)
  {
    TargetFolders(h, root);
    assert forall i :: 0 <= i < |h| ==> Folder(h[i]) !in t0;
    StartsOutside(t0, h, root);
    StartsCover(h, root);
  }

  lemma {:induction false} TargetFolders(h: seq<MoveRecord>, root: Path)
    requires forall i :: 0 <= i < |h| ==> h[i].target != [] && root < Folder(h[i])
    ensures forall i :: 0 <= i < |h| ==> TargetParents(h)[i] == Some(Folder(h[i])) && Folder(h[i]) in Folders(h, root)
  {
    forall i | 0 <= i < |h| ensures TargetParents(h)[i] == Some(Folder(h[i])) && Folder(h[i]) in Folders(h, root) {
      TargetFolder(h, root, i);
    }
  }

  lemma {:induction false} TargetFolder(h: seq<MoveRecord>, root: Path, i: int)
    requires 0 <= i < |h| && h[i].target != [] && root < Folder(h[i])
    ensures TargetParents(h)[i] == Some(Folder(h[i])) && Folder(h[i]) in Folders(h, root)
  {
    InChain(h, root, i, |Folder(h[i])|);
    assert Folder(h[i])[..|Folder(h[i])|] == Folder(h[i]);
  }

  lemma {:induction false} StartsOutside(t0: Tree, h: seq<MoveRecord>, root: Path)
    requires forall i :: 0 <= i < |h| ==> TargetParents(h)[i] == Some(Folder(h[i])) && Folder(h[i]) !in t0 && root < Folder(h[i])
    ensures var dirs := Distinct(TargetParents(h));
            forall j :: 0 <= j < |dirs| ==> dirs[j].Some? && dirs[j].value !in t0 && root < dirs[j].value
  {
    var dirs := Distinct(TargetParents(h));
    forall j | 0 <= j < |dirs| ensures dirs[j].Some? && dirs[j].value !in t0 && root < dirs[j].value {
      assert dirs[j] in TargetParents(h);
      var i :| 0 <= i < |h| && TargetParents(h)[i] == dirs[j];
    }
  }

  lemma {:induction false} StartsCover(h: seq<MoveRecord>, root: Path)
    requires forall i :: 0 <= i < |h| ==> TargetParents(h)[i] == Some(Folder(h[i])) && Folder(h[i]) in Folders(h, root)
    ensures Covered(Folders(h, root), Distinct(TargetParents(h)), 0)
  {
    forall s | Needs(Folders(h, root), s)
      ensures exists j :: 0 <= j && CoversAt(Folders(h, root), Distinct(TargetParents(h)), j, s)
    {
      StartCovers(h, root, s);
    }
  }

  lemma {:induction false} StartCovers(h: seq<MoveRecord>, root: Path, s: Path)
    requires forall i :: 0 <= i < |h| ==> TargetParents(h)[i] == Some(Folder(h[i])) && Folder(h[i]) in Folders(h, root)
    requires s in Folders(h, root)
    ensures exists j :: 0 <= j && CoversAt(Folders(h, root), Distinct(TargetParents(h)), j, s)
  {
    var dirs := Distinct(TargetParents(h));
    var i :| 0 <= i < |h| && s in Chain(h[i], root);
    var n :| |root| < n <= |Folder(h[i])| && s == Folder(h[i])[..n];
    assert TargetParents(h)[i] in TargetParents(h);
    var j :| 0 <= j < |dirs| && dirs[j] == Some(Folder(h[i]));
    assert CoversAt(Folders(h, root), dirs, j, s);
  }


  lemma FreshTargets(t0: Tree, locked: set<Path>, h: seq<MoveRecord>, root: Path)
    requires Fresh(t0, locked, h, root)
    ensures forall i :: 0 <= i < |h| ==> h[i].target != [] && root < Folder(h[i])
    ensures forall q :: q in Folders(h, root) ==> q !in t0
  {
    forall i | 0 <= i < |h| ensures h[i].target != [] && root < Folder(h[i]) {
      FreshFacts(t0, locked, h, root, i);
    }
  }

  // ---------------------------------------------------------------------------------------------
  // The round trip

  lemma StartLayout(t0: Tree, h: seq<MoveRecord>, root: Path)
    ensures Layout(t0, t0, h, {}, Folders(h[..0], root))
  {
    assert Folders(h[..0], root) == {};
  }

  lemma LayoutNoneMoved(t: Tree, t0: Tree, h: seq<MoveRecord>, made: set<Path>)
    requires Layout(t, t0, h, {}, made) && forall q :: q in made ==> q !in t0
    ensures Residue(t, t0, made)
  {
  }

  /** Under the hypotheses, a run performs its whole plan, and reverting it right away succeeds,
      clears the history and gives back exactly the starting tree: every file at its source with
      its contents, every folder the run made removed, nothing else touched. */
  lemma SortThenRevertRestores(t0: Tree, locked: set<Path>, h: seq<MoveRecord>, root: Path)
    requires Fresh(t0, locked, h, root)
    ensures var run := RunRecords(t0, locked, h);
            && run.outcome == Pass && run.history == h
            && RevertRun(run.tree, locked, run.history, root) == RunState(t0, [], Pass)
  {
    var all := WholeRun(t0, locked, h, root);
    WholeRevert(t0, locked, h, root, RunRecords(t0, locked, h).tree, all);
  }

  /** The run half of the round trip: every record is done and every needed folder made. */
  lemma WholeRun(t0: Tree, locked: set<Path>, h: seq<MoveRecord>, root: Path) returns (all: set<int>)
    requires Fresh(t0, locked, h, root)
    ensures forall i :: i in all <==> 0 <= i < |h|
    ensures var run := RunRecords(t0, locked, h);
            run.outcome == Pass && run.history == h && Layout(run.tree, t0, h, all, Folders(h, root))
  {
    StartLayout(t0, h, root);
    all := RunForward(t0, locked, h, root, t0, {}, 0);
    assert h[0..] == h;
  }

  /** The revert half: from the tree the run left, the moves back and the clean-up restore the
      starting tree. */
  lemma WholeRevert(t0: Tree, locked: set<Path>, h: seq<MoveRecord>, root: Path, t1: Tree, all: set<int>)
    requires Fresh(t0, locked, h, root)
    requires forall i :: i in all <==> 0 <= i < |h|
    requires Layout(t1, t0, h, all, Folders(h, root))
    ensures RevertRun(t1, locked, h, root) == RunState(t0, [], Pass)
  {
    if h == [] {
      NothingToRevert(t0, h, root, t1, all);
    } else {
      var t2 := MovesBack(t0, locked, h, root, t1, all);
      CleanUpAfterRevert(t0, locked, h, root, t2);
    }
  }

  lemma NothingToRevert(t0: Tree, h: seq<MoveRecord>, root: Path, t1: Tree, all: set<int>)
    requires h == [] && (forall i :: i in all <==> 0 <= i < |h|)
    requires Layout(t1, t0, h, all, Folders(h, root))
    ensures t1 == t0
  {
    assert forall i :: i !in all;
    assert Folders(h, root) == {} && all == {};
    LayoutNoneMoved(t1, t0, h, {});
  }

  /** The moves back all succeed and leave the starting tree plus the needed folders. */
  lemma MovesBack(t0: Tree, locked: set<Path>, h: seq<MoveRecord>, root: Path, t1: Tree, all: set<int>)
    returns (t2: Tree)
    requires Fresh(t0, locked, h, root)
    requires forall i :: i in all <==> 0 <= i < |h|
    requires Layout(t1, t0, h, all, Folders(h, root))
    ensures RevertMoves(t1, locked, h) == (t2, Pass) && Residue(t2, t0, Folders(h, root))
  {
    RevertBack(t0, locked, h, root, t1, all, 0);
    assert h[0..] == h;
    t2 := RevertMoves(t1, locked, h).0;
    FreshTargets(t0, locked, h, root);
    LayoutNoneMoved(t2, t0, h, Folders(h, root));
  }

  /** The clean-up of the tree the moves back leave removes exactly the needed folders. */
  lemma CleanUpAfterRevert(t0: Tree, locked: set<Path>, h: seq<MoveRecord>, root: Path, t2: Tree)
    requires Fresh(t0, locked, h, root)
    requires Residue(t2, t0, Folders(h, root))
    ensures Cleanup(t2, locked, h, root) == t0
  {
    FreshTargets(t0, locked, h, root);
    PrefixFolders(t0, locked, h, root, |h|);
    assert h[..|h|] == h;
    CleanupStarts(t0, h, root);
    WalksClear(t0, locked, root, Distinct(TargetParents(h)), 0, t2, Folders(h, root));
    assert Distinct(TargetParents(h))[0..] == Distinct(TargetParents(h));
  }

  /** A run of `p + q` whose first part `p` runs completely continues as a run of `q` from the
      tree `p` left, its history following `p`'s. */
  lemma {:induction false} RunRecordsAppend(t: Tree, locked: set<Path>, p: seq<MoveRecord>, q: seq<MoveRecord>)
    requires RunRecords(t, locked, p).outcome == Pass && RunRecords(t, locked, p).history == p
    ensures var a := RunRecords(t, locked, p);
            var b := RunRecords(a.tree, locked, q);
            RunRecords(t, locked, p + q) == RunState(b.tree, p + b.history, b.outcome)
    decreases |p|
  {
    if p == [] {
      assert p + q == q;
    } else {
      var t1 := StepOfCompleteRun(t, locked, p);
      AppendParts(p, q);
      RunRecordsStep(t, locked, p + q, t1);
      var rest := RunRecords(t1, locked, p[1..]);
      assert rest.outcome == Pass && rest.history == p[1..];
      RunRecordsAppend(t1, locked, p[1..], q);
      var b := RunRecords(rest.tree, locked, q);
      ConsAppend(p, b.history);
    }
  }

  lemma AppendParts<T>(p: seq<T>, q: seq<T>)
    requires p != []
    ensures p + q != [] && (p + q)[0] == p[0] && (p + q)[1..] == p[1..] + q
  {
  }

  lemma ConsAppend<T>(p: seq<T>, b: seq<T>)
    requires p != []
    ensures [p[0]] + (p[1..] + b) == p + b
  {
  }

  /** The first step of a run that completes succeeds, and the rest runs from where it left. */
  lemma StepOfCompleteRun(t: Tree, locked: set<Path>, p: seq<MoveRecord>) returns (t1: Tree)
    requires p != []
    requires RunRecords(t, locked, p).outcome == Pass && RunRecords(t, locked, p).history == p
    ensures SortStep(t, locked, p[0].source, Folder(p[0])) == (t1, Pass)
    ensures var rest := RunRecords(t1, locked, p[1..]);
            rest.outcome == Pass && rest.history == p[1..] && RunRecords(t, locked, p).tree == rest.tree
  {
    t1 := SortStep(t, locked, p[0].source, Folder(p[0])).0;
    assert p == [p[0]] + p[1..];
  }

  /** A run that fails part-way: when the records before the `k`-th satisfy the hypotheses of
      the round trip and the `k`-th fails before it creates any folder, with nothing yet at its
      target (so no replacing move can have removed an entry there), the run stops with the
      first `k` records in its history, and reverting right after puts every one of those files
      back, removes the folders made for them and gives back exactly the starting tree. */
  lemma FailedRunReverts(t0: Tree, locked: set<Path>, h: seq<MoveRecord>, root: Path, k: nat)
    requires k < |h| && Fresh(t0, locked, h[..k], root)
    requires var tk := RunRecords(t0, locked, h[..k]).tree;
             var (t1, o1) := SortStep(tk, locked, h[k].source, Folder(h[k]));
             o1.Fail? && t1 == tk && h[k].target !in tk
    ensures var run := RunRecords(t0, locked, h);
            && run.outcome.Fail? && run.history == h[..k]
            && RevertRun(run.tree, locked, run.history, root) == RunState(t0, [], Pass)
  {
    SortThenRevertRestores(t0, locked, h[..k], root);
    var tk := RunRecords(t0, locked, h[..k]).tree;
    RunRecordsAppend(t0, locked, h[..k], h[k..]);
    assert h[..k] + h[k..] == h;
    SplitAt(h, k);
    assert RunRecords(tk, locked, h[k..]).history == [];
    assert h[..k] + [] == h[..k];
  }

  /** The same for `runFilter`'s own plan, failing at its `k`-th planned move. */
  lemma FailedSortReverts(t0: Tree, locked: set<Path>, files: seq<Path>, root: Path,
                          meta: Metadata, attrs: seq<string>, k: nat)
    requires var p := Plan(files, root, meta, attrs);
             k < |p| && Fresh(t0, locked, p[..k], root)
    requires var p := Plan(files, root, meta, attrs);
             var tk := RunRecords(t0, locked, p[..k]).tree;
             var (t1, o1) := SortStep(tk, locked, p[k].source, Folder(p[k]));
             o1.Fail? && t1 == tk && p[k].target !in tk
    ensures var run := SortRun(t0, locked, files, root, meta, attrs);
            && run.outcome.Fail? && run.history == Plan(files, root, meta, attrs)[..k]
            && RevertRun(run.tree, locked, run.history, root) == RunState(t0, [], Pass)
  {
    SortRunExecutesPlan(t0, locked, files, root, meta, attrs);
    FailedRunReverts(t0, locked, Plan(files, root, meta, attrs), root, k);
  }

  /** The same for `runFilter` itself: under the hypotheses on its plan, sorting a folder and then
      reverting restores it exactly. */
  lemma SortThenRevertRestoresFolder(t0: Tree, locked: set<Path>, files: seq<Path>, root: Path,
                                     meta: Metadata, attrs: seq<string>)
    requires Fresh(t0, locked, Plan(files, root, meta, attrs), root)
    ensures var run := SortRun(t0, locked, files, root, meta, attrs);
            && run.outcome == Pass && run.history == Plan(files, root, meta, attrs)
            && RevertRun(run.tree, locked, run.history, root) == RunState(t0, [], Pass)
  {
    SortRunExecutesPlan(t0, locked, files, root, meta, attrs);
    SortThenRevertRestores(t0, locked, Plan(files, root, meta, attrs), root);
  }
}
