/**
 * Properties of the planned and performed moves of `RecursiveSorter`: how folder names are
 * derived, what shape a target has, which files a run touches, that the history is always a
 * prefix of the plan, and what a clean-up walk may delete.
 */
module SortProperties {
  import opened Wrappers
  import opened Text
  import opened Seqs
  import opened FileSystem
  import opened SortPlan

  // ---------------------------------------------------------------------------------------------
  // Folder names

  lemma TrimStartSkips(s: string)
    requires s != [] && IsTrimmable(s[0])
    ensures TrimStart(s) == TrimStart(s[1..])
  {
  }

  lemma TrimStartStop(s: string)
    requires s == [] || !IsTrimmable(s[0])
    ensures TrimStart(s) == s
  {
  }

  lemma TrimEndSkips(s: string)
    requires s != [] && IsTrimmable(s[|s| - 1])
    ensures TrimEnd(s) == TrimEnd(s[..|s| - 1])
  {
  }

  lemma TrimEndStop(s: string)
    requires s == [] || !IsTrimmable(s[|s| - 1])
    ensures TrimEnd(s) == s
  {
  }

  /** Neither an unsafe character nor its replacement is trimmable. */
  lemma SanitizeKeepsTrimmable(s: string, i: int)
    requires 0 <= i < |s|
    ensures IsTrimmable(Sanitize(s)[i]) <==> IsTrimmable(s[i])
  {
  }

  lemma {:induction false} TrimStartSanitize(s: string)
    ensures TrimStart(Sanitize(s)) == Sanitize(TrimStart(s))
    decreases |s|
  {
    if s != [] {
      var u := Sanitize(s);
      assert u[1..] == Sanitize(s[1..]);
      SanitizeKeepsTrimmable(s, 0);
      if IsTrimmable(s[0]) {
        TrimStartSkips(u);
        TrimStartSkips(s);
        TrimStartSanitize(s[1..]);
      } else {
        TrimStartStop(u);
        TrimStartStop(s);
      }
    }
  }

  lemma {:induction false} TrimEndSanitize(s: string)
    ensures TrimEnd(Sanitize(s)) == Sanitize(TrimEnd(s))
    decreases |s|
  {
    if s != [] {
      var u := Sanitize(s);
      var init := s[..|s| - 1];
      assert u[..|s| - 1] == Sanitize(init);
      SanitizeKeepsTrimmable(s, |s| - 1);
      if IsTrimmable(s[|s| - 1]) {
        TrimEndSkips(u);
        TrimEndSkips(s);
        TrimEndSanitize(init);
      } else {
        TrimEndStop(u);
        TrimEndStop(s);
      }
    }
  }

  /** Replacing the unsafe characters and trimming commute: none of the nine is trimmed, nor is
      the underscore that replaces them. */
  lemma TrimSanitizeCommute(s: string)
    ensures Trim(Sanitize(s)) == Sanitize(Trim(s))
  {
    TrimStartSanitize(s);
    TrimEndSanitize(TrimStart(s));
  }

  /** A string without slashes is a single name (or none, when empty). */
  lemma ComponentsOfNameWithoutSlash(s: string)
    requires forall i :: 0 <= i < |s| ==> s[i] != '/'
    ensures Components(s) == if s == "" then [] else [s]
  {
    if s != [] {
      NameLengthWithoutSlash(s);
      assert s[..|s|] == s;
    }
  }

  lemma {:induction false} NameLengthWithoutSlash(s: string)
    requires s != [] && forall i :: 0 <= i < |s| ==> s[i] != '/'
    ensures NameLength(s) == |s|
    decreases |s|
  {
    if |s| > 1 {
      assert s[1] != '/';
      NameLengthWithoutSlash(s[1..]);
    }
  }

  /** A level whose value is present and not blank gives at most one folder: the value, trimmed,
      with each of  \ / : * ? " < > |  replaced by '_'.  That folder holds none of the nine. */
  lemma FolderNameOfValue(fileMeta: map<string, string>, attr: string)
    requires attr in fileMeta && !IsBlank(fileMeta[attr])
    ensures FolderName(fileMeta, attr) == Sanitize(Trim(fileMeta[attr]))
    ensures forall i :: 0 <= i < |FolderName(fileMeta, attr)| ==> !IsUnsafe(FolderName(fileMeta, attr)[i])
    ensures Components(FolderName(fileMeta, attr))
            == if FolderName(fileMeta, attr) == "" then [] else [FolderName(fileMeta, attr)]
  {
    var n := FolderName(fileMeta, attr);
    TrimSanitizeCommute(fileMeta[attr]);
    forall i | 0 <= i < |n| ensures n[i] != '/' {
      assert !IsUnsafe(n[i]);
    }
    ComponentsOfNameWithoutSlash(n);
  }

  /** A level whose attribute is missing or blank gives the folder "Unknown_" + the attribute
      name, which is not sanitised: it starts with 'U', so it never restarts from the file-system
      root, and it is one folder exactly when the attribute name holds no slash. */
  lemma FolderNameOfMissing(fileMeta: map<string, string>, attr: string)
    requires attr !in fileMeta || IsBlank(fileMeta[attr])
    ensures FolderName(fileMeta, attr) == "Unknown_" + attr
    ensures '/' !in attr ==> Components(FolderName(fileMeta, attr)) == [FolderName(fileMeta, attr)]
  {
    if '/' !in attr {
      var n := "Unknown_" + attr;
      forall i | 0 <= i < |n| ensures n[i] != '/' {
        if i >= 8 {
          assert n[i] == attr[i - 8];
          assert attr[i - 8] in attr;
        }
      }
      ComponentsOfNameWithoutSlash(n);
    }
  }

  /** A folder name never starts with a slash, so `resolve` never takes it as an absolute path.
      It can still be "." or "..", which the model treats as ordinary folder names. */
  lemma FolderNameIsRelative(fileMeta: map<string, string>, attr: string)
    ensures FolderName(fileMeta, attr) == "" || FolderName(fileMeta, attr)[0] != '/'
  {
    if attr in fileMeta && !IsBlank(fileMeta[attr]) {
      FolderNameOfValue(fileMeta, attr);
      if FolderName(fileMeta, attr) != "" {
        assert !IsUnsafe(FolderName(fileMeta, attr)[0]);
      }
    }
  }

  /** The folder of a file is the root followed by the names of the levels, in level order. */
  lemma {:induction false} TargetDirShape(root: Path, fileMeta: map<string, string>, attrs: seq<string>)
    ensures TargetDir(root, fileMeta, attrs) == root + LevelNames(fileMeta, attrs)
    decreases |attrs|
  {
    if attrs != [] {
      var init := attrs[..|attrs| - 1];
      TargetDirShape(root, fileMeta, init);
      FolderNameIsRelative(fileMeta, attrs[|attrs| - 1]);
      var c := Components(FolderName(fileMeta, attrs[|attrs| - 1]));
      assert TargetDir(root, fileMeta, attrs) == TargetDir(root, fileMeta, init) + c;
      AppendShape(TargetDir(root, fileMeta, attrs), TargetDir(root, fileMeta, init), root,
                  LevelNames(fileMeta, attrs), LevelNames(fileMeta, init), c);
    }
  }

  lemma AppendShape(dir: Path, initDir: Path, root: Path, names: Path, initNames: Path, c: Path)
    requires dir == initDir + c && initDir == root + initNames && names == initNames + c
    ensures dir == root + names
  {
    assert (root + initNames) + c == root + (initNames + c);
  }

  /** When every level yields exactly one folder (a present, non-blank value that does not trim
      away, or a missing one whose attribute name has no slash), the folder path has one name per
      level, the i-th being that level's folder name. */
  lemma {:induction false} OneFolderPerLevel(fileMeta: map<string, string>, attrs: seq<string>)
    requires forall i :: 0 <= i < |attrs| ==> Components(FolderName(fileMeta, attrs[i])) == [FolderName(fileMeta, attrs[i])]
    ensures |LevelNames(fileMeta, attrs)| == |attrs|
    ensures forall i :: 0 <= i < |attrs| ==> LevelNames(fileMeta, attrs)[i] == FolderName(fileMeta, attrs[i])
  {
    LevelNamesAreFolderNames(fileMeta, attrs);
    forall i | 0 <= i < |attrs| ensures LevelNames(fileMeta, attrs)[i] == FolderName(fileMeta, attrs[i]) {
      FolderNameAt(fileMeta, attrs, i);
    }
  }

  /** The folder names of the levels, one per level. */
  function FolderNames(fileMeta: map<string, string>, attrs: seq<string>): (r: Path)
    ensures |r| == |attrs|
  {
    if attrs == [] then [] else FolderNames(fileMeta, attrs[..|attrs| - 1]) + [FolderName(fileMeta, attrs[|attrs| - 1])]
  }

  lemma {:induction false} FolderNameAt(fileMeta: map<string, string>, attrs: seq<string>, i: int)
    requires 0 <= i < |attrs|
    ensures FolderNames(fileMeta, attrs)[i] == FolderName(fileMeta, attrs[i])
    decreases |attrs|
  {
    var init := attrs[..|attrs| - 1];
    if i < |init| {
      FolderNameAt(fileMeta, init, i);
      assert attrs[i] == init[i];
    }
  }

  lemma {:induction false} LevelNamesAreFolderNames(fileMeta: map<string, string>, attrs: seq<string>)
    requires forall i :: 0 <= i < |attrs| ==> Components(FolderName(fileMeta, attrs[i])) == [FolderName(fileMeta, attrs[i])]
    ensures LevelNames(fileMeta, attrs) == FolderNames(fileMeta, attrs)
    decreases |attrs|
  {
    if attrs != [] {
      var init := attrs[..|attrs| - 1];
      forall i | 0 <= i < |init| ensures Components(FolderName(fileMeta, init[i])) == [FolderName(fileMeta, init[i])] {
        assert init[i] == attrs[i];
      }
      LevelNamesAreFolderNames(fileMeta, init);
    }
  }

  /** "AC/DC: Back*?" becomes the folder "AC_DC_ Back__": each unsafe character turns into an
      underscore and the space between them stays. */
  lemma SanitizeExample()
    ensures FolderName(map["Artist" := "AC/DC: Back*?"], "Artist") == "AC_DC_ Back__"
  {
    var v := "AC/DC: Back*?";
    assert !IsWhitespace(v[0]);
    var s := Sanitize(v);
    assert s[0] == 'A' && s[1] == 'C' && s[2] == '_' && s[3] == 'D' && s[4] == 'C';
    assert s[5] == '_' && s[6] == ' ' && s[7] == 'B' && s[8] == 'a';
    assert s[9] == 'c' && s[10] == 'k' && s[11] == '_' && s[12] == '_';
    assert s == "AC_DC_ Back__";
    TrimStartStop(s);
    TrimEndStop(s);
  }

  /** A file without an "Artist" value goes to the folder "Unknown_Artist". */
  lemma MissingAttributeExample()
    ensures FolderName(map["Album" := "Jazz"], "Artist") == "Unknown_Artist"
  {
  }

  /** The fallback is not sanitised: a missing "xmpDM:artist" yields a folder name with a colon. */
  lemma FallbackKeepsUnsafeCharacters()
    ensures ':' in FolderName(map[], "xmpDM:artist")
  {
    assert FolderName(map[], "xmpDM:artist")[13] == ':';
  }

  /** A value of control characters is not blank for `isBlank` yet trims to nothing, so that level
      adds no folder at all. */
  lemma ControlCharacterValueAddsNoFolder()
    ensures Components(FolderName(map["Artist" := [1 as char]], "Artist")) == []
  {
    var v := [1 as char];
    assert !IsWhitespace(v[0]);
    assert !IsBlank(v);
    assert Sanitize(v) == v;
    assert TrimStart(v) == "";
  }

  // ---------------------------------------------------------------------------------------------
  // The plan and the history

  /** Each planned move takes a listed file that has metadata to the folder of its levels under
      the same name; and every listed file that has metadata is planned. */
  lemma {:induction false} PlanCoversFilesWithMetadata(files: seq<Path>, root: Path, meta: Metadata, attrs: seq<string>)
    ensures forall r :: r in Plan(files, root, meta, attrs) ==>
              && r.source in files && Name(r.source) in meta
              && r.target == TargetDir(root, meta[Name(r.source)], attrs) + [Name(r.source)]
    ensures forall f :: f in files && Name(f) in meta ==>
              exists r :: r in Plan(files, root, meta, attrs) && r.source == f
    decreases |files|
  {
    if files != [] {
      PlanCoversFilesWithMetadata(files[1..], root, meta, attrs);
      var p := Plan(files, root, meta, attrs);
      forall f | f in files && Name(f) in meta
        ensures exists r :: r in p && r.source == f
      {
        if f != files[0] {
          assert f in files[1..];
        } else {
          assert p[0].source == f;
        }
      }
    }
  }

  /** No two moves of `h` take the same file. */
  predicate SourcesDistinct(h: seq<MoveRecord>)
  {
    forall i, j :: 0 <= i < j < |h| ==> h[i].source != h[j].source
  }

  /** Distinct listed files give distinct planned sources. */
  lemma {:induction false} PlanSourcesDistinct(files: seq<Path>, root: Path, meta: Metadata, attrs: seq<string>)
    requires NoDuplicates(files)
    ensures SourcesDistinct(Plan(files, root, meta, attrs))
    decreases |files|
  {
    if files != [] {
      var p := Plan(files, root, meta, attrs);
      var rest := Plan(files[1..], root, meta, attrs);
      assert NoDuplicates(files[1..]) by {
        forall i, j | 0 <= i < j < |files[1..]| ensures files[1..][i] != files[1..][j] {
          assert files[1..][i] == files[i + 1] && files[1..][j] == files[j + 1];
        }
      }
      PlanSourcesDistinct(files[1..], root, meta, attrs);
      if Name(files[0]) in meta {
        PlanCoversFilesWithMetadata(files[1..], root, meta, attrs);
        assert files[0] !in files[1..] by {
          forall k | 0 <= k < |files[1..]| ensures files[1..][k] != files[0] {
            assert files[1..][k] == files[k + 1];
          }
        }
        assert p == [p[0]] + rest;
        forall i, j | 0 <= i < j < |p| ensures p[i].source != p[j].source {
          assert p[j] == rest[j - 1] && p[j] in rest;
          if i > 0 {
            assert p[i] == rest[i - 1];
            assert rest[i - 1].source != rest[j - 1].source;
          } else {
            assert p[i].source == files[0];
          }
        }
      } else {
        assert p == rest;
      }
    }
  }

  /** Two children of one folder with the same name are the same path. */
  lemma SameParentSameName(c1: Path, c2: Path, d: Path)
    requires IsChildOf(c1, d) && IsChildOf(c2, d) && Name(c1) == Name(c2)
    ensures c1 == c2
  {
    forall k | 0 <= k < |c1| ensures c1[k] == c2[k] {
      if k < |d| {
        assert c1[k] == d[k] == c2[k];
      }
    }
  }

  lemma PlanRecord(files: seq<Path>, root: Path, meta: Metadata, attrs: seq<string>, i: nat)
    requires i < |Plan(files, root, meta, attrs)|
    ensures var r := Plan(files, root, meta, attrs)[i];
            r.source in files && |r.target| > 0 && r.target[|r.target| - 1] == Name(r.source)
  {
    PlanCoversFilesWithMetadata(files, root, meta, attrs);
    var r := Plan(files, root, meta, attrs)[i];
    assert r in Plan(files, root, meta, attrs);
  }

  /** Files of one folder with distinct paths get distinct targets, since a target ends with the
      file's own name. */
  lemma PlanTargetsDistinct(files: seq<Path>, root: Path, meta: Metadata, attrs: seq<string>)
    requires NoDuplicates(files)
    requires forall f :: f in files ==> IsChildOf(f, root)
    ensures var p := Plan(files, root, meta, attrs);
            forall i, j :: 0 <= i < j < |p| ==> p[i].target != p[j].target
  {
    var p := Plan(files, root, meta, attrs);
    PlanSourcesDistinct(files, root, meta, attrs);
    forall i, j | 0 <= i < j < |p| ensures p[i].target != p[j].target {
      assert p[i].source != p[j].source;
      PlanRecord(files, root, meta, attrs, i);
      PlanRecord(files, root, meta, attrs, j);
      if Name(p[i].source) == Name(p[j].source) {
        SameParentSameName(p[i].source, p[j].source, root);
      }
    }
  }

  /** The history a run leaves is always a prefix of the plan: the moves made, in order, up to the
      first one that threw.  It is the whole plan exactly when the run did not throw. */
  lemma {:induction false} HistoryIsPlanPrefix(t: Tree, locked: set<Path>, files: seq<Path>, root: Path,
                                               meta: Metadata, attrs: seq<string>)
    ensures var r := SortRun(t, locked, files, root, meta, attrs);
            var p := Plan(files, root, meta, attrs);
            r.history <= p && (r.outcome == Pass <==> r.history == p)
    decreases |files|
  {
    if files != [] {
      var f := files[0];
      if Name(f) in meta {
        var dir := TargetDir(root, meta[Name(f)], attrs);
        var (t1, o1) := SortStep(t, locked, f, dir);
        var x := MoveRecord(f, dir + [Name(f)]);
        assert Plan(files, root, meta, attrs) == [x] + Plan(files[1..], root, meta, attrs);
        if o1.Pass? {
          HistoryIsPlanPrefix(t1, locked, files[1..], root, meta, attrs);
          var rest := SortRun(t1, locked, files[1..], root, meta, attrs);
          assert SortRun(t, locked, files, root, meta, attrs) == RunState(rest.tree, [x] + rest.history, rest.outcome);
          ConsPrefix(x, rest.history, Plan(files[1..], root, meta, attrs));
        }
      } else {
        HistoryIsPlanPrefix(t, locked, files[1..], root, meta, attrs);
        assert SortRun(t, locked, files, root, meta, attrs) == SortRun(t, locked, files[1..], root, meta, attrs);
        assert Plan(files, root, meta, attrs) == Plan(files[1..], root, meta, attrs);
      }
    }
  }

  lemma ConsPrefix<T>(x: T, a: seq<T>, b: seq<T>)
    ensures a <= b ==> [x] + a <= [x] + b
    ensures [x] + a == [x] + b <==> a == b
  {
    if [x] + a == [x] + b {
      assert a == ([x] + a)[1..];
    }
  }

  // ---------------------------------------------------------------------------------------------
  // Clean-up

  /** A walk only deletes: entries it keeps are unchanged, and every entry it removes was a
      folder on the way from its start up to (never including) the stop folder. */
  lemma {:induction false} WalkOnlyDeletesFoldersOnItsWay(t: Tree, locked: set<Path>, dir: Option<Path>, stop: Path)
    ensures var r := Walk(t, locked, dir, stop);
            && r.Keys <= t.Keys
            && (forall p :: p in r ==> r[p] == t[p])
            && (forall p :: p in t && p !in r ==> t[p] == Dir && dir.Some? && p <= dir.value && p != stop)
    decreases if dir.Some? then |dir.value| + 1 else 0
  {
    if dir.Some? && dir.value != stop && ListError(t, locked, dir.value).None? && Children(t, dir.value) == {} {
      var d := DeleteEntry(t, locked, dir.value);
      if d.Success? {
        WalkOnlyDeletesFoldersOnItsWay(d.value, locked, Parent(dir.value), stop);
      }
    }
  }

  /** Deleting a file or an empty folder keeps every entry in a folder. */
  lemma DeletePreservesWellFormed(t: Tree, locked: set<Path>, p: Path)
    requires WellFormed(t) && p != [] && DeleteEntry(t, locked, p).Success?
    ensures WellFormed(DeleteEntry(t, locked, p).value)
  {
    var t' := DeleteEntry(t, locked, p).value;
    forall q | q in t' && q != [] ensures IsDirAt(t', q[..|q| - 1]) {
      var up := q[..|q| - 1];
      assert q in Children(t, up);
    }
  }

  lemma {:induction false} PrefixesExist(t: Tree, p: Path, q: Path)
    requires WellFormed(t) && p in t && q <= p
    ensures IsDirAt(t, q) || q == p
    decreases |p|
  {
    if q != p {
      PrefixesExist(t, p[..|p| - 1], q);
    }
  }

  /** In a well-formed tree every folder strictly above an existing entry has a child. */
  lemma FolderAboveIsNotEmpty(t: Tree, d: Path, p: Path)
    requires WellFormed(t) && p in t && d < p
    ensures Children(t, d) != {}
  {
    var c := p[..|d| + 1];
    PrefixesExist(t, p, c);
    assert c in Children(t, d);
  }

  /** A walk in a well-formed tree keeps it well-formed and never deletes the stop folder or any
      folder above it. */
  lemma {:induction false} WalkSparesStopAndAbove(t: Tree, locked: set<Path>, dir: Option<Path>, stop: Path)
    requires WellFormed(t) && stop in t
    ensures var r := Walk(t, locked, dir, stop);
            WellFormed(r) && stop in r && forall p :: p <= stop && p in t ==> p in r
    decreases if dir.Some? then |dir.value| + 1 else 0
  {
    if dir.Some? && dir.value != stop && ListError(t, locked, dir.value).None? && Children(t, dir.value) == {} {
      var d := DeleteEntry(t, locked, dir.value);
      if d.Success? {
        DeleteSparesStopAndAbove(t, locked, dir.value, stop);
        WalkSparesStopAndAbove(d.value, locked, Parent(dir.value), stop);
        assert Walk(t, locked, dir, stop) == Walk(d.value, locked, Parent(dir.value), stop);
      }
    }
  }

  /** One deletion of a walk keeps the tree well-formed and spares the stop folder and the
      folders above it. */
  lemma DeleteSparesStopAndAbove(t: Tree, locked: set<Path>, d: Path, stop: Path)
    requires WellFormed(t) && stop in t && d != stop && Children(t, d) == {}
    requires DeleteEntry(t, locked, d).Success?
    ensures var t1 := DeleteEntry(t, locked, d).value;
            WellFormed(t1) && stop in t1 && forall p :: p <= stop && p in t ==> p in t1
  {
    if d < stop {
      FolderAboveIsNotEmpty(t, d, stop);
    }
    DeletePreservesWellFormed(t, locked, d);
    forall p | p <= stop && p in t ensures p != d {
      if p == d {
        FolderAboveIsNotEmpty(t, d, stop);
      }
    }
  }

  /** The clean-up of a well-formed tree never deletes the selected folder or anything above it,
      only ever deletes folders, and changes nothing it keeps. */
  lemma {:induction false} WalksSpareStopAndAbove(t: Tree, locked: set<Path>, dirs: seq<Option<Path>>, stop: Path)
    requires WellFormed(t) && stop in t
    ensures var r := Walks(t, locked, dirs, stop);
            && WellFormed(r) && (forall p :: p <= stop && p in t ==> p in r)
            && r.Keys <= t.Keys && (forall p :: p in r ==> r[p] == t[p])
            && (forall p :: p in t && p !in r ==> t[p] == Dir)
    decreases |dirs|
  {
    if dirs != [] {
      var t1 := Walk(t, locked, dirs[0], stop);
      WalkSparesStopAndAbove(t, locked, dirs[0], stop);
      WalkOnlyDeletesFoldersOnItsWay(t, locked, dirs[0], stop);
      WalksSpareStopAndAbove(t1, locked, dirs[1..], stop);
    }
  }
}
