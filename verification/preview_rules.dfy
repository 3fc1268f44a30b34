/**
 * The rules of the options page's preview that differ from the sort's: how the filter text becomes
 * extensions and how a file is matched against them, and the folder name shown for each level.
 */
module PreviewRules {
  import opened Wrappers
  import opened Text
  import opened SortPlan

  // ---------------------------------------------------------------------------------------------
  // The preview's extension filter

  /** The extensions the preview filters by: the field's text lower-cased and trimmed; none if that
      is empty, otherwise its fields as `split("[, ]+")` gives them. */
  function ParseExtensions(text: string): (r: seq<string>)
    ensures Trim(Lower(text)) == [] ==> r == []
    ensures IsSeparatorRun(Trim(Lower(text))) ==> r == []
    ensures forall i :: 0 <= i < |r| ==> Unbroken(r[i]) && IsLowerCase(r[i])
    ensures forall i :: 0 < i < |r| ==> r[i] != []
  {
    var filter := Trim(Lower(text));
    FieldsAreLowerCase(text);
    if filter == [] then [] else SplitFields(filter)
  }

  lemma FieldsAreLowerCase(text: string)
    ensures forall i :: 0 <= i < |SplitFields(Trim(Lower(text)))| ==> IsLowerCase(SplitFields(Trim(Lower(text)))[i])
  {
    var filter := Trim(Lower(text));
    LowerIsLowerCase(text);
    TrimKeepsCharacters(Lower(text));
    var r := SplitFields(filter);
    forall i | 0 <= i < |r| ensures IsLowerCase(r[i]) {
      forall c | c in r[i] ensures LowerChar(c) == c {
        assert c in filter;
      }
    }
  }

  /** The parsed extensions, put back together, are the trimmed lower-cased text without its
      commas and spaces: splitting loses nothing else. */
  lemma ParseKeepsText(text: string)
    ensures Concat(ParseExtensions(text)) == Unseparated(Trim(Lower(text)))
  {
    if Trim(Lower(text)) != [] {
      SplitKeepsText(Trim(Lower(text)));
    }
  }

  /** The extensions are the fields between the separator runs of the trimmed, lower-cased
      text: a text built from fields and runs of commas and spaces parses into those fields. */
  lemma ParseExtensionsOfInterleave(text: string, fields: seq<string>, gaps: seq<string>)
    requires SplitsAs(fields, gaps) && Trim(Lower(text)) == Interleave(fields, gaps)
    requires Trim(Lower(text)) != []
    ensures ParseExtensions(text) == fields
  {
    SplitFieldsOfInterleave(fields, gaps);
  }

  /** An extension with the leading dot the preview adds when it is missing. */
  function Dotted(ext: string): string
  {
    if StartsWith(ext, ".") then ext else "." + ext
  }

  /** The preview keeps a file when there are no extensions or its lower-cased name ends with
      one of them, dotted. */
  predicate PreviewPasses(fileName: string, exts: seq<string>)
  {
    exts == [] || exists e :: e in exts && EndsWith(Lower(fileName), Dotted(e))
  }

  /** The matching loop of `updatePreview` over the lower-cased file name, which stops at the
      first extension that matches. */
  method MatchesAny(name: string, exts: seq<string>) returns (matches: bool)
    ensures matches <==> exists e :: e in exts && EndsWith(name, Dotted(e))
  {
    matches := false;
    var i := 0;
    while i < |exts|
      invariant 0 <= i <= |exts|
      invariant forall k :: 0 <= k < i ==> !EndsWith(name, Dotted(exts[k]))
    {
      if EndsWith(name, Dotted(exts[i])) {
        assert exts[i] in exts;
        matches := true;
        return;
      }
      i := i + 1;
    }
    forall e | e in exts ensures !EndsWith(name, Dotted(e)) {
      var k :| 0 <= k < |exts| && exts[k] == e;
    }
  }

  function DottedAll(exts: seq<string>): (r: seq<string>)
    ensures |r| == |exts| && forall i :: 0 <= i < |exts| ==> r[i] == Dotted(exts[i])
  {
    seq(|exts|, i requires 0 <= i < |exts| => Dotted(exts[i]))
  }

  /** The preview's filter is the sort's filter given the dotted fields of the text, not the text
      itself: the two rules agree only once the text is split and dotted. */
  lemma PreviewFilterIsSortFilterOfFields(fileName: string, text: string)
    ensures PreviewPasses(fileName, ParseExtensions(text))
            <==> PassesExtensionFilter(fileName, Some(DottedAll(ParseExtensions(text))))
  {
    DottedFilter(fileName, ParseExtensions(text));
  }

  lemma DottedFilter(fileName: string, exts: seq<string>)
    requires forall i :: 0 <= i < |exts| ==> IsLowerCase(exts[i])
    ensures PreviewPasses(fileName, exts) <==> PassesExtensionFilter(fileName, Some(DottedAll(exts)))
  {
    var dotted := DottedAll(exts);
    var name := Lower(fileName);
    forall i | 0 <= i < |exts| ensures Lower(dotted[i]) == Dotted(exts[i]) {
      DottedStaysLowerCase(exts[i]);
    }
    if exts != [] {
      DottedMatch(name, exts, dotted);
    }
  }

  lemma DottedMatch(name: string, exts: seq<string>, dotted: seq<string>)
    requires |dotted| == |exts|
    requires forall i :: 0 <= i < |exts| ==> dotted[i] == Dotted(exts[i]) && Lower(dotted[i]) == Dotted(exts[i])
    ensures (exists e :: e in exts && EndsWith(name, Dotted(e))) <==> (exists d :: d in dotted && EndsWith(name, Lower(d)))
  {
    if exists e :: e in exts && EndsWith(name, Dotted(e)) {
      var e :| e in exts && EndsWith(name, Dotted(e));
      var i :| 0 <= i < |exts| && exts[i] == e;
      assert dotted[i] in dotted;
    }
    if exists d :: d in dotted && EndsWith(name, Lower(d)) {
      var d :| d in dotted && EndsWith(name, Lower(d));
      var i :| 0 <= i < |dotted| && dotted[i] == d;
      assert exts[i] in exts;
    }
  }

  lemma DottedStaysLowerCase(e: string)
    requires IsLowerCase(e)
    ensures Lower(Dotted(e)) == Dotted(e)
  {
    assert IsLowerCase(Dotted(e)) by {
      forall c | c in Dotted(e) ensures LowerChar(c) == c {
        if c !in e {
          assert c == '.';
        }
      }
    }
    LowerOfLowerCase(Dotted(e));
  }

  /** The sort itself gets the whole field text as one extension, unsplit and undotted. */
  lemma SortFilterTakesRawText(fileName: string, text: string)
    ensures PassesExtensionFilter(fileName, Some([text])) <==> EndsWith(Lower(fileName), Lower(text))
  {
    assert text in [text];
  }

  /** So the two filters disagree: the list "a,b" keeps "x.b" in the preview but not in the sort,
      and "b" keeps "xb" in the sort but not in the preview. */
  lemma PreviewAndSortFiltersDisagree()
    ensures PreviewPasses("x.b", ParseExtensions("a,b"))
    ensures !PassesExtensionFilter("x.b", Some(["a,b"]))
    ensures PassesExtensionFilter("xb", Some(["b"]))
    ensures !PreviewPasses("xb", ParseExtensions("b"))
  {
    ListPreviewSide();
    ListSortSide();
    DotSortSide();
    DotPreviewSide();
  }

  lemma ListPreviewSide()
    ensures PreviewPasses("x.b", ParseExtensions("a,b"))
  {
    FieldsOfList();
    LowerOfName("x.b");
    DottedB();
    assert EndsWith("x.b", ".b");
    assert "b" in ["a", "b"];
  }

  lemma ListSortSide()
    ensures !PassesExtensionFilter("x.b", Some(["a,b"]))
  {
    LowerOfName("x.b");
    ListLowered();
    assert !EndsWith("x.b", "a,b");
    SortFilterTakesRawText("x.b", "a,b");
  }

  lemma DotSortSide()
    ensures PassesExtensionFilter("xb", Some(["b"]))
  {
    LowerOfName("xb");
    LowerOfName("b");
    assert EndsWith("xb", "b");
    SortFilterTakesRawText("xb", "b");
  }

  lemma DotPreviewSide()
    ensures !PreviewPasses("xb", ParseExtensions("b"))
  {
    FieldsOfOne();
    LowerOfName("xb");
    DottedB();
    assert !EndsWith("xb", ".b");
    PassesOne("xb", "b");
  }

  /** With a single extension the preview's test is that one suffix test. */
  lemma PassesOne(fileName: string, e: string)
    ensures PreviewPasses(fileName, [e]) <==> EndsWith(Lower(fileName), Dotted(e))
  {
    assert e in [e];
  }

  lemma DottedB()
    ensures Dotted("b") == ".b"
  {
    assert "b"[0] != "."[0];
  }

  /** The names of the examples have no upper-case letter. */
  lemma LowerOfName(s: string)
    requires s == "x.b" || s == "xb" || s == "b"
    ensures Lower(s) == s
  {
    LiteralLower(s);
  }

  lemma LiteralLower(s: string)
    requires IsLowerCase(s)
    ensures Lower(s) == s
  {
    LowerOfLowerCase(s);
  }

  lemma FieldsOfList()
    ensures ParseExtensions("a,b") == ["a", "b"]
  {
    ListLowered();
    ListTrimmed();
    ParsedAs("a,b");
    ListSplit();
  }

  /** Once the text is known to be lower-case and trimmed, parsing is splitting it. */
  lemma ParsedAs(text: string)
    requires Lower(text) == text && Trim(text) == text && text != []
    ensures ParseExtensions(text) == SplitFields(text)
  {
  }

  lemma ListSplit()
    ensures SplitFields("a,b") == ["a", "b"]
  {
    assert SeparatorAt("a,b") == 1;
    ListPieces();
    assert DropTrailingEmpty(["a", "b"]) == ["a", "b"];
  }

  lemma ListLowered()
    ensures Lower("a,b") == "a,b"
  {
    LiteralLower("a,b");
  }

  lemma ListTrimmed()
    ensures Trim("a,b") == "a,b"
  {
    assert TrimStart("a,b") == "a,b";
    assert TrimEnd("a,b") == "a,b";
  }

  lemma FieldsOfOne()
    ensures ParseExtensions("b") == ["b"]
  {
    LowerOfName("b");
    OneTrimmed();
    ParsedAs("b");
    OneSplit();
  }

  lemma OneTrimmed()
    ensures Trim("b") == "b"
  {
    assert TrimStart("b") == "b";
    assert TrimEnd("b") == "b";
  }

  lemma OneSplit()
    ensures SplitFields("b") == ["b"]
  {
    assert SeparatorAt("b") == 1;
  }

  lemma ListPieces()
    ensures Pieces("a,b") == ["a", "b"]
  {
    assert SeparatorAt("a,b") == 1 && SeparatorRun(",b") == 1;
    assert "a,b"[1..] == ",b" && ",b"[1..] == "b" && "a,b"[..1] == "a";
    assert SeparatorAt("b") == 1;
    assert Pieces("b") == ["b"];
  }

  // ---------------------------------------------------------------------------------------------
  // Preview folder names

  /** The folder name the preview shows for one level: the value, or "Unknown" when the attribute
      is absent, with the unsafe characters replaced; nothing is trimmed and a blank value stays. */
  function PreviewFolderName(fileMeta: map<string, string>, attr: string): (r: string)
    ensures forall i :: 0 <= i < |r| ==> !IsUnsafe(r[i])
    ensures attr !in fileMeta ==> r == "Unknown"
    ensures attr in fileMeta ==> |r| == |fileMeta[attr]|
    ensures attr in fileMeta ==> forall i :: 0 <= i < |r| ==>
      r[i] == if IsUnsafe(fileMeta[attr][i]) then '_' else fileMeta[attr][i]
  {
    Sanitize(if attr in fileMeta then fileMeta[attr] else "Unknown")
  }

  /** The folder names of one file, level by level. */
  function PreviewSegments(fileMeta: map<string, string>, levels: seq<string>): (r: seq<string>)
    ensures |r| == |levels| && forall i :: 0 <= i < |levels| ==> r[i] == PreviewFolderName(fileMeta, levels[i])
  {
    seq(|levels|, i requires 0 <= i < |levels| => PreviewFolderName(fileMeta, levels[i]))
  }

  /** The inner loop of `updatePreview`: one folder name per level, in level order. */
  method PreviewFolderNames(fileMeta: map<string, string>, levels: seq<string>) returns (segs: seq<string>)
    ensures segs == PreviewSegments(fileMeta, levels)
  {
    segs := [];
    for i := 0 to |levels|
      invariant segs == PreviewSegments(fileMeta, levels[..i])
    {
      var folderName := Sanitize(if levels[i] in fileMeta then fileMeta[levels[i]] else "Unknown");
      segs := segs + [folderName];
    }
    assert levels[..|levels|] == levels;
  }

  /** The preview's folder names differ from the sort's: an absent attribute gives "Unknown"
      rather than "Unknown_" and the attribute, a blank value stays blank, and surrounding spaces
      are kept. */
  lemma PreviewAndSortNamesDiffer()
    ensures PreviewFolderName(map[], "Artist") == "Unknown"
    ensures FolderName(map[], "Artist") == "Unknown_Artist"
    ensures PreviewFolderName(map["Artist" := " "], "Artist") == " "
    ensures FolderName(map["Artist" := " "], "Artist") == "Unknown_Artist"
    ensures PreviewFolderName(map["Artist" := " A/C"], "Artist") == " A_C"
    ensures FolderName(map["Artist" := " A/C"], "Artist") == "A_C"
  {
    AbsentNames();
    BlankNames();
    PaddedNames();
  }

  lemma AbsentNames()
    ensures PreviewFolderName(map[], "Artist") == "Unknown"
    ensures FolderName(map[], "Artist") == "Unknown_Artist"
  {
  }

  lemma BlankNames()
    ensures PreviewFolderName(map["Artist" := " "], "Artist") == " "
    ensures FolderName(map["Artist" := " "], "Artist") == "Unknown_Artist"
  {
    assert IsBlank(" ") by { assert IsWhitespace(' '); }
  }

  lemma PaddedNames()
    ensures PreviewFolderName(map["Artist" := " A/C"], "Artist") == " A_C"
    ensures FolderName(map["Artist" := " A/C"], "Artist") == "A_C"
  {
    PaddedSanitized();
    PaddedTrimmed();
    assert !IsBlank(" A/C") by { assert !IsWhitespace(" A/C"[1]); }
  }

  lemma PaddedSanitized()
    ensures Sanitize(" A/C") == " A_C"
  {
  }

  lemma PaddedTrimmed()
    ensures Trim(" A_C") == "A_C"
  {
    assert TrimStart(" A_C") == "A_C" by {
      assert " A_C"[1..] == "A_C";
    }
    assert TrimEnd("A_C") == "A_C";
  }
}
