/**
 * The few java.lang.String operations the sorter relies on, over `seq<char>`:
 * `isBlank`, `trim`, `toLowerCase` (ASCII only), `startsWith`, `endsWith`, the
 * `replaceAll("[\\\\/:*?\"<>|]", "_")` sanitisation and the `split("[, ]+")` of the preview filter.
 */
module Text {

  /** `Character.isWhitespace`: the separators of Unicode categories Zs, Zl and Zp except the
      non-breaking ones, plus the ASCII controls TAB, LF, VT, FF, CR and FS, GS, RS, US. */
  predicate IsWhitespace(c: char)
  {
    var n := c as int;
    (0x09 <= n <= 0x0D) || (0x1C <= n <= 0x20) || n == 0x1680
    || (0x2000 <= n <= 0x2006) || (0x2008 <= n <= 0x200A)
    || n == 0x2028 || n == 0x2029 || n == 0x205F || n == 0x3000
  }

  /** `String.isBlank`: empty, or whitespace only. */
  predicate IsBlank(s: string)
  {
    forall i :: 0 <= i < |s| ==> IsWhitespace(s[i])
  }

  /** The characters `String.trim` strips: every code point up to and including U+0020. */
  predicate IsTrimmable(c: char)
  {
    c as int <= 0x20
  }

  function TrimStart(s: string): (r: string)
    ensures |r| <= |s| && r == s[|s| - |r|..]
    ensures r == [] || !IsTrimmable(r[0])
    ensures forall i :: 0 <= i < |s| - |r| ==> IsTrimmable(s[i])
  {
    if s != [] && IsTrimmable(s[0]) then
      var r := TrimStart(s[1..]);
      TrimStartStep(s, s[1..], r);
      r
    else s
  }

  lemma TrimStartStep(s: string, t: string, r: string)
    requires s != [] && IsTrimmable(s[0]) && t == s[1..]
    requires |r| <= |t| && r == t[|t| - |r|..]
    requires forall i :: 0 <= i < |t| - |r| ==> IsTrimmable(t[i])
    ensures r == s[|s| - |r|..]
    ensures forall i :: 0 <= i < |s| - |r| ==> IsTrimmable(s[i])
  {
    forall i | 1 <= i < |s| - |r| ensures IsTrimmable(s[i]) {
      assert s[i] == t[i - 1];
    }
  }

  function TrimEnd(s: string): (r: string)
    ensures |r| <= |s| && r == s[..|r|]
    ensures r == [] || !IsTrimmable(r[|r| - 1])
    ensures forall i :: |r| <= i < |s| ==> IsTrimmable(s[i])
  {
    if s != [] && IsTrimmable(s[|s| - 1]) then
      var r := TrimEnd(s[..|s| - 1]);
      TrimEndStep(s, s[..|s| - 1], r);
      r
    else s
  }

  lemma TrimEndStep(s: string, t: string, r: string)
    requires s != [] && IsTrimmable(s[|s| - 1]) && t == s[..|s| - 1]
    requires |r| <= |t| && r == t[..|r|]
    requires forall i :: |r| <= i < |t| ==> IsTrimmable(t[i])
    ensures r == s[..|r|]
    ensures forall i :: |r| <= i < |s| ==> IsTrimmable(s[i])
  {
    forall i | |r| <= i < |t| ensures IsTrimmable(s[i]) {
      assert s[i] == t[i];
    }
  }

  /** `r` is a middle slice of `s` with only characters up to U+0020 cut off on either side. */
  predicate IsTrimmedSlice(s: string, r: string)
  {
    exists a, b :: 0 <= a <= b <= |s| && r == s[a..b]
                   && (forall i :: 0 <= i < a ==> IsTrimmable(s[i]))
                   && (forall i :: b <= i < |s| ==> IsTrimmable(s[i]))
  }

  /** `String.trim`: the longest middle slice of `s` that neither starts nor ends with a
      character up to U+0020. */
  function Trim(s: string): (r: string)
    ensures IsTrimmedSlice(s, r)
    ensures r == [] || (!IsTrimmable(r[0]) && !IsTrimmable(r[|r| - 1]))
  {
    TrimIsSlice(s);
    TrimEnd(TrimStart(s))
  }

  lemma TrimIsSlice(s: string)
    ensures var r := TrimEnd(TrimStart(s));
            IsTrimmedSlice(s, r) && (r == [] || (!IsTrimmable(r[0]) && !IsTrimmable(r[|r| - 1])))
  {
    var t := TrimStart(s);
    var r := TrimEnd(t);
    var a, b := |s| - |t|, |s| - |t| + |r|;
    SliceOfSuffix(s, a, |r|);
    TrimmedTail(s, t, r);
    assert r == s[a..b];
    assert r == [] || r[0] == t[0];
  }

  lemma TrimmedTail(s: string, t: string, r: string)
    requires |r| <= |t| <= |s| && t == s[|s| - |t|..] && r == t[..|r|]
    requires forall i :: |r| <= i < |t| ==> IsTrimmable(t[i])
    ensures forall i :: |s| - |t| + |r| <= i < |s| ==> IsTrimmable(s[i])
  {
    forall i | |s| - |t| + |r| <= i < |s| ensures IsTrimmable(s[i]) {
      assert s[i] == t[i - (|s| - |t|)];
    }
  }

  lemma SliceOfSuffix(s: string, a: int, k: int)
    requires 0 <= a && a + k <= |s| && 0 <= k
    ensures s[a..][..k] == s[a..a + k]
  {
  }

  /** ASCII lower-casing of one character. */
  function LowerChar(c: char): char
  {
    if 'A' <= c <= 'Z' then (c as int + 32) as char else c
  }

  /** `String.toLowerCase`, restricted to ASCII letters. */
  function Lower(s: string): (r: string)
    ensures |r| == |s|
    ensures forall i :: 0 <= i < |s| ==> r[i] == LowerChar(s[i])
  {
    if s == [] then [] else [LowerChar(s[0])] + Lower(s[1..])
  }

  /** `String.startsWith`. */
  predicate StartsWith(s: string, prefix: string)
  {
    prefix <= s
  }

  /** `String.endsWith`. */
  predicate EndsWith(s: string, suffix: string)
  {
    |suffix| <= |s| && s[|s| - |suffix|..] == suffix
  }

  /** The nine characters the sorter treats as unsafe in a folder name:  \ / : * ? " < > |  */
  predicate IsUnsafe(c: char)
  {
    c == '\\' || c == '/' || c == ':' || c == '*' || c == '?' || c == '"' || c == '<' || c == '>' || c == '|'
  }

  /** `replaceAll("[\\\\/:*?\"<>|]", "_")`: each unsafe character becomes an underscore, every other
      character stays where it is. */
  function Sanitize(s: string): (r: string)
    ensures |r| == |s|
    ensures forall i :: 0 <= i < |s| ==> r[i] == if IsUnsafe(s[i]) then '_' else s[i]
    ensures forall i :: 0 <= i < |r| ==> !IsUnsafe(r[i])
  {
    seq(|s|, i requires 0 <= i < |s| => if IsUnsafe(s[i]) then '_' else s[i])
  }

  /** An ASCII letter-free or lower-case string: lower-casing leaves it as it is. */
  predicate IsLowerCase(s: string)
  {
    forall c :: c in s ==> LowerChar(c) == c
  }

  lemma LowerIsLowerCase(s: string)
    ensures IsLowerCase(Lower(s))
  {
    forall c | c in Lower(s) ensures LowerChar(c) == c {
      var i :| 0 <= i < |s| && Lower(s)[i] == c;
    }
  }

  lemma LowerOfLowerCase(s: string)
    requires IsLowerCase(s)
    ensures Lower(s) == s
  {
    forall i | 0 <= i < |s| ensures Lower(s)[i] == s[i] {
      assert s[i] in s;
    }
  }

  /** Trimming keeps only characters of its argument. */
  lemma TrimKeepsCharacters(s: string)
    ensures forall c :: c in Trim(s) ==> c in s
  {
    var r := Trim(s);
    assert IsTrimmedSlice(s, r);
    var a, b :| 0 <= a <= b <= |s| && r == s[a..b];
    SliceKeepsCharacters(s, a, b);
  }

  lemma SliceKeepsCharacters(s: string, a: nat, b: nat)
    requires a <= b <= |s|
    ensures forall c :: c in s[a..b] ==> c in s
  {
    forall c | c in s[a..b] ensures c in s {
      var i :| 0 <= i < b - a && s[a..b][i] == c;
      assert s[a + i] == c;
    }
  }

  // ---------------------------------------------------------------------------------------------
  // `split("[, ]+")`

  /** The characters of the character class `[, ]`. */
  predicate IsFieldSeparator(c: char)
  {
    c == ',' || c == ' '
  }

  /** No separator occurs in `w`. */
  predicate Unbroken(w: string)
  {
    forall c :: c in w ==> !IsFieldSeparator(c)
  }

  /** Where the first separator of `s` is, or |s| if there is none. */
  function SeparatorAt(s: string): (i: nat)
    ensures i <= |s|
    ensures i < |s| ==> IsFieldSeparator(s[i])
  {
    if s == [] || IsFieldSeparator(s[0]) then 0 else 1 + SeparatorAt(s[1..])
  }

  /** No separator comes before the first one.  (Kept out of `SeparatorAt`'s contract: there,
      together with the slices of the text, it makes every proof about `Pieces` expensive.) */
  lemma {:induction false} SeparatorAtSkips(s: string)
    ensures forall k :: 0 <= k < SeparatorAt(s) ==> !IsFieldSeparator(s[k])
    decreases |s|
  {
    if s != [] && !IsFieldSeparator(s[0]) {
      SeparatorAtSkips(s[1..]);
      forall k | 0 < k < SeparatorAt(s) ensures !IsFieldSeparator(s[k]) {
        assert s[k] == s[1..][k - 1];
      }
    }
  }

  /** How long the run of separators at the front of `s` is. */
  function SeparatorRun(s: string): (n: nat)
    ensures n <= |s|
    ensures n < |s| ==> !IsFieldSeparator(s[n])
  {
    if s != [] && IsFieldSeparator(s[0]) then 1 + SeparatorRun(s[1..]) else 0
  }

  /** Every character of the run is a separator. */
  lemma {:induction false} SeparatorRunCovers(s: string)
    ensures forall k :: 0 <= k < SeparatorRun(s) ==> IsFieldSeparator(s[k])
    decreases |s|
  {
    if s != [] && IsFieldSeparator(s[0]) {
      SeparatorRunCovers(s[1..]);
      forall k | 0 < k < SeparatorRun(s) ensures IsFieldSeparator(s[k]) {
        assert s[k] == s[1..][k - 1];
      }
    }
  }

  /** The pieces of `s` between maximal runs of separators, the empty ones included: a leading
      run gives a leading "", a trailing run a trailing "". */
  function Pieces(s: string): (r: seq<string>)
    ensures r != []
    ensures s == [] ==> r == [""]
    decreases |s|
  {
    var i := SeparatorAt(s);
    if i == |s| then [s]
    else
      var n := SeparatorRun(s[i..]);
      assert n > 0;
      [s[..i]] + Pieces(s[i + n..])
  }

  /** Every piece is free of separators and made of the characters of `s`, only the first and
      the last can be empty, and the first is not when `s` starts with a character that is not a
      separator; an empty text has the one empty piece. */
  predicate PiecesShaped(r: seq<string>, s: string)
  {
    && r != []
    && (s == [] ==> r == [""])
    && (s != [] && !IsFieldSeparator(s[0]) ==> r[0] != [])
    && (forall i :: 0 <= i < |r| ==> Unbroken(r[i]))
    && (forall i :: 0 < i < |r| - 1 ==> r[i] != [])
    && (forall i, c :: 0 <= i < |r| && c in r[i] ==> c in s)
  }

  /** The pieces have that shape.  (Kept out of `Pieces`' contract for the same reason as above.) */
  lemma {:induction false} PiecesShape(s: string)
    ensures PiecesShaped(Pieces(s), s)
    decreases |s|
  {
    var i := SeparatorAt(s);
    SeparatorAtSkips(s);
    if i == |s| {
      assert Unbroken(s) by { forall c | c in s ensures !IsFieldSeparator(c) { var k :| 0 <= k < |s| && s[k] == c; } }
      assert Pieces(s) == [s];
    } else {
      var j := PiecesAtFirstRun(s);
      PiecesShape(s[j..]);
      ShapedCons(s[..i], Pieces(s[j..]), s, s[j..]);
    }
  }

  /** A separator-free piece put in front of the pieces of the rest keeps the shape. */
  lemma ShapedCons(w: string, t: seq<string>, s: string, u: string)
    requires PiecesShaped(t, u) && Unbroken(w) && s != []
    requires !IsFieldSeparator(s[0]) ==> w != []
    requires u != [] ==> !IsFieldSeparator(u[0])
    requires forall c :: c in w ==> c in s
    requires forall c :: c in u ==> c in s
    ensures PiecesShaped([w] + t, s)
  {
    var r := [w] + t;
    forall m | 0 < m < |r| ensures r[m] == t[m - 1] { }
    if 2 < |r| {
      assert u != [];
    }
  }

  lemma PiecesStep(s: string, i: nat, j: nat)
    requires i < j <= |s|
    requires forall k :: 0 <= k < i ==> !IsFieldSeparator(s[k])
    requires j < |s| ==> !IsFieldSeparator(s[j])
    ensures Unbroken(s[..i])
    ensures s[j..] != [] ==> !IsFieldSeparator(s[j..][0])
    ensures forall c :: c in s[..i] ==> c in s
    ensures forall c :: c in s[j..] ==> c in s
  {
    forall c | c in s[..i] ensures !IsFieldSeparator(c) {
      var k :| 0 <= k < i && s[..i][k] == c;
      assert s[k] == c;
    }
  }

  /** `Pattern.split` with limit 0: no match gives the whole input as the only field; otherwise
      the pieces, with the empty ones at the end removed. */
  function SplitFields(s: string): (r: seq<string>)
    ensures forall i :: 0 <= i < |r| ==> Unbroken(r[i])
    ensures forall i :: 0 < i < |r| ==> r[i] != []
    ensures forall i, c :: 0 <= i < |r| && c in r[i] ==> c in s
    ensures s != [] && IsSeparatorRun(s) ==> r == []
  {
    SeparatorsOnly(s);
    SeparatorAtSkips(s);
    if SeparatorAt(s) == |s| then
      assert Unbroken(s) by { forall c | c in s ensures !IsFieldSeparator(c) { var k :| 0 <= k < |s| && s[k] == c; } }
      [s]
    else
      DroppedPieces(s);
      DropTrailingEmpty(Pieces(s))
  }

  /** A text of commas and spaces only breaks before its first character, and its pieces are two
      empty ones, both dropped. */
  lemma SeparatorsOnly(s: string)
    ensures s != [] && IsSeparatorRun(s) ==> SeparatorAt(s) == 0 && DropTrailingEmpty(Pieces(s)) == []
  {
    if s != [] && IsSeparatorRun(s) {
      SeparatorAtIs(s, 0);
      assert s[0..] == s;
      SeparatorRunIs(s, |s|);
      assert s[..0] == [] && s[|s|..] == [];
      assert Pieces(s) == [""] + Pieces([]);
      assert DropTrailingEmpty([""]) == DropTrailingEmpty([]);
    }
  }

  lemma DroppedPieces(s: string)
    ensures var d := DropTrailingEmpty(Pieces(s));
            && (forall i :: 0 <= i < |d| ==> Unbroken(d[i]))
            && (forall i :: 0 < i < |d| ==> d[i] != [])
            && (forall i, c :: 0 <= i < |d| && c in d[i] ==> c in s)
  {
    var r := Pieces(s);
    var d := DropTrailingEmpty(r);
    PiecesShape(s);
    forall i | 0 <= i < |d|
      ensures Unbroken(d[i]) && (0 < i ==> d[i] != [])
    {
      assert d[i] == r[i];
    }
    forall i, c | 0 <= i < |d| && c in d[i]
      ensures c in s
    {
      assert d[i] == r[i];
    }
  }

  /** `r` without the empty strings at its end. */
  function DropTrailingEmpty(r: seq<string>): (d: seq<string>)
    ensures |d| <= |r| && d == r[..|d|]
    ensures d == [] || d[|d| - 1] != []
    ensures forall i :: |d| <= i < |r| ==> r[i] == []
  {
    if r != [] && r[|r| - 1] == [] then DropTrailingEmpty(r[..|r| - 1]) else r
  }

  /** The characters of `s` that are not separators, in order. */
  function Unseparated(s: string): string
  {
    if s == [] then [] else (if IsFieldSeparator(s[0]) then [] else [s[0]]) + Unseparated(s[1..])
  }

  /** The fields written one after the other. */
  function Concat(r: seq<string>): string
  {
    if r == [] then [] else r[0] + Concat(r[1..])
  }

  /** Splitting loses exactly the separators: the fields, put back together, are the text with
      its commas and spaces taken out. */
  lemma SplitKeepsText(s: string)
    ensures Concat(SplitFields(s)) == Unseparated(s)
  {
    SeparatorAtSkips(s);
    if SeparatorAt(s) == |s| {
      UnseparatedOfUnbroken(s);
      assert Concat([s]) == s + Concat([]);
    } else {
      PiecesKeepText(s);
      DropKeepsText(Pieces(s));
    }
  }

  /** `s` is made of separators only. */
  predicate IsSeparatorRun(g: string)
  {
    forall k :: 0 <= k < |g| ==> IsFieldSeparator(g[k])
  }

  /** The fields written with the separator run after each: `w0 + g0 + w1 + g1 + ...`. */
  function Interleave(fields: seq<string>, gaps: seq<string>): string
    requires |gaps| == |fields|
    decreases |fields|
  {
    if fields == [] then [] else fields[0] + gaps[0] + Interleave(fields[1..], gaps[1..])
  }

  /** A text as the split sees it: fields without separators, all but the first non-empty,
      each followed by a non-empty run of separators except the last, whose run may be empty.
      A text of separators only is left out, since it splits into no field at all. */
  predicate SplitsAs(fields: seq<string>, gaps: seq<string>)
  {
    && |fields| == |gaps| && fields != []
    && (forall i :: 0 <= i < |fields| ==> Unbroken(fields[i]))
    && (forall i :: 0 < i < |fields| ==> fields[i] != [])
    && (forall i :: 0 <= i < |gaps| ==> IsSeparatorRun(gaps[i]))
    && (forall i :: 0 <= i < |gaps| - 1 ==> gaps[i] != [])
    && (fields == [""] ==> gaps == [""])
  }

  /** The split breaks exactly at the runs of commas and spaces: a text built from fields and
      separator runs splits back into those fields, a leading empty field included. */
  lemma SplitFieldsOfInterleave(fields: seq<string>, gaps: seq<string>)
    requires SplitsAs(fields, gaps)
    ensures SplitFields(Interleave(fields, gaps)) == fields
  {
    var s := Interleave(fields, gaps);
    var w, g := fields[0], gaps[0];
    assert s == w + g + Interleave(fields[1..], gaps[1..]);
    if |fields| == 1 && g == [] {
      assert s == w;
      UnbrokenHasNoSeparator(w);
      SeparatorAtIs(s, |s|);
    } else {
      assert s[|w|] == g[0];
      UnbrokenHasNoSeparator(w);
      SeparatorAtIs(s, |w|);
      PiecesOfInterleave(fields, gaps);
      LastFieldNonEmpty(fields, gaps);
      DropTrailingOfFields(fields, gaps[|gaps| - 1] != []);
    }
  }

  lemma LastFieldNonEmpty(fields: seq<string>, gaps: seq<string>)
    requires SplitsAs(fields, gaps) && !(|fields| == 1 && gaps[0] == [])
    ensures fields[|fields| - 1] != []
  {
    if |fields| == 1 {
      assert fields == [fields[0]] && gaps != [""];
    }
  }

  lemma DropTrailingOfFields(r: seq<string>, extra: bool)
    requires r != [] && r[|r| - 1] != []
    ensures DropTrailingEmpty(r + if extra then [""] else []) == r
  {
    if extra {
      assert (r + [""])[..|r|] == r;
    } else {
      assert r + [] == r;
    }
  }

  /** The pieces of such a text: its fields, and a trailing "" when it ends in separators. */
  lemma {:induction false} PiecesOfInterleave(fields: seq<string>, gaps: seq<string>)
    requires SplitsAs(fields, gaps)
    ensures Pieces(Interleave(fields, gaps)) == fields + (if gaps[|gaps| - 1] == [] then [] else [""])
    decreases |fields|
  {
    if |fields| == 1 {
      PiecesOfOneField(fields, gaps);
    } else {
      var w, g := fields[0], gaps[0];
      var rest := Interleave(fields[1..], gaps[1..]);
      assert Interleave(fields, gaps) == w + g + rest;
      SplitsAsTail(fields, gaps);
      PiecesAfterRun(w, g, rest);
      PiecesOfInterleave(fields[1..], gaps[1..]);
      ConsOntoTail(fields, if gaps[|gaps| - 1] == [] then [] else [""]);
    }
  }

  lemma PiecesOfOneField(fields: seq<string>, gaps: seq<string>)
    requires SplitsAs(fields, gaps) && |fields| == 1
    ensures Pieces(Interleave(fields, gaps)) == fields + (if gaps[0] == [] then [] else [""])
  {
    assert Interleave(fields, gaps) == fields[0] + gaps[0] + [];
    assert fields == [fields[0]];
    PiecesOfLastField(fields[0], gaps[0]);
  }

  lemma ConsOntoTail<T>(r: seq<T>, tail: seq<T>)
    requires r != []
    ensures [r[0]] + (r[1..] + tail) == r + tail
  {
  }

  /** What the rest of such a text is made of. */
  lemma SplitsAsTail(fields: seq<string>, gaps: seq<string>)
    requires SplitsAs(fields, gaps) && |fields| > 1
    ensures SplitsAs(fields[1..], gaps[1..])
    ensures Unbroken(fields[0]) && gaps[0] != [] && IsSeparatorRun(gaps[0])
    ensures var rest := Interleave(fields[1..], gaps[1..]);
            rest != [] && !IsFieldSeparator(rest[0])
    ensures gaps[1..][|gaps[1..]| - 1] == gaps[|gaps| - 1]
  {
    var w1 := fields[1];
    assert Interleave(fields[1..], gaps[1..]) == w1 + gaps[1] + Interleave(fields[2..], gaps[2..]);
    assert w1 != [] && w1[0] in w1;
  }

  /** The last field, followed by a run that may be empty. */
  lemma PiecesOfLastField(w: string, g: string)
    requires Unbroken(w) && IsSeparatorRun(g)
    ensures Pieces(w + g + []) == [w] + if g == [] then [] else [""]
  {
    if g == [] {
      assert w + g + [] == w;
      PiecesOfField(w);
    } else {
      PiecesAfterRun(w, g, []);
      assert Pieces([]) == [""];
    }
  }

  /** A field, a non-empty run of separators and a rest that does not start with one. */
  lemma {:induction false} PiecesAfterRun(w: string, g: string, rest: string)
    requires Unbroken(w) && g != [] && IsSeparatorRun(g)
    requires rest == [] || !IsFieldSeparator(rest[0])
    ensures Pieces(w + g + rest) == [w] + Pieces(rest)
  {
    var s := w + g + rest;
    UnbrokenHasNoSeparator(w);
    assert s[|w|] == g[0];
    SeparatorAtIs(s, |w|);
    assert s[|w|..] == g + rest;
    forall k | 0 <= k < |g| ensures IsFieldSeparator((g + rest)[k]) {
      assert (g + rest)[k] == g[k];
    }
    SeparatorRunIs(g + rest, |g|);
    PiecesUnfold(s, |w|, |g|);
    assert (g + rest)[|g|..] == rest && s[..|w|] == w;
  }

  /** The pieces of a text with a separator: the part before the first run, then the rest's. */
  lemma {:induction false} PiecesUnfold(s: string, i: nat, n: nat)
    requires i < |s| && SeparatorAt(s) == i && SeparatorRun(s[i..]) == n
    ensures Pieces(s) == [s[..i]] + Pieces(s[i..][n..])
  {
    assert s[i..][n..] == s[i + n..];
  }

  lemma PiecesOfField(w: string)
    requires Unbroken(w)
    ensures Pieces(w) == [w]
  {
    UnbrokenHasNoSeparator(w);
    SeparatorAtIs(w, |w|);
  }

  lemma UnbrokenHasNoSeparator(w: string)
    requires Unbroken(w)
    ensures forall k :: 0 <= k < |w| ==> !IsFieldSeparator(w[k])
  {
    forall k | 0 <= k < |w| ensures !IsFieldSeparator(w[k]) {
      assert w[k] in w;
    }
  }

  lemma {:induction false} SeparatorAtIs(s: string, i: nat)
    requires i <= |s| && (forall k :: 0 <= k < i ==> !IsFieldSeparator(s[k]))
    requires i < |s| ==> IsFieldSeparator(s[i])
    ensures SeparatorAt(s) == i
    decreases i
  {
    if i > 0 {
      assert !IsFieldSeparator(s[0]);
      SeparatorAtIs(s[1..], i - 1);
    }
  }

  lemma {:induction false} SeparatorRunIs(s: string, n: nat)
    requires n <= |s| && (forall k :: 0 <= k < n ==> IsFieldSeparator(s[k]))
    requires n < |s| ==> !IsFieldSeparator(s[n])
    ensures SeparatorRun(s) == n
    decreases n
  {
    if n > 0 {
      assert IsFieldSeparator(s[0]);
      SeparatorRunIs(s[1..], n - 1);
    }
  }

  /** "ab,c" splits into "ab" and "c"; ", a" into "" and "a". */
  lemma SplitExamples()
    ensures SplitFields("ab,c") == ["ab", "c"]
    ensures SplitFields(", a") == ["", "a"]
  {
    SplitCommaExample();
    SplitLeadingExample();
  }

  lemma SplitCommaExample()
    ensures SplitFields("ab,c") == ["ab", "c"]
  {
    assert Interleave(["ab", "c"], [",", ""]) == "ab,c";
    SplitFieldsOfInterleave(["ab", "c"], [",", ""]);
  }

  lemma SplitLeadingExample()
    ensures SplitFields(", a") == ["", "a"]
  {
    assert Interleave(["", "a"], [", ", ""]) == ", a";
    SplitFieldsOfInterleave(["", "a"], [", ", ""]);
  }

  lemma {:induction false} PiecesKeepText(s: string)
    ensures Concat(Pieces(s)) == Unseparated(s)
    decreases |s|
  {
    var i := SeparatorAt(s);
    SeparatorAtSkips(s);
    if i == |s| {
      UnseparatedOfUnbroken(s);
      assert Concat([s]) == s + Concat([]);
    } else {
      var j := PiecesAtFirstRun(s);
      PiecesKeepText(s[j..]);
      UnseparatedAround(s, i, j);
      ConcatCons(s[..i], Pieces(s[j..]));
    }
  }

  /** Where a text with a separator in it breaks first. */
  lemma {:induction false} PiecesAtFirstRun(s: string) returns (j: nat)
    requires SeparatorAt(s) < |s|
    ensures SeparatorAt(s) < j <= |s|
    ensures Pieces(s) == [s[..SeparatorAt(s)]] + Pieces(s[j..])
    ensures Unbroken(s[..SeparatorAt(s)])
    ensures forall k :: SeparatorAt(s) <= k < j ==> IsFieldSeparator(s[k])
    ensures s[j..] != [] ==> !IsFieldSeparator(s[j..][0])
    ensures forall c :: c in s[..SeparatorAt(s)] ==> c in s
    ensures forall c :: c in s[j..] ==> c in s
  {
    var i := SeparatorAt(s);
    var n := SeparatorRun(s[i..]);
    j := i + n;
    SeparatorAtSkips(s);
    SeparatorRunCovers(s[i..]);
    PiecesStep(s, i, j);
    PiecesUnfold(s, i, n);
    assert s[i..][n..] == s[j..];
    forall k | i <= k < j ensures IsFieldSeparator(s[k]) {
      assert s[k] == s[i..][k - i];
    }
  }

  lemma ConcatCons(w: string, r: seq<string>)
    ensures Concat([w] + r) == w + Concat(r)
  {
    assert ([w] + r)[1..] == r;
  }

  /** Text made of a separator-free part, a run of separators and a rest keeps the first part and
      whatever the rest keeps. */
  lemma {:induction false} UnseparatedAround(s: string, i: nat, j: nat)
    requires i < j <= |s|
    requires Unbroken(s[..i])
    requires forall k :: i <= k < j ==> IsFieldSeparator(s[k])
    ensures Unseparated(s) == s[..i] + Unseparated(s[j..])
  {
    var a, b, c := s[..i], s[i..j], s[j..];
    assert s == a + (b + c) by {
      assert s[i..] == b + c;
      assert s == s[..i] + s[i..];
    }
    assert forall k :: 0 <= k < |b| ==> IsFieldSeparator(b[k]) by {
      forall k | 0 <= k < |b| ensures IsFieldSeparator(b[k]) {
        assert b[k] == s[i + k];
      }
    }
    UnseparatedAppend(a, b + c);
    UnseparatedAppend(b, c);
    UnseparatedOfUnbroken(a);
    UnseparatedOfRun(b);
    assert Unseparated(b + c) == Unseparated(c);
  }

  lemma {:induction false} UnseparatedAppend(a: string, b: string)
    ensures Unseparated(a + b) == Unseparated(a) + Unseparated(b)
  {
    if a != [] {
      assert (a + b)[1..] == a[1..] + b;
      UnseparatedAppend(a[1..], b);
    } else {
      assert a + b == b;
    }
  }

  lemma {:induction false} UnseparatedOfUnbroken(s: string)
    requires Unbroken(s)
    ensures Unseparated(s) == s
  {
    if s != [] {
      assert s[0] in s;
      assert Unbroken(s[1..]) by { forall c | c in s[1..] ensures c in s { var k :| 0 <= k < |s[1..]| && s[1..][k] == c; assert s[k + 1] == c; } }
      UnseparatedOfUnbroken(s[1..]);
    }
  }

  lemma {:induction false} UnseparatedOfRun(s: string)
    requires forall k :: 0 <= k < |s| ==> IsFieldSeparator(s[k])
    ensures Unseparated(s) == []
  {
    if s != [] {
      UnseparatedOfRun(s[1..]);
    }
  }

  lemma {:induction false} DropKeepsText(r: seq<string>)
    ensures Concat(DropTrailingEmpty(r)) == Concat(r)
    decreases |r|
  {
    if r != [] && r[|r| - 1] == [] {
      DropKeepsText(r[..|r| - 1]);
      ConcatAppend(r[..|r| - 1], []);
      assert r == r[..|r| - 1] + [[]];
    }
  }

  lemma {:induction false} ConcatAppend(r: seq<string>, w: string)
    ensures Concat(r + [w]) == Concat(r) + w
  {
    if r == [] {
      assert Concat([w]) == w + Concat([]);
    } else {
      assert (r + [w])[1..] == r[1..] + [w];
      ConcatAppend(r[1..], w);
    }
  }
}
