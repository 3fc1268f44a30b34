/**
 * `FolderAnalyser`: holds the metadata read from the files of a folder (file name to attribute
 * map) and ranks the attribute names by how many files carry them, leaving out the ones that
 * start with a blacklisted prefix.  The repository has two copies of this class, one in
 * `de.tjorven.folder` and one in `de.tjorven.algorithm`; their `findSimilarities`, `getFileNames`
 * and `loadBlacklist` are the same code, so this one class models both.
 */
module FolderAnalysis {
  import opened Wrappers
  import opened Text
  import opened Seqs
  import opened SortPlan

  /** One entry of the ranking: an attribute name and the number of files that carry it. */
  type Entry = (string, int)

  // ---------------------------------------------------------------------------------------------
  // What the ranking is made of

  /** The files among `done` whose metadata holds `key`. */
  function Holders(meta: Metadata, done: set<string>, key: string): set<string>
  {
    set f | f in done && f in meta && key in meta[f]
  }

  /** How many files carry `key`. */
  function Count(meta: Metadata, key: string): (n: nat)
    ensures n <= |meta.Keys|
    ensures n > 0 <==> exists f :: f in meta && key in meta[f]
  {
    HoldersBounds(meta, key);
    |Holders(meta, meta.Keys, key)|
  }

  lemma HoldersBounds(meta: Metadata, key: string)
    ensures |Holders(meta, meta.Keys, key)| <= |meta.Keys|
    ensures |Holders(meta, meta.Keys, key)| > 0 <==> exists f :: f in meta && key in meta[f]
  {
    var h := Holders(meta, meta.Keys, key);
    assert meta.Keys == h + (meta.Keys - h);
    if exists f :: f in meta && key in meta[f] {
      var f :| f in meta && key in meta[f];
      assert f in h;
    }
  }

  /** The attribute names that occur in the metadata of some file among `done`. */
  function KeysOf(meta: Metadata, done: set<string>): set<string>
  {
    set f, k | f in done && f in meta && k in meta[f] :: k
  }

  /** A key is blacklisted when some blacklist entry is a prefix of it. */
  predicate Blacklisted(key: string, blacklist: set<string>)
  {
    exists b :: b in blacklist && StartsWith(key, b)
  }

  /** The ranking is ordered by non-increasing count. */
  predicate ByCountDescending(r: seq<Entry>)
  {
    forall i, j :: 0 <= i < j < |r| ==> r[i].1 >= r[j].1
  }

  /** The names of a ranking, in order. */
  function Names(r: seq<Entry>): (names: seq<string>)
    ensures |names| == |r| && forall i :: 0 <= i < |r| ==> names[i] == r[i].0
  {
    if r == [] then [] else [r[0].0] + Names(r[1..])
  }

  // ---------------------------------------------------------------------------------------------
  // The blacklist

  /** `loadBlacklist`: the non-blank lines of `blacklist.txt`; `lines` is None when the file is
      absent or cannot be read, and the blacklist is then empty. */
  function LoadBlacklist(lines: Option<seq<string>>): (r: set<string>)
    ensures forall b :: b in r <==> lines.Some? && b in lines.value && !IsBlank(b)
    ensures forall b :: b in r ==> b != ""
  {
    if lines.None? then {} else set l | l in lines.value && !IsBlank(l)
  }

  /** `filter(noneMatch(startsWith))`: the entries whose name no blacklist entry starts, in order. */
  function DropBlacklisted(s: seq<Entry>, blacklist: set<string>): (r: seq<Entry>)
    ensures multiset(r) <= multiset(s)
    ensures forall e :: e in r <==> e in s && !Blacklisted(e.0, blacklist)
  {
    if s == [] then []
    else
      var rest := DropBlacklisted(s[1..], blacklist);
      assert s == [s[0]] + s[1..];
      if Blacklisted(s[0].0, blacklist) then rest else [s[0]] + rest
  }

  // ---------------------------------------------------------------------------------------------
  // Sorting by count (`sorted(comparingByValue().reversed())`, a stable sort)

  /** Puts `e` after every entry whose count is at least its own. */
  function InsertByCount(e: Entry, s: seq<Entry>): (r: seq<Entry>)
    requires ByCountDescending(s)
    ensures ByCountDescending(r)
    ensures multiset(r) == multiset(s) + multiset{e}
    ensures forall x :: x in r ==> x in s || x == e
  {
    if s == [] || s[0].1 < e.1 then [e] + s
    else
      var rest := InsertByCount(e, s[1..]);
      HeadIsLargest(s);
      HeadAndTail(s);
      SortedCons(s[0], rest);
      [s[0]] + rest
  }

  lemma HeadAndTail<T>(s: seq<T>)
    requires s != []
    ensures multiset(s) == multiset{s[0]} + multiset(s[1..])
  {
    assert s == [s[0]] + s[1..];
  }

  lemma SortedCons(x: Entry, s: seq<Entry>)
    requires ByCountDescending(s) && forall y :: y in s ==> x.1 >= y.1
    ensures ByCountDescending([x] + s)
  {
    forall i, j | 0 <= i < j < |[x] + s| ensures ([x] + s)[i].1 >= ([x] + s)[j].1 {
      if i == 0 {
        assert ([x] + s)[j] == s[j - 1];
        assert s[j - 1] in s;
      }
    }
  }

  lemma HeadIsLargest(s: seq<Entry>)
    requires ByCountDescending(s) && s != []
    ensures forall x :: x in s[1..] ==> s[0].1 >= x.1
  {
    forall x | x in s[1..] ensures s[0].1 >= x.1 {
      var j :| 0 <= j < |s[1..]| && s[1..][j] == x;
      assert s[j + 1] == x;
    }
  }

  function SortByCount(s: seq<Entry>): (r: seq<Entry>)
    ensures ByCountDescending(r)
    ensures multiset(r) == multiset(s)
  {
    if s == [] then []
    else
      assert s == [s[0]] + s[1..];
      InsertByCount(s[0], SortByCount(s[1..]))
  }

  // ---------------------------------------------------------------------------------------------
  // Facts the counting loop relies on

  lemma HoldersAdd(meta: Metadata, done: set<string>, f: string, key: string)
    requires f in meta && f !in done
    ensures |Holders(meta, done + {f}, key)| == |Holders(meta, done, key)| + if key in meta[f] then 1 else 0
  {
    if key in meta[f] {
      assert Holders(meta, done + {f}, key) == Holders(meta, done, key) + {f};
    } else {
      assert Holders(meta, done + {f}, key) == Holders(meta, done, key);
    }
  }

  lemma KeysOfAdd(meta: Metadata, done: set<string>, f: string)
    requires f in meta
    ensures KeysOf(meta, done + {f}) == KeysOf(meta, done) + meta[f].Keys
  {
  }

  /** A key no file of `done` carries has no holder there. */
  lemma UnseenKeyHasNoHolder(meta: Metadata, done: set<string>, key: string)
    ensures key !in KeysOf(meta, done) ==> |Holders(meta, done, key)| == 0
  {
    forall f | f in Holders(meta, done, key) ensures key in KeysOf(meta, done) {
    }
    if key !in KeysOf(meta, done) {
      assert Holders(meta, done, key) == {};
    }
  }

  /** Adding one file's keys: the counts of the larger set of files. */
  lemma AddFile(meta: Metadata, done: set<string>, f: string, matches: map<string, int>)
    requires f in meta && f !in done
    requires forall k :: k in matches <==> k in KeysOf(meta, done) || k in meta[f]
    requires forall k :: k in matches ==> matches[k] == |Holders(meta, done, k)| + if k in meta[f] then 1 else 0
    ensures forall k :: k in matches <==> k in KeysOf(meta, done + {f})
    ensures forall k :: k in matches ==> matches[k] == |Holders(meta, done + {f}, k)|
  {
    forall k | k in matches ensures matches[k] == |Holders(meta, done + {f}, k)| {
      HoldersAdd(meta, done, f, k);
    }
    KeysOfAdd(meta, done, f);
  }

  // ---------------------------------------------------------------------------------------------
  // The class

  class FolderAnalyser {
    /** File name to that file's attribute map, as `readToMap` left it. */
    const metadata: Metadata

    constructor (metadata: Metadata)
      ensures this.metadata == metadata
    {
      this.metadata := metadata;
    }

    /** `getFileNames`: the names of the files that have metadata. */
    function FileNames(): (r: set<string>)
      reads this
      ensures forall f :: f in r <==> f in metadata
    {
      metadata.Keys
    }

    /** The `matches` counter: for every file, every key of its metadata adds one to that key's
        count.  The files are visited in an order the map chooses. */
    method CountKeys() returns (matches: map<string, int>)
      ensures forall k :: k in matches <==> exists f :: f in metadata && k in metadata[f]
      ensures forall k :: k in matches ==> matches[k] == Count(metadata, k)
    {
      matches := map[];
      var done: set<string> := {};
      var todo := metadata.Keys;
      while todo != {}
        invariant done + todo == metadata.Keys && done !! todo
        invariant forall k :: k in matches <==> k in KeysOf(metadata, done)
        invariant forall k :: k in matches ==> matches[k] == |Holders(metadata, done, k)|
        decreases |todo|
      {
        var f :| f in todo;
        var before := matches;
        matches := MergeKeys(matches, metadata[f].Keys);
        forall k | k in matches
          ensures matches[k] == |Holders(metadata, done, k)| + if k in metadata[f] then 1 else 0
        {
          UnseenKeyHasNoHolder(metadata, done, k);
        }
        AddFile(metadata, done, f, matches);
        done, todo := done + {f}, todo - {f};
      }
      assert done == metadata.Keys;
      forall k ensures k in matches <==> exists f :: f in metadata && k in metadata[f] {
        if exists f :: f in metadata && k in metadata[f] {
          var f :| f in metadata && k in metadata[f];
          assert k in KeysOf(metadata, done);
        }
      }
    }

    /** `keySet().forEach(key -> matches.merge(key, 1, Integer::sum))`: one more for every key of
        `keys`, a new entry of 1 for a key not yet counted; the keys are visited in an order the
        set chooses. */
    static method MergeKeys(matches: map<string, int>, keys: set<string>) returns (m: map<string, int>)
      ensures forall k :: k in m <==> k in matches || k in keys
      ensures forall k :: k in m ==> m[k] == (if k in matches then matches[k] else 0) + if k in keys then 1 else 0
    {
      m := matches;
      var todo := keys;
      while todo != {}
        invariant todo <= keys
        invariant forall k :: k in m <==> k in matches || (k in keys && k !in todo)
        invariant forall k :: k in m ==>
                    m[k] == (if k in matches then matches[k] else 0) + if k in keys && k !in todo then 1 else 0
        decreases |todo|
      {
        var key :| key in todo;
        m := m[key := if key in m then m[key] + 1 else 1];
        todo := todo - {key};
      }
    }

    /** The entries of a counter, each once, in the (unspecified) order of its entry set. */
    static method EntriesOf(matches: map<string, int>) returns (entries: seq<Entry>)
      ensures NoDuplicates(Names(entries))
      ensures forall e :: e in entries <==> e.0 in matches && e.1 == matches[e.0]
    {
      entries := [];
      var todo := matches.Keys;
      while todo != {}
        invariant todo <= matches.Keys
        invariant forall e :: e in entries <==> e.0 in matches && e.0 !in todo && e.1 == matches[e.0]
        invariant NoDuplicates(Names(entries))
        decreases |todo|
      {
        var k :| k in todo;
        entries := entries + [(k, matches[k])];
        todo := todo - {k};
      }
    }

    /** `findSimilarities`: every attribute name some file carries and no blacklist entry starts,
        once, with the number of files carrying it, most frequent first.  `blacklistLines` stands
        for the lines of `blacklist.txt` (None when it is absent or unreadable). */
    method FindSimilarities(blacklistLines: Option<seq<string>>) returns (r: seq<Entry>)
      ensures IsRanking(r, metadata, LoadBlacklist(blacklistLines))
      ensures forall i :: 0 <= i < |r| ==> 1 <= r[i].1 <= |metadata|
    {
      var matches := CountKeys();
      var blacklist := LoadBlacklist(blacklistLines);
      var entries := EntriesOf(matches);
      var kept := DropBlacklisted(entries, blacklist);
      r := SortByCount(kept);
      RankingFacts(metadata, matches, entries, kept, r, blacklist);
    }
  }

  /** From the counter to the sorted ranking: names, uniqueness and counts carry over. */
  lemma RankingFacts(meta: Metadata, matches: map<string, int>, entries: seq<Entry>, kept: seq<Entry>,
                     r: seq<Entry>, blacklist: set<string>)
    requires forall k :: k in matches <==> exists f :: f in meta && k in meta[f]
    requires forall k :: k in matches ==> matches[k] == Count(meta, k)
    requires NoDuplicates(Names(entries))
    requires forall e :: e in entries <==> e.0 in matches && e.1 == matches[e.0]
    requires multiset(kept) <= multiset(entries)
    requires forall e :: e in kept <==> e in entries && !Blacklisted(e.0, blacklist)
    requires multiset(r) == multiset(kept)
    ensures forall k :: k in Names(r) <==> (exists f :: f in meta && k in meta[f]) && !Blacklisted(k, blacklist)
    ensures NoDuplicates(Names(r))
    ensures forall i :: 0 <= i < |r| ==> r[i].1 == Count(meta, r[i].0) && 1 <= r[i].1 <= |meta|
  {
    KeptEntries(matches, entries, kept, blacklist);
    forall k ensures k in Names(r) <==> (exists f :: f in meta && k in meta[f]) && !Blacklisted(k, blacklist) {
      RankedName(meta, matches, kept, r, blacklist, k);
    }
    RankedCounts(meta, matches, kept, r);
    NoDuplicateNames(entries, kept, r);
  }

  lemma KeptEntries(matches: map<string, int>, entries: seq<Entry>, kept: seq<Entry>, blacklist: set<string>)
    requires forall e :: e in entries <==> e.0 in matches && e.1 == matches[e.0]
    requires forall e :: e in kept <==> e in entries && !Blacklisted(e.0, blacklist)
    ensures forall e :: e in kept <==> e.0 in matches && e.1 == matches[e.0] && !Blacklisted(e.0, blacklist)
  {
  }

  /** Every ranked entry carries the number of files holding its key, which lies between one and
      the number of files. */
  lemma RankedCounts(meta: Metadata, matches: map<string, int>, kept: seq<Entry>, r: seq<Entry>)
    requires forall k :: k in matches <==> exists f :: f in meta && k in meta[f]
    requires forall k :: k in matches ==> matches[k] == Count(meta, k)
    requires forall e :: e in kept ==> e.0 in matches && e.1 == matches[e.0]
    requires multiset(r) == multiset(kept)
    ensures forall i :: 0 <= i < |r| ==> r[i].1 == Count(meta, r[i].0) && 1 <= r[i].1 <= |meta|
  {
    forall i | 0 <= i < |r| ensures r[i].1 == Count(meta, r[i].0) && 1 <= r[i].1 <= |meta| {
      assert r[i] in multiset(r);
      assert r[i] in kept;
    }
  }

  lemma RankedName(meta: Metadata, matches: map<string, int>, kept: seq<Entry>, r: seq<Entry>,
                   blacklist: set<string>, k: string)
    requires forall k :: k in matches <==> exists f :: f in meta && k in meta[f]
    requires forall e :: e in kept <==> e.0 in matches && e.1 == matches[e.0] && !Blacklisted(e.0, blacklist)
    requires multiset(r) == multiset(kept)
    ensures k in Names(r) <==> (exists f :: f in meta && k in meta[f]) && !Blacklisted(k, blacklist)
  {
    if k in Names(r) {
      var i :| 0 <= i < |r| && Names(r)[i] == k;
      assert r[i] in multiset(r);
      assert r[i] in kept;
    }
    if (exists f :: f in meta && k in meta[f]) && !Blacklisted(k, blacklist) {
      var f :| f in meta && k in meta[f];
      var e := (k, matches[k]);
      assert e in kept;
      assert e in multiset(r);
      var i :| 0 <= i < |r| && r[i] == e;
      assert Names(r)[i] == k;
    }
  }

  /** Entries with distinct names keep distinct names through filtering and sorting. */
  lemma NoDuplicateNames(entries: seq<Entry>, kept: seq<Entry>, r: seq<Entry>)
    requires NoDuplicates(Names(entries))
    requires multiset(kept) <= multiset(entries)
    requires multiset(r) == multiset(kept)
    ensures NoDuplicates(Names(r))
  {
    forall i, j | 0 <= i < j < |r| ensures Names(r)[i] != Names(r)[j] {
      assert r[i] in multiset(r) && r[j] in multiset(r);
      SameNameSameEntry(entries, r[i], r[j]);
      CountTwice(r, i, j);
      NamesOnce(entries, r[i]);
    }
  }

  lemma SameNameSameEntry(s: seq<Entry>, x: Entry, y: Entry)
    requires NoDuplicates(Names(s)) && x in s && y in s
    ensures x.0 == y.0 ==> x == y
  {
    var a :| 0 <= a < |s| && s[a] == x;
    var b :| 0 <= b < |s| && s[b] == y;
    assert Names(s)[a] == x.0 && Names(s)[b] == y.0;
  }

  lemma CountTwice<T>(s: seq<T>, i: int, j: int)
    requires 0 <= i < j < |s|
    ensures multiset(s)[s[i]] >= 1 + if s[j] == s[i] then 1 else 0
  {
    assert s == s[..i] + [s[i]] + s[i + 1..j] + [s[j]] + s[j + 1..];
  }

  /** With distinct names, no entry occurs twice. */
  lemma {:induction false} NamesOnce(s: seq<Entry>, e: Entry)
    requires NoDuplicates(Names(s))
    ensures multiset(s)[e] <= 1
  {
    if s != [] {
      assert s == [s[0]] + s[1..];
      assert Names(s[1..]) == Names(s)[1..];
      NamesOnce(s[1..], e);
      if s[0] == e {
        forall x | x in s[1..] ensures x != e {
          var j :| 0 <= j < |s[1..]| && s[1..][j] == x;
          assert Names(s)[j + 1] == x.0;
        }
      }
    }
  }

  // ---------------------------------------------------------------------------------------------
  // What a ranking is, and what follows from it

  /** A correct answer of `findSimilarities`: every key some file has and no blacklist entry
      prefixes, each once, with its number of holders, by non-increasing count. */
  ghost predicate IsRanking(r: seq<Entry>, meta: Metadata, blacklist: set<string>)
  {
    && (forall k :: k in Names(r) <==> (exists f :: f in meta && k in meta[f]) && !Blacklisted(k, blacklist))
    && NoDuplicates(Names(r))
    && (forall i :: 0 <= i < |r| ==> r[i].1 == Count(meta, r[i].0))
    && ByCountDescending(r)
  }

  /** Two rankings of the same metadata hold the same entries: they differ at most in the order of
      keys with equal counts, which is all the hash order can change. */
  lemma RankingsAgree(r1: seq<Entry>, r2: seq<Entry>, meta: Metadata, blacklist: set<string>)
    requires IsRanking(r1, meta, blacklist) && IsRanking(r2, meta, blacklist)
    ensures forall e :: e in r1 <==> e in r2
    ensures |r1| == |r2|
  {
    forall e | e in r1 ensures e in r2 {
      InOther(r1, r2, meta, blacklist, e);
    }
    forall e | e in r2 ensures e in r1 {
      InOther(r2, r1, meta, blacklist, e);
    }
    assert forall k :: k in Names(r1) <==> k in Names(r2);
    assert (set k | k in Names(r1)) == (set k | k in Names(r2));
    DistinctCard(Names(r1));
    DistinctCard(Names(r2));
  }

  lemma InOther(r1: seq<Entry>, r2: seq<Entry>, meta: Metadata, blacklist: set<string>, e: Entry)
    requires IsRanking(r1, meta, blacklist) && IsRanking(r2, meta, blacklist)
    requires e in r1
    ensures e in r2
  {
    var i :| 0 <= i < |r1| && r1[i] == e;
    assert e.0 == Names(r1)[i];
    assert e.0 in Names(r2);
    var j :| 0 <= j < |r2| && Names(r2)[j] == e.0;
    assert r2[j] == e;
  }

  /** A sequence without duplicates has as many distinct elements as it is long. */
  lemma {:induction false} DistinctCard<T>(s: seq<T>)
    requires NoDuplicates(s)
    ensures |set x | x in s| == |s|
  {
    if s != [] {
      var t := s[..|s| - 1];
      assert NoDuplicates(t);
      DistinctCard(t);
      assert (set x | x in s) == (set x | x in t) + {s[|s| - 1]};
      assert s[|s| - 1] !in t;
    }
  }

  /** No files, no attributes. */
  lemma EmptyMetadataRanksNothing(r: seq<Entry>, blacklist: set<string>)
    requires IsRanking(r, map[], blacklist)
    ensures r == []
  {
    assert (set k | k in Names(r)) == {};
    DistinctCard(Names(r));
  }

  /** A blacklist line is a prefix, not a whole key; the blank line is dropped, which matters
      because the empty prefix would hide every key. */
  lemma BlacklistExample()
    ensures var blacklist := LoadBlacklist(Some(["xmp:", "  "]));
            && blacklist == {"xmp:"}
            && Blacklisted("xmp:CreatorTool", blacklist)
            && !Blacklisted("Author", blacklist)
            && Blacklisted("Author", blacklist + {""})
  {
    var blacklist := LoadBlacklist(Some(["xmp:", "  "]));
    assert IsWhitespace(' ');
    assert IsBlank("  ");
    assert !IsBlank("xmp:") by { assert !IsWhitespace("xmp:"[0]); }
    assert blacklist == {"xmp:"};
    assert StartsWith("xmp:CreatorTool", "xmp:");
    assert !StartsWith("Author", "xmp:") by { assert "Author"[0] != "xmp:"[0]; }
    assert StartsWith("Author", "");
  }
}
