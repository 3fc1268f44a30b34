/** The list of chosen levels: the add button's rule and the reorder of a drop. */
module LevelList {
  import opened Wrappers
  import opened Seqs

  /** The add button: the chosen attribute is appended unless nothing is chosen or it is there. */
  function Added(levels: seq<string>, selected: Option<string>): seq<string>
  {
    if selected.Some? && selected.value !in levels then levels + [selected.value] else levels
  }

  /** Adding keeps the list free of duplicates and adds only the chosen attribute. */
  lemma AddedKeepsLevelsDistinct(levels: seq<string>, selected: Option<string>)
    requires NoDuplicates(levels)
    ensures NoDuplicates(Added(levels, selected))
    ensures forall a :: a in Added(levels, selected) <==> a in levels || selected == Some(a)
  {
  }

  function RemoveAt(s: seq<string>, k: nat): seq<string>
    requires k < |s|
  {
    s[..k] + s[k + 1..]
  }

  function InsertAt(s: seq<string>, k: nat, x: string): seq<string>
    requires k <= |s|
  {
    s[..k] + [x] + s[k..]
  }

  /** Where a dragged entry lands: a drop past its old place counts without it. */
  function Landing(from: nat, drop: nat): nat
  {
    if drop > from then drop - 1 else drop
  }

  /** The list update of `importData`: when a drag from this list is recorded at `from`, that
      entry is removed and the drop index adjusted; then the dropped text is inserted. */
  function Reorder(s: seq<string>, from: int, drop: nat, data: string): seq<string>
    requires from == -1 || 0 <= from < |s|
    requires drop <= |s|
  {
    if from == -1 then InsertAt(s, drop, data)
    else InsertAt(RemoveAt(s, from), Landing(from, drop), data)
  }

  /** Dragging an entry moves it: the same entries, the moved one at its landing place and the
      others in their old order; a list without duplicates keeps none. */
  lemma ReorderMoves(s: seq<string>, from: nat, drop: nat)
    requires from < |s| && drop <= |s|
    ensures var r := Reorder(s, from, drop, s[from]);
            && |r| == |s|
            && multiset(r) == multiset(s)
            && r[Landing(from, drop)] == s[from]
            && RemoveAt(r, Landing(from, drop)) == RemoveAt(s, from)
            && (NoDuplicates(s) ==> NoDuplicates(r))
  {
    var t := RemoveAt(s, from);
    RemoveAtParts(s, from);
    InsertAtParts(t, Landing(from, drop), s[from]);
    if NoDuplicates(s) {
      RemoveKeepsDistinct(s, from);
      InsertKeepsDistinct(t, Landing(from, drop), s[from]);
    }
  }

  lemma RemoveAtParts(s: seq<string>, k: nat)
    requires k < |s|
    ensures multiset(s) == multiset(RemoveAt(s, k)) + multiset{s[k]}
  {
    assert s == s[..k] + [s[k]] + s[k + 1..];
  }

  lemma InsertAtParts(t: seq<string>, k: nat, x: string)
    requires k <= |t|
    ensures multiset(InsertAt(t, k, x)) == multiset(t) + multiset{x}
    ensures InsertAt(t, k, x)[k] == x && RemoveAt(InsertAt(t, k, x), k) == t
  {
    assert t == t[..k] + t[k..];
    assert RemoveAt(InsertAt(t, k, x), k) == t[..k] + t[k..];
  }

  /** Removing an entry from a list without duplicates leaves one without it. */
  lemma RemoveKeepsDistinct(s: seq<string>, k: nat)
    requires k < |s| && NoDuplicates(s)
    ensures NoDuplicates(RemoveAt(s, k)) && s[k] !in RemoveAt(s, k)
  {
    var t := RemoveAt(s, k);
    forall i | 0 <= i < |t| ensures t[i] == s[if i < k then i else i + 1] {
    }
  }

  /** Inserting a new entry into a list without duplicates leaves none. */
  lemma InsertKeepsDistinct(t: seq<string>, k: nat, x: string)
    requires k <= |t| && NoDuplicates(t) && x !in t
    ensures NoDuplicates(InsertAt(t, k, x))
  {
    var r := InsertAt(t, k, x);
    forall i | 0 <= i < |r| && i != k ensures r[i] == t[if i < k then i else i - 1] {
    }
  }

  /** A move is undone by dragging the entry from its landing place back to where it was. */
  lemma ReorderUndo(s: seq<string>, from: nat, drop: nat)
    requires from < |s| && drop <= |s|
    ensures var r := Reorder(s, from, drop, s[from]);
            var l := Landing(from, drop);
            var back := if from > l then from + 1 else from;
            l < |r| && back <= |r| && Reorder(r, l, back, r[l]) == s
  {
    ReorderMoves(s, from, drop);
    var r := Reorder(s, from, drop, s[from]);
    var l := Landing(from, drop);
    var back := if from > l then from + 1 else from;
    assert Landing(l, back) == from;
    assert InsertAt(RemoveAt(s, from), from, s[from]) == s;
  }

  /** A drop of text that did not come from a drag in this list inserts it whatever it is, so the
      list can end up with a duplicate; and the drag index is never reset, so such a drop after an
      earlier drag also removes the entry at that stale index. */
  lemma ForeignDrops()
    ensures Reorder(["Artist"], -1, 1, "Artist") == ["Artist", "Artist"]
    ensures !NoDuplicates(Reorder(["Artist"], -1, 1, "Artist"))
    ensures Reorder(["Artist", "Album"], 0, 2, "Genre") == ["Album", "Genre"]
  {
    assert Reorder(["Artist"], -1, 1, "Artist")[0] == Reorder(["Artist"], -1, 1, "Artist")[1];
  }
}
