/**
 * The preview tree as a value: a node with its label and children.  `getOrCreateChild` works on a
 * node's list of children and the descent along a file's folder names rebuilds the nodes it passes
 * through.
 */
module PreviewTree {
  import opened Wrappers
  import opened Seqs

  /** A node of the preview tree: its label and its children, in insertion order. */
  datatype Node = Node(name: string, children: seq<Node>)

  function ChildNames(children: seq<Node>): (r: seq<string>)
    ensures |r| == |children| && forall i :: 0 <= i < |children| ==> r[i] == children[i].name
  {
    seq(|children|, i requires 0 <= i < |children| => children[i].name)
  }

  /** The first child with the given name, if any. */
  function FindChild(children: seq<Node>, name: string): (r: Option<nat>)
    ensures r.Some? ==> r.value < |children| && children[r.value].name == name
                        && forall k :: 0 <= k < r.value ==> children[k].name != name
    ensures r.None? ==> forall k :: 0 <= k < |children| ==> children[k].name != name
  {
    if children == [] then None
    else if children[0].name == name then Some(0)
    else match FindChild(children[1..], name)
      case None => None
      case Some(k) => Some(k + 1)
  }

  /** `getOrCreateChild`: the children and the index of the one named `name`, which is the first
      existing child of that name, or else a new empty child appended at the end. */
  method GetOrCreateChild(children: seq<Node>, name: string) returns (updated: seq<Node>, i: nat)
    ensures i < |updated| && updated[i].name == name
    ensures FindChild(children, name).Some? ==> updated == children && i == FindChild(children, name).value
    ensures FindChild(children, name).None? ==> updated == children + [Node(name, [])] && i == |children|
    ensures NoDuplicates(ChildNames(children)) ==> NoDuplicates(ChildNames(updated))
  {
    i := 0;
    while i < |children|
      invariant 0 <= i <= |children|
      invariant forall k :: 0 <= k < i ==> children[k].name != name
    {
      if children[i].name == name {
        return children, i;
      }
      i := i + 1;
    }
    updated := children + [Node(name, [])];
    assert ChildNames(updated) == ChildNames(children) + [name];
  }

  /** What `updatePreview` does for one file: descend along `segs`, creating each missing folder
      node, and add a leaf named `leaf` under the last one. */
  function Insert(n: Node, segs: seq<string>, leaf: string): (r: Node)
    ensures r.name == n.name
    decreases |segs|
  {
    if segs == [] then Node(n.name, n.children + [Node(leaf, [])])
    else match FindChild(n.children, segs[0])
      case Some(i) => Node(n.name, n.children[i := Insert(n.children[i], segs[1..], leaf)])
      case None => Node(n.name, n.children + [Insert(Node(segs[0], []), segs[1..], leaf)])
  }

  method InsertPath(n: Node, segs: seq<string>, leaf: string) returns (r: Node)
    ensures r == Insert(n, segs, leaf)
    decreases |segs|
  {
    if segs == [] {
      return Node(n.name, n.children + [Node(leaf, [])]);
    }
    var children, i := GetOrCreateChild(n.children, segs[0]);
    var child := InsertPath(children[i], segs[1..], leaf);
    r := Node(n.name, children[i := child]);
    if FindChild(n.children, segs[0]).None? {
      assert children[i := child] == n.children + [child];
    }
  }

  /** The label paths of the nodes below `n`: for each of them, the labels from a child of `n`
      down to that node. */
  ghost function Paths(n: Node): set<seq<string>>
    decreases n, 0
  {
    set i, p | 0 <= i < |n.children| && p in Reach(n.children[i]) :: p
  }

  /** The label paths of `c` and of the nodes below it, each starting with `c`'s label. */
  ghost function Reach(c: Node): set<seq<string>>
    decreases c, 1
  {
    set p | p in {[]} + Paths(c) :: [c.name] + p
  }

  /** The non-empty prefixes of `s`. */
  ghost function Prefixes(s: seq<string>): set<seq<string>>
  {
    set k | 1 <= k <= |s| :: s[..k]
  }

  /** Siblings never share a label, at any depth. */
  ghost predicate SiblingsDistinct(n: Node)
    decreases n
  {
    && NoDuplicates(ChildNames(n.children))
    && forall i :: 0 <= i < |n.children| ==> SiblingsDistinct(n.children[i])
  }

  /** Inserting a file adds exactly the prefixes of its path to the tree's paths. */
  lemma {:induction false} InsertPaths(n: Node, segs: seq<string>, leaf: string)
    ensures Paths(Insert(n, segs, leaf)) == Paths(n) + Prefixes(segs + [leaf])
    decreases |segs|
  {
    if segs == [] {
      PathsAppend(n, Node(leaf, []));
      LoneReach(leaf);
      assert segs + [leaf] == [leaf];
      assert Prefixes([leaf]) == {[leaf]} by {
        assert [leaf][..1] == [leaf];
      }
    } else {
      var rest := segs[1..] + [leaf];
      assert segs + [leaf] == [segs[0]] + rest;
      PrefixesCons(segs[0], rest);
      match FindChild(n.children, segs[0])
      case Some(i) =>
        var c := n.children[i];
        var c' := Insert(c, segs[1..], leaf);
        InsertPaths(c, segs[1..], leaf);
        ReachGrows(c, c', Prefixes(rest));
        ReachHasLabel(c);
        PathsUpdate(n, i, c', Prefixes(segs + [leaf]));
      case None =>
        var c' := Insert(Node(segs[0], []), segs[1..], leaf);
        InsertPaths(Node(segs[0], []), segs[1..], leaf);
        assert Paths(Node(segs[0], [])) == {};
        ReachGrows(Node(segs[0], []), c', Prefixes(rest));
        LoneReach(segs[0]);
        PathsAppend(n, c');
    }
  }

  lemma ReachHasLabel(c: Node)
    ensures [c.name] in Reach(c)
    ensures forall q :: q in Paths(c) ==> [c.name] + q in Reach(c)
  {
    assert [] in {[]} + Paths(c);
    assert [c.name] + [] == [c.name];
  }

  lemma ChildReachInPaths(n: Node, i: nat)
    requires i < |n.children|
    ensures forall p :: p in Reach(n.children[i]) ==> p in Paths(n)
  {
  }

  lemma LoneReach(name: string)
    ensures Reach(Node(name, [])) == {[name]}
  {
    assert Paths(Node(name, [])) == {};
    assert [name] + [] == [name];
  }

  lemma PrefixesCons(x: string, t: seq<string>)
    requires t != []
    ensures Prefixes([x] + t) == {[x]} + set q | q in Prefixes(t) :: [x] + q
  {
    var s := [x] + t;
    forall p | p in Prefixes(s) ensures p in {[x]} + set q | q in Prefixes(t) :: [x] + q {
      var k :| 1 <= k <= |s| && p == s[..k];
      if k > 1 {
        assert p == [x] + t[..k - 1];
      } else {
        assert p == [x];
      }
    }
    forall p | p in {[x]} + set q | q in Prefixes(t) :: [x] + q ensures p in Prefixes(s) {
      if p == [x] {
        assert s[..1] == p;
      } else {
        var q :| q in Prefixes(t) && p == [x] + q;
        var k :| 1 <= k <= |t| && q == t[..k];
        assert s[..k + 1] == p;
      }
    }
  }

  /** Growing a node's paths by `x` grows its reach by `x` under its label. */
  lemma ReachGrows(c: Node, c': Node, x: set<seq<string>>)
    requires c'.name == c.name && Paths(c') == Paths(c) + x
    ensures Reach(c') == Reach(c) + set q | q in x :: [c.name] + q
  {
  }

  lemma PathsAppend(n: Node, c: Node)
    ensures Paths(Node(n.name, n.children + [c])) == Paths(n) + Reach(c)
  {
    var m := Node(n.name, n.children + [c]);
    forall p | p in Paths(m) ensures p in Paths(n) + Reach(c) {
      var i :| 0 <= i < |m.children| && p in Reach(m.children[i]);
      if i < |n.children| {
        assert m.children[i] == n.children[i];
      }
    }
    forall p | p in Paths(n) + Reach(c) ensures p in Paths(m) {
      if p in Paths(n) {
        var i :| 0 <= i < |n.children| && p in Reach(n.children[i]);
        assert m.children[i] == n.children[i];
      } else {
        assert m.children[|n.children|] == c;
      }
    }
  }

  /** Replacing a child by one whose reach is larger by `x` makes the node's paths larger by `x`. */
  lemma PathsUpdate(n: Node, i: nat, c': Node, x: set<seq<string>>)
    requires i < |n.children|
    requires Reach(c') == Reach(n.children[i]) + x
    ensures Paths(Node(n.name, n.children[i := c'])) == Paths(n) + x
  {
    var m := Node(n.name, n.children[i := c']);
    forall p | p in Paths(m) ensures p in Paths(n) + x {
      var j :| 0 <= j < |m.children| && p in Reach(m.children[j]);
      if j != i {
        assert m.children[j] == n.children[j];
      }
    }
    forall p | p in Paths(n) + x ensures p in Paths(m) {
      if p in Paths(n) {
        var j :| 0 <= j < |n.children| && p in Reach(n.children[j]);
        if j != i {
          assert m.children[j] == n.children[j];
        } else {
          assert m.children[i] == c';
        }
      } else {
        assert m.children[i] == c';
      }
    }
  }

  /** A file whose path is not yet in the tree keeps sibling labels distinct: the folder nodes
      are found rather than added twice, and the leaf is new where it lands. */
  lemma {:induction false} InsertKeepsSiblingsDistinct(n: Node, segs: seq<string>, leaf: string)
    requires SiblingsDistinct(n)
    requires segs + [leaf] !in Paths(n)
    ensures SiblingsDistinct(Insert(n, segs, leaf))
    decreases |segs|
  {
    var r := Insert(n, segs, leaf);
    if segs == [] {
      assert segs + [leaf] == [leaf];
      forall i | 0 <= i < |n.children| ensures n.children[i].name != leaf {
        ReachHasLabel(n.children[i]);
        ChildReachInPaths(n, i);
      }
      assert ChildNames(r.children) == ChildNames(n.children) + [leaf];
      assert forall i :: 0 <= i < |r.children| ==> SiblingsDistinct(r.children[i]) by {
        forall i | 0 <= i < |r.children| ensures SiblingsDistinct(r.children[i]) {
          if i < |n.children| {
            assert r.children[i] == n.children[i];
          }
        }
      }
    } else {
      match FindChild(n.children, segs[0])
      case Some(i) =>
        var c := n.children[i];
        assert segs + [leaf] == [c.name] + (segs[1..] + [leaf]);
        ReachHasLabel(c);
        ChildReachInPaths(n, i);
        assert segs[1..] + [leaf] !in Paths(c);
        InsertKeepsSiblingsDistinct(c, segs[1..], leaf);
        assert ChildNames(r.children) == ChildNames(n.children);
        forall j | 0 <= j < |r.children| ensures SiblingsDistinct(r.children[j]) {
          if j != i {
            assert r.children[j] == n.children[j];
          }
        }
      case None =>
        var empty := Node(segs[0], []);
        assert Paths(empty) == {};
        InsertKeepsSiblingsDistinct(empty, segs[1..], leaf);
        assert ChildNames(r.children) == ChildNames(n.children) + [segs[0]];
        forall j | 0 <= j < |r.children| ensures SiblingsDistinct(r.children[j]) {
          if j < |n.children| {
            assert r.children[j] == n.children[j];
          }
        }
    }
  }
}
