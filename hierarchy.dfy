/**
  Path-directed access to a hierarchy of nodes.

  The file tree reaches a node by walking down from the root one level at a
  time, asking each directory for the child whose path is the target cut one
  level below it (the loop of FT_traversePath). `Reach` is that walk, `Get`
  is an exact-match lookup built on it, and `Replace` rebuilds the hierarchy
  with the node at the end of the walk swapped for another: the value-level
  counterpart of updating a node in place through a pointer. `Chain` is the
  run of fresh nodes the insert operations build below the deepest existing
  ancestor of the target path.
 */
module Hierarchy {
  import opened Defs
  import opened Paths
  import opened Nodes

  /** The walk toward `q` can go one level below `t`. */
  predicate Descends(t: Node, q: Path) {
    |t.path| < |q| && !t.isFile && HasChild(t, q[..|t.path| + 1]).found
  }

  /** The child the walk toward `q` moves to from `t`. */
  function Step(t: Node, q: Path): (c: Node)
    requires Descends(t, q)
    ensures c < t && c.path == q[..|t.path| + 1]
    ensures c == ChildrenOf(t)[HasChild(t, q[..|t.path| + 1]).index]
  {
    ChildrenOf(t)[HasChild(t, q[..|t.path| + 1]).index]
  }

  /** The furthest node the walk from `t` toward `q` reaches: `t` itself, or
      a node whose path is a longer prefix of `q`; the walk cannot go on from it. */
  function Reach(t: Node, q: Path): (r: Node)
    ensures r == t || (|t.path| < |r.path| <= |q| && r.path == q[..|r.path|])
    ensures !Descends(r, q)
    decreases t
  {
    if Descends(t, q) then Reach(Step(t, q), q) else t
  }

  /** The node with path exactly `q`, if the walk finds one. */
  function Get(t: Node, q: Path): (r: Option<Node>)
    ensures r.Some? ==> r.value.path == q && r.value == Reach(t, q)
    ensures r.None? ==> Reach(t, q).path != q
  {
    var n := Reach(t, q);
    if n.path == q then Some(n) else None
  }

  /** The hierarchy with the node the walk toward `q` finds replaced by `v`;
      unchanged when the walk finds no node with path `q`. */
  function Replace(t: Node, q: Path, v: Node): Node
    decreases t
  {
    if Descends(t, q) then
      var i := HasChild(t, q[..|t.path| + 1]).index;
      var cs := ChildrenOf(t);
      t.(children := Array(cs[i := Replace(cs[i], q, v)]))
    else if t.path == q then v
    else t
  }

  /** The walk toward the top's own path stops at the top. */
  lemma {:induction false} GetTop(t: Node)
    ensures Get(t, t.path) == Some(t)
  {
    assert !Descends(t, t.path);
  }

  /** Replacing at the top's own path puts the new node in its place. */
  lemma {:induction false} ReplaceAtTop(t: Node, v: Node)
    ensures Replace(t, t.path, v) == v
  {
    assert !Descends(t, t.path);
  }

  /** The walk toward a path on the way to `q` ends at the node it passes. */
  lemma {:induction false} GetReach(t: Node, q: Path)
    ensures Get(t, Reach(t, q).path) == Some(Reach(t, q))
    decreases t
  {
    var r := Reach(t, q);
    if Descends(t, q) {
      var c := Step(t, q);
      assert q[..|t.path| + 1] == r.path[..|t.path| + 1];
      assert Descends(t, r.path) && Step(t, r.path) == c;
      GetReach(c, q);
    }
  }

  /** Replacing keeps the path at the top; when the walk does not end at the
      top, the top keeps every field but its children. */
  lemma {:induction false} ReplaceTop(t: Node, q: Path, v: Node)
    requires v.path == q
    ensures Replace(t, q, v).path == t.path
    ensures (t.path == q ==> v.parent == t.parent) ==> Replace(t, q, v).parent == t.parent
    ensures t.path != q ==> Replace(t, q, v).isFile == t.isFile
  {
  }

  /** Replacing a child by one with the same path leaves every search over
      the children as it was. */
  lemma {:induction false} HasChildUpdate(t: Node, i: nat, x: Node, key: Path)
    requires !t.isFile && i < |ChildrenOf(t)| && x.path == ChildrenOf(t)[i].path
    ensures HasChild(t.(children := Array(ChildrenOf(t)[i := x])), key) == HasChild(t, key)
  {
    var cs := ChildrenOf(t);
    LowerBoundSamePaths(cs[i := x], cs, key);
  }

  /** Where the walk finds no node with path `q`, replacing changes nothing. */
  lemma {:induction false} ReplaceMiss(t: Node, q: Path, v: Node)
    requires Get(t, q).None?
    ensures Replace(t, q, v) == t
    decreases t
  {
    if Descends(t, q) {
      var i := HasChild(t, q[..|t.path| + 1]).index;
      var cs := ChildrenOf(t);
      ReplaceMiss(cs[i], q, v);
      assert cs[i := cs[i]] == cs;
    }
  }

  /** Putting back the node the walk finds gives the hierarchy back. */
  lemma {:induction false} ReplaceSelf(t: Node, q: Path)
    requires Get(t, q).Some?
    ensures Replace(t, q, Get(t, q).value) == t
    decreases t
  {
    if Descends(t, q) {
      var i := HasChild(t, q[..|t.path| + 1]).index;
      var cs := ChildrenOf(t);
      ReplaceSelf(cs[i], q);
      assert cs[i := cs[i]] == cs;
    }
  }

  /** After replacing the node at `p1` by `v`, every walk toward a path below
      `p1` continues inside `v`. */
  lemma {:induction false} GetCompose(t: Node, p1: Path, v: Node, p2: Path)
    requires Get(t, p1).Some? && v.path == p1 && IsPrefix(p1, p2)
    ensures Get(Replace(t, p1, v), p2) == Get(v, p2)
    decreases t
  {
    if Descends(t, p1) {
      var key := p1[..|t.path| + 1];
      var i := HasChild(t, key).index;
      var cs := ChildrenOf(t);
      var c' := Replace(cs[i], p1, v);
      ReplaceTop(cs[i], p1, v);
      var t' := t.(children := Array(cs[i := c']));
      assert Replace(t, p1, v) == t';
      HasChildUpdate(t, i, c', key);
      assert p2[..|t.path| + 1] == key;
      assert ChildrenOf(t') == cs[i := c'];
      assert Descends(t', p2);
      assert Step(t', p2) == c';
      assert Reach(t', p2) == Reach(c', p2);
      GetCompose(cs[i], p1, v, p2);
    }
  }

  /** Replacing below `p1` after replacing at `p1` is replacing at `p1` by the
      already updated node. */
  lemma {:induction false} ReplaceCompose(t: Node, p1: Path, v: Node, p2: Path, w: Node)
    requires Get(t, p1).Some? && v.path == p1 && IsPrefix(p1, p2)
    ensures Replace(Replace(t, p1, v), p2, w) == Replace(t, p1, Replace(v, p2, w))
    decreases t
  {
    if Descends(t, p1) {
      var key := p1[..|t.path| + 1];
      var i := HasChild(t, key).index;
      var cs := ChildrenOf(t);
      var c' := Replace(cs[i], p1, v);
      ReplaceTop(cs[i], p1, v);
      var t' := t.(children := Array(cs[i := c']));
      assert Replace(t, p1, v) == t';
      HasChildUpdate(t, i, c', key);
      assert p2[..|t.path| + 1] == key;
      assert ChildrenOf(t') == cs[i := c'];
      assert Descends(t', p2) && HasChild(t', key).index == i;
      ReplaceCompose(cs[i], p1, v, p2, w);
      assert Replace(t', p2, w) == t.(children := Array(cs[i := c'][i := Replace(c', p2, w)]));
      assert cs[i := c'][i := Replace(c', p2, w)] == cs[i := Replace(cs[i], p1, Replace(v, p2, w))];
    }
  }

  /** Replacing twice at the same path keeps only the second node. */
  lemma {:induction false} ReplaceTwice(t: Node, q: Path, v: Node, w: Node)
    requires Get(t, q).Some? && v.path == q
    ensures Replace(Replace(t, q, v), q, w) == Replace(t, q, w)
  {
    ReplaceCompose(t, q, v, q, w);
  }

  /** Every node on the walk from a well-formed node is well-formed. */
  lemma {:induction false} ReachWellFormed(t: Node, q: Path)
    requires WellFormed(t)
    ensures WellFormed(Reach(t, q))
    decreases t
  {
    if Descends(t, q) {
      ReachWellFormed(Step(t, q), q);
    }
  }

  /** In a well-formed hierarchy only paths below the top can be found. */
  lemma {:induction false} GetBelowTop(t: Node, q: Path)
    requires WellFormed(t) && Get(t, q).Some?
    ensures IsPrefix(t.path, q)
  {
    if Descends(t, q) {
      var c := Step(t, q);
      assert ChildLinked(t, c);
      assert q[..|t.path|] == c.path[..|t.path|];
    }
  }

  /** Swapping a node of a well-formed hierarchy for a well-formed node with
      the same path and parent keeps the hierarchy well-formed. */
  lemma {:induction false} ReplaceWellFormed(t: Node, q: Path, v: Node)
    requires WellFormed(t) && Get(t, q).Some? && WellFormed(v)
    requires v.path == q && v.parent == Get(t, q).value.parent
    ensures WellFormed(Replace(t, q, v))
    decreases t
  {
    if Descends(t, q) {
      var key := q[..|t.path| + 1];
      var i := HasChild(t, key).index;
      var cs := ChildrenOf(t);
      var c' := Replace(cs[i], q, v);
      ReplaceWellFormed(cs[i], q, v);
      ReplaceTop(cs[i], q, v);
      var t' := Replace(t, q, v);
      var cs' := cs[i := c'];
      assert ChildrenOf(t') == cs';
      assert Ascending(cs') by {
        forall a, b | 0 <= a < b < |cs'| ensures SortsBefore(cs', a, b) {
          assert cs'[a].path == cs[a].path && cs'[b].path == cs[b].path && SortsBefore(cs, a, b);
        }
      }
      forall j | 0 <= j < |cs'| ensures ChildLinked(t', cs'[j]) && WellFormed(cs'[j]) {
        if j != i { assert cs'[j] == cs[j]; }
      }
    }
  }

  /** In a well-formed hierarchy the walk only descends toward paths below
      the top. */
  lemma {:induction false} DescendsBelow(t: Node, q: Path)
    requires WellFormed(t) && Descends(t, q)
    ensures IsPrefix(t.path, q)
  {
    var c := Step(t, q);
    assert ChildLinked(t, c);
    assert q[..|t.path| + 1][..|t.path|] == q[..|t.path|];
  }

  /** Replacing the node at `p1` leaves every walk toward a path outside
      `p1`'s subtree finding a node exactly where it found one before, of
      the same kind; and the very same node when that path is not on the
      way to `p1` either. */
  lemma {:induction false} GetReplaceAside(t: Node, p1: Path, v: Node, p2: Path)
    requires WellFormed(t) && WellFormed(v) && Get(t, p1).Some? && v.path == p1 && !IsPrefix(p1, p2)
    ensures Get(Replace(t, p1, v), p2).Some? <==> Get(t, p2).Some?
    ensures Get(t, p2).Some? ==> Get(Replace(t, p1, v), p2).value.isFile == Get(t, p2).value.isFile
    ensures !IsPrefix(p2, p1) ==> Get(Replace(t, p1, v), p2) == Get(t, p2)
    decreases t, 1
  {
    if Descends(t, p1) {
      GetReplaceAsideDown(t, p1, v, p2);
    } else {
      assert t.path == p1 && Replace(t, p1, v) == v;
      if Descends(t, p2) {
        DescendsBelow(t, p2);
      }
      if Descends(v, p2) {
        DescendsBelow(v, p2);
      }
    }
  }

  /** `GetReplaceAside` where the replaced node lies below the top. */
  lemma {:induction false} GetReplaceAsideDown(t: Node, p1: Path, v: Node, p2: Path)
    requires WellFormed(t) && WellFormed(v) && Get(t, p1).Some? && v.path == p1 && !IsPrefix(p1, p2)
    requires Descends(t, p1)
    ensures Get(Replace(t, p1, v), p2).Some? <==> Get(t, p2).Some?
    ensures Get(t, p2).Some? ==> Get(Replace(t, p1, v), p2).value.isFile == Get(t, p2).value.isFile
    ensures !IsPrefix(p2, p1) ==> Get(Replace(t, p1, v), p2) == Get(t, p2)
    decreases t, 0
  {
    DescendsBelow(t, p1);
    var i := HasChild(t, p1[..|t.path| + 1]).index;
    var cs := ChildrenOf(t);
    var c' := Replace(cs[i], p1, v);
    ReplaceTop(cs[i], p1, v);
    var t' := t.(children := Array(cs[i := c']));
    assert Replace(t, p1, v) == t';
    if Descends(t, p2) {
      HasChildUpdate(t, i, c', p2[..|t.path| + 1]);
      var j := HasChild(t, p2[..|t.path| + 1]).index;
      if j == i {
        assert Step(t', p2) == c';
        assert WellFormed(cs[i]);
        GetReplaceAside(cs[i], p1, v, p2);
      } else {
        assert Step(t', p2) == cs[j];
      }
    } else {
      GetReplaceAsideStop(t, i, c', p1, p2);
    }
  }

  /** The walk toward `p2` stops at the top both before and after one child
      is swapped for another with the same path. */
  lemma {:induction false} GetReplaceAsideStop(t: Node, i: nat, c': Node, p1: Path, p2: Path)
    requires !t.isFile && i < |ChildrenOf(t)| && c'.path == ChildrenOf(t)[i].path
    requires !Descends(t, p2) && IsPrefix(t.path, p1) && !IsPrefix(p1, p2)
    ensures Get(t.(children := Array(ChildrenOf(t)[i := c'])), p2).Some? <==> Get(t, p2).Some?
    ensures Get(t, p2).Some? ==> Get(t.(children := Array(ChildrenOf(t)[i := c'])), p2).value.isFile == Get(t, p2).value.isFile
    ensures !IsPrefix(p2, p1) ==> Get(t.(children := Array(ChildrenOf(t)[i := c'])), p2) == Get(t, p2)
  {
    var t' := t.(children := Array(ChildrenOf(t)[i := c']));
    if |t.path| < |p2| {
      HasChildUpdate(t, i, c', p2[..|t.path| + 1]);
    }
    assert !Descends(t', p2);
    if t.path == p2 {
      assert IsPrefix(p2, p1);
    }
  }

  /** Swapping a node changes the size by the difference of the two subtrees. */
  lemma {:induction false} ReplaceSize(t: Node, q: Path, v: Node)
    requires Get(t, q).Some?
    ensures Size(Replace(t, q, v)) == Size(t) - Size(Get(t, q).value) + Size(v)
    decreases t
  {
    if Descends(t, q) {
      var i := HasChild(t, q[..|t.path| + 1]).index;
      var cs := ChildrenOf(t);
      ReplaceSize(cs[i], q, v);
      SizeOfAllUpdate(cs, i, Replace(cs[i], q, v));
    }
  }

  /** In a well-formed hierarchy the node found at `q`, when it is not the
      top, hangs from the node found at `q` less its last component. */
  lemma {:induction false} GetParent(t: Node, q: Path)
    requires WellFormed(t) && Get(t, q).Some? && t.path != q
    ensures |q| >= 1
    ensures Get(t, q).value.parent == Some(q[..|q| - 1])
    ensures Get(t, q[..|q| - 1]).Some?
    ensures var p := Get(t, q[..|q| - 1]).value;
      && !p.isFile && HasChild(p, q).found
      && ChildrenOf(p)[HasChild(p, q).index] == Get(t, q).value
    decreases t
  {
    assert Descends(t, q);
    var c := Step(t, q);
    assert ChildLinked(t, c) && WellFormed(c);
    var pp := q[..|q| - 1];
    if c.path == q {
      assert pp == t.path;
      assert Reach(t, t.path) == t;
    } else {
      GetParent(c, q);
      assert |c.path| <= |pp|;
      assert pp[..|t.path| + 1] == c.path;
      assert Descends(t, pp) && Step(t, pp) == c;
    }
  }

  /** In a directory with a single child, the walk toward a path below that
      child moves to it. */
  lemma {:induction false} SingleChildStep(t: Node, c: Node, p: Path)
    requires !t.isFile && t.children == Array([c])
    requires |t.path| < |p| && c.path == p[..|t.path| + 1]
    ensures Descends(t, p) && HasChild(t, c.path).index == 0 && Step(t, p) == c
  {
    LessTrichotomy(c.path, c.path);
    assert LowerBound([c], c.path) == 0;
  }

  /** ... so the walk continues in it, */
  lemma {:induction false} SingleChildGet(t: Node, c: Node, p: Path)
    requires !t.isFile && t.children == Array([c])
    requires |t.path| < |p| && c.path == p[..|t.path| + 1]
    ensures Get(t, p) == Get(c, p)
  {
    SingleChildStep(t, c, p);
  }

  /** ... and so does every replacement. */
  lemma {:induction false} SingleChildReplace(t: Node, c: Node, p: Path, v: Node)
    requires !t.isFile && t.children == Array([c])
    requires |t.path| < |p| && c.path == p[..|t.path| + 1]
    ensures Replace(t, p, v) == t.(children := Array([Replace(c, p, v)]))
  {
    SingleChildStep(t, c, p);
    assert ChildrenOf(t) == [c];
    assert [c][0 := Replace(c, p, v)] == [Replace(c, p, v)];
  }

  /** The chain of fresh nodes an insert builds for `q` from level `lo` down
      to level `hi`: directories, except that the node at the full depth of
      `q` is a file carrying `contents` and `length` when `isFile`. */
  function Chain(q: Path, lo: nat, hi: nat, isFile: bool, contents: Option<Blob>, length: nat): (n: Node)
    requires 1 <= lo <= hi <= |q|
    ensures n.path == q[..lo]
    ensures n.parent == if lo == 1 then None else Some(q[..lo - 1])
    ensures n.isFile <==> lo == |q| && isFile
    decreases hi - lo
  {
    var parent := if lo == 1 then None else Some(q[..lo - 1]);
    if lo == hi then NewNode(q[..lo], parent, lo == |q| && isFile, contents, length)
    else Node(q[..lo], false, parent, Array([Chain(q, lo + 1, hi, isFile, contents, length)]), None, 0)
  }

  /** A chain of more than one level is a directory whose only child is the
      chain from the next level. */
  lemma {:induction false} ChainUnfold(q: Path, lo: nat, hi: nat, isFile: bool, contents: Option<Blob>, length: nat)
    requires 1 <= lo < hi <= |q|
    ensures Chain(q, lo, hi, isFile, contents, length)
      == Node(q[..lo], false, if lo == 1 then None else Some(q[..lo - 1]),
              Array([Chain(q, lo + 1, hi, isFile, contents, length)]), None, 0)
  {
  }

  /** A chain is a well-formed hierarchy, */
  lemma {:induction false} ChainWellFormed(q: Path, lo: nat, hi: nat, isFile: bool, contents: Option<Blob>, length: nat)
    requires 1 <= lo <= hi <= |q|
    requires contents.None? ==> length == 0
    ensures WellFormed(Chain(q, lo, hi, isFile, contents, length))
    decreases hi - lo
  {
    if lo < hi {
      var c := Chain(q, lo + 1, hi, isFile, contents, length);
      ChainWellFormed(q, lo + 1, hi, isFile, contents, length);
      assert IsParentOf(q[..lo], c.path);
    }
  }

  /** ... of one node per level. */
  lemma {:induction false} ChainSize(q: Path, lo: nat, hi: nat, isFile: bool, contents: Option<Blob>, length: nat)
    requires 1 <= lo <= hi <= |q|
    ensures Size(Chain(q, lo, hi, isFile, contents, length)) == hi - lo + 1
    decreases hi - lo
  {
    if lo < hi {
      ChainSize(q, lo + 1, hi, isFile, contents, length);
      SizeOfAllSingle(Chain(q, lo + 1, hi, isFile, contents, length));
    }
  }

  /** Linking the next fresh node, of level `n`, under the bottom of a
      one-level chain of level `k` gives the chain of those two levels. */
  lemma {:induction false} ChainBottomGrow(q: Path, k: nat, n: nat, isFile: bool, contents: Option<Blob>, length: nat)
    requires 1 <= k < |q| && n == k + 1
    ensures WithChild(Chain(q, k, k, isFile, contents, length), Chain(q, n, n, isFile, contents, length))
      == Chain(q, k, n, isFile, contents, length)
  {
    assert ChildrenOf(Chain(q, k, k, isFile, contents, length)) == [];
  }

  /** Putting the two-level chain in place of a chain's bottom gives the
      chain one level longer. */
  lemma {:induction false} ChainGrow(q: Path, lo: nat, k: nat, n: nat, isFile: bool, contents: Option<Blob>, length: nat)
    requires 1 <= lo <= k < |q| && n == k + 1
    ensures Replace(Chain(q, lo, k, isFile, contents, length), q[..k], Chain(q, k, n, isFile, contents, length))
      == Chain(q, lo, n, isFile, contents, length)
    decreases k - lo, 1
  {
    if lo < k {
      ChainGrowStep(q, lo, k, n, isFile, contents, length);
    } else {
      ReplaceAtTop(Chain(q, lo, k, isFile, contents, length), Chain(q, k, n, isFile, contents, length));
    }
  }

  lemma {:induction false} ChainGrowStep(q: Path, lo: nat, k: nat, n: nat, isFile: bool, contents: Option<Blob>, length: nat)
    requires 1 <= lo < k < |q| && n == k + 1
    ensures Replace(Chain(q, lo, k, isFile, contents, length), q[..k], Chain(q, k, n, isFile, contents, length))
      == Chain(q, lo, n, isFile, contents, length)
    decreases k - lo, 0
  {
    ChainGrow(q, lo + 1, k, n, isFile, contents, length);
    var top := Chain(q, lo, k, isFile, contents, length);
    var x := Chain(q, k, n, isFile, contents, length);
    var below := Replace(Chain(q, lo + 1, k, isFile, contents, length), q[..k], x);
    assert below == Chain(q, lo + 1, n, isFile, contents, length);
    ChainReplaceDown(q, lo, k, isFile, contents, length, x);
    assert Replace(top, q[..k], x) == top.(children := Array([below]));
    ChainRetop(q, lo, k, n, isFile, contents, length);
    assert Chain(q, lo, n, isFile, contents, length) == top.(children := Array([below]));
  }

  /** A chain one level deeper has the same top, over the deeper chain. */
  lemma {:induction false} ChainRetop(q: Path, lo: nat, k: nat, n: nat, isFile: bool, contents: Option<Blob>, length: nat)
    requires 1 <= lo < k < |q| && n == k + 1
    ensures Chain(q, lo, n, isFile, contents, length)
      == Chain(q, lo, k, isFile, contents, length).(children := Array([Chain(q, lo + 1, n, isFile, contents, length)]))
  {
    ChainUnfold(q, lo, k, isFile, contents, length);
    ChainUnfold(q, lo, n, isFile, contents, length);
  }

  /** Replacing a level below the top of a chain replaces it in the top's
      only child. */
  lemma {:induction false} ChainReplaceDown(q: Path, lo: nat, k: nat, isFile: bool, contents: Option<Blob>, length: nat, v: Node)
    requires 1 <= lo < k <= |q|
    ensures Replace(Chain(q, lo, k, isFile, contents, length), q[..k], v)
      == Chain(q, lo, k, isFile, contents, length).(children := Array([Replace(Chain(q, lo + 1, k, isFile, contents, length), q[..k], v)]))
  {
    var top := Chain(q, lo, k, isFile, contents, length);
    ChainUnfold(q, lo, k, isFile, contents, length);
    TakeTake(q, lo + 1, k);
    SingleChildReplace(top, Chain(q, lo + 1, k, isFile, contents, length), q[..k], v);
  }

  /** The walk into a chain toward `q[..j]` ends at the chain node of level `j`. */
  lemma {:induction false} ChainGet(q: Path, lo: nat, j: nat, hi: nat, isFile: bool, contents: Option<Blob>, length: nat)
    requires 1 <= lo <= j <= hi <= |q|
    ensures Get(Chain(q, lo, hi, isFile, contents, length), q[..j]) == Some(Chain(q, j, hi, isFile, contents, length))
    decreases j - lo, 1
  {
    if lo < j {
      ChainGetStep(q, lo, j, hi, isFile, contents, length);
    } else {
      GetTop(Chain(q, lo, hi, isFile, contents, length));
    }
  }

  lemma {:induction false} ChainGetStep(q: Path, lo: nat, j: nat, hi: nat, isFile: bool, contents: Option<Blob>, length: nat)
    requires 1 <= lo < j <= hi <= |q|
    ensures Get(Chain(q, lo, hi, isFile, contents, length), q[..j]) == Some(Chain(q, j, hi, isFile, contents, length))
    decreases j - lo, 0
  {
    ChainGet(q, lo + 1, j, hi, isFile, contents, length);
    ChainGetDown(q, lo, j, hi, isFile, contents, length);
  }

  /** The walk into a chain toward a deeper level continues in its only child. */
  lemma {:induction false} ChainGetDown(q: Path, lo: nat, j: nat, hi: nat, isFile: bool, contents: Option<Blob>, length: nat)
    requires 1 <= lo < j <= hi <= |q|
    ensures Get(Chain(q, lo, hi, isFile, contents, length), q[..j]) == Get(Chain(q, lo + 1, hi, isFile, contents, length), q[..j])
  {
    ChainUnfold(q, lo, hi, isFile, contents, length);
    TakeTake(q, lo + 1, j);
    SingleChildGet(Chain(q, lo, hi, isFile, contents, length), Chain(q, lo + 1, hi, isFile, contents, length), q[..j]);
  }

  /** Replacing below a freshly linked child happens inside that child. */
  lemma {:induction false} WithChildReplace(a: Node, x: Node, p: Path, v: Node)
    requires !a.isFile && |a.path| < |p| && x.path == p[..|a.path| + 1] && v.path == p
    ensures Replace(WithChild(a, x), p, v) == WithChild(a, Replace(x, p, v))
  {
    var b := WithChild(a, x);
    var i := HasChild(a, x.path).index;
    var cs := ChildrenOf(a);
    WithChildFound(a, x);
    assert Descends(b, p) && HasChild(b, p[..|a.path| + 1]).index == i;
    var x' := Replace(x, p, v);
    ReplaceTop(x, p, v);
    assert Replace(b, p, v) == a.(children := Array((cs[..i] + [x] + cs[i..])[i := x']));
    assert WithChild(a, x') == a.(children := Array(cs[..i] + [x'] + cs[i..]));
    InsertedUpdate(cs, i, x, x');
  }

  /** The walk into a directory toward a path below a freshly linked child
      continues in that child. */
  lemma {:induction false} GetWithChild(a: Node, x: Node, p: Path)
    requires !a.isFile && |a.path| < |p| && x.path == p[..|a.path| + 1]
    ensures Get(WithChild(a, x), p) == Get(x, p)
  {
    WithChildFound(a, x);
    assert Descends(WithChild(a, x), p) && Step(WithChild(a, x), p) == x;
  }

  /** Linking a child with a new path into a directory leaves the walk
      toward any path below the directory but outside the new child
      finding exactly what it found before. */
  lemma {:induction false} GetWithChildAside(a: Node, x: Node, p: Path)
    requires !a.isFile && Ascending(ChildrenOf(a)) && !HasChild(a, x.path).found
    requires |a.path| < |p| && p[..|a.path| + 1] != x.path
    ensures Get(WithChild(a, x), p) == Get(a, p)
  {
    var b := WithChild(a, x);
    WithChildKeeps(a, x, p[..|a.path| + 1]);
    if Descends(a, p) {
      assert Descends(b, p) && Step(b, p) == Step(a, p);
    } else {
      assert !Descends(b, p);
    }
  }
}
