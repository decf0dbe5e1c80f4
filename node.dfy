/**
  The node layer of the file tree (3FT/node.c).

  A node is a value: its path, its kind, its parent back-reference, its
  child array (directories only, kept ascending by path), and for files an
  opaque contents reference with its length. The parent back-reference is
  held as the parent's path, which identifies the parent uniquely in a
  well-formed tree. Linking a new child into its parent "in place" is
  modelled by returning the parent with the child linked in; the tree layer
  stores that parent back where it was.
 */
module Nodes {
  import opened Defs
  import opened Paths

  /** Opaque file contents (a `void *`), known only by its address. */
  datatype Blob = Blob(address: nat)

  /** A node's child array: absent (NULL) or present with its elements. */
  datatype Children = NoArray | Array(nodes: seq<Node>)

  datatype Node = Node(
    path: Path,
    isFile: bool,
    parent: Option<Path>,
    children: Children,
    contents: Option<Blob>,
    length: nat)

  /** Which allocation inside one Node_new call fails, if any: the node
      struct, the copy of its path, a directory's child array, or the slot
      in the parent's child array. */
  datatype Alloc = NoFault | NodeFails | PathDupFails | ChildArrayFails | LinkFails

  /** The allocation `alloc` names is one a Node_new call for a node of
      this kind, with or without a parent, actually makes. */
  predicate AllocFails(alloc: Alloc, isFile: bool, hasParent: bool) {
    || alloc == NodeFails || alloc == PathDupFails
    || (!isFile && alloc == ChildArrayFails)
    || (hasParent && alloc == LinkFails)
  }

  /** The outcome of the binary search over a child array: whether a child
      with the key exists, and its index or the index it would be inserted at. */
  datatype Search = Search(found: bool, index: nat)

  /** The children as Node_getChild hands them out: none for a file or for
      a missing array. */
  function ChildrenOf(n: Node): (cs: seq<Node>)
    ensures forall i :: 0 <= i < |cs| ==> cs[i] < n
  {
    if n.isFile || n.children.NoArray? then [] else n.children.nodes
  }

  /** Node_getNumChildren: a file reports no children. */
  function NumChildren(n: Node): (k: nat)
    ensures n.isFile ==> k == 0
    ensures !n.isFile && n.children.Array? ==> k == |n.children.nodes|
    ensures k == |ChildrenOf(n)|
  {
    if n.isFile then 0 else |ChildrenOf(n)|
  }

  /** Node_getChild: the child with the given identifier, or NO_SUCH_PATH
      when the identifier is not below the number of children. */
  function GetChild(n: Node, id: nat): (r: Result<Node>)
    requires !n.isFile
    ensures r.Err? <==> id >= NumChildren(n)
    ensures r.Err? ==> r.status == NoSuchPath
    ensures r.Ok? ==> r.value == ChildrenOf(n)[id] && r.value < n
  {
    if id >= NumChildren(n) then Err(NoSuchPath) else Ok(ChildrenOf(n)[id])
  }

  /** Node_compare: the order of two nodes is the order of their paths. */
  function NodeCompare(a: Node, b: Node): (r: int)
    ensures -1 <= r <= 1
    ensures r == 0 <==> a.path == b.path
    ensures r < 0 <==> Less(a.path, b.path)
  {
    Compare(a.path, b.path)
  }

  /** Node_compareString and Node_hasChild order nodes by their pathname
      strings instead; on two paths with the same parent the string order
      and `NodeCompare` give the same sign. */
  lemma {:induction false} NodeCompareSiblings(a: Node, b: Node, p: Path)
    requires IsParentOf(p, a.path) && IsParentOf(p, b.path)
    ensures NodeCompare(a, b) == CompareString(PathName(a.path), PathName(b.path))
  {
    assert a.path == p + [a.path[|p|]];
    assert b.path == p + [b.path[|p|]];
    SiblingOrderAgrees(p, a.path[|p|], b.path[|p|]);
  }

  /** Every key the tree searches a child array for is one level below the
      node, so each comparison of the search orders the child and the key as
      their pathname strings would. */
  lemma {:induction false} ChildKeyOrderAgrees(n: Node, key: Path, i: nat)
    requires WellFormed(n) && i < |ChildrenOf(n)| && IsParentOf(n.path, key)
    ensures Compare(ChildrenOf(n)[i].path, key) == CompareString(PathName(ChildrenOf(n)[i].path), PathName(key))
  {
    var c := ChildrenOf(n)[i];
    assert ChildLinked(n, c);
    assert c.path == n.path + [c.path[|n.path|]];
    assert key == n.path + [key[|n.path|]];
    SiblingOrderAgrees(n.path, c.path[|n.path|], key[|n.path|]);
  }

  /** The element at `i` sorts strictly before the one at `j`. */
  predicate SortsBefore(cs: seq<Node>, i: int, j: int) {
    0 <= i < |cs| && 0 <= j < |cs| && Less(cs[i].path, cs[j].path)
  }

  /** Strictly ascending by path, hence free of duplicates. */
  predicate Ascending(cs: seq<Node>) {
    forall i, j :: 0 <= i < j < |cs| ==> SortsBefore(cs, i, j)
  }

  /** Two entries of an ascending array with the same path are one entry. */
  lemma {:induction false} AscendingUnique(cs: seq<Node>, a: nat, b: nat)
    requires Ascending(cs) && a < |cs| && b < |cs| && cs[a].path == cs[b].path
    ensures a == b
  {
    if a < b {
      assert SortsBefore(cs, a, b);
      LessTrichotomy(cs[a].path, cs[b].path);
    } else if b < a {
      assert SortsBefore(cs, b, a);
      LessTrichotomy(cs[b].path, cs[a].path);
    }
  }

  /** The first index whose path does not sort before `key`: the result of
      the binary search over an ascending child array. */
  function LowerBound(cs: seq<Node>, key: Path): (i: nat)
    ensures i <= |cs|
  {
    LowerBoundFrom(cs, key, 0)
  }

  /** The first index from `k` on whose path does not sort before `key`. */
  function LowerBoundFrom(cs: seq<Node>, key: Path, k: nat): (i: nat)
    requires k <= |cs|
    ensures k <= i <= |cs|
    decreases |cs| - k
  {
    if k == |cs| || !Less(cs[k].path, key) then k else LowerBoundFrom(cs, key, k + 1)
  }

  /** From `k` up to the bound every element sorts below the key; the one at
      the bound does not. */
  lemma {:induction false} LowerBoundFromCorrect(cs: seq<Node>, key: Path, k: nat)
    requires k <= |cs|
    ensures forall j :: k <= j < LowerBoundFrom(cs, key, k) ==> Less(cs[j].path, key)
    ensures LowerBoundFrom(cs, key, k) < |cs| ==> !Less(cs[LowerBoundFrom(cs, key, k)].path, key)
    decreases |cs| - k
  {
    if k < |cs| && Less(cs[k].path, key) {
      LowerBoundFromCorrect(cs, key, k + 1);
    }
  }

  /** Every element before the lower bound sorts below the key; the one at
      it does not. */
  lemma {:induction false} LowerBoundCorrect(cs: seq<Node>, key: Path)
    ensures var i := LowerBound(cs, key);
      && (forall j :: 0 <= j < i ==> Less(cs[j].path, key))
      && (i < |cs| ==> !Less(cs[i].path, key))
  {
    LowerBoundFromCorrect(cs, key, 0);
  }

  /** In an ascending array the lower bound lands on the child with the key
      whenever there is one. */
  lemma {:induction false} LowerBoundFinds(cs: seq<Node>, key: Path)
    requires Ascending(cs)
    ensures var i := LowerBound(cs, key);
      (i < |cs| && cs[i].path == key) <==> exists j :: 0 <= j < |cs| && cs[j].path == key
  {
    var i := LowerBound(cs, key);
    LowerBoundCorrect(cs, key);
    if j :| 0 <= j < |cs| && cs[j].path == key {
      LessTrichotomy(key, key);
      assert i < j ==> SortsBefore(cs, i, j);
    }
  }

  /** Node_hasChild: whether the directory has a child with path `key`, with
      the child's index if so and the insertion index if not. */
  function HasChild(n: Node, key: Path): (r: Search)
    requires !n.isFile
    ensures r.index <= NumChildren(n)
    ensures r.found <==> r.index < NumChildren(n) && ChildrenOf(n)[r.index].path == key
    ensures r.index == LowerBound(ChildrenOf(n), key)
  {
    var cs := ChildrenOf(n);
    var i := LowerBound(cs, key);
    Search(i < |cs| && cs[i].path == key, i)
  }

  /** The search reports the insertion point: every child before the index
      sorts below the key, the one at the index does not; over an ascending
      array it finds the key exactly when some child has it. */
  lemma {:induction false} HasChildCorrect(n: Node, key: Path)
    requires !n.isFile
    ensures var r := HasChild(n, key);
      && (forall j :: 0 <= j < r.index ==> Less(ChildrenOf(n)[j].path, key))
      && (r.index < NumChildren(n) ==> !Less(ChildrenOf(n)[r.index].path, key))
      && (Ascending(ChildrenOf(n)) ==>
           (r.found <==> exists j :: 0 <= j < NumChildren(n) && ChildrenOf(n)[j].path == key))
  {
    LowerBoundCorrect(ChildrenOf(n), key);
    if Ascending(ChildrenOf(n)) {
      LowerBoundFinds(ChildrenOf(n), key);
    }
  }

  /** The directory `p` with `c` linked into its child array at the index the
      search for `c`'s path reports (Node_addChild at Node_hasChild's index). */
  function WithChild(p: Node, c: Node): (r: Node)
    requires !p.isFile
    ensures r.path == p.path && r.parent == p.parent && !r.isFile
    ensures r.contents == p.contents && r.length == p.length
    ensures var i := HasChild(p, c.path).index;
      ChildrenOf(r) == ChildrenOf(p)[..i] + [c] + ChildrenOf(p)[i..]
  {
    var cs := ChildrenOf(p);
    var i := HasChild(p, c.path).index;
    p.(children := Array(cs[..i] + [c] + cs[i..]))
  }

  /** The directory `p` with the child whose path is `key` unlinked, as the
      search by Node_compare finds it; unchanged when there is none. */
  function WithoutChild(p: Node, key: Path): (r: Node)
    requires !p.isFile
    ensures r.path == p.path && r.parent == p.parent && r.isFile == p.isFile
    ensures r.contents == p.contents && r.length == p.length
    ensures var s := HasChild(p, key);
      ChildrenOf(r) == if s.found then ChildrenOf(p)[..s.index] + ChildrenOf(p)[s.index + 1..] else ChildrenOf(p)
  {
    var cs := ChildrenOf(p);
    var s := HasChild(p, key);
    if s.found then p.(children := Array(cs[..s.index] + cs[s.index + 1..])) else p
  }

  /** Overwriting the element just inserted is inserting the new one. */
  lemma {:induction false} InsertedUpdate(cs: seq<Node>, i: nat, x: Node, y: Node)
    requires i <= |cs|
    ensures (cs[..i] + [x] + cs[i..])[i := y] == cs[..i] + [y] + cs[i..]
  {
    assert |cs[..i]| == i;
  }

  /** Linking a child whose path is absent keeps the array ascending. */
  lemma {:induction false} InsertKeepsAscending(cs: seq<Node>, c: Node)
    requires Ascending(cs)
    requires var i := LowerBound(cs, c.path); i < |cs| ==> cs[i].path != c.path
    ensures var i := LowerBound(cs, c.path); Ascending(cs[..i] + [c] + cs[i..])
  {
    var i := LowerBound(cs, c.path);
    LowerBoundCorrect(cs, c.path);
    if i < |cs| {
      LessTrichotomy(cs[i].path, c.path);
    }
    var r := cs[..i] + [c] + cs[i..];
    forall a, b | 0 <= a < b < |r| ensures SortsBefore(r, a, b) {
      InsertPair(cs, c, i, a, b);
    }
  }

  /** One pair of the array with `c` linked in at `i`, where everything
      before `i` sorts below `c` and `c` below everything from `i` on. */
  lemma {:induction false} InsertPair(cs: seq<Node>, c: Node, i: nat, a: nat, b: nat)
    requires Ascending(cs) && i <= |cs|
    requires forall j :: 0 <= j < i ==> Less(cs[j].path, c.path)
    requires i < |cs| ==> Less(c.path, cs[i].path)
    requires a < b < |cs| + 1
    ensures var r := cs[..i] + [c] + cs[i..]; Less(r[a].path, r[b].path)
  {
    var r := cs[..i] + [c] + cs[i..];
    if b < i {
      assert r[a] == cs[a] && r[b] == cs[b] && SortsBefore(cs, a, b);
    } else if b == i {
      assert r[a] == cs[a] && r[b] == c;
    } else if a == i {
      assert r[a] == c && r[b] == cs[b - 1];
      if b - 1 > i {
        assert SortsBefore(cs, i, b - 1);
        LessTransitive(c.path, cs[i].path, cs[b - 1].path);
      }
    } else if a < i {
      assert r[a] == cs[a] && r[b] == cs[b - 1] && SortsBefore(cs, a, b - 1);
    } else {
      assert r[a] == cs[a - 1] && r[b] == cs[b - 1] && SortsBefore(cs, a - 1, b - 1);
    }
  }

  /** Unlinking a child keeps the array ascending. */
  lemma {:induction false} RemoveKeepsAscending(cs: seq<Node>, i: nat)
    requires Ascending(cs) && i < |cs|
    ensures Ascending(cs[..i] + cs[i + 1..])
  {
    var r := cs[..i] + cs[i + 1..];
    forall a, b | 0 <= a < b < |r| ensures SortsBefore(r, a, b) {
      if b < i {
        assert r[a] == cs[a] && r[b] == cs[b] && SortsBefore(cs, a, b);
      } else if a < i {
        assert r[a] == cs[a] && r[b] == cs[b + 1] && SortsBefore(cs, a, b + 1);
      } else {
        assert r[a] == cs[a + 1] && r[b] == cs[b + 1] && SortsBefore(cs, a + 1, b + 1);
      }
    }
  }

  /** The lower bound is the only index with everything before it sorting
      below the key and the element at it not. */
  lemma {:induction false} LowerBoundAt(cs: seq<Node>, key: Path, i: nat)
    requires i <= |cs|
    requires forall j :: 0 <= j < i ==> Less(cs[j].path, key)
    requires i < |cs| ==> !Less(cs[i].path, key)
    ensures LowerBound(cs, key) == i
  {
    LowerBoundFromAt(cs, key, 0, i);
  }

  lemma {:induction false} LowerBoundFromAt(cs: seq<Node>, key: Path, k: nat, i: nat)
    requires k <= i <= |cs|
    requires forall j :: k <= j < i ==> Less(cs[j].path, key)
    requires i < |cs| ==> !Less(cs[i].path, key)
    ensures LowerBoundFrom(cs, key, k) == i
    decreases i - k
  {
    if k < i {
      LowerBoundFromAt(cs, key, k + 1, i);
    }
  }

  /** The search depends only on the children's paths. */
  lemma {:induction false} LowerBoundSamePaths(cs: seq<Node>, ds: seq<Node>, key: Path)
    requires |cs| == |ds|
    requires forall j :: 0 <= j < |cs| ==> cs[j].path == ds[j].path
    ensures LowerBound(cs, key) == LowerBound(ds, key)
  {
    LowerBoundCorrect(ds, key);
    LowerBoundAt(cs, key, LowerBound(ds, key));
  }

  /** Searching for a child just linked finds it at the index it was linked at. */
  lemma {:induction false} WithChildFound(p: Node, c: Node)
    requires !p.isFile
    ensures var i := HasChild(p, c.path).index;
      HasChild(WithChild(p, c), c.path) == Search(true, i) && ChildrenOf(WithChild(p, c))[i] == c
  {
    var cs := ChildrenOf(p);
    var i := HasChild(p, c.path).index;
    var r := cs[..i] + [c] + cs[i..];
    assert ChildrenOf(WithChild(p, c)) == r;
    LowerBoundCorrect(cs, c.path);
    LessTrichotomy(c.path, c.path);
    assert r[i] == c;
    forall j | 0 <= j < i ensures Less(r[j].path, c.path) {
      assert r[j] == cs[j];
    }
    LowerBoundAt(r, c.path, i);
  }

  /** Unlinking the child just linked gives the directory back. */
  lemma {:induction false} WithoutWithChild(p: Node, c: Node)
    requires !p.isFile && p.children.Array?
    requires !HasChild(p, c.path).found
    ensures WithoutChild(WithChild(p, c), c.path) == p
  {
    var cs := ChildrenOf(p);
    var i := HasChild(p, c.path).index;
    var r := cs[..i] + [c] + cs[i..];
    WithChildFound(p, c);
    assert r[..i] + r[i + 1..] == cs;
  }

  /** The parent component of the fresh node NodeNew makes. */
  function ParentPath(parent: Option<Node>): Option<Path> {
    if parent.Some? then Some(parent.value.path) else None
  }

  /** The node Node_new fills in: a file keeps the given contents and length
      and has no child array; a directory has an empty child array, no
      contents and length 0. */
  function NewNode(path: Path, parent: Option<Path>, isFile: bool, contents: Option<Blob>, length: nat): Node {
    if isFile then Node(path, true, parent, NoArray, contents, length)
    else Node(path, false, parent, Array([]), None, 0)
  }

  /** The file/directory shape rules: a file has no child array, a directory
      has one and neither contents nor length, and no contents means length 0. */
  predicate ShapeOk(n: Node) {
    && (n.isFile ==> n.children.NoArray?)
    && (!n.isFile ==> n.children.Array? && n.contents.None? && n.length == 0)
    && (n.contents.None? ==> n.length == 0)
  }

  /** `c` is linked as a child of `p`: its back-reference names `p`, and its
      path is `p`'s path plus one component. */
  predicate ChildLinked(p: Node, c: Node) {
    c.parent == Some(p.path) && IsParentOf(p.path, c.path)
  }

  /** The node invariant over a whole subtree. */
  predicate WellFormed(n: Node) {
    && ShapeOk(n)
    && Ascending(ChildrenOf(n))
    && forall i :: 0 <= i < |ChildrenOf(n)| ==>
         ChildLinked(n, ChildrenOf(n)[i]) && WellFormed(ChildrenOf(n)[i])
  }

  /** The number of nodes in a subtree. */
  function Size(n: Node): nat {
    1 + if n.isFile || n.children.NoArray? then 0 else SizeOfAll(n.children.nodes)
  }

  function SizeOfAll(cs: seq<Node>): nat {
    if |cs| == 0 then 0 else SizeOfAll(cs[..|cs| - 1]) + Size(cs[|cs| - 1])
  }

  lemma {:induction false} SizeOfAllAppend(a: seq<Node>, b: seq<Node>)
    ensures SizeOfAll(a + b) == SizeOfAll(a) + SizeOfAll(b)
  {
    if |b| > 0 {
      assert (a + b)[..|a + b| - 1] == a + b[..|b| - 1];
      SizeOfAllAppend(a, b[..|b| - 1]);
    } else {
      assert a + b == a;
    }
  }

  /** Unlinking the first child of a directory by its own path removes
      exactly that child. */
  lemma {:induction false} UnlinkFirst(p: Node)
    requires !p.isFile && p.children.Array? && |p.children.nodes| > 0
    ensures WithoutChild(p, p.children.nodes[0].path) == p.(children := Array(p.children.nodes[1..]))
  {
    var cs := p.children.nodes;
    LessTrichotomy(cs[0].path, cs[0].path);
    assert LowerBound(cs, cs[0].path) == 0;
    assert cs[..0] + cs[1..] == cs[1..];
  }

  lemma {:induction false} SizeOfAllSingle(c: Node)
    ensures SizeOfAll([c]) == Size(c)
  {
    assert [c][..0] == [];
  }

  lemma {:induction false} SizeOfAllAround(a: seq<Node>, x: Node, b: seq<Node>)
    ensures SizeOfAll(a + [x] + b) == SizeOfAll(a) + Size(x) + SizeOfAll(b)
  {
    SizeOfAllAppend(a + [x], b);
    SizeOfAllAppend(a, [x]);
    SizeOfAllSingle(x);
  }

  lemma {:induction false} SplitAround(cs: seq<Node>, i: nat)
    requires i < |cs|
    ensures cs == cs[..i] + [cs[i]] + cs[i + 1..]
  {
  }

  lemma {:induction false} SplitUpdate(cs: seq<Node>, i: nat, x: Node)
    requires i < |cs|
    ensures cs[i := x] == cs[..i] + [x] + cs[i + 1..]
  {
  }

  lemma {:induction false} SizeOfAllUpdate(cs: seq<Node>, i: nat, x: Node)
    requires i < |cs|
    ensures SizeOfAll(cs[i := x]) == SizeOfAll(cs) - Size(cs[i]) + Size(x)
  {
    SplitAround(cs, i);
    SplitUpdate(cs, i, x);
    SizeOfAllAround(cs[..i], cs[i], cs[i + 1..]);
    SizeOfAllAround(cs[..i], x, cs[i + 1..]);
  }

  lemma {:induction false} SizeOfAllInsert(cs: seq<Node>, i: nat, c: Node)
    requires i <= |cs|
    ensures SizeOfAll(cs[..i] + [c] + cs[i..]) == SizeOfAll(cs) + Size(c)
  {
    assert cs == cs[..i] + cs[i..];
    SizeOfAllAround(cs[..i], c, cs[i..]);
    SizeOfAllAppend(cs[..i], cs[i..]);
  }

  lemma {:induction false} SizeOfAllRemove(cs: seq<Node>, i: nat)
    requires i < |cs|
    ensures SizeOfAll(cs[..i] + cs[i + 1..]) == SizeOfAll(cs) - Size(cs[i])
  {
    SplitAround(cs, i);
    SizeOfAllAround(cs[..i], cs[i], cs[i + 1..]);
    SizeOfAllAppend(cs[..i], cs[i + 1..]);
  }

  /** Linking a well-formed child whose path is absent keeps the directory
      well-formed. */
  lemma {:induction false} WithChildWellFormed(p: Node, c: Node)
    requires WellFormed(p) && !p.isFile && WellFormed(c) && ChildLinked(p, c)
    requires !HasChild(p, c.path).found
    ensures WellFormed(WithChild(p, c))
  {
    var cs := ChildrenOf(p);
    var i := HasChild(p, c.path).index;
    assert WithChild(p, c).children.nodes == cs[..i] + [c] + cs[i..];
    InsertKeepsAscending(cs, c);
    WithChildLinks(p, c);
  }

  /** After linking, every child is linked to the directory and well-formed. */
  lemma {:induction false} WithChildLinks(p: Node, c: Node)
    requires WellFormed(p) && !p.isFile && WellFormed(c) && ChildLinked(p, c)
    ensures forall j :: 0 <= j < |ChildrenOf(WithChild(p, c))| ==>
      ChildLinked(WithChild(p, c), ChildrenOf(WithChild(p, c))[j]) && WellFormed(ChildrenOf(WithChild(p, c))[j])
  {
    InsertedLinked(p, ChildrenOf(p), HasChild(p, c.path).index, c);
  }

  /** Inserting a linked, well-formed node among linked, well-formed nodes
      keeps them all so. */
  lemma {:induction false} InsertedLinked(p: Node, cs: seq<Node>, i: nat, c: Node)
    requires i <= |cs| && ChildLinked(p, c) && WellFormed(c)
    requires forall j :: 0 <= j < |cs| ==> ChildLinked(p, cs[j]) && WellFormed(cs[j])
    ensures forall j :: 0 <= j < |cs[..i] + [c] + cs[i..]| ==>
      ChildLinked(p, (cs[..i] + [c] + cs[i..])[j]) && WellFormed((cs[..i] + [c] + cs[i..])[j])
  {
    var r := cs[..i] + [c] + cs[i..];
    forall j | 0 <= j < |r| ensures ChildLinked(p, r[j]) && WellFormed(r[j]) {
      if j < i {
        assert r[j] == cs[j];
      } else if j > i {
        assert r[j] == cs[j - 1];
      }
    }
  }

  /** Linking a child adds its subtree to the directory's size. */
  lemma {:induction false} WithChildSize(p: Node, c: Node)
    requires !p.isFile
    ensures Size(WithChild(p, c)) == Size(p) + Size(c)
  {
    var cs := ChildrenOf(p);
    var i := HasChild(p, c.path).index;
    assert WithChild(p, c).children.nodes == cs[..i] + [c] + cs[i..];
    SizeOfAllInsert(cs, i, c);
  }

  /** Unlinking a child keeps the directory well-formed, and no child with
      that path remains. */
  lemma {:induction false} WithoutChildWellFormed(p: Node, key: Path)
    requires WellFormed(p) && !p.isFile && HasChild(p, key).found
    ensures WellFormed(WithoutChild(p, key))
    ensures !HasChild(WithoutChild(p, key), key).found
  {
    var i := HasChild(p, key).index;
    var cs := ChildrenOf(p);
    assert WithoutChild(p, key).children.nodes == cs[..i] + cs[i + 1..];
    RemoveKeepsAscending(cs, i);
    WithoutChildLinks(p, key);
  }

  /** Unlinking the child at `key` leaves the search for any other path
      finding a child exactly when it did before, and the same child. */
  lemma {:induction false} WithoutChildKeeps(p: Node, key: Path, other: Path)
    requires WellFormed(p) && !p.isFile && HasChild(p, key).found && other != key
    ensures HasChild(WithoutChild(p, key), other).found == HasChild(p, other).found
    ensures HasChild(p, other).found ==>
      ChildrenOf(WithoutChild(p, key))[HasChild(WithoutChild(p, key), other).index]
        == ChildrenOf(p)[HasChild(p, other).index]
  {
    var cs := ChildrenOf(p);
    var i := HasChild(p, key).index;
    assert ChildrenOf(WithoutChild(p, key)) == cs[..i] + cs[i + 1..];
    RemovedFinds(cs, i, other);
  }

  /** Dropping the element at `i` from an ascending array leaves the lower
      bound of any other path landing on an element with that path exactly
      when it did before, and on the same element. */
  lemma {:induction false} RemovedFinds(cs: seq<Node>, i: nat, key: Path)
    requires Ascending(cs) && i < |cs| && cs[i].path != key
    ensures var r := cs[..i] + cs[i + 1..];
      var lc := LowerBound(cs, key);
      var lr := LowerBound(r, key);
      && ((lr < |r| && r[lr].path == key) <==> (lc < |cs| && cs[lc].path == key))
      && (lc < |cs| && cs[lc].path == key ==> r[lr] == cs[lc])
  {
    var r := cs[..i] + cs[i + 1..];
    var lc := LowerBound(cs, key);
    var lr := LowerBound(r, key);
    RemoveKeepsAscending(cs, i);
    LowerBoundFinds(cs, key);
    LowerBoundFinds(r, key);
    if lc < |cs| && cs[lc].path == key {
      var j := if lc < i then lc else lc - 1;
      assert r[j] == cs[lc];
      AscendingUnique(r, lr, j);
    }
  }

  /** Linking a child whose path is absent leaves the search for any other
      path finding a child exactly when it did before, and the same child. */
  lemma {:induction false} WithChildKeeps(p: Node, c: Node, other: Path)
    requires !p.isFile && Ascending(ChildrenOf(p)) && !HasChild(p, c.path).found && other != c.path
    ensures HasChild(WithChild(p, c), other).found == HasChild(p, other).found
    ensures HasChild(p, other).found ==>
      ChildrenOf(WithChild(p, c))[HasChild(WithChild(p, c), other).index]
        == ChildrenOf(p)[HasChild(p, other).index]
  {
    var cs := ChildrenOf(p);
    var i := HasChild(p, c.path).index;
    assert ChildrenOf(WithChild(p, c)) == cs[..i] + [c] + cs[i..];
    InsertedFinds(cs, c, other);
  }

  /** Inserting an element with an absent path at its lower bound leaves
      the lower bound of any other path landing on an element with that
      path exactly when it did before, and on the same element. */
  lemma {:induction false} InsertedFinds(cs: seq<Node>, c: Node, key: Path)
    requires Ascending(cs) && c.path != key
    requires var i := LowerBound(cs, c.path); i < |cs| ==> cs[i].path != c.path
    ensures var i := LowerBound(cs, c.path);
      var r := cs[..i] + [c] + cs[i..];
      var lc := LowerBound(cs, key);
      var lr := LowerBound(r, key);
      && ((lr < |r| && r[lr].path == key) <==> (lc < |cs| && cs[lc].path == key))
      && (lc < |cs| && cs[lc].path == key ==> r[lr] == cs[lc])
  {
    var i := LowerBound(cs, c.path);
    var r := cs[..i] + [c] + cs[i..];
    var lc := LowerBound(cs, key);
    var lr := LowerBound(r, key);
    InsertKeepsAscending(cs, c);
    LowerBoundFinds(cs, key);
    LowerBoundFinds(r, key);
    if lc < |cs| && cs[lc].path == key {
      var j := if lc < i then lc else lc + 1;
      assert r[j] == cs[lc];
      AscendingUnique(r, lr, j);
    }
    if lr < |r| && r[lr].path == key {
      var j := if lr < i then lr else lr - 1;
      assert cs[j] == r[lr];
    }
  }

  /** After unlinking, every remaining child is linked to the directory,
      well-formed, and has another path. */
  lemma {:induction false} WithoutChildLinks(p: Node, key: Path)
    requires WellFormed(p) && !p.isFile && HasChild(p, key).found
    ensures forall j :: 0 <= j < |ChildrenOf(WithoutChild(p, key))| ==>
      && ChildLinked(WithoutChild(p, key), ChildrenOf(WithoutChild(p, key))[j])
      && WellFormed(ChildrenOf(WithoutChild(p, key))[j])
      && ChildrenOf(WithoutChild(p, key))[j].path != key
  {
    var cs := ChildrenOf(p);
    var i := HasChild(p, key).index;
    var r := cs[..i] + cs[i + 1..];
    forall j | 0 <= j < |r| ensures ChildLinked(p, r[j]) && WellFormed(r[j]) && r[j].path != key {
      if j < i {
        assert r[j] == cs[j] && SortsBefore(cs, j, i);
        LessTrichotomy(cs[j].path, cs[i].path);
      } else {
        assert r[j] == cs[j + 1] && SortsBefore(cs, i, j + 1);
        LessTrichotomy(cs[j + 1].path, cs[i].path);
      }
    }
  }

  /** Unlinking a child takes the child's subtree off the directory's size. */
  lemma {:induction false} WithoutChildSize(p: Node, key: Path)
    requires !p.isFile && HasChild(p, key).found
    ensures Size(WithoutChild(p, key)) == Size(p) - Size(ChildrenOf(p)[HasChild(p, key).index])
  {
    var i := HasChild(p, key).index;
    var cs := ChildrenOf(p);
    assert WithoutChild(p, key).children.nodes == cs[..i] + cs[i + 1..];
    SizeOfAllRemove(cs, i);
  }

  /** Where Node_new can place a node with path `path`: one level below the
      parent and not yet among its children, or at depth 1 without a parent. */
  predicate Admissible(path: Path, parent: Option<Node>)
    requires parent.Some? ==> !parent.value.isFile
  {
    if parent.Some? then IsParentOf(parent.value.path, path) && !HasChild(parent.value, path).found
    else |path| == 1
  }

  /** Node_new: validates the new node's place under `parent`, fills it in and
      links it into the parent's child array. On any failure nothing is
      created and the parent is returned unchanged. */
  method NodeNew(path: Path, parent: Option<Node>, isFile: bool, contents: Option<Blob>, length: nat, alloc: Alloc)
    returns (status: Status, result: Option<Node>, parentAfter: Option<Node>)
    requires parent.Some? ==> !parent.value.isFile && parent.value.children.Array?
    requires isFile && contents.None? ==> length == 0
    ensures status == Success <==> result.Some?
    ensures status != Success ==> parentAfter == parent
    ensures status in {Success, MemoryError, ConflictingPath, NoSuchPath, AlreadyInTree}
    ensures alloc == NodeFails || alloc == PathDupFails ==> status == MemoryError
    ensures alloc != NodeFails && alloc != PathDupFails && parent.Some? ==>
      var pp := parent.value.path;
      && (SharedPrefixDepth(path, pp) < |pp| ==> status == ConflictingPath)
      && (SharedPrefixDepth(path, pp) >= |pp| && |path| != |pp| + 1 ==> status == NoSuchPath)
      && (IsParentOf(pp, path) && HasChild(parent.value, path).found ==> status == AlreadyInTree)
    ensures alloc != NodeFails && alloc != PathDupFails && parent.None? && |path| != 1 ==>
      status == NoSuchPath
    ensures status == Success ==> Admissible(path, parent)
    ensures Admissible(path, parent) ==> status == Success || status == MemoryError
    ensures alloc == NoFault && Admissible(path, parent) ==> status == Success
    ensures status == Success <==> Admissible(path, parent) && !AllocFails(alloc, isFile, parent.Some?)
    ensures Admissible(path, parent) && AllocFails(alloc, isFile, parent.Some?) ==> status == MemoryError
    ensures status == Success ==>
      && result.value == NewNode(path, ParentPath(parent), isFile, contents, length)
      && ShapeOk(result.value) && result.value.path == path && result.value.isFile == isFile
      && (isFile ==> result.value.children.NoArray? && result.value.contents == contents && result.value.length == length)
      && (!isFile ==> ChildrenOf(result.value) == [] && result.value.contents.None? && result.value.length == 0)
    ensures status == Success && parent.None? ==> parentAfter.None? && result.value.parent.None?
    ensures status == Success && parent.Some? ==>
      && ChildLinked(parent.value, result.value)
      && parentAfter == Some(WithChild(parent.value, result.value))
      && |ChildrenOf(parentAfter.value)| == |ChildrenOf(parent.value)| + 1
      && (Ascending(ChildrenOf(parent.value)) ==> Ascending(ChildrenOf(parentAfter.value)))
  {
    result, parentAfter := None, parent;
    if alloc == NodeFails || alloc == PathDupFails {
      status := MemoryError;
      return;
    }
    if parent.Some? {
      var parentDepth := |parent.value.path|;
      // the parent must be an ancestor of the child
      if SharedPrefixDepth(path, parent.value.path) < parentDepth {
        status := ConflictingPath;
        return;
      }
      // exactly one level up
      if |path| != parentDepth + 1 {
        status := NoSuchPath;
        return;
      }
      // and without a child of this path yet
      if HasChild(parent.value, path).found {
        status := AlreadyInTree;
        return;
      }
    } else if |path| != 1 {
      // a node without a parent is a root, of depth 1
      status := NoSuchPath;
      return;
    }
    var node: Node;
    if isFile {
      node := Node(path, true, ParentPath(parent), NoArray, contents, length);
    } else {
      if alloc == ChildArrayFails {
        status := MemoryError;
        return;
      }
      node := Node(path, false, ParentPath(parent), Array([]), None, 0);
    }
    if parent.Some? {
      if alloc == LinkFails {
        status := MemoryError;
        return;
      }
      parentAfter := Some(WithChild(parent.value, node));
      if Ascending(ChildrenOf(parent.value)) {
        InsertKeepsAscending(ChildrenOf(parent.value), node);
      }
    }
    status, result := Success, Some(node);
  }

  /** Node_free: unlinks `n` from its parent (reached through the back-reference
      and passed here as `parent`), frees its children and finally itself;
      returns the number of nodes freed. */
  method NodeFree(n: Node, parent: Option<Node>) returns (freed: nat, parentAfter: Option<Node>)
    requires WellFormed(n)
    requires n.parent.Some? <==> parent.Some?
    requires parent.Some? ==> n.parent == Some(parent.value.path) && !parent.value.isFile
    ensures freed == Size(n)
    ensures parentAfter == if parent.Some? then Some(WithoutChild(parent.value, n.path)) else None
    decreases n, 1
  {
    parentAfter := parent;
    if parent.Some? {
      parentAfter := Some(WithoutChild(parent.value, n.path));
    }
    freed := 0;
    if n.children.Array? {
      freed := FreeChildren(n);
    }
    freed := freed + 1;
  }

  /** The loop of Node_free: frees the children one by one, always the first
      remaining, each unlinking itself from `n`; returns how many nodes that freed. */
  method FreeChildren(n: Node) returns (freed: nat)
    requires WellFormed(n) && n.children.Array?
    ensures freed == SizeOfAll(n.children.nodes)
    decreases n, 0
  {
    var cs := n.children.nodes;
    var self := n;
    ghost var k := 0;
    freed := 0;
    while |self.children.nodes| != 0
      invariant 0 <= k <= |cs|
      invariant self == n.(children := Array(cs[k..]))
      invariant freed == SizeOfAll(cs[..k])
      decreases |cs| - k
    {
      var child := self.children.nodes[0];
      FreeStep(n, cs, k);
      var freedChild, selfAfter := NodeFree(child, Some(self));
      UnlinkFirst(self);
      freed, self, k := freed + freedChild, selfAfter.value, k + 1;
    }
    assert cs[..k] == cs;
  }

  /** What one round of Node_free's loop relies on: the first remaining child
      is the next one in the original array, a well-formed subtree linked to
      `n`, and freeing it adds its size to the running count. */
  lemma {:induction false} FreeStep(n: Node, cs: seq<Node>, k: nat)
    requires WellFormed(n) && n.children == Array(cs) && k < |cs|
    ensures cs[k..][0] == cs[k] && cs[k] < n
    ensures WellFormed(cs[k]) && cs[k].parent == Some(n.path)
    ensures cs[k..][1..] == cs[k + 1..]
    ensures SizeOfAll(cs[..k + 1]) == SizeOfAll(cs[..k]) + Size(cs[k])
  {
    assert ChildrenOf(n) == cs;
    assert cs[..k + 1][..k] == cs[..k];
  }

  /** Node_editContents: installs new contents and length in a file and
      returns the previous contents; path, parent and children stay. */
  method EditContents(n: Node, newContents: Option<Blob>, newLength: nat)
    returns (previous: Option<Blob>, edited: Node)
    requires n.isFile && ShapeOk(n)
    requires newContents.None? ==> newLength == 0
    ensures previous == n.contents
    ensures edited == n.(contents := newContents, length := newLength)
    ensures ShapeOk(edited) && edited.isFile
  {
    previous := n.contents;
    edited := n.(contents := newContents, length := newLength);
  }
}
