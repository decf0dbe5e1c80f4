/**
  The invariant checker of the file tree (3FT/checkerFT.c): read-only
  tests over a node and over a whole hierarchy.

  The parent test of CheckerFT_Node_isValid compares only the shared
  prefix of the two paths with the node's depth, so it accepts a parent
  reference that is not the node's path minus its last component (the
  sibling `a/x` of `a/b`, say). `NodeIsValidAsWritten` keeps that test;
  `NodeIsValid` also requires the parent to be one level up.

  The walk is stated for either test, chosen by a `ParentRule`:
  `Checked(AsWritten, _)` is what CheckerFT_treeCheck accepts below a node
  as the C code stands, `Checked(Intended, _)` what it accepts with the
  corrected test; the methods `TreeCheck` and `IsValid` are the C
  functions, proved to return exactly that under either rule. The lemmas
  relate what the checker accepts to the node invariant `WellFormed` the
  file tree keeps: every valid file tree passes under both rules; a
  hierarchy that passes the corrected walk is well-formed as soon as each
  child is placed under the node its parent reference names, which the
  checker never compares; the walk as written needs in addition that every
  parent reference be one level up, and without it accepts a state that is
  not a file tree at all (`AsWrittenAcceptsMisplacedChild`).
 */
module CheckerFT {
  import opened Defs
  import opened Paths
  import opened Nodes
  import opened FileTree

  /** The parent test as written: the node's path and its parent's share
      exactly depth-minus-one leading components. (Paths have depth at
      least one; at depth zero the C subtraction wraps and no shared depth
      matches, as no `d` has `d + 1 == 0`.) */
  predicate ParentTestAsWritten(path: Path, parent: Path) {
    SharedPrefixDepth(path, parent) + 1 == |path|
  }

  /** The parent test as intended: the parent's path is the longest proper
      prefix of the node's. */
  predicate ParentTest(path: Path, parent: Path) {
    ParentTestAsWritten(path, parent) && |parent| + 1 == |path|
  }

  /** The corrected test accepts exactly the parent paths. */
  lemma {:induction false} ParentTestMeaning(path: Path, parent: Path)
    ensures ParentTest(path, parent) <==> IsParentOf(parent, path)
  {
    if IsParentOf(parent, path) {
      SharedPrefixOfParent(parent, path);
    }
  }

  /** The test as written also accepts a sibling, and a deeper node, as the
      parent of `a/b`. */
  lemma {:induction false} ParentTestAsWrittenAcceptsNonParents()
    ensures ParentTestAsWritten(["a", "b"], ["a", "x"]) && !IsParentOf(["a", "x"], ["a", "b"])
    ensures ParentTestAsWritten(["a", "b"], ["a", "x", "y"]) && !IsParentOf(["a", "x", "y"], ["a", "b"])
    ensures !ParentTest(["a", "b"], ["a", "x"]) && !ParentTest(["a", "b"], ["a", "x", "y"])
  {
    assert ["a", "b"][1..] == ["b"];
    assert ["a", "x"][1..] == ["x"];
    assert ["a", "x", "y"][1..] == ["x", "y"];
    assert SharedPrefixDepth(["b"], ["x"]) == 0;
    assert SharedPrefixDepth(["b"], ["x", "y"]) == 0;
    assert ["a", "b"][..1] == ["a"] != ["a", "x"];
  }

  /** The shape tests of CheckerFT_Node_isValid, in order: a file has no
      child array; a directory has neither contents nor a length; no
      contents means a zero length. */
  predicate ShapeChecks(n: Node) {
    && !(n.isFile && n.children.Array?)
    && !(!n.isFile && n.contents.Some?)
    && !(!n.isFile && n.length != 0)
    && !(n.contents.None? && n.length != 0)
  }

  /** The shape tests are the node shape the file tree keeps, except that
      they never ask a directory to have its child array. */
  lemma {:induction false} ShapeChecksMeaning(n: Node)
    ensures ShapeOk(n) <==> ShapeChecks(n) && (n.isFile || n.children.Array?)
  {
  }

  /** CheckerFT_Node_isValid as written: NULL is invalid, then the shape
      tests, then the parent test when there is a parent. */
  function NodeIsValidAsWritten(n: Option<Node>): (ok: bool)
    ensures ok ==> n.Some? && ShapeChecks(n.value)
    ensures ok ==> n.value.parent.None? || SharedPrefixDepth(n.value.path, n.value.parent.value) + 1 == |n.value.path|
  {
    if n.None? then false
    else if !ShapeChecks(n.value) then false
    else if n.value.parent.Some? && !ParentTestAsWritten(n.value.path, n.value.parent.value) then false
    else true
  }

  /** CheckerFT_Node_isValid with the parent test as intended. */
  function NodeIsValid(n: Option<Node>): (ok: bool)
    ensures ok ==> n.Some? && ShapeChecks(n.value)
    ensures n.Some? && ShapeChecks(n.value) ==>
      (ok <==> n.value.parent.None? || IsParentOf(n.value.parent.value, n.value.path))
  {
    if n.None? then false
    else if !ShapeChecks(n.value) then false
    else if n.value.parent.Some? then
      ParentTestMeaning(n.value.path, n.value.parent.value);
      ParentTest(n.value.path, n.value.parent.value)
    else true
  }

  /** A well-shaped file `a/b` whose parent reference names its sibling
      `a/x` passes the test as written and fails the intended one. */
  lemma {:induction false} NodeIsValidAsWrittenAcceptsSibling()
    ensures var n := Node(["a", "b"], true, Some(["a", "x"]), NoArray, None, 0);
      NodeIsValidAsWritten(Some(n)) && !NodeIsValid(Some(n))
  {
    ParentTestAsWrittenAcceptsNonParents();
  }

  /** Both tests agree whenever the parent reference is one level up. */
  lemma {:induction false} NodeIsValidAgrees(n: Node)
    requires n.parent.Some? ==> |n.parent.value| + 1 == |n.path|
    ensures NodeIsValidAsWritten(Some(n)) == NodeIsValid(Some(n))
  {
  }

  /** Which parent test the walk applies: the shared-prefix test of the
      C code, or the corrected one. */
  datatype ParentRule = AsWritten | Intended

  /** CheckerFT_Node_isValid under `rule`. */
  function NodeTest(rule: ParentRule, n: Option<Node>): bool {
    if rule.AsWritten? then NodeIsValidAsWritten(n) else NodeIsValid(n)
  }

  /** The order test of CheckerFT_treeCheck for the pair at `i`, `i + 1`:
      Node_compare neither positive (out of order) nor zero (identical). */
  predicate PairInOrder(cs: seq<Node>, i: nat)
    requires i + 1 < |cs|
  {
    !(NodeCompare(cs[i], cs[i + 1]) > 0) && !(NodeCompare(cs[i], cs[i + 1]) == 0)
  }

  /** Every adjacent pair passes the order test. */
  predicate AdjacentInOrder(cs: seq<Node>) {
    forall i: nat :: i + 1 < |cs| ==> PairInOrder(cs, i)
  }

  /** Testing adjacent pairs is enough: it is the same as the child array
      being strictly ascending. */
  lemma {:induction false} AdjacentInOrderMeaning(cs: seq<Node>)
    ensures AdjacentInOrder(cs) <==> Ascending(cs)
  {
    if Ascending(cs) {
      forall i: nat | i + 1 < |cs|
        ensures PairInOrder(cs, i)
      {
        assert SortsBefore(cs, i, i + 1);
      }
    }
    if AdjacentInOrder(cs) {
      AdjacentAscending(cs);
    }
  }

  lemma {:induction false} AdjacentAscending(cs: seq<Node>)
    requires AdjacentInOrder(cs)
    ensures Ascending(cs)
  {
    if |cs| >= 2 {
      var init := cs[..|cs| - 1];
      assert AdjacentInOrder(init) by {
        forall i: nat | i + 1 < |init|
          ensures PairInOrder(init, i)
        {
          assert PairInOrder(cs, i);
        }
      }
      AdjacentAscending(init);
      var m := |cs| - 1;
      assert PairInOrder(cs, m - 1);
      assert Less(cs[m - 1].path, cs[m].path);
      forall i, j | 0 <= i < j < |cs|
        ensures SortsBefore(cs, i, j)
      {
        if j < m {
          assert SortsBefore(init, i, j);
        } else if i < m - 1 {
          assert SortsBefore(init, i, m - 1);
          LessTransitive(cs[i].path, cs[m - 1].path, cs[m].path);
        }
      }
    }
  }

  /** What CheckerFT_treeCheck accepts below `n`: `n` passes the node test
      under `rule`, its children are in order, and every child is accepted
      in turn. */
  predicate Checked(rule: ParentRule, n: Node) {
    && NodeTest(rule, Some(n))
    && AdjacentInOrder(ChildrenOf(n))
    && forall i :: 0 <= i < |ChildrenOf(n)| ==> Checked(rule, ChildrenOf(n)[i])
  }

  /** The number of nodes in a possibly empty hierarchy. */
  function NodesIn(root: Option<Node>): (k: nat)
    ensures root.Some? ==> k >= 1
  {
    if root.Some? then Size(root.value) else 0
  }

  /** A child's subtree is smaller than its parent's. */
  lemma {:induction false} ChildSmaller(n: Node, i: nat)
    requires i < |ChildrenOf(n)|
    ensures Size(ChildrenOf(n)[i]) < Size(n)
  {
    var cs := ChildrenOf(n);
    SplitAround(cs, i);
    SizeOfAllAround(cs[..i], cs[i], cs[i + 1..]);
  }

  /** CheckerFT_treeCheck: a pre-order walk that fails as soon as a node,
      an adjacent pair of children or a subtree fails, and otherwise adds
      the number of nodes it visited to `nodeCount`. NULL passes and adds
      nothing. Node_getChild cannot fail below Node_getNumChildren (see
      GetChild), so its two failure branches are not reachable. */
  method TreeCheck(rule: ParentRule, n: Option<Node>, nodeCount: nat) returns (ok: bool, counted: nat)
    ensures ok <==> n.None? || Checked(rule, n.value)
    ensures ok ==> counted == nodeCount + NodesIn(n)
    decreases NodesIn(n)
  {
    if n.None? {
      return true, nodeCount;
    }
    if !NodeTest(rule, n) {
      return false, nodeCount;
    }
    counted := nodeCount + 1;
    var m := n.value;
    var cs := ChildrenOf(m);
    var c := 0;
    while c < NumChildren(m)
      invariant 0 <= c <= |cs|
      invariant counted == nodeCount + 1 + SizeOfAll(cs[..c])
      invariant PairsInOrderBelow(cs, c)
      invariant ChildrenChecked(rule, cs, c)
    {
      var child := GetChild(m, c).value;
      if c + 1 < NumChildren(m) {
        var child2 := GetChild(m, c + 1).value;
        if NodeCompare(child, child2) > 0 {
          assert !PairInOrder(cs, c);
          return false, counted;
        }
        if NodeCompare(child, child2) == 0 {
          assert !PairInOrder(cs, c);
          return false, counted;
        }
      }
      PairsInOrderStep(cs, c);
      ChildSmaller(m, c);
      var sub;
      ok, sub := TreeCheck(rule, Some(child), counted);
      if !ok {
        return false, sub;
      }
      assert cs[..c + 1][..c] == cs[..c];
      assert ChildrenChecked(rule, cs, c + 1);
      counted := sub;
      c := c + 1;
    }
    assert cs[..c] == cs;
    ok := true;
  }

  /** The first `c` children pass the walk. */
  predicate ChildrenChecked(rule: ParentRule, cs: seq<Node>, c: nat) {
    forall i :: 0 <= i < c && i < |cs| ==> Checked(rule, cs[i])
  }

  /** The adjacent pairs starting below `c` are in order. */
  predicate PairsInOrderBelow(cs: seq<Node>, c: nat) {
    forall i: nat :: i < c && i + 1 < |cs| ==> PairInOrder(cs, i)
  }

  /** The pairs below `c + 1` are in order when those below `c` are and
      the pair at `c`, if any, passes; all pairs are in order when those
      below the last index are. */
  lemma {:induction false} PairsInOrderStep(cs: seq<Node>, c: nat)
    requires c < |cs| && PairsInOrderBelow(cs, c)
    requires c + 1 < |cs| ==> PairInOrder(cs, c)
    ensures PairsInOrderBelow(cs, c + 1)
    ensures c + 1 == |cs| ==> AdjacentInOrder(cs)
  {
  }

  /** What CheckerFT_isValid accepts: no stray count while uninitialized,
      a hierarchy that passes the walk, and as many nodes as counted. */
  predicate Accepts(rule: ParentRule, isInitialized: bool, root: Option<Node>, count: nat) {
    && (isInitialized || count == 0)
    && (root.None? || Checked(rule, root.value))
    && count == NodesIn(root)
  }

  /** CheckerFT_isValid: fails when uninitialized with a non-zero count,
      fails when the walk counts a different number of nodes than `count`,
      and otherwise returns the walk's verdict. */
  method IsValid(rule: ParentRule, isInitialized: bool, root: Option<Node>, count: nat) returns (ok: bool)
    ensures ok <==> Accepts(rule, isInitialized, root, count)
  {
    if !isInitialized {
      if count != 0 {
        return false;
      }
    }
    var out, nodeCount := TreeCheck(rule, root, 0);
    if nodeCount != count {
      return false;
    }
    ok := out;
  }

  /** Every child below `n` names the node it hangs under as its parent. */
  predicate Placed(n: Node) {
    && (n.isFile || n.children.Array?)
    && forall i :: 0 <= i < |ChildrenOf(n)| ==>
         ChildrenOf(n)[i].parent == Some(n.path) && Placed(ChildrenOf(n)[i])
  }

  /** Every parent reference below `n`, `n`'s own included, is one level
      shorter than the path of the node that holds it. */
  predicate Leveled(n: Node) {
    && (n.parent.Some? ==> |n.parent.value| + 1 == |n.path|)
    && forall i :: 0 <= i < |ChildrenOf(n)| ==> Leveled(ChildrenOf(n)[i])
  }

  /** Where every parent reference is one level up, the walk as written and
      the corrected walk accept the same subtrees. */
  lemma {:induction false} CheckedAgrees(n: Node)
    requires Leveled(n)
    ensures Checked(AsWritten, n) <==> Checked(Intended, n)
  {
    NodeIsValidAgrees(n);
    var cs := ChildrenOf(n);
    forall i | 0 <= i < |cs|
      ensures Checked(AsWritten, cs[i]) <==> Checked(Intended, cs[i])
    {
      CheckedAgrees(cs[i]);
    }
  }

  /** A well-formed subtree whose own parent reference is one level up
      passes the walk under either rule, its children are placed under
      their parents, and every parent reference in it is one level up. */
  lemma {:induction false} WellFormedChecked(rule: ParentRule, n: Node)
    requires WellFormed(n)
    requires n.parent.Some? ==> IsParentOf(n.parent.value, n.path)
    ensures Checked(rule, n) && Placed(n) && Leveled(n)
  {
    var cs := ChildrenOf(n);
    AdjacentInOrderMeaning(cs);
    if n.parent.Some? {
      ParentTestMeaning(n.path, n.parent.value);
    }
    forall i | 0 <= i < |cs|
      ensures Checked(rule, cs[i]) && Placed(cs[i]) && Leveled(cs[i])
    {
      assert ChildLinked(n, cs[i]) && WellFormed(cs[i]);
      WellFormedChecked(rule, cs[i]);
    }
  }

  /** Conversely, a subtree that passes the corrected walk and whose
      children are placed under their parents is well-formed: that walk
      checks everything of the node invariant but the placement. The walk
      as written gives the same once every parent reference is one level
      up. */
  lemma {:induction false} CheckedWellFormed(rule: ParentRule, n: Node)
    requires Checked(rule, n) && Placed(n)
    requires rule.AsWritten? ==> Leveled(n)
    ensures WellFormed(n)
    ensures n.parent.Some? ==> IsParentOf(n.parent.value, n.path)
  {
    if rule.AsWritten? {
      CheckedAgrees(n);
    }
    IntendedCheckedWellFormed(n);
  }

  /** `CheckedWellFormed` for the corrected walk. */
  lemma {:induction false} IntendedCheckedWellFormed(n: Node)
    requires Checked(Intended, n) && Placed(n)
    ensures WellFormed(n)
    ensures n.parent.Some? ==> IsParentOf(n.parent.value, n.path)
  {
    var cs := ChildrenOf(n);
    ShapeChecksMeaning(n);
    AdjacentInOrderMeaning(cs);
    forall i | 0 <= i < |cs|
      ensures ChildLinked(n, cs[i]) && WellFormed(cs[i])
    {
      IntendedCheckedWellFormed(cs[i]);
    }
  }

  /** Every valid file tree passes CheckerFT_isValid under either rule, as
      the assertions at the entry and exit of each file tree operation
      expect. */
  lemma {:induction false} ValidAccepted(rule: ParentRule, t: FileTree)
    requires t.Valid()
    ensures Accepts(rule, t.isInitialized, t.root, t.count)
  {
    if t.root.Some? {
      WellFormedChecked(rule, t.root.value);
    }
  }

  /** A state CheckerFT_isValid accepts with the corrected test is a valid
      file tree once its children are placed and its root is an unparented
      directory of depth one, which the checker does not ask; with the test
      as written, once every parent reference is one level up as well. */
  lemma {:induction false} AcceptedValid(rule: ParentRule, t: FileTree)
    requires Accepts(rule, t.isInitialized, t.root, t.count)
    requires t.isInitialized || t.root.None?
    requires t.root.Some? ==>
      Placed(t.root.value) && t.root.value.parent.None? && |t.root.value.path| == 1 && !t.root.value.isFile
    requires rule.AsWritten? && t.root.Some? ==> Leveled(t.root.value)
    ensures t.Valid()
  {
    if t.root.Some? {
      CheckedWellFormed(rule, t.root.value);
    }
  }

  /** The state: root directory `a` whose only child is a file with path
      `b` (depth one, not `a/b`) naming `a` as its parent, and a count of
      two. */
  function MisplacedChildRoot(): Node {
    Node(["a"], false, None, Array([Node(["b"], true, Some(["a"]), NoArray, None, 0)]), None, 0)
  }

  /** CheckerFT_isValid as written accepts that state: the file shares
      depth(b) - 1 = 0 components with `a`, so it passes the parent test,
      and it is placed under the node it names. Yet it is not a file tree:
      `b` is not one level below `a`, the walk toward `b` never reaches it,
      and the corrected checker rejects the state. */
  lemma {:induction false} AsWrittenAcceptsMisplacedChild()
    ensures var root := MisplacedChildRoot();
      && Accepts(AsWritten, true, Some(root), 2)
      && Placed(root)
      && !WellFormed(root)
      && !Accepts(Intended, true, Some(root), 2)
  {
    var root := MisplacedChildRoot();
    var b := ChildrenOf(root)[0];
    assert ["b"][1..] == [] && ["a"][1..] == [];
    assert SharedPrefixDepth(["b"], ["a"]) == 0;
    assert Checked(AsWritten, b);
    assert AdjacentInOrder(ChildrenOf(root));
    assert Size(root) == 2 by {
      assert SizeOfAll([b]) == SizeOfAll([]) + Size(b);
    }
    assert !IsParentOf(["a"], ["b"]);
    assert !ChildLinked(root, b);
    assert !Checked(Intended, b);
  }

  /** The state: root directory `r` with two file children, `a/b` naming
      `a/x` as its parent and `a-c` naming `r`, in that order, and a count of
      three. */
  function CrossParentRoot(): Node {
    Node(["r"], false, None, Array([
      Node(["a", "b"], true, Some(["a", "x"]), NoArray, None, 0),
      Node(["a-c"], true, Some(["r"]), NoArray, None, 0)]), None, 0)
  }

  /** CheckerFT_isValid as written accepts that state with the component
      order of paths, while the two children are out of order as pathname
      strings: the checkers' verdict on children whose paths have different
      parents depends on which order Path_comparePath implements. */
  lemma {:induction false} AsWrittenAcceptsCrossParentOrder()
    ensures var root := CrossParentRoot();
      && Accepts(AsWritten, true, Some(root), 3)
      && CompareString(PathName(ChildrenOf(root)[0].path), PathName(ChildrenOf(root)[1].path)) > 0
  {
    var root := CrossParentRoot();
    var b := ChildrenOf(root)[0];
    var c := ChildrenOf(root)[1];
    assert ["a", "b"][1..] == ["b"] && ["a", "x"][1..] == ["x"];
    assert ["b"][1..] == [] && ["x"][1..] == [];
    assert SharedPrefixDepth(["a", "b"], ["a", "x"]) == 1;
    assert ["a-c"][1..] == [] && ["r"][1..] == [];
    assert SharedPrefixDepth(["a-c"], ["r"]) == 0;
    assert Checked(AsWritten, b);
    assert Checked(AsWritten, c);
    OrdersDifferAcrossParents();
    assert AdjacentInOrder(ChildrenOf(root));
    assert Size(root) == 3 by {
      assert SizeOfAll([b, c]) == SizeOfAll([b]) + Size(c);
      assert SizeOfAll([b]) == SizeOfAll([]) + Size(b);
    }
  }
}
