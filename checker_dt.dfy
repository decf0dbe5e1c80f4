/**
  The invariant checker of the directory-only tree (2DT/checkerDT.c): the
  same walk as the file tree's checker without the shape tests, over nodes
  that are all directories. It is stated over the same node values; it
  reads only a node's path, its parent reference and its children.

  Its parent test is the one of the file tree's checker, with the same
  gap; `NodeIsValidAsWritten` keeps it and `NodeIsValid` is corrected, and
  the walk is stated for either test by the file tree checker's
  `ParentRule`.
 */
module CheckerDT {
  import opened Defs
  import opened Paths
  import opened Nodes
  import CheckerFT

  /** CheckerDT_Node_isValid as written: NULL is invalid, and a node with
      a parent must pass the shared-prefix test. */
  function NodeIsValidAsWritten(n: Option<Node>): (ok: bool)
    ensures ok ==> n.Some?
    ensures n.Some? && n.value.parent.None? ==> ok
  {
    if n.None? then false
    else if n.value.parent.Some? && !CheckerFT.ParentTestAsWritten(n.value.path, n.value.parent.value) then false
    else true
  }

  /** CheckerDT_Node_isValid with the parent test as intended: the parent
      reference, if any, is the node's path minus its last component. */
  function NodeIsValid(n: Option<Node>): (ok: bool)
    ensures ok <==> n.Some? && (n.value.parent.None? || IsParentOf(n.value.parent.value, n.value.path))
  {
    if n.None? then false
    else if n.value.parent.Some? then
      CheckerFT.ParentTestMeaning(n.value.path, n.value.parent.value);
      CheckerFT.ParentTest(n.value.path, n.value.parent.value)
    else true
  }

  /** A directory `a/b` whose parent reference names its sibling `a/x`
      passes the test as written and fails the intended one. */
  lemma {:induction false} NodeIsValidAsWrittenAcceptsSibling()
    ensures var n := Node(["a", "b"], false, Some(["a", "x"]), Array([]), None, 0);
      NodeIsValidAsWritten(Some(n)) && !NodeIsValid(Some(n))
  {
    CheckerFT.ParentTestAsWrittenAcceptsNonParents();
  }

  /** CheckerDT_Node_isValid under `rule`. */
  function NodeTest(rule: CheckerFT.ParentRule, n: Option<Node>): bool {
    if rule.AsWritten? then NodeIsValidAsWritten(n) else NodeIsValid(n)
  }

  /** What CheckerDT_treeCheck accepts below `n` under `rule`. */
  predicate Checked(rule: CheckerFT.ParentRule, n: Node) {
    && NodeTest(rule, Some(n))
    && CheckerFT.AdjacentInOrder(ChildrenOf(n))
    && forall i :: 0 <= i < |ChildrenOf(n)| ==> Checked(rule, ChildrenOf(n)[i])
  }

  /** The first `c` children pass the walk. */
  predicate ChildrenChecked(rule: CheckerFT.ParentRule, cs: seq<Node>, c: nat) {
    forall i :: 0 <= i < c && i < |cs| ==> Checked(rule, cs[i])
  }

  /** CheckerDT_treeCheck: the pre-order walk of CheckerFT_treeCheck with
      the directory-only node test. The status of the second Node_getChild
      is not looked at; it cannot fail, as its index is below the number of
      children. */
  method TreeCheck(rule: CheckerFT.ParentRule, n: Option<Node>, nodeCount: nat) returns (ok: bool, counted: nat)
    ensures ok <==> n.None? || Checked(rule, n.value)
    ensures ok ==> counted == nodeCount + CheckerFT.NodesIn(n)
    decreases CheckerFT.NodesIn(n)
  {
    if n.None? {
      return true, nodeCount;
    }
    if !NodeTest(rule, n) {
      return false, nodeCount;
    }
    counted := nodeCount + 1;
    var m := n.value;
    var cs := ChildrenOf(m);
    var c := 0;
    while c < NumChildren(m)
      invariant 0 <= c <= |cs|
      invariant counted == nodeCount + 1 + SizeOfAll(cs[..c])
      invariant CheckerFT.PairsInOrderBelow(cs, c)
      invariant ChildrenChecked(rule, cs, c)
    {
      var child := GetChild(m, c).value;
      if c + 1 < NumChildren(m) {
        var child2 := GetChild(m, c + 1).value;
        if Compare(child.path, child2.path) > 0 {
          assert !CheckerFT.PairInOrder(cs, c);
          return false, counted;
        }
        if Compare(child.path, child2.path) == 0 {
          assert !CheckerFT.PairInOrder(cs, c);
          return false, counted;
        }
      }
      CheckerFT.PairsInOrderStep(cs, c);
      CheckerFT.ChildSmaller(m, c);
      var sub;
      ok, sub := TreeCheck(rule, Some(child), counted);
      if !ok {
        return false, sub;
      }
      assert cs[..c + 1][..c] == cs[..c];
      assert ChildrenChecked(rule, cs, c + 1);
      counted := sub;
      c := c + 1;
    }
    assert cs[..c] == cs;
    ok := true;
  }

  /** What CheckerDT_isValid accepts. */
  predicate Accepts(rule: CheckerFT.ParentRule, isInitialized: bool, root: Option<Node>, count: nat) {
    && (isInitialized || count == 0)
    && (root.None? || Checked(rule, root.value))
    && count == CheckerFT.NodesIn(root)
  }

  /** CheckerDT_isValid: fails when uninitialized with a non-zero count,
      fails when the walk counts a different number of nodes than `count`,
      and otherwise returns the walk's verdict. */
  method IsValid(rule: CheckerFT.ParentRule, isInitialized: bool, root: Option<Node>, count: nat) returns (ok: bool)
    ensures ok <==> Accepts(rule, isInitialized, root, count)
  {
    if !isInitialized {
      if count != 0 {
        return false;
      }
    }
    var out, nodeCount := TreeCheck(rule, root, 0);
    if nodeCount != count {
      return false;
    }
    ok := out;
  }

  /** Every node below `n` passes the shape tests of the file tree's
      checker. */
  predicate Shaped(n: Node) {
    CheckerFT.ShapeChecks(n) && forall i :: 0 <= i < |ChildrenOf(n)| ==> Shaped(ChildrenOf(n)[i])
  }

  /** The file tree's walk is exactly this walk plus the shape tests at
      every node, under either rule. */
  lemma {:induction false} CheckedFT(rule: CheckerFT.ParentRule, n: Node)
    ensures CheckerFT.Checked(rule, n) <==> Checked(rule, n) && Shaped(n)
  {
    var cs := ChildrenOf(n);
    forall i | 0 <= i < |cs|
      ensures CheckerFT.Checked(rule, cs[i]) <==> Checked(rule, cs[i]) && Shaped(cs[i])
    {
      CheckedFT(rule, cs[i]);
    }
  }

  /** So a state the file tree's checker accepts is accepted here too. */
  lemma {:induction false} AcceptsFT(rule: CheckerFT.ParentRule, isInitialized: bool, root: Option<Node>, count: nat)
    requires CheckerFT.Accepts(rule, isInitialized, root, count)
    ensures Accepts(rule, isInitialized, root, count)
  {
    if root.Some? {
      CheckedFT(rule, root.value);
    }
  }

  /** A subtree of directories that passes the corrected walk, with its
      children placed under their parents, is well-formed. */
  lemma {:induction false} CheckedWellFormed(n: Node)
    requires Checked(CheckerFT.Intended, n) && CheckerFT.Placed(n) && Shaped(n)
    ensures WellFormed(n)
    ensures n.parent.Some? ==> IsParentOf(n.parent.value, n.path)
  {
    CheckedFT(CheckerFT.Intended, n);
    CheckerFT.IntendedCheckedWellFormed(n);
  }

  /** Where every parent reference is one level up, the walk as written and
      the corrected walk accept the same subtrees. */
  lemma {:induction false} CheckedAgrees(n: Node)
    requires CheckerFT.Leveled(n)
    ensures Checked(CheckerFT.AsWritten, n) <==> Checked(CheckerFT.Intended, n)
  {
    var cs := ChildrenOf(n);
    forall i | 0 <= i < |cs|
      ensures Checked(CheckerFT.AsWritten, cs[i]) <==> Checked(CheckerFT.Intended, cs[i])
    {
      CheckedAgrees(cs[i]);
    }
  }

  /** The state: root directory `a` whose only child is a directory with
      path `b` (depth one, not `a/b`) naming `a` as its parent, and a count
      of two. */
  function MisplacedChildRoot(): Node {
    Node(["a"], false, None, Array([Node(["b"], false, Some(["a"]), Array([]), None, 0)]), None, 0)
  }

  /** CheckerDT_isValid as written accepts that state, whose child is
      placed under the node it names but is not one level below it; the
      corrected checker rejects it. */
  lemma {:induction false} AsWrittenAcceptsMisplacedChild()
    ensures var root := MisplacedChildRoot();
      && Accepts(CheckerFT.AsWritten, true, Some(root), 2)
      && CheckerFT.Placed(root)
      && !WellFormed(root)
      && !Accepts(CheckerFT.Intended, true, Some(root), 2)
  {
    var root := MisplacedChildRoot();
    var b := ChildrenOf(root)[0];
    assert ["b"][1..] == [] && ["a"][1..] == [];
    assert SharedPrefixDepth(["b"], ["a"]) == 0;
    assert Checked(CheckerFT.AsWritten, b);
    assert CheckerFT.AdjacentInOrder(ChildrenOf(root));
    assert Size(root) == 2 by {
      assert SizeOfAll([b]) == SizeOfAll([]) + Size(b);
    }
    assert !IsParentOf(["a"], ["b"]);
    assert !ChildLinked(root, b);
    assert !Checked(CheckerFT.Intended, b);
  }
}
