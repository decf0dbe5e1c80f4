/**
  What the file tree's mutators do to the hierarchy, stated on values.

  An insert walks toward the target as far as the tree goes and hangs a
  fresh chain of nodes, one per missing level, under the node it stopped
  at (or makes that chain the whole tree when there was none). A removal
  unlinks the node at the target, with its subtree, from its parent.
 */
module Edits {
  import opened Defs
  import opened Paths
  import opened Nodes
  import opened Hierarchy

  /** Where an insert of `q` can graft: the walk from the top stops short of
      `q` at a directory. */
  predicate CanGraft(t: Node, q: Path) {
    var a := Reach(t, q);
    1 <= |t.path| && IsPrefix(t.path, q) && |a.path| < |q| && !a.isFile
  }

  /** The hierarchy after inserting `q` below the deepest node on its way:
      that node gets the chain of the missing levels as a new child. */
  function Grafted(t: Node, q: Path, isFile: bool, contents: Option<Blob>, length: nat): (r: Node)
    requires CanGraft(t, q)
  {
    GraftAt(t, Reach(t, q), q, |q|, isFile, contents, length)
  }

  /** `t` with the chain of the levels of `q` below the directory `a` down
      to level `k` linked into `a`. */
  function GraftAt(t: Node, a: Node, q: Path, k: nat, isFile: bool, contents: Option<Blob>, length: nat): (r: Node)
    requires !a.isFile && |a.path| < k <= |q|
  {
    Replace(t, a.path, WithChild(a, Chain(q, |a.path| + 1, k, isFile, contents, length)))
  }

  /** The hierarchy an insert of `q` produces from `root`: the chain of every
      level of `q` when there is no root, the grafted tree otherwise. */
  function Inserted(root: Option<Node>, q: Path, isFile: bool, contents: Option<Blob>, length: nat): (r: Node)
    requires |q| >= 1
    requires root.Some? ==> CanGraft(root.value, q)
  {
    if root.None? then Chain(q, 1, |q|, isFile, contents, length)
    else Grafted(root.value, q, isFile, contents, length)
  }

  /** The depth from which an insert of `q` into `root` builds new nodes
      (exclusive): the depth of the node the walk stops at, 0 without a root. */
  function Base(root: Option<Node>, q: Path): (b: nat)
    ensures root.Some? ==> b == |Reach(root.value, q).path|
  {
    if root.None? then 0 else |Reach(root.value, q).path|
  }

  /** A tree is rooted for `q` when its top has depth 1 and is the first
      level of `q`. */
  predicate RootedAt(t: Node, q: Path) {
    |t.path| == 1 && |q| >= 1 && t.path == q[..1]
  }

  /** What grafting below `a` needs of `a`: a directory of the hierarchy,
      short of `q` and on its way, without a child at the next level. */
  ghost predicate GraftSite(t: Node, a: Node, q: Path) {
    && Get(t, a.path) == Some(a) && !a.isFile && a.children.Array?
    && 1 <= |a.path| < |q| && a.path == q[..|a.path|]
    && !HasChild(a, q[..|a.path| + 1]).found
  }

  /** The node where the walk toward a path it can graft stops is such a
      site, and well-formed when the hierarchy is. */
  lemma {:induction false} ReachGraftSite(t: Node, q: Path)
    requires WellFormed(t) && CanGraft(t, q)
    ensures GraftSite(t, Reach(t, q), q) && WellFormed(Reach(t, q))
  {
    var a := Reach(t, q);
    StopGet(t, q, a);
    StopHasArray(t, q, a);
    StopDirectory(t, q, a);
    StopOnWay(t, q, a);
    StopNoChild(t, q, a);
    ReachWellFormed(t, q);
  }

  /** Grafting keeps a well-formed hierarchy well-formed once the site with
      the chain linked in is well-formed. */
  lemma {:induction false} GraftAtWellFormed(t: Node, a: Node, q: Path, k: nat, isFile: bool, contents: Option<Blob>, length: nat)
    requires WellFormed(t) && Get(t, a.path) == Some(a) && !a.isFile && |a.path| < k <= |q|
    requires WellFormed(WithChild(a, Chain(q, |a.path| + 1, k, isFile, contents, length)))
    ensures WellFormed(GraftAt(t, a, q, k, isFile, contents, length))
  {
    ReplaceWellFormed(t, a.path, WithChild(a, Chain(q, |a.path| + 1, k, isFile, contents, length)));
  }

  /** The site with the chain linked in is itself well-formed. */
  lemma {:induction false} GraftNodeWellFormed(t: Node, a: Node, q: Path, k: nat, isFile: bool, contents: Option<Blob>, length: nat, c: Node)
    requires GraftSite(t, a, q) && WellFormed(a) && |a.path| < k <= |q|
    requires contents.None? ==> length == 0
    requires c == Chain(q, |a.path| + 1, k, isFile, contents, length)
    ensures WellFormed(WithChild(a, c))
  {
    ChainWellFormed(q, |a.path| + 1, k, isFile, contents, length);
    TakeTake(q, |a.path|, |a.path| + 1);
    assert ChildLinked(a, c);
    WithChildWellFormed(a, c);
  }

  /** Grafting adds exactly one node per level of the chain. */
  lemma {:induction false} GraftAtSize(t: Node, a: Node, q: Path, k: nat, isFile: bool, contents: Option<Blob>, length: nat)
    requires Get(t, a.path) == Some(a) && !a.isFile && |a.path| < k <= |q|
    ensures Size(GraftAt(t, a, q, k, isFile, contents, length)) == Size(t) + k - |a.path|
  {
    var c := Chain(q, |a.path| + 1, k, isFile, contents, length);
    ChainSize(q, |a.path| + 1, k, isFile, contents, length);
    WithChildSize(a, c);
    ReplaceSize(t, a.path, WithChild(a, c));
  }

  /** Grafting leaves the top's path, parent and kind as they were. */
  lemma {:induction false} GraftAtTop(t: Node, a: Node, q: Path, k: nat, isFile: bool, contents: Option<Blob>, length: nat)
    requires Get(t, a.path) == Some(a) && !a.isFile && |a.path| < k <= |q|
    ensures var g := GraftAt(t, a, q, k, isFile, contents, length);
      g.path == t.path && g.parent == t.parent && g.isFile == t.isFile
  {
    var c := Chain(q, |a.path| + 1, k, isFile, contents, length);
    GetTop(t);
    ReplaceTop(t, a.path, WithChild(a, c));
    if t.path == a.path {
      assert t == a;
    }
  }

  /** After grafting, every level of the chain is found at its own path. */
  lemma {:induction false} GraftAtGet(t: Node, a: Node, q: Path, k: nat, j: nat, isFile: bool, contents: Option<Blob>, length: nat)
    requires Get(t, a.path) == Some(a) && !a.isFile && |a.path| < j <= k <= |q| && a.path == q[..|a.path|]
    ensures Get(GraftAt(t, a, q, k, isFile, contents, length), q[..j]) == Some(Chain(q, j, k, isFile, contents, length))
  {
    ReplaceGraftGet(t, a, q, j, k, isFile, contents, length,
      Chain(q, |a.path| + 1, k, isFile, contents, length), GraftAt(t, a, q, k, isFile, contents, length));
  }

  /** Grafting into a well-formed tree: well-formed, one node larger per
      missing level, top unchanged, and `q` found as the chain's bottom. */
  lemma {:induction false} GraftedProperties(t: Node, q: Path, isFile: bool, contents: Option<Blob>, length: nat)
    requires WellFormed(t) && CanGraft(t, q)
    requires contents.None? ==> length == 0
    ensures var g := Grafted(t, q, isFile, contents, length);
      && WellFormed(g)
      && Size(g) == Size(t) + |q| - |Reach(t, q).path|
      && g.path == t.path && g.parent == t.parent && g.isFile == t.isFile
      && Get(g, q[..|q|]) == Some(Chain(q, |q|, |q|, isFile, contents, length))
    ensures var g := Grafted(t, q, isFile, contents, length);
      forall j :: |Reach(t, q).path| < j <= |q| ==> Get(g, q[..j]) == Some(Chain(q, j, |q|, isFile, contents, length))
    ensures var g := Grafted(t, q, isFile, contents, length);
      forall p :: Get(t, p).Some? ==> Get(g, p).Some? && Get(g, p).value.isFile == Get(t, p).value.isFile
  {
    var a := Reach(t, q);
    var c := Chain(q, |a.path| + 1, |q|, isFile, contents, length);
    ReachGraftSite(t, q);
    GraftNodeWellFormed(t, a, q, |q|, isFile, contents, length, c);
    GraftAtWellFormed(t, a, q, |q|, isFile, contents, length);
    GraftAtSize(t, a, q, |q|, isFile, contents, length);
    GraftAtTop(t, a, q, |q|, isFile, contents, length);
    GraftedLevels(t, q, isFile, contents, length);
    GraftLinkable(t, a, q, isFile, contents, length);
    GraftAtKeeps(t, a, q, isFile, contents, length);
  }

  /** After grafting, every level of `q` below the node the walk stopped at
      is found as its chain node. */
  lemma {:induction false} GraftedLevels(t: Node, q: Path, isFile: bool, contents: Option<Blob>, length: nat)
    requires CanGraft(t, q)
    ensures var g := Grafted(t, q, isFile, contents, length);
      forall j :: |Reach(t, q).path| < j <= |q| ==> Get(g, q[..j]) == Some(Chain(q, j, |q|, isFile, contents, length))
  {
    var a := Reach(t, q);
    GetReach(t, q);
    ReachOnWay(t, q);
    forall j | |a.path| < j <= |q|
      ensures Get(GraftAt(t, a, q, |q|, isFile, contents, length), q[..j]) == Some(Chain(q, j, |q|, isFile, contents, length))
    {
      GraftAtGet(t, a, q, |q|, j, isFile, contents, length);
    }
  }

  /** `c` can be linked into the directory `a` of the well-formed hierarchy
      `t`: no child of `a` has its path, and `a` stays well-formed. */
  ghost predicate Linkable(t: Node, a: Node, c: Node) {
    && WellFormed(t) && Get(t, a.path) == Some(a) && WellFormed(a) && !a.isFile
    && WellFormed(WithChild(a, c)) && !HasChild(a, c.path).found
  }

  /** Grafting at a graft site leaves every node found before found at its
      path, with the same kind. */
  lemma {:induction false} GraftAtKeeps(t: Node, a: Node, q: Path, isFile: bool, contents: Option<Blob>, length: nat)
    requires |a.path| < |q| && Linkable(t, a, Chain(q, |a.path| + 1, |q|, isFile, contents, length))
    ensures var g := GraftAt(t, a, q, |q|, isFile, contents, length);
      forall p :: Get(t, p).Some? ==> Get(g, p).Some? && Get(g, p).value.isFile == Get(t, p).value.isFile
  {
    LinkKeepsAll(t, a, Chain(q, |a.path| + 1, |q|, isFile, contents, length), GraftAt(t, a, q, |q|, isFile, contents, length));
  }

  /** The chain an insert grafts can be linked in where the walk stops. */
  lemma {:induction false} GraftLinkable(t: Node, a: Node, q: Path, isFile: bool, contents: Option<Blob>, length: nat)
    requires WellFormed(t) && GraftSite(t, a, q) && WellFormed(a)
    requires contents.None? ==> length == 0
    ensures Linkable(t, a, Chain(q, |a.path| + 1, |q|, isFile, contents, length))
  {
    GraftNodeWellFormed(t, a, q, |q|, isFile, contents, length, Chain(q, |a.path| + 1, |q|, isFile, contents, length));
  }

  /** Linking a child with a new path into a directory of the hierarchy
      leaves every node found before found at the same path, with the same
      kind (`LinkKeeps` for every path at once). */
  lemma {:induction false} LinkKeepsAll(t: Node, a: Node, c: Node, g: Node)
    requires Linkable(t, a, c)
    requires g == Replace(t, a.path, WithChild(a, c))
    ensures forall p :: Get(t, p).Some? ==> Get(g, p).Some? && Get(g, p).value.isFile == Get(t, p).value.isFile
  {
    forall p | Get(t, p).Some?
      ensures Get(g, p).Some? && Get(g, p).value.isFile == Get(t, p).value.isFile
    {
      LinkKeeps(t, a, c, p);
    }
  }

  /** Linking a child with a new path into a directory of the hierarchy
      leaves every node found before found at the same path, and of the
      same kind: outside the directory's subtree the walk is as before,
      inside it the new child takes a path no child had. */
  lemma {:induction false} LinkKeeps(t: Node, a: Node, c: Node, p: Path)
    requires WellFormed(t) && Get(t, a.path) == Some(a) && WellFormed(a) && !a.isFile
    requires WellFormed(WithChild(a, c)) && !HasChild(a, c.path).found
    requires Get(t, p).Some?
    ensures var g := Replace(t, a.path, WithChild(a, c));
      Get(g, p).Some? && Get(g, p).value.isFile == Get(t, p).value.isFile
  {
    if IsPrefix(a.path, p) {
      LinkKeepsInside(t, a, c, p);
    } else {
      GetReplaceAside(t, a.path, WithChild(a, c), p);
    }
  }

  /** `LinkKeeps` for the paths in the directory's subtree. */
  lemma {:induction false} LinkKeepsInside(t: Node, a: Node, c: Node, p: Path)
    requires Get(t, a.path) == Some(a) && WellFormed(a) && !a.isFile
    requires !HasChild(a, c.path).found
    requires Get(t, p).Some? && IsPrefix(a.path, p)
    ensures var g := Replace(t, a.path, WithChild(a, c));
      Get(g, p).Some? && Get(g, p).value.isFile == Get(t, p).value.isFile
  {
    var v := WithChild(a, c);
    GetCompose(t, a.path, v, p);
    ReplaceSelf(t, a.path);
    GetCompose(t, a.path, a, p);
    if p == a.path {
      GetTop(v);
      GetTop(a);
    } else {
      assert Descends(a, p);
      GetWithChildAside(a, c, p);
    }
  }

  /** Replacing a directory on the way to `q` by its version with a chain
      linked in makes every level of `q` the chain covers find its chain node. */
  lemma {:induction false} ReplaceGraftGet(t: Node, a: Node, q: Path, j: nat, hi: nat, isFile: bool, contents: Option<Blob>, length: nat, c: Node, g: Node)
    requires Get(t, a.path) == Some(a) && !a.isFile && |a.path| < j <= hi <= |q| && a.path == q[..|a.path|]
    requires c == Chain(q, |a.path| + 1, hi, isFile, contents, length)
    requires g == Replace(t, a.path, WithChild(a, c))
    ensures Get(g, q[..j]) == Some(Chain(q, j, hi, isFile, contents, length))
  {
    PrefixOfPrefix(q, |a.path|, j);
    GetCompose(t, a.path, WithChild(a, c), q[..j]);
    ChainBelowGet(a, q, j, hi, isFile, contents, length);
  }

  /** The walk from a node on the way to `q` stops at a node on the way to `q`. */
  lemma {:induction false} ReachOnWay(t: Node, q: Path)
    requires IsPrefix(t.path, q)
    ensures Reach(t, q).path == q[..|Reach(t, q).path|]
  {
  }

  /** Below a directory on the way to `q`, a chain hung from it answers
      every level of `q` it covers with its own node. */
  lemma {:induction false} ChainBelowGet(a: Node, q: Path, j: nat, hi: nat, isFile: bool, contents: Option<Blob>, length: nat)
    requires !a.isFile && |a.path| < j <= hi <= |q| && a.path == q[..|a.path|]
    ensures Get(WithChild(a, Chain(q, |a.path| + 1, hi, isFile, contents, length)), q[..j])
      == Some(Chain(q, j, hi, isFile, contents, length))
  {
    PrefixOfPrefix(q, |a.path| + 1, j);
    GetWithChild(a, Chain(q, |a.path| + 1, hi, isFile, contents, length), q[..j]);
    ChainGet(q, |a.path| + 1, j, hi, isFile, contents, length);
  }

  /** Whatever the tree held, an insert leaves a well-formed tree of depth-1
      top without parent, one node larger per built level, with `q` present. */
  lemma {:induction false} InsertedProperties(root: Option<Node>, q: Path, isFile: bool, contents: Option<Blob>, length: nat)
    requires |q| >= 1
    requires root.Some? ==> WellFormed(root.value) && RootedAt(root.value, q) && root.value.parent.None? && CanGraft(root.value, q)
    requires contents.None? ==> length == 0
    ensures var r := Inserted(root, q, isFile, contents, length);
      && WellFormed(r) && r.parent.None? && |r.path| == 1
      && Size(r) == (if root.Some? then Size(root.value) else 0) + |q| - Base(root, q)
      && Get(r, q) == Some(NewNode(q, if |q| == 1 then None else Some(q[..|q| - 1]), isFile, contents, length))
    ensures var r := Inserted(root, q, isFile, contents, length);
      forall k :: Base(root, q) < k <= |q| ==>
        Get(r, q[..k]).Some? && (Get(r, q[..k]).value.isFile <==> k == |q| && isFile)
    ensures var r := Inserted(root, q, isFile, contents, length);
      root.Some? ==> forall p :: Get(root.value, p).Some? ==>
        Get(r, p).Some? && Get(r, p).value.isFile == Get(root.value, p).value.isFile
  {
    var r := Inserted(root, q, isFile, contents, length);
    if root.None? {
      ChainWellFormed(q, 1, |q|, isFile, contents, length);
      ChainSize(q, 1, |q|, isFile, contents, length);
      ChainGet(q, 1, |q|, |q|, isFile, contents, length);
      forall k | 0 < k <= |q|
        ensures Get(r, q[..k]) == Some(Chain(q, k, |q|, isFile, contents, length))
      {
        ChainGet(q, 1, k, |q|, isFile, contents, length);
      }
    } else {
      GraftedProperties(root.value, q, isFile, contents, length);
    }
    assert q[..|q|] == q;
  }

  /** The depth of the node the walk toward a path stopped at, 0 when
      there was no tree to walk. */
  function Depth(stop: Option<Node>): (d: nat)
    ensures stop.Some? ==> d == |stop.value.path|
  {
    if stop.None? then 0 else |stop.value.path|
  }

  /** `stop` is where the walk toward `q` stops in `root`, and an insert of
      `q` can graft there. */
  ghost predicate StopsAt(root: Option<Node>, q: Path, stop: Option<Node>) {
    && |q| >= 1
    && (root.None? ==> stop.None?)
    && (root.Some? ==> WellFormed(root.value) && CanGraft(root.value, q) && stop == Some(Reach(root.value, q)))
  }

  /** What an insert needs of the node `stop` it grafts below, without
      naming the walk: a directory of the hierarchy, short of `q` and on its
      way, with no child at the next level of `q`. */
  ghost predicate GraftPoint(root: Option<Node>, q: Path, stop: Option<Node>) {
    && |q| >= 1
    && (root.Some? <==> stop.Some?)
    && (stop.Some? ==> GraftSite(root.value, stop.value, q))
  }

  /** Where the walk stops is such a node, at the depth `Base` names. */
  lemma {:induction false} StopsAtGraftPoint(root: Option<Node>, q: Path, stop: Option<Node>)
    requires StopsAt(root, q, stop)
    ensures GraftPoint(root, q, stop)
    ensures Depth(stop) == Base(root, q) < |q|
  {
    if root.Some? {
      ReachGraftSite(root.value, q);
    }
  }

  /** The hierarchy an insert of `q` has built once every level up to `k`
      exists: the tree as it was before the first new level, afterwards the
      chain of the new levels, alone or hung below `stop`. */
  function Grown(root: Option<Node>, stop: Option<Node>, q: Path, k: nat, isFile: bool, contents: Option<Blob>, length: nat): (r: Option<Node>)
    requires |q| >= 1 && (root.Some? <==> stop.Some?) && (stop.Some? ==> !stop.value.isFile)
    requires Depth(stop) <= k <= |q|
    ensures k > Depth(stop) ==> r.Some?
  {
    if k == Depth(stop) then root
    else if stop.None? then Some(Chain(q, 1, k, isFile, contents, length))
    else Some(GraftAt(root.value, stop.value, q, k, isFile, contents, length))
  }

  /** The node a level of an insert is linked below: `stop` for the first
      new level, the level built just before for every further one. */
  function Above(stop: Option<Node>, q: Path, k: nat, isFile: bool, contents: Option<Blob>, length: nat): (r: Option<Node>)
    requires Depth(stop) < k <= |q|
    ensures r.Some? <==> stop.Some? || k > Depth(stop) + 1
  {
    if k == Depth(stop) + 1 then stop
    else Some(Chain(q, k - 1, k - 1, isFile, contents, length))
  }

  /** One level of an insert: the node above the level is a directory with
      a child array and no child of the level's path, one level up from it;
      linking the level's fresh node below it (or making that node the
      first of the tree) gives the hierarchy built up to the level. */
  lemma {:induction false} GrownStep(root: Option<Node>, stop: Option<Node>, q: Path, k: nat, isFile: bool, contents: Option<Blob>, length: nat)
    requires GraftPoint(root, q, stop) && Depth(stop) < k <= |q|
    ensures var cur := Above(stop, q, k, isFile, contents, length);
      var work := Grown(root, stop, q, k - 1, isFile, contents, length);
      var c := Chain(q, k, k, isFile, contents, length);
      && ParentPath(cur) == (if k == 1 then None else Some(q[..k - 1]))
      && (cur.None? ==> k == 1 && Grown(root, stop, q, k, isFile, contents, length) == Some(c))
      && (cur.Some? ==>
            && !cur.value.isFile && cur.value.children.Array?
            && IsParentOf(cur.value.path, q[..k]) && !HasChild(cur.value, q[..k]).found
            && work.Some?
            && Grown(root, stop, q, k, isFile, contents, length)
               == Some(Replace(work.value, q[..k - 1], WithChild(cur.value, c))))
  {
    if k == Depth(stop) + 1 {
      GrownFirst(root, stop, q, k, isFile, contents, length);
    } else {
      GrownNext(root, stop, q, k, isFile, contents, length);
    }
  }

  /** The first new level hangs below `stop`, or is the whole tree. */
  lemma {:induction false} GrownFirst(root: Option<Node>, stop: Option<Node>, q: Path, k: nat, isFile: bool, contents: Option<Blob>, length: nat)
    requires GraftPoint(root, q, stop) && k == Depth(stop) + 1 <= |q|
    ensures var c := Chain(q, k, k, isFile, contents, length);
      && ParentPath(stop) == (if k == 1 then None else Some(q[..k - 1]))
      && (stop.None? ==> k == 1 && Grown(root, stop, q, k, isFile, contents, length) == Some(c))
      && (stop.Some? ==>
            && !stop.value.isFile && stop.value.children.Array?
            && IsParentOf(stop.value.path, q[..k]) && !HasChild(stop.value, q[..k]).found
            && Grown(root, stop, q, k, isFile, contents, length) == Some(Replace(root.value, q[..k - 1], WithChild(stop.value, c))))
  {
    TakeTake(q, k - 1, k);
  }

  /** Every further level hangs below the one made just before it. */
  lemma {:induction false} GrownNext(root: Option<Node>, stop: Option<Node>, q: Path, k: nat, isFile: bool, contents: Option<Blob>, length: nat)
    requires GraftPoint(root, q, stop) && Depth(stop) + 1 < k <= |q|
    ensures var above := Chain(q, k - 1, k - 1, isFile, contents, length);
      && !above.isFile && above.children.Array?
      && IsParentOf(above.path, q[..k]) && !HasChild(above, q[..k]).found
      && Grown(root, stop, q, k - 1, isFile, contents, length).Some?
      && Grown(root, stop, q, k, isFile, contents, length)
         == Some(Replace(Grown(root, stop, q, k - 1, isFile, contents, length).value, q[..k - 1],
                         WithChild(above, Chain(q, k, k, isFile, contents, length))))
  {
    ChainLevelOpen(q, k, isFile, contents, length);
    GrownGrow(root, stop, q, k, isFile, contents, length);
  }

  /** A level short of the last of `q` is an empty directory, one level up
      from the next. */
  lemma {:induction false} ChainLevelOpen(q: Path, k: nat, isFile: bool, contents: Option<Blob>, length: nat)
    requires 1 < k <= |q|
    ensures var above := Chain(q, k - 1, k - 1, isFile, contents, length);
      && !above.isFile && above.children.Array?
      && IsParentOf(above.path, q[..k]) && !HasChild(above, q[..k]).found
  {
    TakeTake(q, k - 1, k);
  }

  /** Each further level `k` is linked below the level built just before it. */
  lemma {:induction false} GrownGrow(root: Option<Node>, stop: Option<Node>, q: Path, k: nat, isFile: bool, contents: Option<Blob>, length: nat)
    requires GraftPoint(root, q, stop) && Depth(stop) + 1 < k <= |q|
    ensures Grown(root, stop, q, k - 1, isFile, contents, length).Some?
    ensures Grown(root, stop, q, k, isFile, contents, length)
      == Some(Replace(Grown(root, stop, q, k - 1, isFile, contents, length).value, q[..k - 1],
                      WithChild(Chain(q, k - 1, k - 1, isFile, contents, length), Chain(q, k, k, isFile, contents, length))))
  {
    if stop.None? {
      GrownGrowAlone(q, k, isFile, contents, length);
    } else {
      GrownGrowBelow(root.value, stop.value, q, k, isFile, contents, length);
    }
  }

  /** ... when the tree was empty, the levels built so far are the tree, */
  lemma {:induction false} GrownGrowAlone(q: Path, k: nat, isFile: bool, contents: Option<Blob>, length: nat)
    requires 1 < k <= |q|
    ensures Grown(None, None, q, k - 1, isFile, contents, length).Some?
    ensures Grown(None, None, q, k, isFile, contents, length)
      == Some(Replace(Grown(None, None, q, k - 1, isFile, contents, length).value, q[..k - 1],
                      WithChild(Chain(q, k - 1, k - 1, isFile, contents, length), Chain(q, k, k, isFile, contents, length))))
  {
    ChainGrowBelow(q, k - 1, k, isFile, contents, length);
  }

  /** ... and otherwise they hang below the node the walk stopped at. */
  lemma {:induction false} GrownGrowBelow(t: Node, a: Node, q: Path, k: nat, isFile: bool, contents: Option<Blob>, length: nat)
    requires Get(t, a.path) == Some(a) && !a.isFile && |a.path| + 1 < k <= |q| && a.path == q[..|a.path|]
    ensures Grown(Some(t), Some(a), q, k - 1, isFile, contents, length).Some?
    ensures Grown(Some(t), Some(a), q, k, isFile, contents, length)
      == Some(Replace(Grown(Some(t), Some(a), q, k - 1, isFile, contents, length).value, q[..k - 1],
                      WithChild(Chain(q, k - 1, k - 1, isFile, contents, length), Chain(q, k, k, isFile, contents, length))))
  {
    GraftAtGrow(t, a, q, k - 1, k, isFile, contents, length);
  }

  /** ... which is growing the graft by one level. */
  lemma {:induction false} GraftAtGrow(t: Node, a: Node, q: Path, k: nat, n: nat, isFile: bool, contents: Option<Blob>, length: nat)
    requires Get(t, a.path) == Some(a) && !a.isFile && |a.path| < k < |q| && a.path == q[..|a.path|] && n == k + 1
    ensures Replace(GraftAt(t, a, q, k, isFile, contents, length), q[..k],
                    WithChild(Chain(q, k, k, isFile, contents, length), Chain(q, n, n, isFile, contents, length)))
      == GraftAt(t, a, q, n, isFile, contents, length)
  {
    GraftGrowAt(t, a, q, k, n, isFile, contents, length);
  }

  /** Linking the next level `n` below the bottom of a chain from the top
      lengthens that chain by one. */
  lemma {:induction false} ChainGrowBelow(q: Path, k: nat, n: nat, isFile: bool, contents: Option<Blob>, length: nat)
    requires 1 <= k < |q| && n == k + 1
    ensures Replace(Chain(q, 1, k, isFile, contents, length), q[..k],
                    WithChild(Chain(q, k, k, isFile, contents, length), Chain(q, n, n, isFile, contents, length)))
      == Chain(q, 1, n, isFile, contents, length)
  {
    ChainBottomGrow(q, k, n, isFile, contents, length);
    ChainGrow(q, 1, k, n, isFile, contents, length);
  }

  /** Once the last level exists, the insert has built exactly `Inserted`. */
  lemma {:induction false} GrownFull(root: Option<Node>, stop: Option<Node>, q: Path, isFile: bool, contents: Option<Blob>, length: nat)
    requires StopsAt(root, q, stop)
    ensures Depth(stop) < |q|
    ensures Grown(root, stop, q, |q|, isFile, contents, length) == Some(Inserted(root, q, isFile, contents, length))
  {
  }

  /** The node Node_new makes for level `k` of the insert, a file only at
      the last level of a file insert, is the one-level chain of that level. */
  lemma {:induction false} FreshLevel(q: Path, k: nat, parent: Option<Path>, isFile: bool, contents: Option<Blob>, length: nat)
    requires 1 <= k <= |q| && parent == (if k == 1 then None else Some(q[..k - 1]))
    ensures var here := isFile && k == |q|;
      NewNode(q[..k], parent, here, if here then contents else None, if here then length else 0)
        == Chain(q, k, k, isFile, contents, length)
  {
  }

  /** Growing the chain hung below a directory `a` on the way to `q` by
      the next level `n`. */
  lemma {:induction false} GraftGrowAt(t: Node, a: Node, q: Path, k: nat, n: nat, isFile: bool, contents: Option<Blob>, length: nat)
    requires Get(t, a.path) == Some(a) && !a.isFile && |a.path| < k < |q| && a.path == q[..|a.path|] && n == k + 1
    ensures Replace(Replace(t, a.path, WithChild(a, Chain(q, |a.path| + 1, k, isFile, contents, length))), q[..k],
                    WithChild(Chain(q, k, k, isFile, contents, length), Chain(q, n, n, isFile, contents, length)))
      == Replace(t, a.path, WithChild(a, Chain(q, |a.path| + 1, n, isFile, contents, length)))
  {
    var c := Chain(q, |a.path| + 1, k, isFile, contents, length);
    var x := Chain(q, k, n, isFile, contents, length);
    ChainBottomGrow(q, k, n, isFile, contents, length);
    PrefixOfPrefix(q, |a.path|, k);
    ReplaceCompose(t, a.path, WithChild(a, c), q[..k], x);
    TakeTake(q, |a.path| + 1, k);
    WithChildReplace(a, c, q[..k], x);
    ChainGrow(q, |a.path| + 1, k, n, isFile, contents, length);
  }

  /** Where the walk toward a path it can graft stops: a node of the
      hierarchy, well-formed, a directory short of the path, on its way,
      without the next level as a child. One fact per lemma keeps each
      proof small. */
  lemma {:induction false} StopGet(t: Node, q: Path, a: Node)
    requires WellFormed(t) && CanGraft(t, q) && a == Reach(t, q)
    ensures Get(t, a.path) == Some(a)
  {
    GetReach(t, q);
  }

  lemma {:induction false} StopHasArray(t: Node, q: Path, a: Node)
    requires WellFormed(t) && CanGraft(t, q) && a == Reach(t, q)
    ensures a.children.Array?
  {
    ReachWellFormed(t, q);
  }

  lemma {:induction false} StopDirectory(t: Node, q: Path, a: Node)
    requires WellFormed(t) && CanGraft(t, q) && a == Reach(t, q)
    ensures !a.isFile && 1 <= |a.path| < |q|
  {
  }

  lemma {:induction false} StopOnWay(t: Node, q: Path, a: Node)
    requires WellFormed(t) && CanGraft(t, q) && a == Reach(t, q)
    ensures a.path == q[..|a.path|]
  {
    ReachOnWay(t, q);
  }

  lemma {:induction false} StopNoChild(t: Node, q: Path, a: Node)
    requires WellFormed(t) && CanGraft(t, q) && a == Reach(t, q)
    ensures !HasChild(a, q[..|a.path| + 1]).found
  {
  }

  /** Linking a node below a directory of the hierarchy that has no child
      at its path, then unlinking it again, gives the hierarchy back. */
  lemma {:induction false} UnlinkRestores(t: Node, a: Node, c: Node, w: Node)
    requires Get(t, a.path) == Some(a) && !a.isFile && a.children.Array? && !HasChild(a, c.path).found
    requires w == Replace(t, a.path, WithChild(a, c))
    ensures Get(w, a.path) == Some(WithChild(a, c))
    ensures Replace(w, a.path, WithoutChild(WithChild(a, c), c.path)) == t
  {
    GetCompose(t, a.path, WithChild(a, c), a.path);
    GetTop(WithChild(a, c));
    WithoutWithChild(a, c);
    ReplaceTwice(t, a.path, WithChild(a, c), a);
    ReplaceSelf(t, a.path);
  }

  /** The chain grafted below the node the walk stopped at is found at its
      own path, is well-formed and names that node as its parent. */
  lemma {:induction false} ChainLinked(t: Node, a: Node, q: Path, k: nat, isFile: bool, contents: Option<Blob>, length: nat, c: Node, w: Node)
    requires Get(t, a.path) == Some(a) && !a.isFile && 1 <= |a.path| < k <= |q| && a.path == q[..|a.path|]
    requires contents.None? ==> length == 0
    requires c == Chain(q, |a.path| + 1, k, isFile, contents, length)
    requires w == Replace(t, a.path, WithChild(a, c))
    ensures Get(w, c.path) == Some(c) && WellFormed(c) && c.parent == Some(a.path)
  {
    var lo := |a.path| + 1;
    ReplaceGraftGet(t, a, q, lo, k, isFile, contents, length, c, w);
    ChainWellFormed(q, lo, k, isFile, contents, length);
    assert c.path == q[..lo];
  }

  /** The hierarchy with the node at `q` and its subtree unlinked from the
      node at `q` less its last component. */
  function Pruned(t: Node, q: Path): (r: Node)
    requires |q| >= 1
    requires Get(t, q[..|q| - 1]).Some? && !Get(t, q[..|q| - 1]).value.isFile
  {
    var pp := q[..|q| - 1];
    Replace(t, pp, WithoutChild(Get(t, pp).value, q))
  }

  /** The tree a removal of `q` leaves: nothing when `q` is the top,
      the pruned hierarchy otherwise. */
  function Removed(t: Node, q: Path): (r: Option<Node>)
    requires WellFormed(t) && Get(t, q).Some?
  {
    if q == t.path then None
    else
      GetParent(t, q);
      Some(Pruned(t, q))
  }

  /** Pruning keeps the hierarchy well-formed, takes off exactly the
      removed subtree, keeps the top's path and parent, leaves nothing at
      `q` or below it, and leaves every other path found exactly where it
      was found before, with the same kind of node. */
  lemma {:induction false} PrunedProperties(t: Node, q: Path)
    requires WellFormed(t) && Get(t, q).Some? && q != t.path
    ensures |q| >= 1 && Get(t, q[..|q| - 1]).Some? && !Get(t, q[..|q| - 1]).value.isFile
    ensures var r := Pruned(t, q);
      && WellFormed(r)
      && Size(r) == Size(t) - Size(Get(t, q).value)
      && r.path == t.path && r.parent == t.parent && r.isFile == t.isFile
      && (forall below :: IsPrefix(q, below) ==> Get(r, below).None?)
      && (forall other :: !IsPrefix(q, other) ==>
            && (Get(r, other).Some? <==> Get(t, other).Some?)
            && (Get(t, other).Some? ==> Get(r, other).value.isFile == Get(t, other).value.isFile))
  {
    GetParent(t, q);
    GetTop(t);
    var pp := q[..|q| - 1];
    var p := Get(t, pp).value;
    var v := WithoutChild(p, q);
    ReachWellFormed(t, pp);
    WithoutChildWellFormed(p, q);
    WithoutChildSize(p, q);
    ReplaceWellFormed(t, pp, v);
    ReplaceSize(t, pp, v);
    ReplaceTop(t, pp, v);
    assert IsPrefix(pp, q);
    forall below | IsPrefix(q, below)
      ensures Get(Pruned(t, q), below).None?
    {
      PrunedBelow(t, q, below);
    }
    forall other | !IsPrefix(q, other)
      ensures Get(Pruned(t, q), other).Some? <==> Get(t, other).Some?
      ensures Get(t, other).Some? ==> Get(Pruned(t, q), other).value.isFile == Get(t, other).value.isFile
    {
      PrunedAside(t, q, other);
    }
  }

  /** Nothing is left at `q` or below it after pruning. */
  lemma {:induction false} PrunedBelow(t: Node, q: Path, below: Path)
    requires WellFormed(t) && Get(t, q).Some? && q != t.path && IsPrefix(q, below)
    requires |q| >= 1 && Get(t, q[..|q| - 1]).Some? && !Get(t, q[..|q| - 1]).value.isFile
    ensures Get(Pruned(t, q), below).None?
  {
    var pp := q[..|q| - 1];
    var p := Get(t, pp).value;
    var v := WithoutChild(p, q);
    GetParent(t, q);
    ReachWellFormed(t, pp);
    WithoutChildWellFormed(p, q);
    assert IsPrefix(pp, below);
    GetCompose(t, pp, v, below);
    GetWithout(v, q, below);
  }

  /** Outside `q`'s subtree pruning leaves every walk finding a node exactly
      where it found one before, of the same kind. */
  lemma {:induction false} PrunedAside(t: Node, q: Path, other: Path)
    requires WellFormed(t) && Get(t, q).Some? && q != t.path && !IsPrefix(q, other)
    requires |q| >= 1 && Get(t, q[..|q| - 1]).Some? && !Get(t, q[..|q| - 1]).value.isFile
    ensures Get(Pruned(t, q), other).Some? <==> Get(t, other).Some?
    ensures Get(t, other).Some? ==> Get(Pruned(t, q), other).value.isFile == Get(t, other).value.isFile
  {
    var pp := q[..|q| - 1];
    var p := Get(t, pp).value;
    var v := WithoutChild(p, q);
    GetParent(t, q);
    ReachWellFormed(t, pp);
    WithoutChildWellFormed(p, q);
    if IsPrefix(pp, other) {
      GetCompose(t, pp, v, other);
      GetCompose(t, pp, p, other);
      ReplaceSelf(t, pp);
      GetWithoutAside(p, q, other);
    } else {
      GetReplaceAside(t, pp, v, other);
    }
  }

  /** In a well-formed hierarchy whose top has no parent, the node found at
      `q` has no parent exactly when it is the top, and is well-formed. */
  lemma {:induction false} FoundParent(t: Node, q: Path)
    requires WellFormed(t) && t.parent.None? && Get(t, q).Some?
    ensures Get(t, q).value.parent.None? <==> q == t.path
    ensures q == t.path ==> Get(t, q) == Some(t)
    ensures WellFormed(Get(t, q).value)
  {
    ReachWellFormed(t, q);
    if q == t.path {
      GetTop(t);
    } else {
      GetParent(t, q);
    }
  }

  /** The removal Node_free makes when the node found at `q` has no parent:
      it is the top, and nothing is left. */
  lemma {:induction false} RemovedTop(t: Node, q: Path)
    requires WellFormed(t) && t.parent.None? && Get(t, q).Some? && Get(t, q).value.parent.None?
    ensures Removed(t, q).None?
  {
    FoundParent(t, q);
  }

  /** The removal Node_free makes when the node found at `q` is not the
      top: its parent reference names the directory at `q` less its last
      component, and the removal unlinks `q` from that directory. */
  lemma {:induction false} RemovedUnlinks(t: Node, q: Path)
    requires WellFormed(t) && Get(t, q).Some? && q != t.path
    ensures |q| >= 1 && Get(t, q).value.parent == Some(q[..|q| - 1])
    ensures Get(t, q[..|q| - 1]).Some? && !Get(t, q[..|q| - 1]).value.isFile
    ensures Removed(t, q) == Some(Replace(t, q[..|q| - 1], WithoutChild(Get(t, q[..|q| - 1]).value, q)))
  {
    GetParent(t, q);
  }

  /** A removal from a tree whose top has no parent leaves nothing exactly
      when the top itself is removed, and then everything the tree held lay
      at or below `q`; otherwise the rest is well-formed,
      keeps the top, is smaller by the removed subtree, holds nothing at `q`
      or below it, and holds every other path it held before, with the same
      kind of node. */
  lemma {:induction false} RemovedProperties(t: Node, q: Path)
    requires WellFormed(t) && t.parent.None? && Get(t, q).Some?
    ensures Removed(t, q).None? <==> Get(t, q).value.parent.None?
    ensures Removed(t, q).None? ==> Size(Get(t, q).value) == Size(t)
    ensures Removed(t, q).None? ==> forall other :: Get(t, other).Some? ==> IsPrefix(q, other)
    ensures Removed(t, q).Some? ==>
      var r := Removed(t, q).value;
      && WellFormed(r) && r.path == t.path && r.parent == t.parent && r.isFile == t.isFile
      && 1 <= Size(r) == Size(t) - Size(Get(t, q).value)
      && (forall below :: IsPrefix(q, below) ==> Get(r, below).None?)
      && (forall other :: !IsPrefix(q, other) ==>
            && (Get(r, other).Some? <==> Get(t, other).Some?)
            && (Get(t, other).Some? ==> Get(r, other).value.isFile == Get(t, other).value.isFile))
  {
    FoundParent(t, q);
    if q != t.path {
      PrunedProperties(t, q);
    } else {
      forall other | Get(t, other).Some? ensures IsPrefix(q, other) {
        GetBelowTop(t, other);
      }
    }
  }

  /** Editing the contents of the file at `q` keeps the hierarchy
      well-formed, of the same size and top, and the edited file is found
      at `q`. */
  lemma {:induction false} ContentsEdited(t: Node, q: Path, edited: Node)
    requires WellFormed(t) && t.parent.None? && !t.isFile && Get(t, q).Some? && Get(t, q).value.isFile
    requires edited == Get(t, q).value.(contents := edited.contents, length := edited.length)
    requires edited.contents.None? ==> edited.length == 0
    ensures var r := Replace(t, q, edited);
      && WellFormed(r) && Size(r) == Size(t)
      && r.path == t.path && r.parent == t.parent && !r.isFile
      && Get(r, q) == Some(edited)
  {
    FoundParent(t, q);
    ReplaceWellFormed(t, q, edited);
    ReplaceSize(t, q, edited);
    ReplaceTop(t, q, edited);
    GetCompose(t, q, edited, q);
    GetTop(edited);
  }

  /** A directory without a child at `q`, one level above `q`, finds
      nothing at `q` or anywhere below it. */
  lemma {:induction false} GetWithout(v: Node, q: Path, below: Path)
    requires |q| >= 1 && v.path == q[..|q| - 1] && !v.isFile && !HasChild(v, q).found
    requires IsPrefix(q, below)
    ensures Get(v, below).None?
  {
    assert below[..|v.path| + 1] == q;
  }

  /** Unlinking the child at `q` from the directory one level above it
      leaves every walk toward a path outside `q`'s subtree finding a node
      exactly where it found one before, of the same kind. */
  lemma {:induction false} GetWithoutAside(p: Node, q: Path, other: Path)
    requires WellFormed(p) && !p.isFile && HasChild(p, q).found && |q| == |p.path| + 1
    requires IsPrefix(p.path, other) && !IsPrefix(q, other)
    ensures Get(WithoutChild(p, q), other).Some? <==> Get(p, other).Some?
    ensures Get(p, other).Some? ==> Get(WithoutChild(p, q), other).value.isFile == Get(p, other).value.isFile
  {
    var v := WithoutChild(p, q);
    if other == p.path {
      GetTop(p);
      GetTop(v);
    } else {
      var key := other[..|p.path| + 1];
      assert key != q;
      WithoutChildKeeps(p, q, key);
      if Descends(p, other) {
        assert Step(v, other) == Step(p, other);
      } else {
        assert !Descends(v, other);
      }
    }
  }
}
