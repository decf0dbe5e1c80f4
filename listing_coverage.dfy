/**
  What the listing FT_toString makes is: every node of the hierarchy,
  each exactly once. The walk of `Get` is the independent account of which
  nodes the hierarchy holds; the lemmas here tie `PreOrder` to it.
 */
module ListingCoverage {
  import opened Defs
  import opened Paths
  import opened Nodes
  import opened Hierarchy
  import opened Listing

  /** No two entries of `xs` have the same path. */
  predicate DistinctPaths(xs: seq<Node>) {
    forall i, j :: 0 <= i < j < |xs| ==> xs[i].path != xs[j].path
  }

  /** The listing below a well-formed `n` visits every node of the subtree
      exactly once: it holds a node exactly when the walk from `n` finds
      that node at its path, and no path appears twice. */
  lemma {:induction false} PreOrderExactlyOnce(n: Node)
    requires WellFormed(n)
    ensures forall x :: x in PreOrder(n) <==> Get(n, x.path) == Some(x)
    ensures DistinctPaths(PreOrder(n))
  {
    PreOrderFinds(n);
    forall x: Node | Get(n, x.path) == Some(x)
      ensures x in PreOrder(n)
    {
      FoundListed(n, x.path);
    }
    PreOrderDistinct(n);
  }

  /** The walk from `n` toward a path below one of its children goes
      through that child. */
  lemma {:induction false} GetThroughChild(n: Node, j: nat, p: Path)
    requires WellFormed(n) && j < |ChildrenOf(n)| && IsPrefix(ChildrenOf(n)[j].path, p)
    ensures Descends(n, p) && Step(n, p) == ChildrenOf(n)[j]
    ensures Get(n, p) == Get(ChildrenOf(n)[j], p)
  {
    var cs := ChildrenOf(n);
    assert ChildLinked(n, cs[j]);
    var key := p[..|n.path| + 1];
    assert key == cs[j].path;
    HasChildCorrect(n, key);
    AscendingUnique(cs, HasChild(n, key).index, j);
  }

  /** Every node the listing holds is found by the walk from `n` at its own
      path. */
  lemma {:induction false} PreOrderFinds(n: Node)
    requires WellFormed(n)
    ensures forall x :: x in PreOrder(n) ==> Get(n, x.path) == Some(x)
    decreases n, 1
  {
    var cs := ChildrenOf(n);
    GetTop(n);
    FilesIndexed(cs);
    forall x | x in FilesOf(cs)
      ensures Get(n, x.path) == Some(x)
    {
      var a :| 0 <= a < |cs| && cs[a] == x;
      GetThroughChild(n, a, x.path);
      GetTop(x);
    }
    DirListingsFinds(n, |cs|);
  }

  lemma {:induction false} DirListingsFinds(n: Node, k: nat)
    requires WellFormed(n) && k <= |ChildrenOf(n)|
    ensures forall x :: x in DirListings(n, k) ==> Get(n, x.path) == Some(x)
    decreases n, 0, k
  {
    if k > 0 {
      var c := ChildrenOf(n)[k - 1];
      DirListingsFinds(n, k - 1);
      if !c.isFile {
        ChildListingFinds(n, k - 1);
      }
    }
  }

  /** Every node in a directory child's listing is found by the walk from
      `n`, which goes through that child. */
  lemma {:induction false} ChildListingFinds(n: Node, j: nat)
    requires WellFormed(n) && j < |ChildrenOf(n)| && !ChildrenOf(n)[j].isFile
    ensures forall x :: x in PreOrder(ChildrenOf(n)[j]) ==> Get(n, x.path) == Some(x)
    decreases n, 0, j
  {
    var c := ChildrenOf(n)[j];
    assert WellFormed(c);
    PreOrderFinds(c);
    PreOrderBelow(c);
    forall x | x in PreOrder(c)
      ensures Get(n, x.path) == Some(x)
    {
      GetThroughChild(n, j, x.path);
    }
  }

  /** Every node the walk from `n` finds is in the listing. */
  lemma {:induction false} FoundListed(n: Node, p: Path)
    requires WellFormed(n) && Get(n, p).Some?
    ensures Get(n, p).value in PreOrder(n)
    decreases n
  {
    if Descends(n, p) {
      var cs := ChildrenOf(n);
      var j := HasChild(n, p[..|n.path| + 1]).index;
      var c := cs[j];
      assert Step(n, p) == c && Get(n, p) == Get(c, p);
      assert WellFormed(c);
      if c.isFile {
        assert !Descends(c, p);
        FilesHas(cs, j);
      } else {
        FoundListed(c, p);
        DirListingsHas(n, |cs|, j);
      }
    }
  }

  /** Each file among `cs` is among its files. */
  lemma {:induction false} FilesHas(cs: seq<Node>, j: nat)
    requires j < |cs| && cs[j].isFile
    ensures cs[j] in FilesOf(cs)
    decreases |cs|
  {
    if j < |cs| - 1 {
      FilesHas(cs[..|cs| - 1], j);
    }
  }

  /** The listing of each directory among the first `k` children is part
      of their listings. */
  lemma {:induction false} DirListingsHas(n: Node, k: nat, j: nat)
    requires k <= |ChildrenOf(n)| && j < k && !ChildrenOf(n)[j].isFile
    ensures forall x :: x in PreOrder(ChildrenOf(n)[j]) ==> x in DirListings(n, k)
    decreases k
  {
    if j < k - 1 {
      DirListingsHas(n, k - 1, j);
    }
  }

  /** The files among `cs` are elements of `cs`, each at some index. */
  lemma {:induction false} FilesIndexed(cs: seq<Node>)
    ensures forall x :: x in FilesOf(cs) ==> exists a :: 0 <= a < |cs| && cs[a] == x && x.isFile
  {
    FilesIn(cs);
  }

  /** No path appears twice in the listing below a well-formed `n`. */
  lemma {:induction false} PreOrderDistinct(n: Node)
    requires WellFormed(n)
    ensures DistinctPaths(PreOrder(n))
    decreases n, 1
  {
    var cs := ChildrenOf(n);
    var files := FilesOf(cs);
    var dirs := DirListings(n, |cs|);
    FilesDistinct(cs);
    DirListingsDistinct(n, |cs|);
    FilesApartFromDirs(n);
    DistinctAppend(files, dirs);
    TopApart(n);
    DistinctAppend([n], files + dirs);
    assert PreOrder(n) == [n] + (files + dirs);
  }

  /** No file child shares its path with a node listed below a directory
      child. */
  lemma {:induction false} FilesApartFromDirs(n: Node)
    requires WellFormed(n)
    ensures forall x, y :: x in FilesOf(ChildrenOf(n)) && y in DirListings(n, |ChildrenOf(n)|) ==> x.path != y.path
  {
    var cs := ChildrenOf(n);
    FilesIndexed(cs);
    DirListingsUnder(n, |cs|);
    forall x, y | x in FilesOf(cs) && y in DirListings(n, |cs|)
      ensures x.path != y.path
    {
      var a :| 0 <= a < |cs| && cs[a] == x && x.isFile;
      var b :| 0 <= b < |cs| && !cs[b].isFile && IsPrefix(cs[b].path, y.path);
      SiblingsApart(n, a, b, x.path, y.path);
    }
  }

  /** Paths below two different children of a well-formed directory are
      different paths. */
  lemma {:induction false} SiblingsApart(n: Node, a: nat, b: nat, p1: Path, p2: Path)
    requires WellFormed(n) && a < |ChildrenOf(n)| && b < |ChildrenOf(n)| && a != b
    requires IsPrefix(ChildrenOf(n)[a].path, p1) && IsPrefix(ChildrenOf(n)[b].path, p2)
    ensures p1 != p2
  {
    var cs := ChildrenOf(n);
    assert ChildLinked(n, cs[a]) && ChildLinked(n, cs[b]);
    if p1 == p2 {
      assert cs[a].path == p1[..|n.path| + 1] == cs[b].path;
      AscendingUnique(cs, a, b);
    }
  }

  /** Every node listed after `n` lies strictly below it. */
  lemma {:induction false} TopApart(n: Node)
    requires WellFormed(n)
    ensures forall y :: y in FilesOf(ChildrenOf(n)) + DirListings(n, |ChildrenOf(n)|) ==> n.path != y.path
  {
    var cs := ChildrenOf(n);
    FilesIndexed(cs);
    DirListingsUnder(n, |cs|);
    forall y | y in FilesOf(cs) + DirListings(n, |cs|)
      ensures n.path != y.path
    {
      if y in FilesOf(cs) {
        var a :| 0 <= a < |cs| && cs[a] == y && y.isFile;
        assert ChildLinked(n, cs[a]);
      } else {
        var b :| 0 <= b < |cs| && !cs[b].isFile && IsPrefix(cs[b].path, y.path);
        assert ChildLinked(n, cs[b]);
      }
    }
  }

  /** Two runs without repeated paths, sharing no path, join into one. */
  lemma {:induction false} DistinctAppend(xs: seq<Node>, ys: seq<Node>)
    requires DistinctPaths(xs) && DistinctPaths(ys)
    requires forall x, y :: x in xs && y in ys ==> x.path != y.path
    ensures DistinctPaths(xs + ys)
  {
    var zs := xs + ys;
    forall i, j | 0 <= i < j < |zs|
      ensures zs[i].path != zs[j].path
    {
      if j < |xs| {
        assert zs[i] == xs[i] && zs[j] == xs[j];
      } else if i >= |xs| {
        assert zs[i] == ys[i - |xs|] && zs[j] == ys[j - |xs|];
      } else {
        assert zs[i] in xs && zs[j] in ys;
      }
    }
  }

  /** The files among an ascending `cs` have distinct paths. */
  lemma {:induction false} FilesDistinct(cs: seq<Node>)
    requires Ascending(cs)
    ensures DistinctPaths(FilesOf(cs))
  {
    if |cs| > 0 {
      var m := |cs| - 1;
      var init := cs[..m];
      assert Ascending(init) by {
        forall a, b | 0 <= a < b < |init| ensures SortsBefore(init, a, b) {
          assert SortsBefore(cs, a, b);
        }
      }
      FilesDistinct(init);
      FilesIndexed(init);
      var last := if cs[m].isFile then [cs[m]] else [];
      forall x, y | x in FilesOf(init) && y in last
        ensures x.path != y.path
      {
        var a :| 0 <= a < |init| && init[a] == x && x.isFile;
        assert SortsBefore(cs, a, m);
        LessTrichotomy(cs[a].path, cs[m].path);
      }
      DistinctAppend(FilesOf(init), last);
    }
  }

  /** The listings of the directories among the first `k` children have
      distinct paths. */
  lemma {:induction false} DirListingsDistinct(n: Node, k: nat)
    requires WellFormed(n) && k <= |ChildrenOf(n)|
    ensures DistinctPaths(DirListings(n, k))
    decreases n, 0, k
  {
    if k > 0 {
      var c := ChildrenOf(n)[k - 1];
      DirListingsDistinct(n, k - 1);
      if !c.isFile {
        assert WellFormed(c);
        PreOrderDistinct(c);
        ChildListingApart(n, k - 1);
        DistinctAppend(DirListings(n, k - 1), PreOrder(c));
      } else {
        assert DirListings(n, k) == DirListings(n, k - 1);
      }
    }
  }

  /** The listing of the directory child `j` shares no path with the
      listings of the directories before it. */
  lemma {:induction false} ChildListingApart(n: Node, j: nat)
    requires WellFormed(n) && j < |ChildrenOf(n)| && !ChildrenOf(n)[j].isFile
    ensures forall x, y :: x in DirListings(n, j) && y in PreOrder(ChildrenOf(n)[j]) ==> x.path != y.path
  {
    var c := ChildrenOf(n)[j];
    assert WellFormed(c);
    DirListingsUnder(n, j);
    PreOrderBelow(c);
    RunsApart(n, DirListings(n, j), PreOrder(c), j);
  }

  /** Nodes below the children before `k` and nodes below child `k` have
      different paths. */
  lemma {:induction false} RunsApart(n: Node, xs: seq<Node>, ys: seq<Node>, k: nat)
    requires WellFormed(n) && k < |ChildrenOf(n)|
    requires forall x :: x in xs ==>
      exists b :: 0 <= b < k && !ChildrenOf(n)[b].isFile && IsPrefix(ChildrenOf(n)[b].path, x.path)
    requires forall y :: y in ys ==> IsPrefix(ChildrenOf(n)[k].path, y.path)
    ensures forall x, y :: x in xs && y in ys ==> x.path != y.path
  {
    var cs := ChildrenOf(n);
    forall x, y | x in xs && y in ys
      ensures x.path != y.path
    {
      var b :| 0 <= b < k && !cs[b].isFile && IsPrefix(cs[b].path, x.path);
      SiblingsApart(n, b, k, x.path, y.path);
    }
  }

  /** Each node listed below the first `k` children lies below one of the
      directories among them. */
  lemma {:induction false} DirListingsUnder(n: Node, k: nat)
    requires WellFormed(n) && k <= |ChildrenOf(n)|
    ensures forall y :: y in DirListings(n, k) ==>
      exists b :: 0 <= b < k && !ChildrenOf(n)[b].isFile && IsPrefix(ChildrenOf(n)[b].path, y.path)
    decreases k
  {
    if k > 0 {
      var c := ChildrenOf(n)[k - 1];
      DirListingsUnder(n, k - 1);
      if !c.isFile {
        assert WellFormed(c);
        PreOrderBelow(c);
      }
    }
  }
}
