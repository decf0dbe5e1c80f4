/**
  The string form of the file tree (the FT_toString part of 3FT/ft.c).

  FT_toString lists the nodes in the order FT_preOrderTraversal puts them
  into a dynamic array: a node, then its file children, then the listing
  of each directory child; it adds up the length of the text (one line per
  node, plus the terminating NUL), allocates that many bytes and
  concatenates the lines. `PreOrder`, `TotalLength` and `Render` are that
  order, that sum and that text; the methods below are the loops that
  compute them.
 */
module Listing {
  import opened Defs
  import opened Paths
  import opened Nodes

  /** The order of FT_preOrderTraversal below `n`: `n`, its file children
      in child order, then the listing of each directory child in child
      order. */
  function PreOrder(n: Node): (r: seq<Node>)
    ensures |r| >= 1 && r[0] == n
    decreases n, 1
  {
    [n] + FilesOf(ChildrenOf(n)) + DirListings(n, |ChildrenOf(n)|)
  }

  /** What the listing of a directory takes from a child: nothing for a
      file (it is listed with the files), its own listing for a directory. */
  function Below(child: Node): (r: seq<Node>)
    ensures child.isFile <==> r == []
    decreases child, 2
  {
    if child.isFile then [] else PreOrder(child)
  }

  /** The files among `cs`, in order. */
  function FilesOf(cs: seq<Node>): (r: seq<Node>)
    ensures |r| <= |cs|
  {
    if |cs| == 0 then []
    else FilesOf(cs[..|cs| - 1]) + (if cs[|cs| - 1].isFile then [cs[|cs| - 1]] else [])
  }

  /** The listings of the directories among the first `k` children of `n`. */
  function DirListings(n: Node, k: nat): (r: seq<Node>)
    requires k <= |ChildrenOf(n)|
    decreases n, 0, k
  {
    if k == 0 then []
    else
      var c := ChildrenOf(n)[k - 1];
      DirListings(n, k - 1) + Below(c)
  }

  /** In a well-formed subtree the listing holds every node exactly once
      by count: as many entries as the subtree has nodes. */
  lemma {:induction false} PreOrderSize(n: Node)
    requires WellFormed(n)
    ensures |PreOrder(n)| == Size(n)
    decreases n, 1
  {
    DirListingsSize(n, |ChildrenOf(n)|);
    assert ChildrenOf(n)[..|ChildrenOf(n)|] == ChildrenOf(n);
  }

  lemma {:induction false} DirListingsSize(n: Node, k: nat)
    requires WellFormed(n) && k <= |ChildrenOf(n)|
    ensures |FilesOf(ChildrenOf(n)[..k])| + |DirListings(n, k)| == SizeOfAll(ChildrenOf(n)[..k])
    decreases n, 0, k
  {
    if k > 0 {
      var cs := ChildrenOf(n);
      var c := cs[k - 1];
      DirListingsSize(n, k - 1);
      assert cs[..k][..k - 1] == cs[..k - 1];
      assert WellFormed(c);
      if !c.isFile {
        PreOrderSize(c);
      }
    }
  }

  /** The length FT_strlenAccumulate adds up over `xs`: each path's text
      and one more byte. */
  function TotalLength(xs: seq<Node>): (total: nat)
    ensures total >= |xs|
  {
    if |xs| == 0 then 0 else TotalLength(xs[..|xs| - 1]) + |PathName(xs[|xs| - 1].path)| + 1
  }

  /** The text FT_strcatAccumulate builds over `xs`: each path's text
      followed by a newline. */
  function Render(xs: seq<Node>): (s: string)
  {
    if |xs| == 0 then "" else Render(xs[..|xs| - 1]) + PathName(xs[|xs| - 1].path) + "\n"
  }

  /** The text has exactly the length that was added up, so the buffer
      FT_toString allocates holds it and its terminating NUL exactly. */
  lemma {:induction false} RenderLength(xs: seq<Node>)
    ensures |Render(xs)| == TotalLength(xs)
  {
    if |xs| > 0 {
      RenderLength(xs[..|xs| - 1]);
    }
  }

  lemma {:induction false} TotalLengthAppend(xs: seq<Node>, x: Node)
    ensures TotalLength(xs + [x]) == TotalLength(xs) + |PathName(x.path)| + 1
  {
    assert (xs + [x])[..|xs|] == xs;
  }

  lemma {:induction false} RenderAppend(xs: seq<Node>, x: Node)
    ensures Render(xs + [x]) == Render(xs) + PathName(x.path) + "\n"
  {
    assert (xs + [x])[..|xs|] == xs;
  }

  /** The slots `s` hold `xs` from index `i` on. */
  ghost predicate Holds(s: seq<Option<Node>>, i: nat, xs: seq<Node>)
  {
    i + |xs| <= |s| && forall k :: 0 <= k < |xs| ==> s[i + k] == Some(xs[k])
  }

  /** `t` differs from `s` at most in the slots `lo` to `hi - 1`. */
  ghost predicate SameOutside(s: seq<Option<Node>>, t: seq<Option<Node>>, lo: nat, hi: nat)
  {
    |s| == |t| && forall k :: 0 <= k < |s| && !(lo <= k < hi) ==> t[k] == s[k]
  }

  /** The listing of `n` up to the directories among its first `c`
      children. */
  ghost function Listed(n: Node, c: nat): (r: seq<Node>)
    requires c <= |ChildrenOf(n)|
    ensures c == |ChildrenOf(n)| ==> r == PreOrder(n)
  {
    [n] + FilesOf(ChildrenOf(n)) + DirListings(n, c)
  }

  /** One more child extends the listing by that child's listing when it
      is a directory. */
  lemma {:induction false} ListedStep(n: Node, c: nat)
    requires c < |ChildrenOf(n)|
    ensures var child := ChildrenOf(n)[c];
      Listed(n, c + 1) == Listed(n, c) + Below(child)
  {
  }

  /** A directory child's listing fits in what remains of its parent's. */
  lemma {:induction false} ListedBound(n: Node, c: nat)
    requires WellFormed(n) && c < |ChildrenOf(n)| && !ChildrenOf(n)[c].isFile
    ensures WellFormed(ChildrenOf(n)[c])
    ensures |Listed(n, c)| + Size(ChildrenOf(n)[c]) <= Size(n)
    ensures |PreOrder(ChildrenOf(n)[c])| == Size(ChildrenOf(n)[c])
  {
    var child := ChildrenOf(n)[c];
    assert WellFormed(child);
    PreOrderSize(child);
    PreOrderSize(n);
    ListedStep(n, c);
    DirListingsBound(n, c + 1);
  }

  /** Slots already filled survive a store beyond them, and the two runs
      join into one. */
  lemma {:induction false} HoldsAppend(s: seq<Option<Node>>, t: seq<Option<Node>>, i: nat, xs: seq<Node>, ys: seq<Node>, hi: nat)
    requires Holds(s, i, xs) && SameOutside(s, t, i + |xs|, hi) && Holds(t, i + |xs|, ys)
    ensures Holds(t, i, xs + ys)
  {
    forall k | 0 <= k < |xs| + |ys|
      ensures t[i + k] == Some((xs + ys)[k])
    {
      if k >= |xs| {
        assert t[i + k] == t[(i + |xs|) + (k - |xs|)];
      }
    }
  }

  /** Two stores, the second beyond where the first began, change only the
      slots from the first one's start. */
  lemma {:induction false} SameOutsideTrans(s: seq<Option<Node>>, t: seq<Option<Node>>, u: seq<Option<Node>>, lo: nat, mid: nat, hi: nat)
    requires SameOutside(s, t, lo, mid) && SameOutside(t, u, mid, hi) && lo <= mid <= hi
    ensures SameOutside(s, u, lo, hi)
  {
  }

  /** FT_preOrderTraversal: stores the listing of the subtree at `n` into
      `d` from index `i` on (DynArray_set) and returns the next free index;
      no other slot changes. */
  method PreOrderTraversal(n: Node, d: array<Option<Node>>, i: nat) returns (next: nat)
    requires WellFormed(n) && i + Size(n) <= d.Length
    modifies d
    ensures next == i + Size(n)
    ensures Holds(d[..], i, PreOrder(n))
    ensures SameOutside(old(d[..]), d[..], i, next)
    decreases n, 2
  {
    PreOrderSize(n);
    d[i] := Some(n);
    ghost var head := d[..];
    assert Holds(head, i, [n]);
    next := StoreFiles(n, d, i + 1);
    HoldsAppend(head, d[..], i, [n], FilesOf(ChildrenOf(n)), next);
    ghost var mid := d[..];
    next := StoreDirectories(n, d, i, next);
    SameOutsideTrans(old(d[..]), head, mid, i, i + 1, next);
    SameOutsideTrans(old(d[..]), mid, d[..], i, i + 1 + |FilesOf(ChildrenOf(n))|, next);
  }

  /** The first loop of FT_preOrderTraversal: the file children of `n`, in
      order, from index `i` on. */
  method StoreFiles(n: Node, d: array<Option<Node>>, i: nat) returns (next: nat)
    requires i + |FilesOf(ChildrenOf(n))| <= d.Length
    modifies d
    ensures next == i + |FilesOf(ChildrenOf(n))|
    ensures Holds(d[..], i, FilesOf(ChildrenOf(n)))
    ensures SameOutside(old(d[..]), d[..], i, next)
  {
    var cs := ChildrenOf(n);
    next := i;
    var c := 0;
    while c < NumChildren(n)
      invariant 0 <= c <= |cs|
      invariant next == i + |FilesOf(cs[..c])|
      invariant Holds(d[..], i, FilesOf(cs[..c]))
      invariant SameOutside(old(d[..]), d[..], i, next)
    {
      var child := GetChild(n, c).value;
      FilesPrefix(cs, c);
      FilesBound(cs, c + 1);
      if child.isFile {
        ghost var before := d[..];
        d[next] := Some(child);
        assert Holds(d[..], next, [child]);
        HoldsAppend(before, d[..], i, FilesOf(cs[..c]), [child], next + 1);
        next := next + 1;
      }
      c := c + 1;
    }
    assert cs[..c] == cs;
  }

  /** The second loop of FT_preOrderTraversal: the listing of each
      directory child of `n`, in order, from index `from` on, where the
      listing of `n` began at `i`. */
  method StoreDirectories(n: Node, d: array<Option<Node>>, i: nat, from: nat) returns (next: nat)
    requires WellFormed(n) && from == i + 1 + |FilesOf(ChildrenOf(n))| && i + Size(n) <= d.Length
    requires Holds(d[..], i, Listed(n, 0))
    modifies d
    ensures next == i + Size(n)
    ensures Holds(d[..], i, PreOrder(n))
    ensures SameOutside(old(d[..]), d[..], from, next)
    decreases n, 1
  {
    var cs := ChildrenOf(n);
    PreOrderSize(n);
    next := from;
    var c := 0;
    while c < NumChildren(n)
      invariant 0 <= c <= |cs|
      invariant next == i + |Listed(n, c)|
      invariant Holds(d[..], i, Listed(n, c))
      invariant SameOutside(old(d[..]), d[..], from, next)
    {
      var child := GetChild(n, c).value;
      ListedStep(n, c);
      if !child.isFile {
        ListedBound(n, c);
      }
      ghost var before := d[..];
      ghost var start := next;
      next := StoreChild(child, d, i, Listed(n, c), next);
      SameOutsideTrans(old(d[..]), before, d[..], from, start, next);
      c := c + 1;
    }
  }

  /** One pass of the second loop of FT_preOrderTraversal: the listing of
      `child` when it is a directory, stored after the run `xs` that began
      at `i`. */
  method StoreChild(child: Node, d: array<Option<Node>>, i: nat, ghost xs: seq<Node>, from: nat) returns (next: nat)
    requires !child.isFile ==> WellFormed(child) && from + Size(child) <= d.Length
    requires from == i + |xs| && Holds(d[..], i, xs)
    modifies d
    ensures next == i + |xs + Below(child)|
    ensures Holds(d[..], i, xs + Below(child))
    ensures SameOutside(old(d[..]), d[..], from, next)
    decreases child, 3
  {
    next := from;
    if !child.isFile {
      PreOrderSize(child);
      next := PreOrderTraversal(child, d, next);
      HoldsAppend(old(d[..]), d[..], i, xs, PreOrder(child), next);
    } else {
      assert xs + Below(child) == xs;
    }
  }

  /** The files among a prefix of `cs` are no more than those among `cs`. */
  lemma {:induction false} FilesBound(cs: seq<Node>, c: nat)
    requires c <= |cs|
    ensures |FilesOf(cs[..c])| <= |FilesOf(cs)|
    decreases |cs| - c
  {
    if c < |cs| {
      FilesPrefix(cs, c);
      FilesBound(cs, c + 1);
    } else {
      assert cs[..c] == cs;
    }
  }

  /** The listings of the directories among a prefix of the children are
      no longer than those among all of them. */
  lemma {:induction false} DirListingsBound(n: Node, c: nat)
    requires c <= |ChildrenOf(n)|
    ensures |DirListings(n, c)| <= |DirListings(n, |ChildrenOf(n)|)|
    decreases |ChildrenOf(n)| - c
  {
    if c < |ChildrenOf(n)| {
      DirListingsBound(n, c + 1);
    }
  }

  /** One more child extends the files among the children before it. */
  lemma {:induction false} FilesPrefix(cs: seq<Node>, c: nat)
    requires c < |cs|
    ensures FilesOf(cs[..c + 1]) == FilesOf(cs[..c]) + (if cs[c].isFile then [cs[c]] else [])
  {
    assert cs[..c + 1][..c] == cs[..c];
  }
  /** Every node listed below `n` lies in its subtree: its path extends
      `n`'s. */
  lemma {:induction false} PreOrderBelow(n: Node)
    requires WellFormed(n)
    ensures forall x :: x in PreOrder(n) ==> IsPrefix(n.path, x.path)
    decreases n, 1
  {
    var cs := ChildrenOf(n);
    FilesIn(cs);
    DirListingsBelow(n, |cs|);
    forall x | x in FilesOf(cs)
      ensures IsPrefix(n.path, x.path)
    {
      var j :| 0 <= j < |cs| && cs[j] == x;
      assert ChildLinked(n, cs[j]);
    }
  }

  lemma {:induction false} DirListingsBelow(n: Node, k: nat)
    requires WellFormed(n) && k <= |ChildrenOf(n)|
    ensures forall x :: x in DirListings(n, k) ==> IsPrefix(n.path, x.path)
    decreases n, 0, k
  {
    if k > 0 {
      var c := ChildrenOf(n)[k - 1];
      DirListingsBelow(n, k - 1);
      if !c.isFile {
        assert ChildLinked(n, c) && WellFormed(c);
        PreOrderBelow(c);
        forall x | x in PreOrder(c)
          ensures IsPrefix(n.path, x.path)
        {
          assert x.path[..|c.path|][..|n.path|] == x.path[..|n.path|];
        }
      }
    }
  }

  /** The files among `cs` are files of `cs`. */
  lemma {:induction false} FilesIn(cs: seq<Node>)
    ensures forall x :: x in FilesOf(cs) ==> x in cs && x.isFile
  {
    if |cs| > 0 {
      FilesIn(cs[..|cs| - 1]);
      assert forall x :: x in cs[..|cs| - 1] ==> x in cs;
    }
  }

  /** The nodes stored in the slots `s`, in slot order; empty slots (NULL
      elements, which both accumulators skip) are passed over. */
  function Present(s: seq<Option<Node>>): (r: seq<Node>)
    ensures |r| <= |s|
  {
    if |s| == 0 then []
    else Present(s[..|s| - 1]) + (if s[|s| - 1].Some? then [s[|s| - 1].value] else [])
  }

  /** Slots that hold exactly `xs` present exactly `xs`. */
  lemma {:induction false} PresentHolds(s: seq<Option<Node>>, xs: seq<Node>)
    requires Holds(s, 0, xs) && |xs| == |s|
    ensures Present(s) == xs
  {
    if |s| > 0 {
      var m := |s| - 1;
      assert s[m] == Some(xs[m]);
      assert Holds(s[..m], 0, xs[..m]) by {
        forall k | 0 <= k < m
          ensures s[..m][0 + k] == Some(xs[..m][k])
        {
          assert s[0 + k] == Some(xs[k]);
        }
      }
      PresentHolds(s[..m], xs[..m]);
      assert xs == xs[..m] + [xs[m]];
    }
  }

  /** One more slot extends what is present by its node, if any. */
  lemma {:induction false} PresentStep(s: seq<Option<Node>>, j: nat)
    requires j < |s|
    ensures Present(s[..j + 1]) == Present(s[..j]) + (if s[j].Some? then [s[j].value] else [])
  {
    assert s[..j + 1][..j] == s[..j];
  }

  /** The first DynArray_map of FT_toString: FT_strlenAccumulate over every
      slot, starting from 1 for the terminating NUL. */
  method StrlenTotal(d: array<Option<Node>>) returns (total: nat)
    ensures total == 1 + TotalLength(Present(d[..]))
  {
    total := 1;
    var j := 0;
    while j < d.Length
      invariant 0 <= j <= d.Length
      invariant total == 1 + TotalLength(Present(d[..j]))
    {
      PresentStep(d[..], j);
      assert d[..][..j + 1] == d[..j + 1] && d[..][..j] == d[..j];
      if d[j].Some? {
        TotalLengthAppend(Present(d[..j]), d[j].value);
        assert Present(d[..j + 1]) == Present(d[..j]) + [d[j].value];
        total := total + |PathName(d[j].value.path)| + 1;
      } else {
        assert Present(d[..j + 1]) == Present(d[..j]);
      }
      j := j + 1;
    }
    assert d[..j] == d[..];
  }

  /** The second DynArray_map of FT_toString: FT_strcatAccumulate over
      every slot, starting from the empty string. */
  method Concatenate(d: array<Option<Node>>) returns (text: string)
    ensures text == Render(Present(d[..]))
  {
    text := "";
    var j := 0;
    while j < d.Length
      invariant 0 <= j <= d.Length
      invariant text == Render(Present(d[..j]))
    {
      PresentStep(d[..], j);
      assert d[..][..j + 1] == d[..j + 1] && d[..][..j] == d[..j];
      if d[j].Some? {
        RenderAppend(Present(d[..j]), d[j].value);
        assert Present(d[..j + 1]) == Present(d[..j]) + [d[j].value];
        text := text + PathName(d[j].value.path) + "\n";
      } else {
        assert Present(d[..j + 1]) == Present(d[..j]);
      }
      j := j + 1;
    }
    assert d[..j] == d[..];
  }
}
