/**
  The path algebra the file tree consumes. The Path module itself
  (parsing, string storage) is not part of this model: a path is its
  sequence of name components, and depth, prefix, shared-prefix depth,
  comparison and string form are defined here on that sequence.
 */
module Paths {

  /** An absolute path as its name components; its depth is its length. */
  type Path = seq<string>

  /** What Path_new accepts: at least one component, none of them empty,
      none containing the separator. Anything else is BAD_PATH. */
  predicate WellFormedPath(p: Path) {
    |p| >= 1 && forall i :: 0 <= i < |p| ==> p[i] != "" && '/' !in p[i]
  }

  /** `a` is a (not necessarily proper) prefix of `b`. */
  predicate IsPrefix(a: Path, b: Path) {
    |a| <= |b| && b[..|a|] == a
  }

  /** `a` is exactly `b` with its last component removed. */
  predicate IsParentOf(a: Path, b: Path) {
    |b| == |a| + 1 && b[..|a|] == a
  }

  /** Cutting a cut path shorter cuts the original. */
  lemma {:induction false} TakeTake(q: Path, i: nat, j: nat)
    requires i <= j <= |q|
    ensures q[..j][..i] == q[..i]
  {
  }

  /** Cutting a path at two depths gives a prefix and its extension. */
  lemma {:induction false} PrefixOfPrefix(q: Path, i: nat, j: nat)
    requires i <= j <= |q|
    ensures IsPrefix(q[..i], q[..j])
  {
    assert q[..j][..i] == q[..i];
  }

  /** The number of leading components two paths have in common. */
  function SharedPrefixDepth(a: Path, b: Path): (d: nat)
    ensures d <= |a| && d <= |b|
    ensures a[..d] == b[..d]
    ensures d < |a| && d < |b| ==> a[d] != b[d]
  {
    if |a| == 0 || |b| == 0 || a[0] != b[0] then 0
    else
      var d := 1 + SharedPrefixDepth(a[1..], b[1..]);
      assert a[..d] == [a[0]] + a[1..][..d - 1];
      assert b[..d] == [b[0]] + b[1..][..d - 1];
      d
  }

  /** The shared-prefix depth of a path and its parent is the parent's depth. */
  lemma {:induction false} SharedPrefixOfParent(parent: Path, child: Path)
    requires IsParentOf(parent, child)
    ensures SharedPrefixDepth(child, parent) == |parent| == |child| - 1
  {
  }

  /** Three-way comparison of strings, character by character (strcmp's sign). */
  function CompareString(s: string, t: string): (r: int)
    ensures -1 <= r <= 1
    ensures r == 0 <==> s == t
  {
    if |s| == 0 && |t| == 0 then 0
    else if |s| == 0 then -1
    else if |t| == 0 then 1
    else if s[0] < t[0] then -1
    else if s[0] > t[0] then 1
    else
      var r := CompareString(s[1..], t[1..]);
      assert r == 0 ==> s == [s[0]] + s[1..] == [t[0]] + t[1..] == t;
      r
  }

  lemma {:induction false} CompareStringAntisymmetric(s: string, t: string)
    ensures CompareString(s, t) == -CompareString(t, s)
  {
    if |s| > 0 && |t| > 0 && s[0] == t[0] {
      CompareStringAntisymmetric(s[1..], t[1..]);
    }
  }

  lemma {:induction false} CompareStringTransitive(s: string, t: string, u: string)
    requires CompareString(s, t) < 0 && CompareString(t, u) < 0
    ensures CompareString(s, u) < 0
  {
    if |s| > 0 && |t| > 0 && |u| > 0 && s[0] == t[0] == u[0] {
      CompareStringTransitive(s[1..], t[1..], u[1..]);
    }
  }

  /** Three-way lexicographic comparison of paths, component by component;
      a proper prefix comes first. */
  function Compare(a: Path, b: Path): (r: int)
    ensures -1 <= r <= 1
    ensures r == 0 <==> a == b
  {
    if |a| == 0 && |b| == 0 then 0
    else if |a| == 0 then -1
    else if |b| == 0 then 1
    else
      var c := CompareString(a[0], b[0]);
      if c != 0 then c
      else
        var r := Compare(a[1..], b[1..]);
        assert r == 0 ==> a == [a[0]] + a[1..] == [b[0]] + b[1..] == b;
        r
  }

  /** `a` sorts strictly before `b`. */
  predicate Less(a: Path, b: Path) {
    Compare(a, b) < 0
  }

  lemma {:induction false} CompareAntisymmetric(a: Path, b: Path)
    ensures Compare(a, b) == -Compare(b, a)
  {
    if |a| > 0 && |b| > 0 {
      CompareStringAntisymmetric(a[0], b[0]);
      if CompareString(a[0], b[0]) == 0 {
        CompareAntisymmetric(a[1..], b[1..]);
      }
    }
  }

  lemma {:induction false} LessTransitive(a: Path, b: Path, c: Path)
    requires Less(a, b) && Less(b, c)
    ensures Less(a, c)
  {
    if |a| > 0 && |b| > 0 && |c| > 0 {
      var ab, bc := CompareString(a[0], b[0]), CompareString(b[0], c[0]);
      if ab == 0 && bc == 0 {
        LessTransitive(a[1..], b[1..], c[1..]);
      } else if ab == 0 {
        assert a[0] == b[0];
      } else if bc == 0 {
        assert b[0] == c[0];
      } else {
        CompareStringTransitive(a[0], b[0], c[0]);
      }
    }
  }

  /** Exactly one of `a < b`, `a == b`, `b < a` holds. */
  lemma {:induction false} LessTrichotomy(a: Path, b: Path)
    ensures Less(a, b) || a == b || Less(b, a)
    ensures !(Less(a, b) && Less(b, a))
    ensures !Less(a, a)
  {
    CompareAntisymmetric(a, b);
  }

  /** The string form of a path: its components joined by '/'. */
  function PathName(p: Path): string {
    if |p| == 0 then ""
    else if |p| == 1 then p[0]
    else PathName(p[..|p| - 1]) + "/" + p[|p| - 1]
  }

  /** A common prefix does not change how two strings compare. */
  lemma {:induction false} CompareStringCommonPrefix(u: string, s: string, t: string)
    ensures CompareString(u + s, u + t) == CompareString(s, t)
  {
    if |u| > 0 {
      assert (u + s)[0] == u[0] == (u + t)[0];
      assert (u + s)[1..] == u[1..] + s && (u + t)[1..] == u[1..] + t;
      CompareStringCommonPrefix(u[1..], s, t);
      assert CompareString(u + s, u + t) == CompareString(u[1..] + s, u[1..] + t);
    } else {
      assert u + s == s && u + t == t;
    }
  }

  /** Two paths with the same parent compare as their last components. */
  lemma {:induction false} CompareSiblings(p: Path, x: string, y: string)
    ensures Compare(p + [x], p + [y]) == CompareString(x, y)
  {
    if |p| > 0 {
      assert (p + [x])[1..] == p[1..] + [x] && (p + [y])[1..] == p[1..] + [y];
      CompareSiblings(p[1..], x, y);
    }
  }

  /** The string form of a child path is its parent's, a separator and its
      last component. */
  lemma {:induction false} PathNameChild(p: Path, x: string)
    ensures PathName(p + [x]) == if |p| == 0 then x else PathName(p) + "/" + x
  {
    assert (p + [x])[..|p|] == p;
  }

  /** The order of paths by component and the order of their string forms
      agree on two paths with the same parent. */
  lemma {:induction false} SiblingOrderAgrees(p: Path, x: string, y: string)
    ensures Compare(p + [x], p + [y]) == CompareString(PathName(p + [x]), PathName(p + [y]))
  {
    CompareSiblings(p, x, y);
    PathNameChild(p, x);
    PathNameChild(p, y);
    if |p| > 0 {
      CompareStringCommonPrefix(PathName(p) + "/", x, y);
      assert PathName(p) + "/" + x == (PathName(p) + "/") + x;
    }
  }

  /** Across parents the two orders can disagree: `a/b` comes before `a-c`
      component by component (`a` is a prefix of `a-c`) but after it as a
      string ('/' is 0x2F, '-' is 0x2D). */
  lemma {:induction false} OrdersDifferAcrossParents()
    ensures Less(["a", "b"], ["a-c"])
    ensures CompareString(PathName(["a", "b"]), PathName(["a-c"])) > 0
  {
    assert "a"[1..] == "" && "a-c"[1..] == "-c";
    assert CompareString("a", "a-c") == -1;
    assert ["a", "b"][1..] == ["b"];
    assert PathName(["a", "b"]) == "a/b" by {
      assert ["a", "b"][..1] == ["a"];
    }
    assert "a/b"[1..] == "/b" && "a-c"[1..] == "-c";
  }
}
