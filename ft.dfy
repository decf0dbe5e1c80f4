/**
  The file tree (3FT/ft.c): a hierarchy of directories and files held as
  an abstract object with three state variables, whether it is
  initialized, its root node and the number of nodes in it.

  The C module keeps that state in static variables; here it is the
  `FileTree` class. Nodes are values (see Nodes), so an update the C code
  makes in place through a node pointer is an update of `root` by
  `Replace` at the node's path. Path strings are taken already split into
  components: a path is well-formed when Path_new would accept its text.
 */
module FileTree {
  import opened Defs
  import opened Paths
  import opened Nodes
  import opened Hierarchy
  import opened Edits
  import opened Listing
  import opened ListingCoverage

  class FileTree {
    var isInitialized: bool
    var root: Option<Node>
    var count: nat

    /** What every operation keeps: no tree unless initialized; the root is
        a well-formed directory of depth 1 without parent; `count` is the
        number of nodes. */
    ghost predicate Valid()
      reads this
    {
      && (!isInitialized ==> root.None? && count == 0)
      && (root.Some? ==>
            WellFormed(root.value) && root.value.parent.None? && |root.value.path| == 1 && !root.value.isFile)
      && count == (if root.Some? then Size(root.value) else 0)
    }

    /** The three static variables start zeroed: not initialized, no root,
        no nodes. */
    constructor ()
      ensures Valid() && !isInitialized && root.None? && count == 0
    {
      isInitialized, root, count := false, None, 0;
    }

    /** The node with path `q`, when the tree is initialized, `q` is
        well-formed and the hierarchy holds it. */
    function Lookup(q: Path): (r: Option<Node>)
      reads this
      ensures r.Some? ==> r.value.path == q && root.Some?
    {
      LookupIn(isInitialized, root, q)
    }

    /** The status FT_findNode reports for `q`. */
    function FindStatus(q: Path): (s: Status)
      reads this
    {
      if !isInitialized then InitializationError
      else if !WellFormedPath(q) then BadPath
      else if root.None? then NoSuchPath
      else if root.value.path != q[..1] then ConflictingPath
      else
        var a := Reach(root.value, q);
        if a.path != q && a.isFile then NotADirectory
        else if a.path != q then NoSuchPath
        else if a.isFile then IsFile
        else IsDirectory
    }

    /** The lookup succeeds exactly when the reported status says what kind
        of node was found, and the status names that kind. */
    lemma {:induction false} FindStatusFound(q: Path)
      requires Valid()
      ensures Lookup(q).Some? <==> FindStatus(q) in {IsFile, IsDirectory}
      ensures Lookup(q).Some? ==> FindStatus(q) == if Lookup(q).value.isFile then IsFile else IsDirectory
      ensures FindStatus(q) in {InitializationError, BadPath, NoSuchPath, ConflictingPath, NotADirectory, IsFile, IsDirectory}
    {
      if isInitialized && WellFormedPath(q) && root.Some? && Get(root.value, q).Some? {
        GetBelowTop(root.value, q);
      }
    }

    /** FT_traversePath: walks from the root toward `q` as far as the
        hierarchy goes. Without a root nothing is reached; a root that is
        not `q`'s first level is CONFLICTING_PATH; otherwise the furthest
        node is reported, with NOT_A_DIRECTORY when it is a file short of `q`. */
    method TraversePath(q: Path) returns (status: Status, furthest: Option<Node>)
      requires |q| >= 1
      ensures root.None? ==> status == Success && furthest.None?
      ensures root.Some? && root.value.path != q[..1] ==> status == ConflictingPath && furthest.None?
      ensures root.Some? && root.value.path == q[..1] ==>
        && furthest == Some(Reach(root.value, q))
        && status == if Reach(root.value, q).path != q && Reach(root.value, q).isFile then NotADirectory else Success
    {
      if root.None? {
        return Success, None;
      }
      if root.value.path != q[..1] {
        return ConflictingPath, None;
      }
      var cur := root.value;
      var i := 2;
      while i <= |q|
        invariant 2 <= i <= |q| + 1
        invariant |cur.path| == i - 1 && cur.path == q[..i - 1]
        invariant Reach(cur, q) == Reach(root.value, q)
        decreases |q| + 1 - i
      {
        if !cur.isFile && HasChild(cur, q[..i]).found {
          // the index comes from the search, so getting the child cannot fail
          cur := GetChild(cur, HasChild(cur, q[..i]).index).value;
          i := i + 1;
        } else {
          break;
        }
      }
      furthest := Some(cur);
      if cur.path != q && cur.isFile {
        return NotADirectory, furthest;
      }
      status := Success;
    }

    /** FT_findNode: the node with path `q` and its kind, or the reason
        there is none. */
    method FindNode(q: Path) returns (status: Status, found: Option<Node>)
      requires Valid()
      ensures found == Lookup(q)
      ensures status == FindStatus(q)
    {
      if !isInitialized {
        return InitializationError, None;
      }
      if !WellFormedPath(q) {
        return BadPath, None;
      }
      status, found := TraversePath(q);
      if status != Success {
        if root.Some? && root.value.path == q[..1] {
          assert Get(root.value, q).None?;
        }
        return status, None;
      }
      if found.None? {
        return NoSuchPath, None;
      }
      if found.value.path != q {
        return NoSuchPath, None;
      }
      status := if found.value.isFile then IsFile else IsDirectory;
    }

    /** FT_containsDir: whether the hierarchy holds a directory at `q`. */
    method ContainsDir(q: Path) returns (b: bool)
      requires Valid()
      ensures b <==> Lookup(q).Some? && !Lookup(q).value.isFile
    {
      var status, found := FindNode(q);
      FindStatusFound(q);
      b := status == IsDirectory;
    }

    /** FT_containsFile: whether the hierarchy holds a file at `q`. */
    method ContainsFile(q: Path) returns (b: bool)
      requires Valid()
      ensures b <==> Lookup(q).Some? && Lookup(q).value.isFile
    {
      var status, found := FindNode(q);
      FindStatusFound(q);
      b := status == IsFile;
    }

    /** Whether an insert of `q` has somewhere to go: the tree is
        initialized, `q` is well-formed, a file does not become the root,
        and with a root the walk toward `q` starts at the root and stops
        short of `q` at a directory. */
    ghost predicate Insertable(q: Path, isFile: bool)
      reads this
    {
      && isInitialized && WellFormedPath(q)
      && (root.None? ==> !(isFile && |q| == 1))
      && (root.Some? ==> root.value.path == q[..1] && CanGraft(root.value, q))
    }

    /** The status FT_insertDir and FT_insertFile settle on before building
        anything, in the order they check: no initialization, a malformed
        path, what the walk toward `q` reports, a file that would become the
        root, a node already at `q`; SUCCESS when the insert goes ahead. */
    function InsertStatus(q: Path, isFile: bool): (s: Status)
      reads this
    {
      if !isInitialized then InitializationError
      else if !WellFormedPath(q) then BadPath
      else if FindStatus(q) == ConflictingPath || FindStatus(q) == NotADirectory then FindStatus(q)
      else if isFile && root.None? && |q| == 1 then ConflictingPath
      else if FindStatus(q) == IsFile || FindStatus(q) == IsDirectory then AlreadyInTree
      else Success
    }

    /** The insert goes ahead exactly when it has somewhere to go, and it
        reports ALREADY_IN_TREE exactly when the lookup finds a node at `q`. */
    lemma {:induction false} InsertStatusMeaning(q: Path, isFile: bool)
      requires Valid()
      ensures InsertStatus(q, isFile) == Success <==> Insertable(q, isFile)
      ensures InsertStatus(q, isFile) == AlreadyInTree <==> Lookup(q).Some?
      ensures InsertStatus(q, isFile) in {InitializationError, BadPath, ConflictingPath, NotADirectory, AlreadyInTree, Success}
    {
      FindStatusFound(q);
    }

    /** The checks FT_insertDir and FT_insertFile make before building: on
        SUCCESS, `furthest` is where the walk toward `q` stopped. */
    method CheckInsert(q: Path, isFile: bool) returns (status: Status, furthest: Option<Node>)
      requires Valid()
      ensures status == InsertStatus(q, isFile)
      ensures status == Success ==> StopsAt(root, q, furthest)
    {
      if !isInitialized {
        return InitializationError, None;
      }
      if !WellFormedPath(q) {
        return BadPath, None;
      }
      status, furthest := TraversePath(q);
      if status != Success {
        return;
      }
      if isFile && root.None? && |q| == 1 {
        return ConflictingPath, None;
      }
      // the C code's check for a missing ancestor under an existing root
      // cannot fire here: the walk then reports CONFLICTING_PATH
      if furthest.Some? && |furthest.value.path| == |q| && furthest.value.path == q {
        return AlreadyInTree, furthest;
      }
      status := Success;
    }

    /** FT_insertDir and FT_insertFile (one body, which differ only in the
        kind of the last level and the check that a file is not the root):
        after the checks of `CheckInsert`, builds the missing levels of `q`
        one at a time below the deepest node already on the way, as
        directories except that a file insert makes the last level a file
        with the given contents (a directory insert passes none).
        `alloc(k)` says which allocation, if any, fails while level `k` is
        made; on such a failure the levels built so far are freed again. */
    method Insert(q: Path, isFile: bool, contents: Option<Blob>, length: nat, alloc: nat -> Alloc)
      returns (status: Status)
      requires Valid()
      requires contents.None? ==> length == 0
      requires !isFile ==> contents.None?
      modifies this
      ensures Valid() && isInitialized == old(isInitialized)
      ensures old(InsertStatus(q, isFile)) != Success ==> status == old(InsertStatus(q, isFile))
      ensures old(InsertStatus(q, isFile)) == Success ==> status == Success || status == MemoryError
      ensures old(InsertStatus(q, isFile)) == Success && (forall k :: 1 <= k <= |q| ==> alloc(k) == NoFault) ==> status == Success
      ensures status == Success ==>
        && root == Some(Inserted(old(root), q, isFile, contents, length))
        && count == old(count) + |q| - Base(old(root), q)
        && Lookup(q) == Some(NewNode(q, if |q| == 1 then None else Some(q[..|q| - 1]), isFile, contents, length))
      ensures status == Success ==>
        forall k :: Base(old(root), q) < k <= |q| ==>
          Lookup(q[..k]).Some? && (Lookup(q[..k]).value.isFile <==> k == |q| && isFile)
      ensures status == Success ==>
        forall p :: old(Lookup(p)).Some? ==>
          Lookup(p).Some? && Lookup(p).value.isFile == old(Lookup(p)).value.isFile
      ensures status != Success ==> root == old(root) && count == old(count)
    {
      var furthest;
      status, furthest := CheckInsert(q, isFile);
      if status != Success {
        return;
      }
      InsertStatusMeaning(q, isFile);
      StopsAtGraftPoint(root, q, furthest);
      var result, newNodes;
      status, result, newNodes := BuildLevels(root, q, isFile, contents, length, alloc, furthest);
      if status != Success {
        // the hierarchy after the clean-up of the levels built so far
        root := result;
        return;
      }
      GrownFull(root, furthest, q, isFile, contents, length);
      InsertedProperties(root, q, isFile, contents, length);
      InsertedLookups(root, q, isFile, contents, length);
      root := result;
      count := count + newNodes;
    }

    /** The status FT_rmDir (`isFile` false) and FT_rmFile (`isFile` true)
        report: SUCCESS when the lookup finds a node of the wanted kind,
        NOT_A_DIRECTORY or NOT_A_FILE when it finds the other kind, and the
        lookup's own failure otherwise. */
    function RemoveStatus(q: Path, isFile: bool): (s: Status)
      reads this
    {
      var found := FindStatus(q);
      if found == (if isFile then IsFile else IsDirectory) then Success
      else if found == IsFile then NotADirectory
      else if found == IsDirectory then NotAFile
      else found
    }

    /** A removal goes ahead exactly when the lookup finds a node of the
        wanted kind. */
    lemma {:induction false} RemoveStatusMeaning(q: Path, isFile: bool)
      requires Valid()
      ensures RemoveStatus(q, isFile) == Success <==> Lookup(q).Some? && Lookup(q).value.isFile == isFile
      ensures RemoveStatus(q, isFile) in {InitializationError, BadPath, NoSuchPath, ConflictingPath, NotADirectory, NotAFile, Success}
      ensures RemoveStatus(q, isFile) == NotAFile ==> isFile && Lookup(q).Some?
    {
      FindStatusFound(q);
    }

    /** FT_rmDir: removes the directory at `q` with everything below it;
        every path outside that subtree is found afterwards exactly where it
        was found before, with the same kind of node. */
    method RmDir(q: Path) returns (status: Status)
      requires Valid()
      modifies this
      ensures Valid() && isInitialized == old(isInitialized)
      ensures status == old(RemoveStatus(q, false))
      ensures status == Success ==> old(Lookup(q)).Some? && !old(Lookup(q)).value.isFile
      ensures status == Success ==>
        && root == Removed(old(root).value, q)
        && count == old(count) - Size(old(Lookup(q)).value)
        && (forall below :: IsPrefix(q, below) ==> Lookup(below).None?)
        && (forall other :: !IsPrefix(q, other) ==>
              && (Lookup(other).Some? <==> old(Lookup(other)).Some?)
              && (Lookup(other).Some? ==> Lookup(other).value.isFile == old(Lookup(other)).value.isFile))
      ensures status != Success ==> root == old(root) && count == old(count)
    {
      var found;
      status, found := FindNode(q);
      RemoveStatusMeaning(q, false);
      FindStatusFound(q);
      if status != IsDirectory {
        if status == IsFile {
          return NotADirectory;
        }
        return;
      }
      Unlink(q, found.value);
      status := Success;
    }

    /** FT_rmFile: removes the file at `q`, and leaves every other path
        found exactly where it was found before, with the same kind of node. */
    method RmFile(q: Path) returns (status: Status)
      requires Valid()
      modifies this
      ensures Valid() && isInitialized == old(isInitialized)
      ensures status == old(RemoveStatus(q, true))
      ensures status == Success ==> old(Lookup(q)).Some? && old(Lookup(q)).value.isFile
      ensures status == Success ==>
        && root == Removed(old(root).value, q)
        && count == old(count) - 1
        && (forall below :: IsPrefix(q, below) ==> Lookup(below).None?)
        && (forall other :: !IsPrefix(q, other) ==>
              && (Lookup(other).Some? <==> old(Lookup(other)).Some?)
              && (Lookup(other).Some? ==> Lookup(other).value.isFile == old(Lookup(other)).value.isFile))
      ensures status != Success ==> root == old(root) && count == old(count)
    {
      var found;
      status, found := FindNode(q);
      RemoveStatusMeaning(q, true);
      FindStatusFound(q);
      if status != IsFile {
        if status == IsDirectory {
          return NotAFile;
        }
        return;
      }
      Unlink(q, found.value);
      status := Success;
    }

    /** The removal both FT_rmDir and FT_rmFile make once the node is
        found: Node_free unlinks it from its parent and frees its subtree,
        the count drops by the number of nodes freed, and the root is gone
        when nothing is left. */
    method Unlink(q: Path, found: Node)
      requires Valid() && Lookup(q) == Some(found)
      modifies this
      ensures Valid() && isInitialized == old(isInitialized)
      ensures root == Removed(old(root).value, q)
      ensures count == old(count) - Size(found)
      ensures forall below :: IsPrefix(q, below) ==> Lookup(below).None?
      ensures forall other :: !IsPrefix(q, other) ==>
        && (Lookup(other).Some? <==> old(Lookup(other)).Some?)
        && (Lookup(other).Some? ==> Lookup(other).value.isFile == old(Lookup(other)).value.isFile)
    {
      var t := root.value;
      RemovedProperties(t, q);
      var rest, freed := FreeFound(t, q, found);
      root := rest;
      count := count - freed;
      if count == 0 {
        root := None;
      }
      assert root == rest;
    }

    /** FT_getFileContents: the contents of the file at `q`, NULL when the
        lookup finds no file there. */
    method GetFileContents(q: Path) returns (contents: Option<Blob>)
      requires Valid()
      ensures contents == if Lookup(q).Some? && Lookup(q).value.isFile then Lookup(q).value.contents else None
    {
      var status, found := FindNode(q);
      FindStatusFound(q);
      if status != IsFile {
        return None;
      }
      contents := found.value.contents;
    }

    /** FT_replaceFileContents: installs new contents and length in the file
        at `q` and returns the previous contents; NULL and no change when
        the lookup finds no file there. */
    method ReplaceFileContents(q: Path, newContents: Option<Blob>, newLength: nat) returns (previous: Option<Blob>)
      requires Valid()
      requires newContents.None? ==> newLength == 0
      modifies this
      ensures Valid() && isInitialized == old(isInitialized) && count == old(count)
      ensures old(Lookup(q)).Some? && old(Lookup(q)).value.isFile ==>
        && previous == old(Lookup(q)).value.contents
        && root == Some(Replace(old(root).value, q, old(Lookup(q)).value.(contents := newContents, length := newLength)))
        && Lookup(q) == Some(old(Lookup(q)).value.(contents := newContents, length := newLength))
      ensures !(old(Lookup(q)).Some? && old(Lookup(q)).value.isFile) ==> previous.None? && root == old(root)
    {
      var status, found := FindNode(q);
      FindStatusFound(q);
      if status != IsFile {
        return None;
      }
      var t := root.value;
      FoundParent(t, q);
      var edited;
      previous, edited := EditContents(found.value, newContents, newLength);
      ContentsEdited(t, q, edited);
      root := Some(Replace(t, q, edited));
    }

    /** FT_stat: for a directory at `q` reports it is not a file and leaves
        the size as it was; for a file reports it is one and its length;
        otherwise reports the lookup's failure and leaves both as they were. */
    method Stat(q: Path, isFile0: bool, size0: nat) returns (status: Status, isFile: bool, size: nat)
      requires Valid()
      ensures status == (if FindStatus(q) in {IsFile, IsDirectory} then Success else FindStatus(q))
      ensures status == Success <==> Lookup(q).Some?
      ensures status == Success ==> isFile == Lookup(q).value.isFile
      ensures status == Success && isFile ==> size == Lookup(q).value.length
      ensures !(status == Success && isFile) ==> size == size0
      ensures status != Success ==> isFile == isFile0
    {
      var found;
      status, found := FindNode(q);
      FindStatusFound(q);
      isFile, size := isFile0, size0;
      if status != IsFile && status != IsDirectory {
        return;
      } else if status == IsDirectory {
        isFile := false;
      } else {
        isFile := true;
        size := found.value.length;
      }
      status := Success;
    }

    /** FT_init: starts an empty tree; INITIALIZATION_ERROR when the tree
        is already initialized. */
    method Init() returns (status: Status)
      requires Valid()
      modifies this
      ensures Valid()
      ensures old(isInitialized) ==> status == InitializationError && unchanged(this)
      ensures !old(isInitialized) ==> status == Success && isInitialized && root.None? && count == 0
    {
      if isInitialized {
        return InitializationError;
      }
      isInitialized, root, count := true, None, 0;
      status := Success;
    }

    /** FT_destroy: frees every node and returns to the uninitialized
        state; INITIALIZATION_ERROR when the tree is not initialized. */
    method Destroy() returns (status: Status)
      requires Valid()
      modifies this
      ensures Valid()
      ensures !old(isInitialized) ==> status == InitializationError && unchanged(this)
      ensures old(isInitialized) ==> status == Success && !isInitialized && root.None? && count == 0
    {
      if !isInitialized {
        return InitializationError;
      }
      if root.Some? {
        var freed, _ := NodeFree(root.value, None);
        count := count - freed;
        root := None;
      }
      isInitialized := false;
      status := Success;
    }

    /** The nodes FT_toString lists, in order: the listing
        FT_preOrderTraversal makes of the hierarchy (a node, its files, then
        each directory's listing), or nothing when there is none. */
    function InOrder(): (r: seq<Node>)
      reads this
      ensures root.None? <==> r == []
    {
      if root.Some? then PreOrder(root.value) else []
    }

    /** The listing visits every node of the hierarchy exactly once: it
        holds a node exactly when the walk from the root finds that node at
        its path, no path appears twice, and there are `count` entries, the
        root first. The text is `TotalLength` characters long, so with its
        NUL it fills exactly the `1 + TotalLength` bytes that StrlenTotal
        adds up and FT_toString allocates. */
    lemma {:induction false} InOrderProperties()
      requires Valid()
      ensures |InOrder()| == count
      ensures root.Some? ==> InOrder()[0] == root.value
      ensures forall x :: x in InOrder() <==> root.Some? && Get(root.value, x.path) == Some(x)
      ensures DistinctPaths(InOrder())
      ensures forall x :: x in InOrder() ==> IsPrefix(root.value.path, x.path)
      ensures |Render(InOrder())| == TotalLength(InOrder())
    {
      RenderLength(InOrder());
      if root.Some? {
        PreOrderSize(root.value);
        PreOrderBelow(root.value);
        PreOrderExactlyOnce(root.value);
      }
    }

    /** FT_toString: NULL when the tree is not initialized or when the text
        buffer cannot be allocated (`mallocFails`); otherwise the path of
        every node, one per line, in the order of FT_preOrderTraversal. */
    method ToString(mallocFails: bool) returns (s: Option<string>)
      requires Valid()
      ensures !isInitialized || mallocFails ==> s.None?
      ensures isInitialized && !mallocFails ==> s == Some(Render(InOrder()))
    {
      if !isInitialized {
        return None;
      }
      var d := new Option<Node>[count](_ => None);
      if root.Some? {
        var _ := PreOrderTraversal(root.value, d, 0);
        PreOrderSize(root.value);
        PresentHolds(d[..], PreOrder(root.value));
      } else {
        assert d[..] == [];
      }
      var total := StrlenTotal(d);
      if mallocFails {
        return None;
      }
      var text := Concatenate(d);
      RenderLength(InOrder());
      assert |text| + 1 == total;
      s := Some(text);
    }
  }

  /** Node_free on a node found at `q` in the hierarchy `t`: it is
      unlinked from its parent and its subtree freed, which leaves the
      removed hierarchy (nothing when it was the top); returns how many
      nodes were freed. */
  /** What a file tree with these state variables finds at `q`: the node
      with that path, when the tree is initialized, `q` is well-formed and
      the hierarchy holds it. */
  function LookupIn(isInitialized: bool, root: Option<Node>, q: Path): (r: Option<Node>)
    ensures r.Some? ==> r.value.path == q && root.Some?
  {
    if isInitialized && WellFormedPath(q) && root.Some? then Get(root.value, q) else None
  }

  /** Once an insert of `q` has turned the hierarchy `before` into its
      result, every new level of `q` is found, a directory except a file at
      `q` itself when a file was inserted, and every node found before is
      found at the same path, with the same kind. */
  lemma {:induction false} InsertedLookups(before: Option<Node>, q: Path, isFile: bool, contents: Option<Blob>, length: nat)
    requires WellFormedPath(q)
    requires before.Some? ==>
      WellFormed(before.value) && RootedAt(before.value, q) && before.value.parent.None? && CanGraft(before.value, q)
    requires contents.None? ==> length == 0
    ensures var after := Some(Inserted(before, q, isFile, contents, length));
      forall k :: Base(before, q) < k <= |q| ==>
        LookupIn(true, after, q[..k]).Some? && (LookupIn(true, after, q[..k]).value.isFile <==> k == |q| && isFile)
    ensures var after := Some(Inserted(before, q, isFile, contents, length));
      forall p :: LookupIn(true, before, p).Some? ==>
        LookupIn(true, after, p).Some? && LookupIn(true, after, p).value.isFile == LookupIn(true, before, p).value.isFile
  {
    var r := Inserted(before, q, isFile, contents, length);
    InsertedProperties(before, q, isFile, contents, length);
    InsertedLevelLookups(before, q, isFile, r);
    if before.Some? {
      KeptLookups(before.value, r);
    }
  }

  /** The levels an insert finds in its result, as the file tree looks them up. */
  lemma {:induction false} InsertedLevelLookups(before: Option<Node>, q: Path, isFile: bool, r: Node)
    requires WellFormedPath(q)
    requires forall k :: Base(before, q) < k <= |q| ==>
      Get(r, q[..k]).Some? && (Get(r, q[..k]).value.isFile <==> k == |q| && isFile)
    ensures forall k :: Base(before, q) < k <= |q| ==>
      LookupIn(true, Some(r), q[..k]).Some? && (LookupIn(true, Some(r), q[..k]).value.isFile <==> k == |q| && isFile)
  {
    forall k | Base(before, q) < k <= |q|
      ensures WellFormedPath(q[..k])
    {
    }
  }

  /** Every node the old hierarchy finds, the new one finds with the same
      kind, as the file tree looks them up. */
  lemma {:induction false} KeptLookups(t: Node, r: Node)
    requires forall p :: Get(t, p).Some? ==> Get(r, p).Some? && Get(r, p).value.isFile == Get(t, p).value.isFile
    ensures forall p :: LookupIn(true, Some(t), p).Some? ==>
      LookupIn(true, Some(r), p).Some? && LookupIn(true, Some(r), p).value.isFile == LookupIn(true, Some(t), p).value.isFile
  {
  }

  method FreeFound(t: Node, q: Path, found: Node) returns (rest: Option<Node>, freed: nat)
    requires WellFormed(t) && t.parent.None? && Get(t, q) == Some(found)
    ensures rest == Removed(t, q)
    ensures freed == Size(found)
  {
    FoundParent(t, q);
    if found.parent.None? {
      RemovedTop(t, q);
      freed, rest := NodeFree(found, None);
    } else {
      RemovedUnlinks(t, q);
      var pp := found.parent.value;
      var parentAfter;
      freed, parentAfter := NodeFree(found, Get(t, pp));
      rest := Some(Replace(t, pp, parentAfter.value));
    }
  }

  method BuildLevels(tree: Option<Node>, q: Path, isFile: bool, contents: Option<Blob>, length: nat,
                     alloc: nat -> Alloc, stop: Option<Node>)
    returns (status: Status, result: Option<Node>, newNodes: nat)
    requires GraftPoint(tree, q, stop) && Depth(stop) < |q|
    requires contents.None? ==> length == 0
    ensures status == Success || status == MemoryError
    ensures (forall k :: Depth(stop) < k <= |q| ==> alloc(k) == NoFault) ==> status == Success
    ensures status == Success ==> result == Grown(tree, stop, q, |q|, isFile, contents, length) && newNodes == |q| - Depth(stop)
    ensures status != Success ==> result == tree
  {
    var base := Depth(stop);
    var work := tree;
    var cur := stop;
    var level := base + 1;
    newNodes := 0;
    status := Success;
    while level <= |q|
      invariant base + 1 <= level <= |q| + 1
      invariant newNodes == level - 1 - base
      invariant work == Grown(tree, stop, q, level - 1, isFile, contents, length)
      invariant level <= |q| ==> cur == Above(stop, q, level, isFile, contents, length)
      invariant status == Success
    {
      var st, next, grown := MakeLevel(tree, stop, q, level, isFile, contents, length, alloc(level), work, cur);
      if st != Success {
        status := st;
        break;
      }
      work, cur := grown, next;
      newNodes := newNodes + 1;
      level := level + 1;
    }
    if status != Success {
      if level > base + 1 {
        result := FreeFirstNew(tree, q, stop, level - 1, isFile, contents, length, work.value);
      } else {
        result := tree;
      }
      return;
    }
    result := work;
  }

  /** One pass of that loop: Node_new for level `k` below `cur`, and the
      parent it returns written back into the hierarchy built so far. */
  method MakeLevel(tree: Option<Node>, stop: Option<Node>, q: Path, k: nat, isFile: bool, contents: Option<Blob>, length: nat,
                   alloc: Alloc, work: Option<Node>, cur: Option<Node>)
    returns (status: Status, next: Option<Node>, grown: Option<Node>)
    requires GraftPoint(tree, q, stop) && Depth(stop) < k <= |q|
    requires contents.None? ==> length == 0
    requires work == Grown(tree, stop, q, k - 1, isFile, contents, length)
    requires cur == Above(stop, q, k, isFile, contents, length)
    ensures status == Success || status == MemoryError
    ensures alloc == NoFault ==> status == Success
    ensures status == Success ==>
      grown == Grown(tree, stop, q, k, isFile, contents, length) && next == Some(Chain(q, k, k, isFile, contents, length))
  {
    GrownStep(tree, stop, q, k, isFile, contents, length);
    grown, next := work, cur;
    var here := isFile && k == |q|;
    var node, parentAfter;
    status, node, parentAfter := NodeNew(q[..k], cur, here,
      if here then contents else None, if here then length else 0, alloc);
    if status != Success {
      return;
    }
    FreshLevel(q, k, ParentPath(cur), isFile, contents, length);
    if parentAfter.Some? {
      grown := Some(Replace(work.value, q[..k - 1], parentAfter.value));
    } else {
      grown := node;
    }
    next := node;
  }

  /** The clean-up of a failed insert: frees the first node it made, which
      takes the levels built after it along, and unlinks it from the node
      the walk stopped at. That leaves the hierarchy as it was. */
  method FreeFirstNew(root: Option<Node>, q: Path, stop: Option<Node>, k: nat, isFile: bool, contents: Option<Blob>, length: nat, work: Node)
    returns (restored: Option<Node>)
    requires GraftPoint(root, q, stop) && Depth(stop) < k < |q|
    requires contents.None? ==> length == 0
    requires Grown(root, stop, q, k, isFile, contents, length) == Some(work)
    ensures restored == root
  {
    if root.None? {
      var _ := FreeChain(q, k, isFile, contents, length, work);
      restored := None;
    } else {
      restored := UnlinkGraft(root.value, stop.value, q, k, isFile, contents, length, work);
    }
  }

  /** Freeing the chain of levels made into an empty hierarchy. */
  method FreeChain(q: Path, k: nat, isFile: bool, contents: Option<Blob>, length: nat, work: Node)
    returns (freed: nat)
    requires 1 <= k < |q| && (contents.None? ==> length == 0)
    requires work == Chain(q, 1, k, isFile, contents, length)
    ensures freed == k
  {
    ChainGet(q, 1, 1, k, isFile, contents, length);
    ChainWellFormed(q, 1, k, isFile, contents, length);
    ChainSize(q, 1, k, isFile, contents, length);
    var parentAfter;
    freed, parentAfter := NodeFree(Get(work, q[..1]).value, None);
  }

  /** Freeing the chain grafted below the directory `a` the walk stopped at. */
  method UnlinkGraft(t: Node, a: Node, q: Path, k: nat, isFile: bool, contents: Option<Blob>, length: nat, work: Node)
    returns (restored: Option<Node>)
    requires Get(t, a.path) == Some(a) && !a.isFile && a.children.Array? && 1 <= |a.path| < k < |q| && a.path == q[..|a.path|]
    requires !HasChild(a, q[..|a.path| + 1]).found
    requires contents.None? ==> length == 0
    requires work == Replace(t, a.path, WithChild(a, Chain(q, |a.path| + 1, k, isFile, contents, length)))
    ensures restored == Some(t)
  {
    var c := Chain(q, |a.path| + 1, k, isFile, contents, length);
    ChainLinked(t, a, q, k, isFile, contents, length, c, work);
    UnlinkRestores(t, a, c, work);
    var freed;
    restored, freed := UnlinkFirstNew(t, a, c, work);
  }

  /** Node_free on the first new node `c`, then the parent `a` without it
      written back: the hierarchy before the insert. */
  method UnlinkFirstNew(t: Node, a: Node, c: Node, work: Node) returns (restored: Option<Node>, freed: nat)
    requires Get(work, c.path) == Some(c) && WellFormed(c) && c.parent == Some(a.path)
    requires !a.isFile && Get(work, a.path) == Some(WithChild(a, c))
    requires Replace(work, a.path, WithoutChild(WithChild(a, c), c.path)) == t
    ensures restored == Some(t)
    ensures freed == Size(c)
  {
    var first := Get(work, c.path);
    var parent := Get(work, first.value.parent.value);
    var parentAfter;
    freed, parentAfter := NodeFree(first.value, parent);
    restored := Some(Replace(work, first.value.parent.value, parentAfter.value));
  }
}
