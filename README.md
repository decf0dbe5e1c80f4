# File tree model

A Dafny model of the file tree of this repository: an in-memory hierarchy
of directories and files, addressed by absolute paths such as `a/b/c`.

- **Node layer** (3FT/node.c). A node has a path, a kind (file or
  directory), a reference to its parent, a child array kept in ascending
  path order (directories only), and opaque file contents with a length.
- **Tree layer** (3FT/ft.c). This is the abstract object that holds three
  variables: whether it is initialized, the root node, and the node count.
  Its operations are:
  - walking toward a path;
  - lookup;
  - inserting directories and files, building every missing level and
    undoing its own work when an allocation fails;
  - removal;
  - reading and replacing file contents;
  - `stat`, `init` and `destroy`;
  - the string listing.
- **Checkers** (3FT/checkerFT.c and 2DT/checkerDT.c). These are read-only
  walks that decide whether a state obeys the invariant.

The model is organised as follows.

- Nodes are values (`Nodes.Node`). A node's parent reference is held as the
  parent's path.
- An update that the C code makes in place through a pointer deep in the
  hierarchy becomes `Hierarchy.Replace` of the subtree at that node's path.
  `Hierarchy.Get` and `Hierarchy.Reach` find a node by path and walk toward
  a path.
- The three static variables of 3FT/ft.c are the fields of the class
  `FileTree.FileTree`. Its methods change them. Every method keeps `Valid()`,
  the invariant that CheckerFT_isValid tests.
- `Edits` gives, as functions, the hierarchy after an insert (`Inserted`)
  and after a removal (`Removed`), with their properties.
- `Listing` holds the order of FT_preOrderTraversal, its length sum and its
  text, and the loops of FT_toString proved against them.
  `ListingCoverage` shows that the order visits every node of the hierarchy
  exactly once.
- `CheckerFT` and `CheckerDT` hold the checkers. Each walk takes a
  `ParentRule`: `AsWritten` is the shared-prefix parent test of the C code,
  and `Intended` is the corrected test. Lemmas tie what they accept to the
  invariant the tree keeps.

Modules are split by file:

| file | module |
|---|---|
| defs.dfy | `Defs` |
| paths.dfy | `Paths` |
| node.dfy | `Nodes` |
| hierarchy.dfy | `Hierarchy` |
| edits.dfy | `Edits` |
| ft.dfy | `FileTree` |
| listing.dfy | `Listing` |
| listing_coverage.dfy | `ListingCoverage` |
| checker_ft.dfy | `CheckerFT` |
| checker_dt.dfy | `CheckerDT` |

Allocation is a parameter.

- `Nodes.Alloc` says which allocation inside one Node_new call fails.
- An insert takes one `Alloc` per level.
- `ToString` takes a flag for the failure of its buffer allocation.

## Model

| member | source | states |
|---|---|---|
| Paths.CompareSiblings | 3FT/node.c:288-293 | two paths with the same parent compare as their last components |
| Paths.PathNameChild | 3FT/node.c:245-256 | the pathname of a child path is the parent's pathname, a slash and the last component (just the component at depth 1) |
| Paths.SiblingOrderAgrees | 3FT/node.c:245-256 | on two paths with the same parent, the component order and the pathname-string order give the same sign |
| Paths.OrdersDifferAcrossParents | 3FT/node.c:79-90 | `a/b` sorts before `a-c` component by component but after it as a string |
| Nodes.ChildrenOf | 3FT/node.c:265-280 | the children Node_getChild hands out; each is structurally below its parent |
| Nodes.NumChildren | 3FT/node.c:258-263 | a file reports 0 children; a directory reports the length of its child array |
| Nodes.GetChild | 3FT/node.c:265-280 | NO_SUCH_PATH exactly when the identifier is not below the child count; otherwise the child at that index |
| Nodes.NodeCompare | 3FT/node.c:288-293 | zero exactly for equal paths; negative exactly when the first path sorts before the second |
| Nodes.NodeCompareSiblings | 3FT/node.c:79-90 | for two paths with the same parent, the order of nodes by path has the sign of the comparison of their pathname strings |
| Nodes.ChildKeyOrderAgrees | 3FT/node.c:245-256 | each comparison the child-array search makes between a child of a well-formed node and a key one level below it has the sign of the pathname-string comparison |
| Nodes.HasChild | 3FT/node.c:245-256 | found exactly when the child at the returned index has the key; the index is the binary-search insertion point (the first child not sorting before the key) |
| Nodes.HasChildCorrect | 3FT/node.h:63-73 | every child before the index sorts before the key, the one at it does not; in an ascending array, found iff some child has the key |
| Nodes.LowerBoundFinds | 3FT/node.c:245-256 | in an ascending array, the insertion point holds the key iff the key is present anywhere |
| Nodes.WithChild | 3FT/node.c:66-76 | linking a child inserts it at the insertion point and keeps the other children, path, parent, contents and length |
| Nodes.WithoutChild | 3FT/node.c:209-220 | unlinking removes exactly the child with that path, if present, and keeps everything else |
| Nodes.InsertKeepsAscending | 3FT/node.c:185-194 | inserting a new path at its insertion point keeps the child array strictly ascending |
| Nodes.RemoveKeepsAscending | 3FT/node.c:209-220 | removing one child keeps the array strictly ascending |
| Nodes.WithoutWithChild | 3FT/node.c:209-220 | unlinking a child just linked gives back the parent as it was |
| Nodes.WithChildWellFormed | 3FT/node.c:185-194 | linking a well-formed child, whose path is absent and one level down, keeps the parent well-formed |
| Nodes.WithChildSize | 3FT/node.c:185-194 | linking adds the child's subtree size to the parent's |
| Nodes.WithoutChildWellFormed | 3FT/node.c:209-220 | unlinking keeps the parent well-formed, and the path is then absent |
| Nodes.WithoutChildSize | 3FT/node.c:209-220 | unlinking removes exactly the child's subtree size |
| Nodes.WithoutChildKeeps | 3FT/node.c:209-220 | after unlinking, the search for any other path finds a child exactly when it did before, and the same child |
| Nodes.RemovedFinds | 3FT/node.c:212-217 | dropping one element of an ascending array leaves the binary search for any other path landing on an element with that path exactly when it did before, and on the same element |
| Nodes.WithChildKeeps | 3FT/node.c:185-194 | after linking a new child, the search for any other path finds a child exactly when it did before, and the same child |
| Nodes.InsertedFinds | 3FT/node.c:185-194 | inserting one new element into an ascending array at its insertion point leaves the binary search for any other path landing on an element with that path exactly when it did before, and on the same element |
| Nodes.AscendingUnique | 3FT/node.c:245-256 | in an ascending child array two entries with the same path are one entry |
| Nodes.NodeNew | 3FT/node.c:92-202 | SUCCESS exactly when the request is admissible and none of the allocations the call makes fails (the child array only for a directory, the link only with a parent); MEMORY_ERROR on such a failure; CONFLICTING_PATH when the parent is not an ancestor; NO_SUCH_PATH when the new node is not one level down (or, without a parent, is not at depth 1); ALREADY_IN_TREE for a duplicate; on failure the parent is unchanged; on success the new node has the file or directory shape and is linked at the insertion point, and the children stay ascending |
| Nodes.NodeFree | 3FT/node.c:204-237 | returns the subtree size and leaves the parent without that child |
| Nodes.FreeChildren | 3FT/node.c:222-228 | the loop freeing the first child until none is left returns the sum of the children's subtree sizes |
| Nodes.EditContents | 3FT/node.c:46-60 | returns the old contents and installs the new contents and length; path, parent and children unchanged |
| Hierarchy.Step | 3FT/ft.c:75-103 | the walk moves to the child whose path is the target's prefix one level deeper |
| Hierarchy.Reach | 3FT/ft.c:58-113 | the walk stops on the start node or on a node on the target's way, from which it cannot descend further |
| Hierarchy.Get | 3FT/ft.c:145-165 | the node found is the one the walk stops on, exactly when its path is the target |
| Hierarchy.GetParent | 3FT/ft.c:287-310 | a non-root node found in a well-formed tree names its parent's path, and that parent is a directory holding it at the searched index |
| Hierarchy.ReplaceWellFormed | 3FT/ft.c:231-269 | storing a well-formed node with the same path and parent at a found path keeps the tree well-formed |
| Hierarchy.ReplaceSize | 3FT/ft.c:265-269 | the size changes by the difference between the new and the old subtree |
| Hierarchy.GetCompose | 3FT/ft.c:231-265 | looking below a path after storing a node at it looks inside that node |
| Hierarchy.ReplaceCompose | 3FT/ft.c:231-265 | two stores, the second below the first, equal one store of the combined node |
| Hierarchy.ChainWellFormed | 3FT/ft.c:231-265 | the levels an insert builds (directories, then the requested kind at the target's depth) form a well-formed subtree |
| Hierarchy.ChainSize | 3FT/ft.c:231-265 | those levels number exactly the levels built |
| Hierarchy.ChainGet | 3FT/ft.c:231-265 | every level built is found at its own prefix of the target |
| Hierarchy.ChainGrow | 3FT/ft.c:231-265 | adding one level below the deepest built level gives the chain one level longer |
| Hierarchy.GetReplaceAside | 3FT/ft.c:298-306 | after storing a node at one path, every path outside its subtree is found exactly where it was found before, with the same kind, and is the very same node when it is not on the way to the stored path |
| Hierarchy.GetWithChildAside | 3FT/node.c:185-194 | a directory that has linked a new child still finds every path outside that child's subtree as it did |
| Edits.ReachGraftSite | 3FT/ft.c:211-227 | where the walk stops, when an insert is possible, is a directory of the tree on the target's way with no child at the next level |
| Edits.GraftedProperties | 3FT/ft.c:231-269 | inserting keeps the tree well-formed, adds exactly depth(target) minus depth(deepest ancestor) nodes, keeps the root's path, parent and kind, makes every level from the deepest ancestor down to the target found as the level built for it, and keeps every path found before found with the same kind |
| Edits.GraftedLevels | 3FT/ft.c:231-265 | after linking the built levels under the deepest ancestor, each prefix of the target below that ancestor is found as the level built for it |
| Edits.GraftAtKeeps | 3FT/ft.c:245-258 | linking the built levels under the deepest ancestor keeps every path found before found, with the same kind |
| Edits.LinkKeepsAll | 3FT/node.c:185-194 | storing a directory with one new child linked at its path keeps every path found before found, with the same kind |
| Edits.LinkKeeps | 3FT/node.c:185-194 | the same for one path: outside the directory's subtree through the store, inside it through the linked child array |
| Edits.LinkKeepsInside | 3FT/node.c:185-194 | a path at or below the directory is found in the tree with the child linked, with the same kind |
| Edits.InsertedProperties | 3FT/ft.c:374-420 | after an insert, empty tree or not, the root is well-formed at depth 1 without a parent, the size grows by the new levels, the target holds the new node with the requested kind, contents and length, every level between the deepest existing ancestor and the target is found and is a file exactly when it is the target of a file insert, and every path found before is still found with the same kind |
| Edits.StopsAtGraftPoint | 3FT/ft.c:211-227 | the stop node of a successful check is where the first new level is linked, at the depth `Base` names |
| Edits.GrownStep | 3FT/ft.c:231-265 | each pass of the build loop links the new level under the previous one (the existing stop node first) |
| Edits.GrownFull | 3FT/ft.c:231-269 | after the last pass the built hierarchy is exactly the inserted one |
| Edits.UnlinkRestores | 3FT/ft.c:236-253 | freeing the first new node unlinks it from the stop node and restores the tree before the call |
| Edits.ChainLinked | 3FT/ft.c:236-253 | the first new node is found at its path in the partly built tree, is well-formed, and names the stop node as parent |
| Edits.PrunedProperties | 3FT/ft.c:298-306 | removing a non-root node keeps the tree well-formed, removes exactly its subtree size, keeps the root; nothing at the path or below it is found any more, and every other path is found exactly where it was before, with the same kind |
| Edits.PrunedBelow | 3FT/node.c:212-228 | after unlinking a node from its parent, neither its path nor any path below it is found |
| Edits.PrunedAside | 3FT/node.c:212-220 | after unlinking a node from its parent, every path outside its subtree is found exactly where it was before, with the same kind |
| Edits.GetWithout | 3FT/node.c:212-217 | a directory no longer holding the child at a path finds nothing at that path or below it |
| Edits.GetWithoutAside | 3FT/node.c:212-217 | a directory that has unlinked one child still finds every path outside that child's subtree exactly where it did, with the same kind |
| Edits.RemovedProperties | 3FT/ft.c:298-306 | nothing is left exactly when the root is removed, and then everything lay below it; otherwise the rest is well-formed, keeps the root, shrinks by the removed subtree, holds nothing at or below the path, and holds every other path as before, with the same kind |
| Edits.FoundParent | 3FT/node.c:204-220 | in a tree with an unparented root, a found node has no parent exactly when it is the root |
| Edits.ContentsEdited | 3FT/ft.c:475-493 | replacing a file's contents keeps the tree well-formed and its size, and the file is then found with the new contents |
| FileTree.FileTree.constructor | 3FT/ft.c:23-33 | the three state variables start uninitialized, with no root and count 0 |
| FileTree.FileTree.Lookup | 3FT/ft.c:130-175 | a node found has the target path, and there is a root |
| FileTree.LookupIn | 3FT/ft.c:130-175 | the lookup behind every FileTree query: a node found has the target path, and there is a root |
| FileTree.InsertedLookups | 3FT/ft.c:374-420 | after an insert, every level from the deepest existing ancestor down to the target is looked up, a file exactly at the target of a file insert, and every path looked up before is still looked up with the same kind |
| FileTree.FileTree.FindStatusFound | 3FT/ft.c:140-174 | IS_FILE or IS_DIRECTORY exactly when the node is found, by its kind; otherwise one of the error statuses |
| FileTree.FileTree.TraversePath | 3FT/ft.c:43-116 | empty tree: SUCCESS and no node; root not the target's depth-1 prefix: CONFLICTING_PATH; otherwise the node the walk stops on, with NOT_A_DIRECTORY when it is a file short of the target |
| FileTree.FileTree.FindNode | 3FT/ft.c:130-175 | returns the looked-up node and the status that says why there is none |
| FileTree.FileTree.ContainsDir | 3FT/ft.c:275-285 | true exactly when the path names a directory |
| FileTree.FileTree.ContainsFile | 3FT/ft.c:426-437 | true exactly when the path names a file |
| FileTree.FileTree.InsertStatusMeaning | 3FT/ft.c:346-370 | SUCCESS exactly when an insert is possible; ALREADY_IN_TREE exactly when the path is already found; otherwise one of the rejection statuses |
| FileTree.FileTree.CheckInsert | 3FT/ft.c:189-227 | computes the insert status, and on success the stop node the build starts from |
| FileTree.FileTree.Insert | 3FT/ft.c:312-424 | rejections return their status and leave root and count unchanged; without allocation failure an allowed insert succeeds; on success the root is the inserted hierarchy, the count grows by the new levels, the target is found with the requested kind, contents and length, every new level is found (a directory unless it is the target of a file insert), and every path found before is still found with the same kind; on MEMORY_ERROR everything is as before |
| FileTree.BuildLevels | 3FT/ft.c:231-265 | the build loop returns SUCCESS with the fully built hierarchy and the number of new levels, or MEMORY_ERROR with the tree as it was |
| FileTree.MakeLevel | 3FT/ft.c:233-258 | one pass: succeeds unless an allocation fails, and then the hierarchy has one more level |
| FileTree.FreeFirstNew | 3FT/ft.c:236-253 | freeing the first new node on a failure restores the hierarchy to its state before the call |
| FileTree.FreeChain | 3FT/ft.c:236-253 | in an empty tree, freeing the first new node frees all levels built |
| FileTree.UnlinkGraft | 3FT/ft.c:236-253 | below an existing node, freeing the first new node gives back the tree before the call |
| FileTree.UnlinkFirstNew | 3FT/node.c:204-237 | freeing the first new node frees its whole chain and leaves the stop node as it was |
| FileTree.FileTree.RemoveStatusMeaning | 3FT/ft.c:298-306 | SUCCESS exactly when the path is found with the wanted kind; NOT_A_FILE only for a directory that rmFile was asked to remove |
| FileTree.FileTree.RmDir | 3FT/ft.c:287-310 | NOT_A_DIRECTORY on a file; on success the count drops by the directory's subtree size, no path at or below it is found, and every other path is found exactly when it was before, with the same kind; on failure nothing changes |
| FileTree.FileTree.RmFile | 3FT/ft.c:439-460 | NOT_A_FILE on a directory; on success the count drops by one, the file is not found, and every other path is found exactly when it was before, with the same kind; on failure nothing changes |
| FileTree.FileTree.Unlink | 3FT/ft.c:298-306 | Node_free on the found node, then the count drops by its size and the root is cleared when the count reaches 0; nothing at or below the path is found afterwards, and every other path is found as before, with the same kind |
| FileTree.FileTree.GetFileContents | 3FT/ft.c:462-473 | the contents when the path names a file, NULL otherwise |
| FileTree.FileTree.ReplaceFileContents | 3FT/ft.c:475-493 | on a file, returns the old contents and installs the new contents and length, with the count and the rest of the tree unchanged; otherwise NULL and nothing changes |
| FileTree.FileTree.Stat | 3FT/ft.c:495-519 | SUCCESS exactly when the path is found; reports its kind, and for a file its length; the outputs are left alone otherwise |
| FileTree.FileTree.Init | 3FT/ft.c:521-534 | INITIALIZATION_ERROR and nothing changes when already initialized; otherwise initialized, empty, count 0 |
| FileTree.FileTree.Destroy | 3FT/ft.c:536-552 | INITIALIZATION_ERROR and nothing changes when not initialized; otherwise all nodes freed, uninitialized, empty, count 0 |
| FileTree.FileTree.InOrderProperties | 3FT/ft.c:623-651 | the listing visits every node exactly once: it holds a node exactly when the walk from the root finds it at its path, no path appears twice, and there are `count` entries, the root first; the text is exactly the summed length, so with its NUL it fills the buffer size summed for it |
| FileTree.FileTree.ToString | 3FT/ft.c:623-651 | NULL when uninitialized or when the buffer allocation fails; otherwise one line per node with its path, in the order of FT_preOrderTraversal: a node, then its file children, then the listing of each directory child, so not a pure pre-order (the empty string for an empty tree) |
| Listing.PreOrder | 3FT/ft.c:565-594 | the listing starts with the node itself |
| Listing.PreOrderSize | 3FT/ft.c:565-594 | the listing of a well-formed subtree has exactly as many entries as the subtree has nodes |
| Listing.PreOrderBelow | 3FT/ft.c:565-594 | every listed node lies in the subtree: its path extends the node's |
| ListingCoverage.PreOrderExactlyOnce | 3FT/ft.c:565-594 | the listing of a well-formed subtree holds a node exactly when the walk finds that node at its path, and no path appears twice |
| ListingCoverage.PreOrderFinds | 3FT/ft.c:565-594 | every listed node is found by the walk at its own path |
| ListingCoverage.FoundListed | 3FT/ft.c:565-594 | every node the walk finds is listed |
| ListingCoverage.PreOrderDistinct | 3FT/ft.c:565-594 | no path is listed twice |
| ListingCoverage.FilesDistinct | 3FT/ft.c:576-583 | the first loop stores file children with distinct paths |
| ListingCoverage.DirListingsDistinct | 3FT/ft.c:585-591 | the second loop stores listings of directory children with distinct paths |
| ListingCoverage.GetThroughChild | 3FT/ft.c:75-103 | the walk toward a path below a child goes through that child |
| Listing.FilesIn | 3FT/ft.c:576-583 | the first loop lists only file children |
| Listing.PreOrderTraversal | 3FT/ft.c:565-594 | stores the subtree's listing from index i on and returns i plus its size; no other slot changes |
| Listing.StoreFiles | 3FT/ft.c:576-583 | the first loop stores the file children in child order and nothing else |
| Listing.StoreDirectories | 3FT/ft.c:585-591 | the second loop stores each directory child's listing in child order, completing the node's listing |
| Listing.StoreChild | 3FT/ft.c:586-590 | one pass of the second loop appends a directory child's listing and skips a file |
| Listing.TotalLength | 3FT/ft.c:601-606 | the summed length is at least one byte per node |
| Listing.RenderLength | 3FT/ft.c:613-620 | the concatenated text has exactly the summed length |
| Listing.Present | 3FT/ft.c:633-645 | the nodes of the filled slots, NULL slots skipped, are no more than the slots |
| Listing.PresentHolds | 3FT/ft.c:630-645 | an array filled exactly with a listing presents that listing |
| Listing.StrlenTotal | 3FT/ft.c:626-637 | the first map starts at 1 and adds path length plus one for each stored node |
| Listing.Concatenate | 3FT/ft.c:643-645 | the second map appends each stored node's path and a newline |
| CheckerFT.ParentTestMeaning | 3FT/checkerFT.c:50-61 | the corrected parent test accepts exactly the parent path (the node's path minus its last component) |
| CheckerFT.ParentTestAsWrittenAcceptsNonParents | 3FT/checkerFT.c:55-56 | the test as written accepts `a/x` and `a/x/y` as the parent of `a/b`; the corrected one rejects both |
| CheckerFT.ShapeChecksMeaning | 3FT/checkerFT.c:25-44 | the shape tests are the tree's node shape except that a directory is never asked to have its child array |
| CheckerFT.NodeIsValidAsWritten | 3FT/checkerFT.c:14-64 | NULL is invalid; a valid node passes the shape tests and the shared-prefix parent test |
| CheckerFT.NodeIsValid | 3FT/checkerFT.c:14-64 | NULL is invalid; a well-shaped node is valid exactly when it has no parent or its parent's path is its own minus the last component |
| CheckerFT.NodeIsValidAsWrittenAcceptsSibling | 3FT/checkerFT.c:50-61 | a file `a/b` whose parent reference names `a/x` passes the test as written and fails the corrected one |
| CheckerFT.NodeIsValidAgrees | 3FT/checkerFT.c:50-61 | both tests agree when the parent reference is one level up |
| CheckerFT.AdjacentInOrderMeaning | 3FT/checkerFT.c:102-120 | testing adjacent pairs for order and duplicates is the same as the child array being strictly ascending |
| CheckerFT.NodesIn | 3FT/checkerFT.c:137-151 | a non-empty hierarchy has at least one node |
| CheckerFT.TreeCheck | 3FT/checkerFT.c:76-129 | under either parent rule (the C test with `AsWritten`): true exactly when NULL or when the walk accepts the subtree; when true it adds exactly the subtree's node count |
| CheckerFT.IsValid | 3FT/checkerFT.c:132-157 | under either parent rule: true exactly when there is no count while uninitialized, the walk accepts the hierarchy, and the count equals its number of nodes |
| CheckerFT.CheckedAgrees | 3FT/checkerFT.c:50-61 | when every parent reference is one level up, the walk as written and the corrected walk accept the same subtrees |
| CheckerFT.WellFormedChecked | 3FT/checkerFT.c:76-129 | a well-formed subtree with a proper parent reference passes the walk under either rule; its children are placed under their parents and every parent reference is one level up |
| CheckerFT.CheckedWellFormed | 3FT/checkerFT.c:76-129 | a subtree that passes the corrected walk, with its children placed under their parents, is well-formed; so is one that passes the walk as written once every parent reference is also one level up |
| CheckerFT.IntendedCheckedWellFormed | 3FT/checkerFT.c:76-129 | a subtree that passes the corrected walk, with its children placed under their parents, is well-formed |
| CheckerFT.ValidAccepted | 3FT/checkerFT.c:132-157 | every valid file tree passes CheckerFT_isValid, as written and corrected |
| CheckerFT.AcceptedValid | 3FT/checkerFT.c:132-157 | a state the corrected checker accepts is valid once its children are placed and its root is an unparented directory at depth 1; for the checker as written, once every parent reference is also one level up |
| CheckerFT.AsWrittenAcceptsMisplacedChild | 3FT/checkerFT.c:132-157 | CheckerFT_isValid as written accepts root `a` with a file child of path `b` that names `a` as parent, count 2: placed, but not well-formed; the corrected checker rejects it |
| CheckerFT.AsWrittenAcceptsCrossParentOrder | 3FT/checkerFT.c:102-120 | the checker as written accepts root `r` with children `a/b` (parent reference `a/x`) and `a-c`, count 3, in component order, although `a/b` sorts after `a-c` as a string |
| CheckerDT.NodeIsValidAsWritten | 2DT/checkerDT.c:16-43 | NULL is invalid; a node without a parent is valid |
| CheckerDT.NodeIsValid | 2DT/checkerDT.c:16-43 | valid exactly when it exists and has no parent or its parent's path is its own minus the last component |
| CheckerDT.NodeIsValidAsWrittenAcceptsSibling | 2DT/checkerDT.c:29-40 | a directory `a/b` whose parent reference names `a/x` passes the test as written and fails the corrected one |
| CheckerDT.TreeCheck | 2DT/checkerDT.c:54-104 | under either parent rule (the C test with `AsWritten`): true exactly when NULL or when the walk accepts the subtree; when true it adds exactly the subtree's node count |
| CheckerDT.IsValid | 2DT/checkerDT.c:107-132 | under either parent rule: true exactly when there is no count while uninitialized, the walk accepts, and the count matches |
| CheckerDT.CheckedFT | 2DT/checkerDT.c:54-104 | under either rule, the file tree's walk accepts exactly what this walk accepts plus the shape tests at every node |
| CheckerDT.AcceptsFT | 2DT/checkerDT.c:107-132 | under either rule, every state the file tree's checker accepts is accepted here too |
| CheckerDT.CheckedWellFormed | 2DT/checkerDT.c:54-104 | a subtree of directories that passes the corrected walk, with its children placed under their parents, is well-formed |
| CheckerDT.CheckedAgrees | 2DT/checkerDT.c:29-40 | when every parent reference is one level up, the walk as written and the corrected walk accept the same subtrees |
| CheckerDT.AsWrittenAcceptsMisplacedChild | 2DT/checkerDT.c:107-132 | CheckerDT_isValid as written accepts root `a` with a directory child of path `b` that names `a` as parent, count 2: placed, but not well-formed; the corrected checker rejects it |

## Left out

- The Path module is not part of this model. A path is a sequence of
  components.
  - Depth, prefix, shared-prefix depth and a component-wise lexicographic
    comparison are defined in `Paths`.
  - The text form joins components with `/`.
  - Path_new's BAD_PATH is a path that is empty or has an empty component
    or a component containing `/`.
  - No C-string parsing is modelled.
- DynArray is not part of this model. A child array is a sequence, and
  DynArray_bsearch is the lower bound over the sorted sequence. The slots
  array of FT_toString is a Dafny array.
- Memory failures:
  - A failure of Path_prefix inside the build loop is folded into the
    per-level `Alloc` of Node_new.
  - Path_new's MEMORY_ERROR and the Path_prefix calls of FT_traversePath
    are not modelled.
  - free and the leaked child array on Node_addChild's failure path are
    not modelled.
- Sizes are unbounded: size_t wrap-around of counts and lengths is not
  modelled.
- The fprintf diagnostics of both checkers and Node_toString are not
  modelled.
- FT_insertDir and FT_insertFile are one `Insert` with an `isFile` flag.
  Intermediate levels are always directories. FT_insertFile's refusal of a
  depth-1 file (CONFLICTING_PATH) is part of `InsertStatus`.
- FileTree.FileTree.Insert: requires that missing contents come with length
  0 and that a directory gets no contents. In C, insertFile accepts any
  length, and only the assert(CheckerFT_isValid(...)) at its exit aborts on
  NULL contents with a non-zero length.
- FileTree.FileTree.ReplaceFileContents: requires the same NULL-contents
  rule, for the same reason.
- FileTree.FileTree.ToString: DynArray_new's failure is unchecked in C
  (3FT/ft.c:632) and is not modelled. The text is built as a string, not in
  a malloc'd buffer; InOrderProperties shows the buffer size fits it.
- The runtime assert calls of 3FT/ft.c and 3FT/node.c are preconditions,
  not code.
- Contents are an opaque reference (`Blob`).
- The dead branch of FT_insertDir and FT_insertFile (no stop node but a
  root) is not reachable once FT_traversePath has returned SUCCESS. It is
  an `assert false`.
- The checkers never compare a child's parent reference with the node it
  hangs under. `CheckerFT.Placed` names that gap and is not listed as a
  finding.
- CheckerFT.CheckedWellFormed: for the walk as written it also requires
  `Leveled` (every parent reference one level up). The shared-prefix test
  accepts a child that is not one level down, so without it the conclusion
  is false (`AsWrittenAcceptsMisplacedChild`).
- CheckerFT.AcceptedValid: for the checker as written it also requires
  `Leveled` of the root, for the same reason.
- Node_getChild cannot fail below Node_getNumChildren in this model, so
  the two failure branches of CheckerFT_treeCheck are not reachable. The
  unchecked second Node_getChild status at 2DT/checkerDT.c:84 is harmless
  for the same reason.
- A directory node whose child array is NULL is accepted by the checkers'
  shape tests (`ShapeChecksMeaning`). In C, Node_getNumChildren would then
  fail.
- Nodes.NodeCompare: Path_comparePath and Path_compareString are not part
  of this model, and both are modelled as the component-wise order.
  Node_hasChild searches by pathname string (3FT/node.c:83-89, 253-255).
  On two paths with the same parent the two orders agree
  (`Paths.SiblingOrderAgrees`, `Nodes.ChildKeyOrderAgrees`). That covers
  every comparison the search, Node_addChild and Node_free make in a
  well-formed tree. The checkers' order test (3FT/checkerFT.c:111-116,
  2DT/checkerDT.c:87-91) also compares adjacent children whose parent
  references differ. There `CheckerFT.TreeCheck`, `CheckerFT.IsValid`,
  `CheckerDT.TreeCheck` and `CheckerDT.IsValid` can decide differently
  from C under a pathname-string order
  (`CheckerFT.AsWrittenAcceptsCrossParentOrder`).
- The 2DT node module is not part of this model. The DT checker is stated
  over the same node values and reads only paths, parent references and
  children.

## Findings

| source | as written | input that shows it | evidently intended | confidence | as-written member | corrected member |
|---|---|---|---|---|---|---|
| 3FT/checkerFT.c:55-56 | a node with a parent passes when its path and the parent's share depth(node) - 1 components | a file `a/b` whose parent node has path `a/x` (or `a/x/y`) | the parent's path is the node's path minus its last component, as the comment at 3FT/checkerFT.c:48-49 says | not executed | CheckerFT.NodeIsValidAsWritten | CheckerFT.NodeIsValid |
| 2DT/checkerDT.c:34-35 | the same shared-prefix test | a directory `a/b` whose parent node has path `a/x` | the parent's path is the node's path minus its last component, as the comment at 2DT/checkerDT.c:27-28 says | not executed | CheckerDT.NodeIsValidAsWritten | CheckerDT.NodeIsValid |
| 3FT/checkerFT.c:132-157 | CheckerFT_isValid applies that test at every node of the walk | initialized, count 2, root `a` whose only child is a file with path `b` naming `a` as its parent | reject: `b` is not one level below `a`, so the state is not a file tree | not executed | CheckerFT.AsWrittenAcceptsMisplacedChild | CheckerFT.AcceptedValid |
| 2DT/checkerDT.c:107-132 | CheckerDT_isValid applies that test at every node of the walk | initialized, count 2, root `a` whose only child is a directory with path `b` naming `a` as its parent | reject, for the same reason | not executed | CheckerDT.AsWrittenAcceptsMisplacedChild | CheckerDT.CheckedWellFormed |
