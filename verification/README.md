# Treap and frequency-adaptive search tree, modelled in Dafny

This project models a small Java treap library.

A **treap** is a binary tree with two orders:
- by key: lower-cased strings in in-order;
- by heap: an integer `heapValue` in max-heap order.

The library has two parts:
- **`Treap`** holds a root and a node counter. Rebalancing uses only the two rotations. The public operations are `add`, `build`, `find`, `findPath`, `changeOrder`, `remove` and `size`.
- **`SearchTree`** extends `Treap`. Each node gets an access counter, `searchCount`, which starts at 1. A successful `find` raises the found node's counter, then walks the search path again. On the way back up it rotates a path child above its parent whenever the child's counter is strictly greater. Its `add(key)` refuses a key that is already present and draws the heap value at random.

## Layout

| file | module | what it holds |
|---|---|---|
| `keys.dfy` | `Wrappers`, `TreapKeys` | `Option` for a nullable reference; keys as `seq<char>`; ASCII lower-casing; the order `String.compareTo` gives |
| `sorted.dfy` | `OrderedSeqs` | sortedness, sorted insertion, removal at an index, reversal, and multiset facts about these |
| `nodes.dfy` | `TreapNodes` | the node as an inductive `Tree`; its in-order views (keys, heap values, entries); heap order |
| `treap_ops.dfy` | `TreapOps` | the recursive helpers: rotations, lookup, insertion, deletion, the descent, and the path buffer methods |
| `treap.dfy` | `Treaps` | class `Treap` (fields `root`, `count`) and the `build` fold |
| `search_tree.dfy` | `SearchTrees` | the access counter, the promotion pass, and class `SearchTree` |

### How the source maps onto the model

- The recursive helpers that restructure the tree reassign child links and return the new subtree root. These are the two rotations, `insertNode`, `deleteNode` and the promotion pass in `SearchTree.find`. Each one is therefore a function on the `Tree` datatype that returns the new subtree.
- The read-only searches `findRecursive`, `findDuplicateHeapValue` and `findNode` change no links. They are pure functions on `Tree`.
- The objects whose fields the public operations update are classes, `Treap` and `SearchTree`. Their methods modify `root` and `count` and are proved against those functions.
- `findPathRecursive` writes into an array through a cursor, and `reverseToList` fills a list in a loop. Both stay imperative methods: one over an `array<Key>`, one a `while` loop.
- A Java `null` argument is `None`.

### What is proved, in outline

**Treap invariant.** `Valid()` means:
- `count` equals the number of nodes;
- keys are sorted in in-order, with equal keys allowed, because `Treap.add` does not refuse a present key;
- heap values are in max-heap order.

Every `Treap` operation keeps this invariant.

**`SearchTree` invariant.** Keys are strictly increasing, because its own `add(key)` refuses a present key. The inherited `add(key, heapValue)` and `build` do not, so the invariant covers the operations `SearchTree` itself defines (see "## Left out"). Heap order is deliberately not part of it, because promotion ignores heap values.

### Two behaviours of the code worth knowing

- **Deletion tie-break.** On equal child heap values, deletion rotates left, so the right child rises (src/Treap.java:278-284; `DeleteAtRootTieBreak`).
- **Promotion is local.** The promotion pass does not guarantee that every child on the search path has a count no larger than its parent's (`PromotionCanLeavePathUndominated` gives a three-node tree where this fails after one lookup). What it guarantees is `PromoteRootCount`: the subtree root ends up carrying the largest count on the path.

## Model

| member | source | states |
|---|---|---|
| TreapKeys.LowerKey | src/TreapNode.java:28 | `toLowerCase`: same length as the key, each ASCII capital replaced by its lower-case letter and every other character kept; `LowerKeyIsLower` adds that the result has no capital and lower-casing it again changes nothing |
| TreapKeys.Less | src/Treap.java:112 | `compareTo(a, b) < 0`; `LessIsFirstDifference` shows it is the proper-prefix-or-first-smaller-character order, and `LessIrreflexive`, `LessTransitive` and `LessTotal` that it is a strict total order |
| TreapKeys.LowerKeyCaseInsensitive | src/TreapNode.java:27-28 | two keys lower-case to the same stored key exactly when they differ only in letter case |
| TreapKeys.LessIsFirstDifference | src/Treap.java:112 | `compareTo(a, b) < 0` holds exactly when `a` is a proper prefix of `b` or the first differing character of `a` is smaller |
| TreapNodes.NewNode | src/TreapNode.java:27-32 | a new node stores the lower-cased key and the heap value unchanged, has no children, and (as a search-tree node) a search count of 1 |
| TreapNodes.NewNodeCaseInsensitive | src/TreapNode.java:28 | constructing nodes from two keys that differ only in case gives the same node |
| TreapOps.IsValidKey | src/Treap.java:63-65 | only the null key is invalid, the empty string included; every public operation's contract refuses exactly the keys it rejects |
| TreapOps.RotateRight | src/Treap.java:35-40 | the left child becomes the subtree root and the old root becomes its right child; the in-order keys, entries and heap values are unchanged |
| TreapOps.RotateLeft | src/Treap.java:48-53 | the mirror image: the right child rises, the old root becomes its left child, and the in-order views are unchanged |
| TreapOps.FindDuplicateHeapValue | src/Treap.java:74-79 | true exactly when some node of the subtree has that heap value |
| TreapOps.FindRecursive | src/Treap.java:158-162 | the descent that stops at an equal key, goes left on a smaller key and right otherwise; `FindRecursiveSound` and `FindRecursiveComplete` tie its answer to key membership |
| TreapOps.FindRecursiveSound | src/Treap.java:158-162 | when the descent finds the key, the key is present in the tree |
| TreapOps.FindRecursiveComplete | src/Treap.java:158-162 | on a tree with sorted keys, the descent finds a key exactly when it is present |
| TreapOps.FindNode | src/SearchTree.java:169-177 | returns a node exactly when the descent finds the key, and that node holds the key |
| TreapOps.RestoreHeapOrder | src/Treap.java:115-119 | the two post-insertion rotations, left check first: the result is a node with the same in-order keys, entries and heap values; `RestoreHeapOrderLeft` and `RestoreHeapOrderRight` show it restores heap order after an insertion on either side |
| TreapOps.InsertNode | src/Treap.java:109-120 | insertion always returns a node and adds exactly one node |
| TreapOps.InsertNodeInOrder | src/Treap.java:109-113 | on sorted keys, the new in-order key sequence is the old one with the key inserted after every key not greater than it (equal keys go right), and it stays sorted |
| TreapOps.InsertNodeHeapOrdered | src/Treap.java:115-119 | the rotations after insertion restore max-heap order; the new root's heap value is the larger of the old root's and the new one |
| TreapOps.InsertNodeEntries | src/Treap.java:109-120 | the nodes after insertion are the old ones plus one entry (lower-cased key, heap value, count 1) |
| TreapOps.InsertNodeKeepsTreap | src/Treap.java:109-120 | insertion into a treap gives a treap with the key and the heap value added |
| TreapOps.DeleteNode | src/Treap.java:268-287 | the deletion: descend by key, splice out a node with at most one child, otherwise rotate it down through the child with the strictly greater heap value (the right one on a tie); what it does is stated by `DeleteNodeRemovesFound`, `DeleteNodeAbsent`, `DeleteNodeContents`, `DeleteAtRootTieBreak` and `DeleteNodeKeepsTreap` |
| TreapOps.DeleteNodeRemovesFound | src/Treap.java:268-287 | deletion removes from every in-order reading exactly the element at the position of the node the descent finds, and nothing else moves |
| TreapOps.DeleteNodeAbsent | src/Treap.java:268-272 | deleting a key the descent does not find returns the tree unchanged |
| TreapOps.DeleteNodeContents | src/Treap.java:268-287 | deletion of a found key removes one copy of that key, of the found node's entry and of its heap value, and one node |
| TreapOps.DeleteAtRootTieBreak | src/Treap.java:278-284 | a two-child node holding the key is replaced by its left child's entry when that child's heap value is strictly greater, and by its right child's otherwise, so a tie goes right |
| TreapOps.DeleteNodeHeapOrdered | src/Treap.java:268-287 | deletion keeps max-heap order |
| TreapOps.DeleteNodeSorted | src/Treap.java:268-287 | deletion keeps the in-order keys sorted |
| TreapOps.DeleteNodeKeepsTreap | src/Treap.java:268-287 | deletion from a treap gives a treap |
| TreapOps.Descent | src/Treap.java:194-210 | the keys the search visits from the root exist exactly when the key is found, and they are at most as many as the tree is tall |
| TreapOps.DescentEnds | src/Treap.java:200 | the descent for a found key ends at the node holding that key |
| TreapOps.FindPathRecursive | src/Treap.java:194-210 | returns true exactly when the key is found; then it has written the visited keys from the cursor on; a failed branch moves the cursor back; the earlier part of the buffer is untouched |
| TreapOps.ReverseToList | src/Treap.java:219-225 | the first `length` buffer entries, last first |
| TreapOps.FindPathIn | src/Treap.java:172-183 | no path exactly for a null key or one not found; otherwise the reversed descent, which starts with the lower-cased key and ends with the root's key |
| Treaps.AddStep | src/Treap.java:92-99 | the tree `add(key, heapValue)` leaves: the insertion of the lower-cased key when the pair is accepted, the old tree otherwise; `Treap.Add` ensures its new root is this tree |
| Treaps.Built | src/Treap.java:131-137 | the tree after `add` of the first n pairs in index order, starting empty; it is `Treap.Build`'s loop invariant, and `BuiltCount` and `BuildAcceptsAll` state what it holds |
| Treaps.BuiltCount | src/Treap.java:131-137 | after `build` the tree has one node per pair that `add` accepted |
| Treaps.BuildAcceptsAll | src/Treap.java:131-137 | with non-null keys and positive, pairwise distinct heap values, every pair is accepted and the tree holds exactly those lower-cased keys and heap values |
| Treaps.ChangeOrderContents | src/Treap.java:238-244 | re-inserting a found key with a new heap value gives a treap with the same keys and node count, the old heap value replaced by the new one |
| Treaps.Treap.constructor | src/Treap.java:22-25 | an empty treap with count 0 |
| Treaps.Treap.Size | src/Treap.java:296-298 | the counter, which equals the number of nodes |
| Treaps.Treap.Find | src/Treap.java:147-149 | false for a null key, otherwise whether the lower-cased key is present; the treap is not changed |
| Treaps.Treap.Add | src/Treap.java:92-99 | accepts exactly when the key is non-null, the heap value positive and not yet used, whether or not the key is present; on refusal root and count stay; otherwise the key is inserted and count rises by one; the invariant is kept |
| Treaps.Treap.Build | src/Treap.java:131-137 | fails, changing nothing, when an array is missing or the lengths differ; otherwise the tree is the fold of `add` over the pairs from empty, and count is the number accepted |
| Treaps.Treap.Remove | src/Treap.java:254-259 | removes exactly when the key is non-null and present: the found node is deleted and count drops by one; otherwise nothing changes; the invariant is kept |
| Treaps.Treap.ChangeOrder | src/Treap.java:238-244 | succeeds exactly when the key is non-null and present and the new value positive; then the key is deleted and re-inserted with the new value, which is not checked for duplicates; count is unchanged |
| Treaps.Treap.FindPath | src/Treap.java:172-183 | no path exactly when `find` is false; otherwise the keys from the found node up to the root |
| SearchTrees.Bump | src/SearchTree.java:74-76 | raising a counter changes neither the in-order keys nor the heap values |
| SearchTrees.BumpEntries | src/SearchTree.java:74-76 | exactly one entry changes, the found node's, whose search count rises by one |
| SearchTrees.BumpKeepsDescent | src/SearchTree.java:74-76 | raising a counter leaves every search path as it was |
| SearchTrees.Promote | src/SearchTree.java:123-134 | the promotion pass keeps the in-order keys and the entries (keys, heap values, counts) |
| SearchTrees.PromoteChild | src/SearchTree.java:145-160 | one level of promotion keeps the in-order keys and the entries |
| SearchTrees.PromoteStep | src/SearchTree.java:145-160 | at a path node, the processed child is rotated above it exactly when its count is strictly greater; otherwise the node stays on top |
| SearchTrees.PromoteRootCount | src/SearchTree.java:123-160 | after promotion the subtree root carries the largest search count on the search path |
| SearchTrees.PromoteKeepsPath | src/SearchTree.java:123-160 | after promotion the key is still found, by a path no longer than before |
| SearchTrees.PromoteKeepsHeaps | src/SearchTree.java:145-160 | promotion does not change the heap values read in in-order |
| SearchTrees.Accessed | src/SearchTree.java:68-82 | the tree after `find`: the found node's count raised, then the promotion pass; unchanged for a key that is not found; `SearchTree.Find` ensures its new root is this tree and `AccessedContents` states what changes |
| SearchTrees.AccessedContents | src/SearchTree.java:68-82 | a successful lookup keeps the in-order keys and the heap values; it raises only the found node's count, by one; the key stays findable by a path no longer than before; the root ends with the largest count on the path |
| SearchTrees.PromotionCanLeavePathUndominated | src/SearchTree.java:123-160 | there is a tree with sorted keys where, after a lookup, a path child has a larger count than its parent |
| SearchTrees.InsertNodeKeepsStrict | src/SearchTree.java:40-43 | inserting an absent key keeps keys strictly increasing and adds exactly that key |
| SearchTrees.DeleteNodeKeepsStrict | src/Treap.java:256 | deleting a present key from strictly increasing keys removes exactly one node and that key, which is then absent |
| SearchTrees.AfterAdd | src/SearchTree.java:36-46 | the tree `add(key)` leaves for a non-null key: a present key only looked up, an absent one inserted with the drawn heap value; `SearchTree.Add` ensures its new root is this tree and `AddAbsentKey` states the absent case |
| SearchTrees.AfterRemove | src/SearchTree.java:94-97 | the tree `remove(key)` leaves for a non-null key: a present key looked up twice and deleted, an absent one left alone; `SearchTree.Remove` ensures its new root is this tree and `RemovePresentKey` states the present case |
| SearchTrees.AddAbsentKey | src/SearchTree.java:36-46 | `add` of an absent key adds it, keeps keys strictly increasing and adds one node |
| SearchTrees.RemovePresentKey | src/SearchTree.java:94-97 | `remove` of a present key takes exactly it out and keeps keys strictly increasing |
| SearchTrees.AddDistinctKeys | src/SearchTree.java:36-46 | adding keys that are distinct ignoring case and absent adds all of them, one node each |
| SearchTrees.RemoveAllKeys | src/SearchTree.java:94-97 | removing in turn every key of a tree that holds exactly those keys leaves it empty |
| SearchTrees.AddThenRemoveAll | src/SearchTreeTest.java:203-235 | from empty, adding n distinct keys gives n nodes with every key present, and removing them all gives the empty tree |
| SearchTrees.SearchTree.constructor | src/Treap.java:22-25 | an empty tree with count 0 |
| SearchTrees.SearchTree.Size | src/Treap.java:296-298 | the counter, which equals the number of nodes |
| SearchTrees.SearchTree.Find | src/SearchTree.java:68-82 | true exactly when the key is non-null and its lower-cased form is present; then the tree is the looked-up one; otherwise it is unchanged; the in-order keys and count never change |
| SearchTrees.SearchTree.Add | src/SearchTree.java:36-46 | adds exactly when the key is non-null and absent, inserting the lower-cased key with the drawn heap value (0 to 99, not checked for duplicates) and raising count by one; a present key is looked up; a null key changes nothing |
| SearchTrees.SearchTree.Remove | src/SearchTree.java:94-97 | removes exactly when the key is non-null and present, after two lookups, and the key is then absent and count one lower; otherwise nothing changes |
| SearchTrees.SearchTree.TreapRemove | src/Treap.java:254-259 | the inherited remove run on a search tree: its lookup counts an access and promotes before the node is deleted |
| SearchTrees.SearchTree.FindPath | src/Treap.java:172-183 | the inherited findPath: no path exactly for a null or absent key, otherwise the keys from the found node to the root; no access is counted |

## Left out

- Console output (`displayTree`, `displayTreeRecursive`, `displayPath`) and the demo driver in `src/Main.java` only print, so they are not modelled.
- `generateRandomHeapValue` uses `Math.random()`. The heap value it draws is a parameter of `SearchTree.Add`, required to lie in 0 to 99.
- `String.toLowerCase` is modelled on ASCII letters only. `String.compareTo` is modelled as lexicographic order on `char` sequences. Full Unicode case mapping is not modelled.
- `findPath`'s buffer is a fixed 100-slot array. `findPathRecursive` writes a slot for every node it visits before comparing keys (src/Treap.java:197-198), so it throws once the descent visits more than 100 nodes, whether or not the key is found. `TreapOps.FindPathIn` allocates the larger of 100 and the tree height instead, so it never throws. The exception is not modelled.
- Java `int` is 32 bits. The model uses unbounded integers for `count`, `searchCount` and heap values, so wrap-around on overflow is not modelled.
- Nodes are linked objects updated in place in the source. The model treats each subtree as a value, so aliasing between trees is not modelled. No node is shared in the source either.
- `SearchTree` inherits `add(key, heapValue)`, `build` and `changeOrder` from `Treap`. These inherited forms are not modelled on the search tree.
  - `add(key, heapValue)` (src/Treap.java:92-99) and `build` (src/Treap.java:131-137) never call `find`. They reach only the overriding `insertNode`, and through it `new SearchTreeNode` (src/SearchTree.java:110-113).
  - `add(key, heapValue)` does not refuse a present key, so these two can give a `SearchTree` duplicate keys. `SearchTree.Valid`'s `StrictlySorted` therefore holds only when keys are added with the overriding `add(key)`.
  - `changeOrder` (src/Treap.java:238-244) runs the overriding `find` three times: once itself, then twice through the overriding `remove` (src/SearchTree.java:94-97, then src/Treap.java:255).
- `src/Searchable.java` is an interface without logic. It is not part of this model.
