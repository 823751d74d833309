/**
 * The recursive helpers of the treap. Each one takes a subtree and returns the
 * (possibly new) root of that subtree, so each is a function on `Tree`.
 */
module TreapOps {
  import opened Wrappers
  import opened TreapKeys
  import opened OrderedSeqs
  import opened TreapNodes

  /** Only the null key is invalid; the empty string is a valid key. */
  predicate IsValidKey(key: Option<Key>) {
    key.Some?
  }

  // ---------------------------------------------------------------- rotations

  /** Promotes `y`'s left child to the root of the subtree; `y` becomes its right child. */
  function RotateRight(y: Tree): (x: Tree)
    requires y.Node? && y.left.Node?
    ensures x.Node? && x.right.Node?
    ensures EntryOf(x) == EntryOf(y.left) && EntryOf(x.right) == EntryOf(y)
    ensures InOrder(x) == InOrder(y) && EntrySeq(x) == EntrySeq(y) && HeapSeq(x) == HeapSeq(y)
  {
    var l := y.left;
    Node(l.key, l.heap, l.searchCount, l.left,
         Node(y.key, y.heap, y.searchCount, l.right, y.right))
  }

  /** Promotes `x`'s right child to the root of the subtree; `x` becomes its left child. */
  function RotateLeft(x: Tree): (y: Tree)
    requires x.Node? && x.right.Node?
    ensures y.Node? && y.left.Node?
    ensures EntryOf(y) == EntryOf(x.right) && EntryOf(y.left) == EntryOf(x)
    ensures InOrder(y) == InOrder(x) && EntrySeq(y) == EntrySeq(x) && HeapSeq(y) == HeapSeq(x)
  {
    var r := x.right;
    Node(r.key, r.heap, r.searchCount,
         Node(x.key, x.heap, x.searchCount, x.left, r.left), r.right)
  }

  // ---------------------------------------------------------------- lookup

  /** findRecursive: descends by `compareTo`; answers whether the descent meets `key`. */
  function FindRecursive(t: Tree, key: Key): (found: bool)
  {
    match t
    case Leaf => false
    case Node(x, _, _, l, r) =>
      if key == x then true
      else if Less(key, x) then FindRecursive(l, key)
      else FindRecursive(r, key)
  }

  /** Whatever the descent meets is present, search tree or not. */
  lemma {:induction false} FindRecursiveSound(t: Tree, key: Key)
    ensures FindRecursive(t, key) ==> key in Keys(t)
  {
    match t
    case Leaf =>
    case Node(x, _, _, l, r) =>
      assert InOrder(t) == InOrder(l) + [x] + InOrder(r);
      if key != x {
        FindRecursiveSound(if Less(key, x) then l else r, key);
      }
  }

  /** In a search tree the descent finds every key that is present. */
  lemma {:induction false} FindRecursiveComplete(t: Tree, key: Key)
    requires Sorted(InOrder(t))
    ensures FindRecursive(t, key) <==> key in Keys(t)
  {
    match t
    case Leaf =>
    case Node(x, _, _, l, r) =>
      SortedSplit(InOrder(l), x, InOrder(r));
      if key != x {
        LessTotal(key, x);
        assert key in InOrder(l) + [x] + InOrder(r) <==> key in Keys(t);
        if Less(key, x) {
          assert forall j :: 0 <= j < |InOrder(r)| ==> InOrder(r)[j] != key;
          FindRecursiveComplete(l, key);
        } else {
          assert forall i :: 0 <= i < |InOrder(l)| ==> InOrder(l)[i] != key;
          FindRecursiveComplete(r, key);
        }
      }
  }

  /** findNode: the subtree rooted at the node the descent stops at, or `Leaf`. */
  function FindNode(t: Tree, key: Key): (n: Tree)
    ensures n.Node? <==> FindRecursive(t, key)
    ensures n.Node? ==> n.key == key
  {
    match t
    case Leaf => Leaf
    case Node(x, _, _, l, r) =>
      if key == x then t
      else if Less(key, x) then FindNode(l, key)
      else FindNode(r, key)
  }

  /** findDuplicateHeapValue: whether some node already has heap value `heapValue`. */
  function FindDuplicateHeapValue(t: Tree, heapValue: int): (found: bool)
    ensures found <==> heapValue in Heaps(t)
  {
    match t
    case Leaf => false
    case Node(_, h, _, l, r) =>
      h == heapValue || FindDuplicateHeapValue(l, heapValue) || FindDuplicateHeapValue(r, heapValue)
  }

  // ---------------------------------------------------------------- insertion

  /**
   * The two rotations insertNode applies on its way back up: first the left
   * child is rotated above `n` if its heap value is larger, then the right
   * child of whatever is now the root, likewise.
   */
  function RestoreHeapOrder(n: Tree): (r: Tree)
    requires n.Node?
    ensures r.Node?
    ensures InOrder(r) == InOrder(n) && EntrySeq(r) == EntrySeq(n) && HeapSeq(r) == HeapSeq(n)
  {
    var n1 := if n.left.Node? && n.left.heap > n.heap then RotateRight(n) else n;
    if n1.right.Node? && n1.right.heap > n1.heap then RotateLeft(n1) else n1
  }

  /**
   * insertNode: descends by key (an equal key goes right), creates the node at
   * the empty position, and on the way back rotates it above any parent with a
   * smaller heap value.
   */
  function InsertNode(t: Tree, key: Key, heapValue: int): (r: Tree)
    ensures r.Node?
    ensures NodeCount(r) == NodeCount(t) + 1
  {
    match t
    case Leaf => NewNode(key, heapValue)
    case Node(x, h, c, l, rt) =>
      if Less(key, x) then RestoreHeapOrder(Node(x, h, c, InsertNode(l, key, heapValue), rt))
      else RestoreHeapOrder(Node(x, h, c, l, InsertNode(rt, key, heapValue)))
  }

  /** Insertion adds exactly one node, holding the lower-cased key and the given heap value. */
  lemma {:induction false} InsertNodeEntries(t: Tree, key: Key, heapValue: int)
    ensures Entries(InsertNode(t, key, heapValue)) == Entries(t) + multiset{Entry(LowerKey(key), heapValue, 1)}
  {
    match t
    case Leaf =>
    case Node(x, h, c, l, rt) =>
      EntriesOfNode(t);
      if Less(key, x) {
        var n := Node(x, h, c, InsertNode(l, key, heapValue), rt);
        assert InsertNode(t, key, heapValue) == RestoreHeapOrder(n);
        InsertNodeEntries(l, key, heapValue);
        EntriesOfNode(n);
        AddedOnLeft(Entries(l), Entries(n.left), EntryOf(t), Entries(rt), Entry(LowerKey(key), heapValue, 1));
      } else {
        var n := Node(x, h, c, l, InsertNode(rt, key, heapValue));
        assert InsertNode(t, key, heapValue) == RestoreHeapOrder(n);
        InsertNodeEntries(rt, key, heapValue);
        EntriesOfNode(n);
        AddedOnRight(Entries(l), EntryOf(t), Entries(rt), Entries(n.right), Entry(LowerKey(key), heapValue, 1));
      }
  }

  /** Insertion adds exactly the given heap value. */
  lemma {:induction false} InsertNodeHeaps(t: Tree, key: Key, heapValue: int)
    ensures Heaps(InsertNode(t, key, heapValue)) == Heaps(t) + multiset{heapValue}
  {
    match t
    case Leaf =>
    case Node(x, h, c, l, rt) =>
      HeapsOfNode(t);
      if Less(key, x) {
        var n := Node(x, h, c, InsertNode(l, key, heapValue), rt);
        assert InsertNode(t, key, heapValue) == RestoreHeapOrder(n);
        InsertNodeHeaps(l, key, heapValue);
        HeapsOfNode(n);
        AddedOnLeft(Heaps(l), Heaps(n.left), h, Heaps(rt), heapValue);
      } else {
        var n := Node(x, h, c, l, InsertNode(rt, key, heapValue));
        assert InsertNode(t, key, heapValue) == RestoreHeapOrder(n);
        InsertNodeHeaps(rt, key, heapValue);
        HeapsOfNode(n);
        AddedOnRight(Heaps(l), h, Heaps(rt), Heaps(n.right), heapValue);
      }
  }

  /** Insertion adds exactly the lower-cased key. */
  lemma {:induction false} InsertNodeKeys(t: Tree, key: Key, heapValue: int)
    ensures Keys(InsertNode(t, key, heapValue)) == Keys(t) + multiset{LowerKey(key)}
  {
    match t
    case Leaf =>
    case Node(x, h, c, l, rt) =>
      KeysOfNode(t);
      if Less(key, x) {
        var n := Node(x, h, c, InsertNode(l, key, heapValue), rt);
        assert InsertNode(t, key, heapValue) == RestoreHeapOrder(n);
        InsertNodeKeys(l, key, heapValue);
        KeysOfNode(n);
        AddedOnLeft(Keys(l), Keys(n.left), x, Keys(rt), LowerKey(key));
      } else {
        var n := Node(x, h, c, l, InsertNode(rt, key, heapValue));
        assert InsertNode(t, key, heapValue) == RestoreHeapOrder(n);
        InsertNodeKeys(rt, key, heapValue);
        KeysOfNode(n);
        AddedOnRight(Keys(l), x, Keys(rt), Keys(n.right), LowerKey(key));
      }
  }

  /** Insertion into the left subtree, read in in-order, one level. */
  lemma InsertNodeUnfoldLeft(t: Tree, key: Key, heapValue: int)
    requires t.Node? && Less(key, t.key)
    ensures InOrder(InsertNode(t, key, heapValue)) == InOrder(InsertNode(t.left, key, heapValue)) + [t.key] + InOrder(t.right)
  {
    var n := Node(t.key, t.heap, t.searchCount, InsertNode(t.left, key, heapValue), t.right);
    assert InsertNode(t, key, heapValue) == RestoreHeapOrder(n);
  }

  /** Insertion into the right subtree, read in in-order, one level. */
  lemma InsertNodeUnfoldRight(t: Tree, key: Key, heapValue: int)
    requires t.Node? && !Less(key, t.key)
    ensures InOrder(InsertNode(t, key, heapValue)) == InOrder(t.left) + [t.key] + InOrder(InsertNode(t.right, key, heapValue))
  {
    var n := Node(t.key, t.heap, t.searchCount, t.left, InsertNode(t.right, key, heapValue));
    assert InsertNode(t, key, heapValue) == RestoreHeapOrder(n);
  }

  /** Insertion into the left subtree, read in in-order. */
  lemma InsertNodeInOrderLeft(t: Tree, key: Key, heapValue: int)
    requires t.Node? && Less(key, t.key)
    requires InOrder(InsertNode(t.left, key, heapValue)) == InsertSorted(InOrder(t.left), key)
    ensures InOrder(InsertNode(t, key, heapValue)) == InsertSorted(InOrder(t), key)
  {
    InsertNodeUnfoldLeft(t, key, heapValue);
    InsertSortedBeforeSplit(InOrder(t.left), t.key, InOrder(t.right), key);
  }

  /** Insertion into the right subtree, read in in-order. */
  lemma InsertNodeInOrderRight(t: Tree, key: Key, heapValue: int)
    requires t.Node? && !Less(key, t.key)
    requires forall i :: 0 <= i < |InOrder(t.left)| ==> !Less(key, InOrder(t.left)[i])
    requires InOrder(InsertNode(t.right, key, heapValue)) == InsertSorted(InOrder(t.right), key)
    ensures InOrder(InsertNode(t, key, heapValue)) == InsertSorted(InOrder(t), key)
  {
    InsertNodeUnfoldRight(t, key, heapValue);
    InsertSortedAfterSplit(InOrder(t.left), t.key, InOrder(t.right), key);
  }

  /**
   * On a search tree, insertion puts the key at its sorted position in the
   * in-order sequence, after any equal keys.
   */
  lemma {:induction false} InsertNodeInOrder(t: Tree, key: Key, heapValue: int)
    requires Sorted(InOrder(t)) && LowerKey(key) == key
    ensures InOrder(InsertNode(t, key, heapValue)) == InsertSorted(InOrder(t), key)
    ensures Sorted(InOrder(InsertNode(t, key, heapValue)))
  {
    match t
    case Leaf =>
    case Node(x, h, c, l, rt) =>
      SortedSplit(InOrder(l), x, InOrder(rt));
      if Less(key, x) {
        InsertNodeInOrder(l, key, heapValue);
        InsertNodeInOrderLeft(t, key, heapValue);
      } else {
        InsertNodeInOrder(rt, key, heapValue);
        forall i | 0 <= i < |InOrder(l)|
          ensures !Less(key, InOrder(l)[i])
        {
          NotLessTransitive(InOrder(l)[i], x, key);
        }
        InsertNodeInOrderRight(t, key, heapValue);
      }
    InsertSortedSorted(InOrder(t), key);
  }

  /**
   * The rotations of `RestoreHeapOrder` make a heap-ordered tree out of a node
   * whose right child respects its heap value and whose left child, if it
   * outranks the node, has a right child that does not.
   */
  lemma RestoreHeapOrderLeft(n: Tree)
    requires n.Node? && HeapOrdered(n.left) && HeapOrdered(n.right)
    requires n.right.Node? ==> n.right.heap <= n.heap
    requires n.left.Node? && n.left.heap > n.heap && n.left.right.Node? ==> n.left.right.heap <= n.heap
    ensures HeapOrdered(RestoreHeapOrder(n))
    ensures RestoreHeapOrder(n).heap == if n.left.Node? && n.left.heap > n.heap then n.left.heap else n.heap
  {
  }

  /** The mirror image of `RestoreHeapOrderLeft`. */
  lemma RestoreHeapOrderRight(n: Tree)
    requires n.Node? && HeapOrdered(n.left) && HeapOrdered(n.right)
    requires n.left.Node? ==> n.left.heap <= n.heap
    requires n.right.Node? && n.right.heap > n.heap && n.right.left.Node? ==> n.right.left.heap <= n.heap
    ensures HeapOrdered(RestoreHeapOrder(n))
    ensures RestoreHeapOrder(n).heap == if n.right.Node? && n.right.heap > n.heap then n.right.heap else n.heap
  {
  }

  /**
   * A tree `r` holding the heap values of a heap-ordered `t` plus its own root
   * value: the roots of `r`'s children are old values, so at most `t`'s root.
   */
  lemma ChildOfNewRoot(t: Tree, r: Tree, child: Tree)
    requires HeapOrdered(t) && r.Node? && Heaps(r) == Heaps(t) + multiset{r.heap}
    requires child.Node? && (child == r.left || child == r.right)
    ensures t.Node? && child.heap <= t.heap
  {
    var v := child.heap;
    HeapsOfNode(r);
    HeapsOfNode(child);
    assert Heaps(r.left)[v] + Heaps(r.right)[v] >= 1;
    assert Heaps(r)[v] == Heaps(r.left)[v] + multiset{r.heap}[v] + Heaps(r.right)[v];
    assert Heaps(t)[v] >= 1;
    HeapOrderedRootIsMax(t);
  }

  /**
   * Insertion keeps max-heap order; the new root holds the larger of the old
   * root's heap value and the inserted one.
   */
  lemma {:induction false} InsertNodeHeapOrdered(t: Tree, key: Key, heapValue: int)
    requires HeapOrdered(t)
    ensures HeapOrdered(InsertNode(t, key, heapValue))
    ensures InsertNode(t, key, heapValue).heap ==
            if t.Node? && heapValue <= t.heap then t.heap else heapValue
  {
    match t
    case Leaf =>
    case Node(x, h, c, l, rt) =>
      if Less(key, x) {
        InsertNodeHeapOrdered(l, key, heapValue);
        InsertNodeHeapOrderedLeft(t, key, heapValue);
      } else {
        InsertNodeHeapOrdered(rt, key, heapValue);
        InsertNodeHeapOrderedRight(t, key, heapValue);
      }
  }

  /** One level of `InsertNodeHeapOrdered`, insertion into the left subtree. */
  lemma InsertNodeHeapOrderedLeft(t: Tree, key: Key, heapValue: int)
    requires t.Node? && Less(key, t.key) && HeapOrdered(t)
    requires HeapOrdered(InsertNode(t.left, key, heapValue))
    requires InsertNode(t.left, key, heapValue).heap ==
             if t.left.Node? && heapValue <= t.left.heap then t.left.heap else heapValue
    ensures HeapOrdered(InsertNode(t, key, heapValue))
    ensures InsertNode(t, key, heapValue).heap == if heapValue <= t.heap then t.heap else heapValue
  {
    var l' := InsertNode(t.left, key, heapValue);
    var n := Node(t.key, t.heap, t.searchCount, l', t.right);
    assert InsertNode(t, key, heapValue) == RestoreHeapOrder(n);
    if l'.heap > t.heap && l'.right.Node? {
      InsertNodeHeaps(t.left, key, heapValue);
      ChildOfNewRoot(t.left, l', l'.right);
    }
    RestoreHeapOrderLeft(n);
  }

  /** One level of `InsertNodeHeapOrdered`, insertion into the right subtree. */
  lemma InsertNodeHeapOrderedRight(t: Tree, key: Key, heapValue: int)
    requires t.Node? && !Less(key, t.key) && HeapOrdered(t)
    requires HeapOrdered(InsertNode(t.right, key, heapValue))
    requires InsertNode(t.right, key, heapValue).heap ==
             if t.right.Node? && heapValue <= t.right.heap then t.right.heap else heapValue
    ensures HeapOrdered(InsertNode(t, key, heapValue))
    ensures InsertNode(t, key, heapValue).heap == if heapValue <= t.heap then t.heap else heapValue
  {
    var r' := InsertNode(t.right, key, heapValue);
    var n := Node(t.key, t.heap, t.searchCount, t.left, r');
    assert InsertNode(t, key, heapValue) == RestoreHeapOrder(n);
    if r'.heap > t.heap && r'.left.Node? {
      InsertNodeHeaps(t.right, key, heapValue);
      ChildOfNewRoot(t.right, r', r'.left);
    }
    RestoreHeapOrderRight(n);
  }

  /** The treap invariant on a tree: keys in search order, heap values in max-heap order. */
  ghost predicate IsTreap(t: Tree) {
    Sorted(InOrder(t)) && HeapOrdered(t)
  }

  /** Insertion on a treap: the result is a treap holding one more key and heap value. */
  lemma InsertNodeKeepsTreap(t: Tree, key: Key, heapValue: int)
    requires IsTreap(t) && LowerKey(key) == key
    ensures IsTreap(InsertNode(t, key, heapValue))
    ensures InOrder(InsertNode(t, key, heapValue)) == InsertSorted(InOrder(t), key)
    ensures Keys(InsertNode(t, key, heapValue)) == Keys(t) + multiset{key}
    ensures Heaps(InsertNode(t, key, heapValue)) == Heaps(t) + multiset{heapValue}
  {
    InsertNodeIsTreap(t, key, heapValue);
    InsertNodeInOrder(t, key, heapValue);
    InsertNodeHeaps(t, key, heapValue);
    InsertNodeKeys(t, key, heapValue);
  }

  /** The treap invariant alone, from `InsertNodeKeepsTreap`. */
  lemma InsertNodeIsTreap(t: Tree, key: Key, heapValue: int)
    requires IsTreap(t) && LowerKey(key) == key
    ensures IsTreap(InsertNode(t, key, heapValue))
  {
    InsertNodeInOrder(t, key, heapValue);
    InsertNodeHeapOrdered(t, key, heapValue);
  }

  // ---------------------------------------------------------------- deletion

  /**
   * deleteNode: descends by key; at the node, a leaf is dropped, a node with one
   * child is replaced by that child, and a node with two children is rotated
   * down through the child with the strictly larger heap value (the right child
   * on a tie) and deletion continues below.
   */
  function DeleteNode(t: Tree, key: Key): (r: Tree)
    decreases NodeCount(t)
  {
    match t
    case Leaf => Leaf
    case Node(x, h, c, l, rt) =>
      if Less(key, x) then Node(x, h, c, DeleteNode(l, key), rt)
      else if Less(x, key) then Node(x, h, c, l, DeleteNode(rt, key))
      else if l.Leaf? && rt.Leaf? then Leaf
      else if l.Leaf? then rt
      else if rt.Leaf? then l
      else if l.heap > rt.heap then
        var n := RotateRight(t);
        Node(n.key, n.heap, n.searchCount, n.left, DeleteNode(n.right, key))
      else
        var n := RotateLeft(t);
        Node(n.key, n.heap, n.searchCount, DeleteNode(n.left, key), n.right)
  }

  /** The in-order position of the node at which the descent for `key` stops. */
  ghost function FoundIndex(t: Tree, key: Key): nat
    requires FindRecursive(t, key)
  {
    match t
    case Node(x, _, _, l, r) =>
      if key == x then NodeCount(l)
      else if Less(key, x) then FoundIndex(l, key)
      else NodeCount(l) + 1 + FoundIndex(r, key)
  }

  /** The node the descent finds sits at `FoundIndex` in each in-order reading. */
  ghost predicate FoundAtIndex(t: Tree, key: Key)
    requires FindRecursive(t, key)
  {
    FoundIndex(t, key) < NodeCount(t) &&
    InOrder(t)[FoundIndex(t, key)] == key &&
    EntrySeq(t)[FoundIndex(t, key)] == EntryOf(FindNode(t, key)) &&
    HeapSeq(t)[FoundIndex(t, key)] == FindNode(t, key).heap
  }

  lemma FoundAtRoot(t: Tree, key: Key)
    requires t.Node? && key == t.key
    ensures FindRecursive(t, key) && FoundAtIndex(t, key)
  {
  }

  lemma FoundInLeft(t: Tree, key: Key)
    requires t.Node? && key != t.key && Less(key, t.key)
    requires FindRecursive(t.left, key) && FoundAtIndex(t.left, key)
    ensures FindRecursive(t, key) && FoundAtIndex(t, key)
  {
    var j := FoundIndex(t.left, key);
    assert FoundIndex(t, key) == j && FindNode(t, key) == FindNode(t.left, key);
    IndexFront(InOrder(t.left), t.key, InOrder(t.right), j);
    IndexFront(EntrySeq(t.left), EntryOf(t), EntrySeq(t.right), j);
    IndexFront(HeapSeq(t.left), t.heap, HeapSeq(t.right), j);
  }

  lemma FoundInRight(t: Tree, key: Key)
    requires t.Node? && key != t.key && !Less(key, t.key)
    requires FindRecursive(t.right, key) && FoundAtIndex(t.right, key)
    ensures FindRecursive(t, key) && FoundAtIndex(t, key)
  {
    var j, i := FoundIndex(t.right, key), FoundIndex(t, key);
    assert i == NodeCount(t.left) + 1 + j;
    assert FindNode(t, key) == FindNode(t.right, key);
    IndexBack(InOrder(t.left), t.key, InOrder(t.right), j, i);
    IndexBack(EntrySeq(t.left), EntryOf(t), EntrySeq(t.right), j, i);
    IndexBack(HeapSeq(t.left), t.heap, HeapSeq(t.right), j, i);
  }

  lemma {:induction false} FoundIndexHolds(t: Tree, key: Key)
    requires FindRecursive(t, key)
    ensures FoundAtIndex(t, key)
  {
    match t
    case Node(x, _, _, l, r) =>
      if key == x {
        FoundAtRoot(t, key);
      } else if Less(key, x) {
        FoundIndexHolds(l, key);
        FoundInLeft(t, key);
      } else {
        FoundIndexHolds(r, key);
        FoundInRight(t, key);
      }
  }

  /**
   * Deletion takes out of each in-order reading exactly the element at
   * `FoundIndex`, and nothing else moves.
   */
  ghost predicate DeletesAt(t: Tree, key: Key)
    requires FindRecursive(t, key)
  {
    FoundIndex(t, key) < NodeCount(t) &&
    InOrder(DeleteNode(t, key)) == RemoveAt(InOrder(t), FoundIndex(t, key)) &&
    EntrySeq(DeleteNode(t, key)) == RemoveAt(EntrySeq(t), FoundIndex(t, key)) &&
    HeapSeq(DeleteNode(t, key)) == RemoveAt(HeapSeq(t), FoundIndex(t, key))
  }

  lemma DeleteInLeft(t: Tree, key: Key)
    requires t.Node? && key != t.key && Less(key, t.key)
    requires FindRecursive(t.left, key) && DeletesAt(t.left, key)
    ensures FindRecursive(t, key) && DeletesAt(t, key)
  {
    var j := FoundIndex(t.left, key);
    assert FoundIndex(t, key) == j;
    assert DeleteNode(t, key) == Node(t.key, t.heap, t.searchCount, DeleteNode(t.left, key), t.right);
    RemoveAtFront(InOrder(t.left), t.key, InOrder(t.right), j);
    RemoveAtFront(EntrySeq(t.left), EntryOf(t), EntrySeq(t.right), j);
    RemoveAtFront(HeapSeq(t.left), t.heap, HeapSeq(t.right), j);
  }

  lemma DeleteInRight(t: Tree, key: Key)
    requires t.Node? && key != t.key && Less(t.key, key)
    requires FindRecursive(t.right, key) && DeletesAt(t.right, key)
    ensures FindRecursive(t, key) && DeletesAt(t, key)
  {
    LessAsymmetric(t.key, key);
    var j, i := FoundIndex(t.right, key), FoundIndex(t, key);
    assert i == NodeCount(t.left) + 1 + j;
    assert DeleteNode(t, key) == Node(t.key, t.heap, t.searchCount, t.left, DeleteNode(t.right, key));
    RemoveAtBack(InOrder(t.left), t.key, InOrder(t.right), j, i);
    RemoveAtBack(EntrySeq(t.left), EntryOf(t), EntrySeq(t.right), j, i);
    RemoveAtBack(HeapSeq(t.left), t.heap, HeapSeq(t.right), j, i);
  }

  /** At the node itself, with at most one child: the node is replaced by that child. */
  lemma DeleteAtRootSpliced(t: Tree, key: Key)
    requires t.Node? && key == t.key && (t.left.Leaf? || t.right.Leaf?)
    ensures FindRecursive(t, key) && DeletesAt(t, key)
  {
    LessIrreflexive(key);
    assert FoundIndex(t, key) == NodeCount(t.left);
    RemoveAtMiddle(InOrder(t.left), t.key, InOrder(t.right));
    RemoveAtMiddle(EntrySeq(t.left), EntryOf(t), EntrySeq(t.right));
    RemoveAtMiddle(HeapSeq(t.left), t.heap, HeapSeq(t.right));
    if t.left.Leaf? {
      assert DeleteNode(t, key) == t.right;
    } else {
      assert DeleteNode(t, key) == t.left;
    }
  }

  /**
   * A node with two children that holds the key is replaced by a child: the
   * left one when its heap value is strictly greater, the right one otherwise,
   * so a tie goes right.
   */
  lemma DeleteAtRootTieBreak(t: Tree, key: Key)
    requires t.Node? && key == t.key && t.left.Node? && t.right.Node?
    ensures DeleteNode(t, key).Node?
    ensures EntryOf(DeleteNode(t, key)) == if t.left.heap > t.right.heap then EntryOf(t.left) else EntryOf(t.right)
  {
    LessIrreflexive(key);
  }

  /** The node sunk below its left child, which outranks the right one. */
  function SinkRight(t: Tree): (m: Tree)
    requires t.Node? && t.left.Node?
    ensures m.Node? && m.key == t.key && NodeCount(m) < NodeCount(t)
  {
    Node(t.key, t.heap, t.searchCount, t.left.right, t.right)
  }

  /** The node sunk below its right child. */
  function SinkLeft(t: Tree): (m: Tree)
    requires t.Node? && t.right.Node?
    ensures m.Node? && m.key == t.key && NodeCount(m) < NodeCount(t)
  {
    Node(t.key, t.heap, t.searchCount, t.left, t.right.left)
  }

  lemma DeleteAtRootRotateRight(t: Tree, key: Key)
    requires t.Node? && key == t.key && t.left.Node? && t.right.Node? && t.left.heap > t.right.heap
    requires FindRecursive(SinkRight(t), key) && DeletesAt(SinkRight(t), key)
    ensures FindRecursive(t, key) && DeletesAt(t, key)
  {
    LessIrreflexive(key);
    var l, m := t.left, SinkRight(t);
    var j, i := FoundIndex(m, key), FoundIndex(t, key);
    assert j == NodeCount(l.right);
    assert i == NodeCount(l.left) + 1 + j;
    assert DeleteNode(t, key) == Node(l.key, l.heap, l.searchCount, l.left, DeleteNode(m, key));
    assert InOrder(t) == InOrder(l.left) + [l.key] + InOrder(m);
    assert EntrySeq(t) == EntrySeq(l.left) + [EntryOf(l)] + EntrySeq(m);
    assert HeapSeq(t) == HeapSeq(l.left) + [l.heap] + HeapSeq(m);
    RemoveAtBack(InOrder(l.left), l.key, InOrder(m), j, i);
    RemoveAtBack(EntrySeq(l.left), EntryOf(l), EntrySeq(m), j, i);
    RemoveAtBack(HeapSeq(l.left), l.heap, HeapSeq(m), j, i);
  }

  lemma DeleteAtRootRotateLeft(t: Tree, key: Key)
    requires t.Node? && key == t.key && t.left.Node? && t.right.Node? && t.left.heap <= t.right.heap
    requires FindRecursive(SinkLeft(t), key) && DeletesAt(SinkLeft(t), key)
    ensures FindRecursive(t, key) && DeletesAt(t, key)
  {
    LessIrreflexive(key);
    var r, m := t.right, SinkLeft(t);
    var j := FoundIndex(m, key);
    assert j == NodeCount(t.left) == FoundIndex(t, key);
    assert DeleteNode(t, key) == Node(r.key, r.heap, r.searchCount, DeleteNode(m, key), r.right);
    RemoveAtFront(InOrder(m), r.key, InOrder(r.right), j);
    RemoveAtFront(EntrySeq(m), EntryOf(r), EntrySeq(r.right), j);
    RemoveAtFront(HeapSeq(m), r.heap, HeapSeq(r.right), j);
  }

  /**
   * Deletion of a key the descent finds takes exactly that node out of the
   * in-order sequence: rotations on the way down do not reorder anything.
   */
  lemma {:induction false} DeleteNodeRemovesFound(t: Tree, key: Key)
    requires FindRecursive(t, key)
    ensures DeletesAt(t, key)
    decreases NodeCount(t)
  {
    match t
    case Node(x, h, c, l, rt) =>
      if key == x {
        if l.Leaf? || rt.Leaf? {
          DeleteAtRootSpliced(t, key);
        } else if l.heap > rt.heap {
          DeleteNodeRemovesFound(SinkRight(t), key);
          DeleteAtRootRotateRight(t, key);
        } else {
          DeleteNodeRemovesFound(SinkLeft(t), key);
          DeleteAtRootRotateLeft(t, key);
        }
      } else if Less(key, x) {
        DeleteNodeRemovesFound(l, key);
        DeleteInLeft(t, key);
      } else {
        LessTotal(key, x);
        DeleteNodeRemovesFound(rt, key);
        DeleteInRight(t, key);
      }
  }

  /** When the descent finds no node, deletion changes nothing. */
  lemma {:induction false} DeleteNodeAbsent(t: Tree, key: Key)
    requires !FindRecursive(t, key)
    ensures DeleteNode(t, key) == t
  {
    match t
    case Leaf =>
    case Node(x, h, c, l, rt) =>
      LessTotal(key, x);
      if Less(key, x) {
        DeleteNodeAbsent(l, key);
      } else {
        LessAsymmetric(x, key);
        DeleteNodeAbsent(rt, key);
      }
  }

  /**
   * Deletion removes exactly the node the descent finds: its key, its entry
   * and its heap value disappear, and nothing else changes.
   */
  lemma DeleteNodeContents(t: Tree, key: Key)
    requires FindRecursive(t, key)
    ensures Keys(DeleteNode(t, key)) == Keys(t) - multiset{key}
    ensures Entries(DeleteNode(t, key)) == Entries(t) - multiset{EntryOf(FindNode(t, key))}
    ensures Heaps(DeleteNode(t, key)) == Heaps(t) - multiset{FindNode(t, key).heap}
    ensures NodeCount(DeleteNode(t, key)) == NodeCount(t) - 1
  {
    DeleteNodeRemovesFound(t, key);
    FoundIndexHolds(t, key);
    var i := FoundIndex(t, key);
    RemoveAtMultiset(InOrder(t), i);
    RemoveAtMultiset(EntrySeq(t), i);
    RemoveAtMultiset(HeapSeq(t), i);
  }

  /** Deletion of a key the descent finds removes exactly one node. */
  lemma DeleteNodeCount(t: Tree, key: Key)
    requires FindRecursive(t, key)
    ensures NodeCount(DeleteNode(t, key)) == NodeCount(t) - 1
  {
    DeleteNodeRemovesFound(t, key);
    RemoveAtMultiset(InOrder(t), FoundIndex(t, key));
  }

  /** Deletion keeps a tree a search tree. */
  lemma DeleteNodeSorted(t: Tree, key: Key)
    requires Sorted(InOrder(t))
    ensures Sorted(InOrder(DeleteNode(t, key)))
  {
    if FindRecursive(t, key) {
      DeleteNodeRemovesFound(t, key);
      RemoveAtSorted(InOrder(t), FoundIndex(t, key));
    } else {
      DeleteNodeAbsent(t, key);
    }
  }

  /** Every heap value left after deletion was there before. */
  lemma DeleteNodeHeapsWithin(t: Tree, key: Key)
    ensures Heaps(DeleteNode(t, key)) <= Heaps(t)
  {
    if FindRecursive(t, key) {
      DeleteNodeContents(t, key);
    } else {
      DeleteNodeAbsent(t, key);
    }
  }

  lemma DeleteInLeftHeapOrdered(t: Tree, key: Key)
    requires HeapOrdered(t) && t.Node? && Less(key, t.key)
    requires HeapOrdered(DeleteNode(t.left, key))
    ensures HeapOrdered(DeleteNode(t, key))
  {
    var d := DeleteNode(t.left, key);
    assert DeleteNode(t, key) == Node(t.key, t.heap, t.searchCount, d, t.right);
    if d.Node? {
      DeleteNodeHeapsWithin(t.left, key);
      HeapsOfNode(d);
      HeapAtMostRoot(t.left, d.heap);
    }
  }

  lemma DeleteInRightHeapOrdered(t: Tree, key: Key)
    requires HeapOrdered(t) && t.Node? && Less(t.key, key)
    requires HeapOrdered(DeleteNode(t.right, key))
    ensures HeapOrdered(DeleteNode(t, key))
  {
    LessAsymmetric(t.key, key);
    var d := DeleteNode(t.right, key);
    assert DeleteNode(t, key) == Node(t.key, t.heap, t.searchCount, t.left, d);
    if d.Node? {
      DeleteNodeHeapsWithin(t.right, key);
      HeapsOfNode(d);
      HeapAtMostRoot(t.right, d.heap);
    }
  }

  lemma DeleteAtRootSplicedHeapOrdered(t: Tree, key: Key)
    requires HeapOrdered(t) && t.Node? && key == t.key && (t.left.Leaf? || t.right.Leaf?)
    ensures HeapOrdered(DeleteNode(t, key))
  {
    LessIrreflexive(key);
    assert DeleteNode(t, key) == if t.left.Leaf? then t.right else t.left;
  }

  /** Sinking the node below its larger child keeps the heap order of what is left below. */
  lemma SinkHeapOrdered(t: Tree)
    requires HeapOrdered(t) && t.Node? && t.left.Node? && t.right.Node?
    ensures t.left.heap > t.right.heap ==> HeapOrdered(SinkRight(t))
    ensures t.left.heap <= t.right.heap ==> HeapOrdered(SinkLeft(t))
  {
  }

  /** Deleting at the root leaves one of the root's former children's heap values on top. */
  lemma DeleteAtRootHeap(t: Tree, key: Key)
    requires t.Node? && key == t.key
    ensures DeleteNode(t, key).Node? ==>
              (t.left.Node? && DeleteNode(t, key).heap == t.left.heap) ||
              (t.right.Node? && DeleteNode(t, key).heap == t.right.heap)
  {
    LessIrreflexive(key);
  }

  lemma DeleteAtRootRotateRightHeapOrdered(t: Tree, key: Key)
    requires HeapOrdered(t) && t.Node? && key == t.key
    requires t.left.Node? && t.right.Node? && t.left.heap > t.right.heap
    requires HeapOrdered(DeleteNode(SinkRight(t), key))
    ensures HeapOrdered(DeleteNode(t, key))
  {
    LessIrreflexive(key);
    var l, m := t.left, SinkRight(t);
    assert DeleteNode(t, key) == Node(l.key, l.heap, l.searchCount, l.left, DeleteNode(m, key));
    DeleteAtRootHeap(m, key);
  }

  lemma DeleteAtRootRotateLeftHeapOrdered(t: Tree, key: Key)
    requires HeapOrdered(t) && t.Node? && key == t.key
    requires t.left.Node? && t.right.Node? && t.left.heap <= t.right.heap
    requires HeapOrdered(DeleteNode(SinkLeft(t), key))
    ensures HeapOrdered(DeleteNode(t, key))
  {
    LessIrreflexive(key);
    var r, m := t.right, SinkLeft(t);
    assert DeleteNode(t, key) == Node(r.key, r.heap, r.searchCount, DeleteNode(m, key), r.right);
    DeleteAtRootHeap(m, key);
  }

  /** Deletion keeps max-heap order. */
  lemma {:induction false} DeleteNodeHeapOrdered(t: Tree, key: Key)
    requires HeapOrdered(t)
    ensures HeapOrdered(DeleteNode(t, key))
    decreases NodeCount(t)
  {
    match t
    case Leaf =>
    case Node(x, h, c, l, rt) =>
      if key == x {
        if l.Leaf? || rt.Leaf? {
          DeleteAtRootSplicedHeapOrdered(t, key);
        } else if l.heap > rt.heap {
          SinkHeapOrdered(t);
          DeleteNodeHeapOrdered(SinkRight(t), key);
          DeleteAtRootRotateRightHeapOrdered(t, key);
        } else {
          SinkHeapOrdered(t);
          DeleteNodeHeapOrdered(SinkLeft(t), key);
          DeleteAtRootRotateLeftHeapOrdered(t, key);
        }
      } else if Less(key, x) {
        DeleteNodeHeapOrdered(l, key);
        DeleteInLeftHeapOrdered(t, key);
      } else {
        LessTotal(key, x);
        DeleteNodeHeapOrdered(rt, key);
        DeleteInRightHeapOrdered(t, key);
      }
  }

  /** Deletion keeps a treap a treap, whether or not the key is found. */
  lemma DeleteNodeKeepsTreap(t: Tree, key: Key)
    requires IsTreap(t)
    ensures IsTreap(DeleteNode(t, key))
  {
    DeleteNodeSorted(t, key);
    DeleteNodeHeapOrdered(t, key);
  }

  // ---------------------------------------------------------------- paths

  /**
   * The keys met on the way from the root down to the node holding `key`, both
   * ends included, or `None` when the descent does not meet `key`.
   */
  function Descent(t: Tree, key: Key): (p: Option<seq<Key>>)
    ensures p.Some? <==> FindRecursive(t, key)
    ensures p.Some? ==> 1 <= |p.value| <= Height(t)
  {
    match t
    case Leaf => None
    case Node(x, _, _, l, r) =>
      if key == x then Some([x])
      else
        var sub := if Less(key, x) then Descent(l, key) else Descent(r, key);
        if sub.Some? then Some([x] + sub.value) else None
  }

  /** The child a descent for `key` moves to from the root of `t`. */
  function NextChild(t: Tree, key: Key): Tree
    requires t.Node?
  {
    if Less(key, t.key) then t.left else t.right
  }

  /** A descent that moves past the root ends where the descent from the next child ends. */
  lemma DescentLastStep(t: Tree, key: Key)
    requires FindRecursive(t, key) && key != t.key
    ensures FindRecursive(NextChild(t, key), key)
    ensures Descent(t, key).value[|Descent(t, key).value| - 1] ==
            Descent(NextChild(t, key), key).value[|Descent(NextChild(t, key), key).value| - 1]
  {
    LastOfCons(t.key, Descent(NextChild(t, key), key).value);
  }

  /** A descent that finds the key at the root is the root alone. */
  lemma DescentAtRoot(t: Tree, key: Key)
    requires t.Node? && key == t.key
    ensures Descent(t, key) == Some([key])
    ensures Descent(t, key).value[|Descent(t, key).value| - 1] == key
  {
  }

  /** A successful descent starts at the root. */
  lemma DescentStarts(t: Tree, key: Key)
    requires FindRecursive(t, key)
    ensures Descent(t, key).value[0] == t.key
  {
  }

  /** A descent ends at the key it looks for. */
  lemma {:induction false} DescentEnds(t: Tree, key: Key)
    requires FindRecursive(t, key)
    ensures Descent(t, key).value[|Descent(t, key).value| - 1] == key
  {
    if key == t.key {
      DescentAtRoot(t, key);
    } else {
      DescentLastStep(t, key);
      DescentEnds(NextChild(t, key), key);
    }
  }

  /**
   * findPathRecursive: records each visited key in `path` at the cursor and
   * advances it; on a branch that fails, moves the cursor back.
   */
  method FindPathRecursive(t: Tree, key: Key, path: array<Key>, index: nat) returns (found: bool, next: nat)
    requires index + Height(t) <= path.Length
    modifies path
    ensures found <==> FindRecursive(t, key)
    ensures path[..index] == old(path[..index])
    ensures found ==> next == index + |Descent(t, key).value| && path[index..next] == Descent(t, key).value
    ensures !found ==> next == index
    decreases t
  {
    match t
    case Leaf =>
      return false, index;
    case Node(x, _, _, l, r) =>
      path[index] := x;
      ghost var visited := path[..index + 1];
      assert visited == old(path[..index]) + [x];
      if key == x {
        return true, index + 1;
      }
      var child := if Less(key, x) then l else r;
      assert Descent(t, key) == if Descent(child, key).Some? then Some([x] + Descent(child, key).value) else None;
      found, next := FindPathRecursive(child, key, path, index + 1);
      assert path[..index] == visited[..index];
      if found {
        assert path[index] == visited[index] == x;
        SliceCons(path[..], index, next);
        return;
      }
      next := index;
  }

  /** reverseToList: the first `length` recorded keys, last one first. */
  method ReverseToList(path: array<Key>, length: nat) returns (list: seq<Key>)
    requires length <= path.Length
    ensures list == Reverse(path[..length])
  {
    list := [];
    var i: int := length - 1;
    while i >= 0
      invariant -1 <= i < length
      invariant list == Reverse(path[i + 1..length])
    {
      assert path[i..length] == [path[i]] + path[i + 1..length];
      list := list + [path[i]];
      i := i - 1;
    }
  }

  /**
   * findPath on a tree: the keys from the node holding the lower-cased key up
   * to the root, or `None` for a null or absent key. The buffer holds at least
   * 100 keys, and more when the tree is taller.
   */
  method FindPathIn(t: Tree, key: Option<Key>) returns (p: Option<seq<Key>>)
    ensures p.None? <==> !IsValidKey(key) || !FindRecursive(t, LowerKey(key.value))
    ensures p.Some? ==> p.value == Reverse(Descent(t, LowerKey(key.value)).value)
    ensures p.Some? ==> |p.value| >= 1 && p.value[0] == LowerKey(key.value) &&
                        p.value[|p.value| - 1] == t.key
  {
    if !IsValidKey(key) {
      return None;
    }
    var k := LowerKey(key.value);
    var path := new Key[if Height(t) > 100 then Height(t) else 100];
    var found, length := FindPathRecursive(t, k, path, 0);
    p := None;
    if found {
      var list := ReverseToList(path, length);
      ghost var d := Descent(t, k).value;
      assert path[..length] == path[0..length] == d;
      DescentStarts(t, k);
      DescentEnds(t, k);
      ReverseEnds(d);
      p := Some(list);
    }
  }
}
