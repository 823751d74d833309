/**
 * The node record (TreapNode, and SearchTreeNode's extra `searchCount`) as an
 * inductive tree, with the views of a tree the contracts are stated in.
 */
module TreapNodes {
  import opened TreapKeys

  /**
   * A subtree: `Leaf` is a null child reference; a `Node` owns its two children.
   * `searchCount` is SearchTreeNode's access counter; the base treap never reads it.
   */
  datatype Tree = Leaf | Node(key: Key, heap: int, searchCount: int, left: Tree, right: Tree)

  /** What a node holds apart from its links. */
  datatype Entry = Entry(key: Key, heap: int, searchCount: int)

  function EntryOf(t: Tree): Entry
    requires t.Node?
  {
    Entry(t.key, t.heap, t.searchCount)
  }

  /**
   * The node constructor: the key is stored lower-cased, the heap value as
   * given, no children, and (for a search-tree node) a search count of 1.
   */
  function NewNode(key: Key, heapValue: int): (n: Tree)
    ensures n.Node? && n.left == Leaf && n.right == Leaf
    ensures n.key == LowerKey(key) && IsLowerCase(n.key)
    ensures n.heap == heapValue && n.searchCount == 1
  {
    LowerKeyIsLower(key);
    Node(LowerKey(key), heapValue, 1, Leaf, Leaf)
  }

  /** Two keys that differ only in letter case make nodes with the same stored key. */
  lemma NewNodeCaseInsensitive(a: Key, b: Key, heapValue: int)
    requires SameIgnoringCase(a, b)
    ensures NewNode(a, heapValue) == NewNode(b, heapValue)
  {
    LowerKeyCaseInsensitive(a, b);
  }

  /** Keys in in-order (left subtree, node, right subtree). */
  ghost function InOrder(t: Tree): seq<Key> {
    match t
    case Leaf => []
    case Node(x, _, _, l, r) => InOrder(l) + [x] + InOrder(r)
  }

  /** The keys present, with multiplicity. */
  ghost function Keys(t: Tree): multiset<Key> {
    multiset(InOrder(t))
  }

  /** Heap values in in-order. */
  ghost function HeapSeq(t: Tree): seq<int> {
    match t
    case Leaf => []
    case Node(_, h, _, l, r) => HeapSeq(l) + [h] + HeapSeq(r)
  }

  /** Node entries in in-order. */
  ghost function EntrySeq(t: Tree): seq<Entry> {
    match t
    case Leaf => []
    case Node(_, _, _, l, r) => EntrySeq(l) + [EntryOf(t)] + EntrySeq(r)
  }

  /** The heap values present, with multiplicity. */
  ghost function Heaps(t: Tree): multiset<int> {
    multiset(HeapSeq(t))
  }

  /** The nodes present, as the entries they hold. */
  ghost function Entries(t: Tree): multiset<Entry> {
    multiset(EntrySeq(t))
  }

  /** The keys of a node: its own and its subtrees'. */
  lemma KeysOfNode(t: Tree)
    requires t.Node?
    ensures Keys(t) == Keys(t.left) + multiset{t.key} + Keys(t.right)
  {
    assert InOrder(t) == InOrder(t.left) + [t.key] + InOrder(t.right);
  }

  /** The heap values of a node: its own and its subtrees'. */
  lemma HeapsOfNode(t: Tree)
    requires t.Node?
    ensures Heaps(t) == Heaps(t.left) + multiset{t.heap} + Heaps(t.right)
    ensures t.heap in Heaps(t)
  {
    assert HeapSeq(t) == HeapSeq(t.left) + [t.heap] + HeapSeq(t.right);
  }

  /** The entries of a node: its own and its subtrees'. */
  lemma EntriesOfNode(t: Tree)
    requires t.Node?
    ensures Entries(t) == Entries(t.left) + multiset{EntryOf(t)} + Entries(t.right)
  {
    assert EntrySeq(t) == EntrySeq(t.left) + [EntryOf(t)] + EntrySeq(t.right);
  }

  /** A tree holding no key is empty. */
  lemma NoKeysIsLeaf(t: Tree)
    requires Keys(t) == multiset{}
    ensures t == Leaf
  {
    if t.Node? {
      KeysOfNode(t);
    }
  }

  /** Number of nodes reachable from `t`. */
  function NodeCount(t: Tree): (n: nat)
    ensures n == |InOrder(t)| == |EntrySeq(t)| == |HeapSeq(t)|
  {
    match t
    case Leaf => 0
    case Node(_, _, _, l, r) => NodeCount(l) + 1 + NodeCount(r)
  }

  /** Number of nodes on the longest root-to-leaf path. */
  function Height(t: Tree): nat {
    match t
    case Leaf => 0
    case Node(_, _, _, l, r) => 1 + (if Height(l) < Height(r) then Height(r) else Height(l))
  }

  /** Max-heap order: every node's heap value is at least each child's. */
  ghost predicate HeapOrdered(t: Tree) {
    match t
    case Leaf => true
    case Node(_, h, _, l, r) =>
      (l.Node? ==> l.heap <= h) && (r.Node? ==> r.heap <= h) &&
      HeapOrdered(l) && HeapOrdered(r)
  }

  /** In a heap-ordered tree the root holds the largest heap value. */
  lemma {:induction false} HeapOrderedRootIsMax(t: Tree)
    requires HeapOrdered(t) && t.Node?
    ensures forall v :: v in Heaps(t) ==> v <= t.heap
  {
    if t.left.Node? {
      HeapOrderedRootIsMax(t.left);
    }
    if t.right.Node? {
      HeapOrderedRootIsMax(t.right);
    }
    HeapsOfNode(t);
  }

  /** A heap value present in a heap-ordered tree is at most the root's. */
  lemma HeapAtMostRoot(t: Tree, v: int)
    requires HeapOrdered(t) && v in Heaps(t)
    ensures t.Node? && v <= t.heap
  {
    if t.Node? {
      HeapOrderedRootIsMax(t);
    }
  }
}
