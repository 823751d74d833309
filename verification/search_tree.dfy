/**
 * The frequency-adaptive tree: a treap whose nodes also count successful
 * lookups, and whose `find` moves a node that has become more popular than its
 * parent one level up, all along the search path.
 */
module SearchTrees {
  import opened Wrappers
  import opened TreapKeys
  import opened OrderedSeqs
  import opened TreapNodes
  import opened TreapOps

  // ------------------------------------------------------------ the counter

  /** An entry with one more recorded access. */
  function Bumped(e: Entry): Entry {
    e.(searchCount := e.searchCount + 1)
  }

  /**
   * `searchNode.searchCount++` on the node `findNode` returns: the tree with
   * that one counter raised; keys, heap values and links stay as they are.
   */
  function Bump(t: Tree, key: Key): (r: Tree)
    ensures InOrder(r) == InOrder(t) && HeapSeq(r) == HeapSeq(t)
  {
    match t
    case Leaf => Leaf
    case Node(x, h, c, l, rt) =>
      if key == x then Node(x, h, c + 1, l, rt)
      else if Less(key, x) then Node(x, h, c, Bump(l, key), rt)
      else Node(x, h, c, l, Bump(rt, key))
  }

  /**
   * The counter increment changes exactly one entry: the one the descent
   * finds, whose search count goes up by one.
   */
  lemma {:induction false} BumpEntries(t: Tree, key: Key)
    requires FindRecursive(t, key)
    ensures FoundIndex(t, key) < |EntrySeq(t)|
    ensures EntrySeq(Bump(t, key)) == EntrySeq(t)[FoundIndex(t, key) := Bumped(EntryOf(FindNode(t, key)))]
  {
    match t
    case Node(x, h, c, l, rt) =>
      if key == x {
        UpdateAtMiddle(EntrySeq(l), EntryOf(t), EntrySeq(rt), Bumped(EntryOf(t)));
      } else if Less(key, x) {
        BumpEntries(l, key);
        UpdateInFront(EntrySeq(l), EntryOf(t), EntrySeq(rt), FoundIndex(l, key), Bumped(EntryOf(FindNode(l, key))));
      } else {
        BumpEntries(rt, key);
        UpdateInBack(EntrySeq(l), EntryOf(t), EntrySeq(rt), FoundIndex(rt, key), Bumped(EntryOf(FindNode(rt, key))));
      }
  }

  /** The counter increment leaves every search path as it was. */
  lemma {:induction false} BumpKeepsDescent(t: Tree, key: Key, other: Key)
    ensures Descent(Bump(t, key), other) == Descent(t, other)
  {
    match t
    case Leaf =>
    case Node(x, h, c, l, rt) =>
      if key != x {
        if Less(key, x) {
          BumpKeepsDescent(l, key, other);
        } else {
          BumpKeepsDescent(rt, key, other);
        }
      }
  }

  // ------------------------------------------------------------ promotion

  /**
   * updateTreeBasedOnFrequency: stops at the node holding `key` (or at an
   * empty subtree); otherwise processes the child on the search path.
   */
  function Promote(t: Tree, key: Key): (r: Tree)
    ensures InOrder(r) == InOrder(t) && EntrySeq(r) == EntrySeq(t)
    decreases t, 1
  {
    match t
    case Leaf => Leaf
    case Node(x, _, _, _, _) =>
      if key == x then t
      else PromoteChild(t, key, Less(key, x))
  }

  /**
   * updateChildNodeFrequency: updates the child on the search path, then
   * rotates it above `t` when its search count is strictly greater.
   */
  function PromoteChild(t: Tree, key: Key, isLeft: bool): (r: Tree)
    requires t.Node?
    ensures InOrder(r) == InOrder(t) && EntrySeq(r) == EntrySeq(t)
    decreases t, 0
  {
    if isLeft then
      var n := Node(t.key, t.heap, t.searchCount, Promote(t.left, key), t.right);
      if n.left.Node? && n.left.searchCount > n.searchCount then RotateRight(n) else n
    else
      var n := Node(t.key, t.heap, t.searchCount, t.left, Promote(t.right, key));
      if n.right.Node? && n.right.searchCount > n.searchCount then RotateLeft(n) else n
  }

  /**
   * One level of promotion at a node that does not hold the key: after the
   * child on the search path has been processed, it is rotated above the
   * node exactly when its search count is strictly greater, and the node
   * otherwise stays on top.
   */
  lemma PromoteStep(t: Tree, key: Key)
    requires t.Node? && key != t.key
    ensures var c := Promote(if Less(key, t.key) then t.left else t.right, key);
            Promote(t, key).Node? &&
            EntryOf(Promote(t, key)) == if c.Node? && c.searchCount > t.searchCount then EntryOf(c) else EntryOf(t)
  {
    assert Promote(t, key) == PromoteChild(t, key, Less(key, t.key));
  }

  /** The largest search count on the search path to `key`. */
  ghost function PathMaxCount(t: Tree, key: Key): int
    requires FindRecursive(t, key)
  {
    if key == t.key then t.searchCount
    else
      var below := PathMaxCount(if Less(key, t.key) then t.left else t.right, key);
      if below > t.searchCount then below else t.searchCount
  }

  /**
   * After promotion the subtree root carries the largest search count met on
   * the search path: the most searched node of the path has risen to the top
   * unless it was there already.
   */
  lemma {:induction false} PromoteRootCount(t: Tree, key: Key)
    requires FindRecursive(t, key)
    ensures Promote(t, key).Node? && Promote(t, key).searchCount == PathMaxCount(t, key)
  {
    if key != t.key {
      if Less(key, t.key) {
        PromoteRootCount(t.left, key);
      } else {
        PromoteRootCount(t.right, key);
      }
      PromoteStep(t, key);
    }
  }

  /**
   * Promotion keeps the key reachable by the descent, and the search path to
   * it never grows: each rotation lifts the subtree that holds it.
   */
  lemma {:induction false} PromoteKeepsPath(t: Tree, key: Key)
    requires FindRecursive(t, key)
    ensures FindRecursive(Promote(t, key), key)
    ensures |Descent(Promote(t, key), key).value| <= |Descent(t, key).value|
  {
    if key != t.key {
      if Less(key, t.key) {
        PromoteKeepsPath(t.left, key);
        PromoteLeftPath(t, key);
      } else {
        PromoteKeepsPath(t.right, key);
        PromoteRightPath(t, key);
      }
    }
  }

  /** One level of `PromoteKeepsPath`, the search path going left. */
  lemma PromoteLeftPath(t: Tree, key: Key)
    requires t.Node? && key != t.key && Less(key, t.key) && FindRecursive(t.left, key)
    requires FindRecursive(Promote(t.left, key), key)
    requires |Descent(Promote(t.left, key), key).value| <= |Descent(t.left, key).value|
    ensures FindRecursive(Promote(t, key), key)
    ensures |Descent(Promote(t, key), key).value| <= |Descent(t, key).value|
  {
    var c := Promote(t.left, key);
    var n := Node(t.key, t.heap, t.searchCount, c, t.right);
    assert Promote(t, key) == PromoteChild(t, key, true);
    assert |Descent(t, key).value| == 1 + |Descent(t.left, key).value|;
    if c.searchCount > t.searchCount {
      var r := RotateRight(n);
      assert Promote(t, key) == r;
      if key != c.key && !Less(key, c.key) {
        assert Descent(r.right, key).value == [t.key] + Descent(c.right, key).value;
      }
    } else {
      assert Descent(n, key).value == [t.key] + Descent(c, key).value;
    }
  }

  /** One level of `PromoteKeepsPath`, the search path going right. */
  lemma PromoteRightPath(t: Tree, key: Key)
    requires t.Node? && key != t.key && !Less(key, t.key) && FindRecursive(t.right, key)
    requires FindRecursive(Promote(t.right, key), key)
    requires |Descent(Promote(t.right, key), key).value| <= |Descent(t.right, key).value|
    ensures FindRecursive(Promote(t, key), key)
    ensures |Descent(Promote(t, key), key).value| <= |Descent(t, key).value|
  {
    var c := Promote(t.right, key);
    var n := Node(t.key, t.heap, t.searchCount, t.left, c);
    assert Promote(t, key) == PromoteChild(t, key, false);
    assert |Descent(t, key).value| == 1 + |Descent(t.right, key).value|;
    if c.searchCount > t.searchCount {
      var r := RotateLeft(n);
      assert Promote(t, key) == r;
      if key != c.key && Less(key, c.key) {
        assert Descent(r.left, key).value == [t.key] + Descent(c.left, key).value;
      }
    } else {
      assert Descent(n, key).value == [t.key] + Descent(c, key).value;
    }
  }

  // ------------------------------------------------------------ a lookup

  /** The tree after `find(key)` for a stored (lower-cased) key. */
  ghost function Accessed(t: Tree, key: Key): Tree {
    if FindRecursive(t, key) then Promote(Bump(t, key), key) else t
  }

  /**
   * A successful lookup: the in-order keys and the heap values stay as they
   * were, exactly one entry changes (the found node's, whose search count
   * goes up by one), the key stays reachable by a path no longer than before,
   * and the new root carries the largest search count on the old path.
   */
  lemma AccessedContents(t: Tree, key: Key)
    requires FindRecursive(t, key)
    ensures InOrder(Accessed(t, key)) == InOrder(t)
    ensures HeapSeq(Accessed(t, key)) == HeapSeq(t)
    ensures FoundIndex(t, key) < |EntrySeq(t)|
    ensures EntrySeq(Accessed(t, key)) == EntrySeq(t)[FoundIndex(t, key) := Bumped(EntryOf(FindNode(t, key)))]
    ensures FindRecursive(Accessed(t, key), key)
    ensures |Descent(Accessed(t, key), key).value| <= |Descent(t, key).value|
    ensures FindRecursive(Bump(t, key), key)
    ensures Accessed(t, key).searchCount == PathMaxCount(Bump(t, key), key)
  {
    BumpEntries(t, key);
    BumpKeepsDescent(t, key, key);
    PromoteKeepsPath(Bump(t, key), key);
    PromoteRootCount(Bump(t, key), key);
    PromoteKeepsHeaps(Bump(t, key), key);
  }

  /** A lookup keeps the in-order key sequence. */
  lemma AccessedKeepsOrder(t: Tree, key: Key)
    ensures InOrder(Accessed(t, key)) == InOrder(t)
  {
  }

  /** Promotion only moves entries, so the heap values read in in-order stay as they were. */
  lemma PromoteKeepsHeaps(t: Tree, key: Key)
    ensures HeapSeq(Promote(t, key)) == HeapSeq(t)
  {
    EntrySeqHeaps(t);
    EntrySeqHeaps(Promote(t, key));
  }

  /** The heap values of a tree are those of its entries. */
  lemma {:induction false} EntrySeqHeaps(t: Tree)
    ensures |HeapSeq(t)| == |EntrySeq(t)|
    ensures forall i :: 0 <= i < |EntrySeq(t)| ==> HeapSeq(t)[i] == EntrySeq(t)[i].heap
  {
    match t
    case Leaf =>
    case Node(_, _, _, l, r) =>
      EntrySeqHeaps(l);
      EntrySeqHeaps(r);
  }

  // ------------------------------------------------------------ the path invariant

  /** Along the search path to `key`, no child has a larger search count than its parent. */
  ghost predicate PathDominated(t: Tree, key: Key) {
    match t
    case Leaf => true
    case Node(x, _, c, l, r) =>
      key == x ||
      var child := if Less(key, x) then l else r;
      (child.Node? ==> child.searchCount <= c) && PathDominated(child, key)
  }

  /**
   * Promotion does not make the search path dominated: here `c` was looked up
   * five times more than its parent `m`, and after a lookup of `f` the path
   * runs `c`, `m`, `f` with `f` counted 5 and `m` counted 1.
   */
  lemma PromotionCanLeavePathUndominated()
    ensures var t := Node("m", 90, 1, Node("c", 50, 5, Leaf, Node("f", 30, 4, Leaf, Leaf)), Leaf);
            StrictlySorted(InOrder(t)) && FindRecursive(t, "f") &&
            !PathDominated(Accessed(t, "f"), "f")
  {
    var f := Node("f", 30, 4, Leaf, Leaf);
    var t := Node("m", 90, 1, Node("c", 50, 5, Leaf, f), Leaf);
    assert Less("c", "f") && Less("f", "m") && Less("c", "m");
    assert InOrder(t) == ["c", "f", "m"];
    var b := Node("m", 90, 1, Node("c", 50, 5, Leaf, Node("f", 30, 5, Leaf, Leaf)), Leaf);
    assert Bump(t, "f") == b;
    assert Promote(b.left, "f") == b.left;
    assert Accessed(t, "f") == Node("c", 50, 5, Leaf, Node("m", 90, 1, Node("f", 30, 5, Leaf, Leaf), Leaf));
  }

  // ------------------------------------------------------------ the stateful tree

  /** Insertion of an absent key keeps the keys strictly increasing and adds that key. */
  lemma InsertNodeKeepsStrict(t: Tree, key: Key, heapValue: int)
    requires StrictlySorted(InOrder(t)) && LowerKey(key) == key && key !in Keys(t)
    ensures StrictlySorted(InOrder(InsertNode(t, key, heapValue)))
    ensures Keys(InsertNode(t, key, heapValue)) == Keys(t) + multiset{key}
  {
    StrictlySortedIsSorted(InOrder(t));
    InsertNodeInOrder(t, key, heapValue);
    InsertSortedStrictlySorted(InOrder(t), key);
    InsertNodeKeys(t, key, heapValue);
  }

  /**
   * Deletion of a present key from a tree with distinct keys: the descent
   * finds it, one node goes, the keys stay strictly increasing, and the key is
   * no longer present.
   */
  lemma DeleteNodeKeepsStrict(t: Tree, key: Key)
    requires StrictlySorted(InOrder(t)) && key in Keys(t)
    ensures FindRecursive(t, key)
    ensures StrictlySorted(InOrder(DeleteNode(t, key)))
    ensures NodeCount(DeleteNode(t, key)) == NodeCount(t) - 1
    ensures Keys(DeleteNode(t, key)) == Keys(t) - multiset{key}
    ensures key !in Keys(DeleteNode(t, key))
  {
    StrictlySortedIsSorted(InOrder(t));
    FindRecursiveComplete(t, key);
    DeleteNodeRemovesFound(t, key);
    FoundIndexHolds(t, key);
    var i := FoundIndex(t, key);
    RemoveAtStrictlySorted(InOrder(t), i);
    StrictlySortedRemoveAt(InOrder(t), i);
    RemoveAtMultiset(InOrder(t), i);
  }

  // ------------------------------------------------------------ runs of adds and removes

  /**
   * The tree `add(key)` leaves for a non-null key: a present key is looked up
   * (an access), an absent one is inserted with the drawn heap value.
   */
  ghost function AfterAdd(t: Tree, key: Key, heapValue: int): Tree {
    var k := LowerKey(key);
    if k in Keys(t) then Accessed(t, k) else InsertNode(t, k, heapValue)
  }

  /**
   * The tree `remove(key)` leaves for a non-null key: a present key is looked
   * up twice (once here, once by the inherited remove) and then deleted.
   */
  ghost function AfterRemove(t: Tree, key: Key): Tree {
    var k := LowerKey(key);
    if k in Keys(t) then DeleteNode(Accessed(Accessed(t, k), k), k) else t
  }

  /** `add` of each key in turn, the i-th with the i-th heap value. */
  ghost function AddedAll(t: Tree, keys: seq<Key>, heapValues: seq<int>): Tree
    requires |heapValues| == |keys|
    decreases |keys|
  {
    if keys == [] then t else AddedAll(AfterAdd(t, keys[0], heapValues[0]), keys[1..], heapValues[1..])
  }

  /** `remove` of each key in turn. */
  ghost function RemovedAll(t: Tree, keys: seq<Key>): Tree
    decreases |keys|
  {
    if keys == [] then t else RemovedAll(AfterRemove(t, keys[0]), keys[1..])
  }

  /** The keys as stored. */
  function LowerAll(keys: seq<Key>): seq<Key> {
    seq(|keys|, i requires 0 <= i < |keys| => LowerKey(keys[i]))
  }

  /** The stored keys, first one split off. */
  lemma LowerAllCons(keys: seq<Key>)
    requires keys != []
    ensures LowerAll(keys) == [LowerKey(keys[0])] + LowerAll(keys[1..])
  {
    assert LowerAll(keys)[1..] == LowerAll(keys[1..]);
  }

  /** No two of the keys are the same once lower-cased. */
  ghost predicate DistinctLower(keys: seq<Key>) {
    forall i, j :: 0 <= i < j < |keys| ==> LowerKey(keys[i]) != LowerKey(keys[j])
  }

  /**
   * Adding keys that are distinct and absent inserts every one of them: the
   * tree gains exactly those keys, one node each, and keeps them strictly
   * increasing.
   */
  lemma {:induction false} AddDistinctKeys(t: Tree, keys: seq<Key>, heapValues: seq<int>)
    requires StrictlySorted(InOrder(t)) && |heapValues| == |keys| && DistinctLower(keys)
    requires forall i :: 0 <= i < |keys| ==> LowerKey(keys[i]) !in Keys(t)
    ensures StrictlySorted(InOrder(AddedAll(t, keys, heapValues)))
    ensures Keys(AddedAll(t, keys, heapValues)) == Keys(t) + multiset(LowerAll(keys))
    ensures NodeCount(AddedAll(t, keys, heapValues)) == NodeCount(t) + |keys|
    decreases |keys|
  {
    if keys != [] {
      var k := LowerKey(keys[0]);
      AddAbsentKey(t, keys[0], heapValues[0]);
      var t' := AfterAdd(t, keys[0], heapValues[0]);
      DistinctRest(keys, Keys(t));
      AddDistinctKeys(t', keys[1..], heapValues[1..]);
      LowerAllCons(keys);
      MultisetRegroup(Keys(t), k, LowerAll(keys[1..]));
    }
  }

  /**
   * After the first of distinct keys absent from `m` is added to `m`, the
   * remaining keys are still distinct and absent.
   */
  lemma DistinctRest(keys: seq<Key>, m: multiset<Key>)
    requires keys != [] && DistinctLower(keys)
    requires forall i :: 0 <= i < |keys| ==> LowerKey(keys[i]) !in m
    ensures DistinctLower(keys[1..])
    ensures forall i :: 0 <= i < |keys[1..]| ==> LowerKey(keys[1..][i]) !in m + multiset{LowerKey(keys[0])}
  {
    DistinctTail(keys);
    forall i | 0 <= i < |keys[1..]|
      ensures LowerKey(keys[1..][i]) !in m + multiset{LowerKey(keys[0])}
    {
      assert keys[1..][i] == keys[i + 1];
    }
  }

  /** Taking the first element's occurrence out of a sequence's multiset leaves the rest. */
  lemma MultisetRemoveHead<T>(x: T, s: seq<T>)
    ensures x in multiset([x] + s)
    ensures multiset([x] + s) - multiset{x} == multiset(s)
  {
  }

  /** The keys after the first of distinct keys are distinct. */
  lemma DistinctTail(keys: seq<Key>)
    requires keys != [] && DistinctLower(keys)
    ensures DistinctLower(keys[1..])
  {
    forall i, j | 0 <= i < j < |keys[1..]|
      ensures LowerKey(keys[1..][i]) != LowerKey(keys[1..][j])
    {
      assert keys[1..][i] == keys[i + 1] && keys[1..][j] == keys[j + 1];
    }
  }

  /** The multiset of a sequence, regrouped around its first element. */
  lemma MultisetRegroup<T>(m: multiset<T>, x: T, s: seq<T>)
    ensures m + multiset([x] + s) == (m + multiset{x}) + multiset(s)
  {
  }

  /** One add of an absent key: an insertion. */
  lemma AddAbsentKey(t: Tree, key: Key, heapValue: int)
    requires StrictlySorted(InOrder(t)) && LowerKey(key) !in Keys(t)
    ensures StrictlySorted(InOrder(AfterAdd(t, key, heapValue)))
    ensures Keys(AfterAdd(t, key, heapValue)) == Keys(t) + multiset{LowerKey(key)}
    ensures NodeCount(AfterAdd(t, key, heapValue)) == NodeCount(t) + 1
  {
    LowerKeyIsLower(key);
    InsertNodeKeepsStrict(t, LowerKey(key), heapValue);
  }

  /** Removing each key of a tree that holds exactly those keys leaves it empty. */
  lemma {:induction false} RemoveAllKeys(t: Tree, keys: seq<Key>)
    requires StrictlySorted(InOrder(t)) && DistinctLower(keys)
    requires Keys(t) == multiset(LowerAll(keys))
    ensures RemovedAll(t, keys) == Leaf
    decreases |keys|
  {
    if keys == [] {
      NoKeysIsLeaf(t);
    } else {
      var k := LowerKey(keys[0]);
      LowerAllCons(keys);
      MultisetRemoveHead(k, LowerAll(keys[1..]));
      RemovePresentKey(t, keys[0]);
      DistinctTail(keys);
      RemoveAllKeys(AfterRemove(t, keys[0]), keys[1..]);
    }
  }

  /** One remove of a present key: the key goes and the rest stay strictly increasing. */
  lemma RemovePresentKey(t: Tree, key: Key)
    requires StrictlySorted(InOrder(t)) && LowerKey(key) in Keys(t)
    ensures StrictlySorted(InOrder(AfterRemove(t, key)))
    ensures Keys(AfterRemove(t, key)) == Keys(t) - multiset{LowerKey(key)}
  {
    var k := LowerKey(key);
    var a := Accessed(Accessed(t, k), k);
    AccessedKeepsOrder(t, k);
    AccessedKeepsOrder(Accessed(t, k), k);
    DeleteNodeKeepsStrict(a, k);
  }

  /**
   * Adding n keys that are distinct ignoring case to an empty tree gives n
   * nodes, every key can be found, and removing them all empties the tree.
   */
  lemma AddThenRemoveAll(keys: seq<Key>, heapValues: seq<int>)
    requires |heapValues| == |keys| && DistinctLower(keys)
    ensures NodeCount(AddedAll(Leaf, keys, heapValues)) == |keys|
    ensures forall i :: 0 <= i < |keys| ==> LowerKey(keys[i]) in Keys(AddedAll(Leaf, keys, heapValues))
    ensures RemovedAll(AddedAll(Leaf, keys, heapValues), keys) == Leaf
  {
    AddDistinctKeys(Leaf, keys, heapValues);
    var t := AddedAll(Leaf, keys, heapValues);
    forall i | 0 <= i < |keys|
      ensures LowerKey(keys[i]) in Keys(t)
    {
      assert LowerAll(keys)[i] == LowerKey(keys[i]);
    }
    RemoveAllKeys(t, keys);
  }

  /**
   * SearchTree extends Treap in the library. The constructor, `Size`,
   * `TreapRemove` and `FindPath` below repeat the members it inherits from
   * `Treap`, stated over this class's own fields.
   */
  class SearchTree {
    /** The root of the tree; `Leaf` when the tree is empty. */
    var root: Tree
    /** The number of nodes, kept by the operations that add or remove one. */
    var count: int

    /**
     * The invariant: the counter matches the tree and the keys are strictly
     * increasing in in-order, since `add` refuses a key that is present. Heap
     * order is not part of it: promotion rotates without looking at heap values.
     */
    ghost predicate Valid()
      reads this
    {
      count == NodeCount(root) && StrictlySorted(InOrder(root))
    }

    /** An empty tree. */
    constructor ()
      ensures Valid() && root == Leaf && count == 0
    {
      root := Leaf;
      count := 0;
    }

    /** size: the number of nodes in the tree. */
    function Size(): (n: int)
      reads this
      requires Valid()
      ensures n == NodeCount(root) == |InOrder(root)|
    {
      count
    }

    /**
     * find: whether the lower-cased key is present; when it is, the found
     * node's search count goes up by one and the promotion pass runs. What the
     * new tree holds is `AccessedContents`.
     */
    method Find(key: Option<Key>) returns (found: bool)
      requires Valid()
      modifies this
      ensures Valid()
      ensures found <==> IsValidKey(key) && LowerKey(key.value) in old(Keys(root))
      ensures InOrder(root) == old(InOrder(root)) && count == old(count)
      ensures root == if found then Accessed(old(root), LowerKey(key.value)) else old(root)
    {
      found := false;
      if IsValidKey(key) {
        var k := LowerKey(key.value);
        StrictlySortedIsSorted(InOrder(root));
        FindRecursiveComplete(root, k);
        found := FindRecursive(root, k);
        if found {
          var searchNode := FindNode(root, k);
          if searchNode.Node? {
            AccessedKeepsOrder(root, k);
            root := Promote(Bump(root, k), k);
          }
        }
      }
    }

    /**
     * add(key): refuses a null key, and a key that is present (the lookup that
     * finds it still counts as an access); otherwise inserts the lower-cased
     * key with the drawn heap value, which need be neither positive nor new.
     */
    method Add(key: Option<Key>, heapValue: int) returns (added: bool)
      requires Valid() && 0 <= heapValue < 100
      modifies this
      ensures Valid()
      ensures added <==> IsValidKey(key) && LowerKey(key.value) !in old(Keys(root))
      ensures added ==> root == InsertNode(old(root), LowerKey(key.value), heapValue) &&
                        Keys(root) == old(Keys(root)) + multiset{LowerKey(key.value)}
      ensures !added && IsValidKey(key) ==> root == Accessed(old(root), LowerKey(key.value))
      ensures !IsValidKey(key) ==> root == old(root)
      ensures IsValidKey(key) ==> root == AfterAdd(old(root), key.value, heapValue)
      ensures count == if added then old(count) + 1 else old(count)
    {
      added := false;
      if IsValidKey(key) {
        var found := Find(key);
        if !found {
          var k := LowerKey(key.value);
          LowerKeyIsLower(key.value);
          InsertNodeKeepsStrict(root, k, heapValue);
          root := InsertNode(root, k, heapValue);
          count := count + 1;
          added := true;
        }
      }
    }

    /**
     * remove: refuses a null or absent key. Otherwise it looks the key up (an
     * access) and hands over to the inherited remove, which looks it up again.
     */
    method Remove(key: Option<Key>) returns (removed: bool)
      requires Valid()
      modifies this
      ensures Valid()
      ensures removed <==> IsValidKey(key) && LowerKey(key.value) in old(Keys(root))
      ensures removed ==> root == DeleteNode(Accessed(Accessed(old(root), LowerKey(key.value)), LowerKey(key.value)),
                                             LowerKey(key.value))
      ensures removed ==> Keys(root) == old(Keys(root)) - multiset{LowerKey(key.value)} &&
                          LowerKey(key.value) !in Keys(root)
      ensures !removed ==> root == old(root)
      ensures IsValidKey(key) ==> root == AfterRemove(old(root), key.value)
      ensures count == if removed then old(count) - 1 else old(count)
    {
      removed := false;
      if IsValidKey(key) {
        var found := Find(key);
        if found {
          removed := TreapRemove(key);
        }
      }
    }

    /**
     * The inherited remove as this class runs it: its lookup is the
     * overriding find, which counts an access and promotes, before the node
     * is deleted.
     */
    method TreapRemove(key: Option<Key>) returns (removed: bool)
      requires Valid()
      modifies this
      ensures Valid()
      ensures removed <==> IsValidKey(key) && LowerKey(key.value) in old(Keys(root))
      ensures removed ==> root == DeleteNode(Accessed(old(root), LowerKey(key.value)), LowerKey(key.value))
      ensures removed ==> Keys(root) == old(Keys(root)) - multiset{LowerKey(key.value)} &&
                          LowerKey(key.value) !in Keys(root)
      ensures !removed ==> root == old(root)
      ensures count == if removed then old(count) - 1 else old(count)
    {
      removed := false;
      if IsValidKey(key) {
        ghost var before := root;
        var found := Find(key);
        if found {
          var k := LowerKey(key.value);
          assert Keys(root) == Keys(before);
          DeleteNodeKeepsStrict(root, k);
          root := DeleteNode(root, k);
          count := count - 1;
          removed := true;
        }
      }
    }

    /**
     * findPath (inherited, it does not count an access): the keys from the
     * node holding the lower-cased key up to the root, or `None` when the key
     * is null or absent.
     */
    method FindPath(key: Option<Key>) returns (path: Option<seq<Key>>)
      requires Valid()
      ensures path.None? <==> !IsValidKey(key) || LowerKey(key.value) !in Keys(root)
      ensures path.Some? ==> FindRecursive(root, LowerKey(key.value))
      ensures path.Some? ==> path.value == Reverse(Descent(root, LowerKey(key.value)).value)
      ensures path.Some? ==> |path.value| >= 1 && path.value[0] == LowerKey(key.value) &&
                             path.value[|path.value| - 1] == root.key
    {
      if IsValidKey(key) {
        StrictlySortedIsSorted(InOrder(root));
        FindRecursiveComplete(root, LowerKey(key.value));
      }
      path := FindPathIn(root, key);
    }
  }
}
