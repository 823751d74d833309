/**
 * The treap object: a root reference and a node counter, updated in place by
 * the public operations.
 */
module Treaps {
  import opened Wrappers
  import opened TreapKeys
  import opened OrderedSeqs
  import opened TreapNodes
  import opened TreapOps

  /** Whether `add(key, heapValue)` accepts the pair on tree `t`. */
  ghost predicate Accepts(t: Tree, key: Option<Key>, heapValue: int) {
    IsValidKey(key) && heapValue > 0 && heapValue !in Heaps(t)
  }

  /** The tree after `add(key, heapValue)` on `t`, whether or not it accepts. */
  ghost function AddStep(t: Tree, key: Option<Key>, heapValue: int): Tree {
    if Accepts(t, key, heapValue) then InsertNode(t, LowerKey(key.value), heapValue) else t
  }

  /** The tree `build` has made after the first `n` pairs. */
  ghost function Built(keys: seq<Option<Key>>, heapValues: seq<int>, n: nat): Tree
    requires n <= |keys| && n <= |heapValues|
  {
    if n == 0 then Leaf
    else AddStep(Built(keys, heapValues, n - 1), keys[n - 1], heapValues[n - 1])
  }

  /** How many of the first `n` pairs `build` has accepted. */
  ghost function AcceptedCount(keys: seq<Option<Key>>, heapValues: seq<int>, n: nat): nat
    requires n <= |keys| && n <= |heapValues|
  {
    if n == 0 then 0
    else
      AcceptedCount(keys, heapValues, n - 1) +
      (if Accepts(Built(keys, heapValues, n - 1), keys[n - 1], heapValues[n - 1]) then 1 else 0)
  }

  /** The tree built from the first `n` pairs has one node per accepted pair. */
  lemma {:induction false} BuiltCount(keys: seq<Option<Key>>, heapValues: seq<int>, n: nat)
    requires n <= |keys| && n <= |heapValues|
    ensures NodeCount(Built(keys, heapValues, n)) == AcceptedCount(keys, heapValues, n)
  {
    if n > 0 {
      BuiltCount(keys, heapValues, n - 1);
    }
  }

  /** The lower-cased keys of the non-null entries of `keys`, in order. */
  ghost function LowerKeys(keys: seq<Option<Key>>): seq<Key> {
    if keys == [] then []
    else
      var last := keys[|keys| - 1];
      LowerKeys(keys[..|keys| - 1]) + (if last.Some? then [LowerKey(last.value)] else [])
  }

  /**
   * With non-null keys and positive, pairwise distinct heap values, `build`
   * accepts every pair: the tree holds exactly the given heap values and the
   * lower-cased keys.
   */
  lemma {:induction false} BuildAcceptsAll(keys: seq<Option<Key>>, heapValues: seq<int>, n: nat)
    requires n <= |keys| == |heapValues|
    requires forall i :: 0 <= i < |keys| ==> keys[i].Some?
    requires forall i :: 0 <= i < |heapValues| ==> heapValues[i] > 0
    requires forall i, j :: 0 <= i < j < |heapValues| ==> heapValues[i] != heapValues[j]
    ensures AcceptedCount(keys, heapValues, n) == n
    ensures Heaps(Built(keys, heapValues, n)) == multiset(heapValues[..n])
    ensures Keys(Built(keys, heapValues, n)) == multiset(LowerKeys(keys[..n]))
  {
    if n > 0 {
      BuildAcceptsAll(keys, heapValues, n - 1);
      assert heapValues[n - 1] !in heapValues[..n - 1];
      BuildAcceptsStep(keys, heapValues, n);
    }
  }

  /** One step of `BuildAcceptsAll`: the `n`-th pair is accepted when its heap value is new. */
  lemma BuildAcceptsStep(keys: seq<Option<Key>>, heapValues: seq<int>, n: nat)
    requires 0 < n <= |keys| == |heapValues|
    requires forall i :: 0 <= i < |keys| ==> keys[i].Some?
    requires heapValues[n - 1] > 0 && heapValues[n - 1] !in heapValues[..n - 1]
    requires AcceptedCount(keys, heapValues, n - 1) == n - 1
    requires Heaps(Built(keys, heapValues, n - 1)) == multiset(heapValues[..n - 1])
    requires Keys(Built(keys, heapValues, n - 1)) == multiset(LowerKeys(keys[..n - 1]))
    ensures AcceptedCount(keys, heapValues, n) == n
    ensures Heaps(Built(keys, heapValues, n)) == multiset(heapValues[..n])
    ensures Keys(Built(keys, heapValues, n)) == multiset(LowerKeys(keys[..n]))
  {
    var t := Built(keys, heapValues, n - 1);
    var k := LowerKey(keys[n - 1].value);
    var h := heapValues[n - 1];
    BuiltAccepting(keys, heapValues, n);
    InsertNodeHeaps(t, k, h);
    InsertNodeKeys(t, k, h);
    LowerKeyIsLower(keys[n - 1].value);
    MultisetSnoc(heapValues, n);
    LowerKeysSnoc(keys, n);
  }

  /** When the `n`-th pair is accepted, `build` inserts its lower-cased key and heap value. */
  lemma BuiltAccepting(keys: seq<Option<Key>>, heapValues: seq<int>, n: nat)
    requires 0 < n <= |keys| && n <= |heapValues|
    requires Accepts(Built(keys, heapValues, n - 1), keys[n - 1], heapValues[n - 1])
    ensures Built(keys, heapValues, n) ==
            InsertNode(Built(keys, heapValues, n - 1), LowerKey(keys[n - 1].value), heapValues[n - 1])
    ensures AcceptedCount(keys, heapValues, n) == AcceptedCount(keys, heapValues, n - 1) + 1
  {
  }

  /** The lower-cased keys of a prefix grow by the key that extends it. */
  lemma LowerKeysSnoc(keys: seq<Option<Key>>, n: nat)
    requires 0 < n <= |keys| && keys[n - 1].Some?
    ensures multiset(LowerKeys(keys[..n])) == multiset(LowerKeys(keys[..n - 1])) + multiset{LowerKey(keys[n - 1].value)}
  {
    TakeSnoc(keys, n);
    assert LowerKeys(keys[..n]) == LowerKeys(keys[..n - 1]) + [LowerKey(keys[n - 1].value)];
  }

  /**
   * changeOrder on a treap holding `key`: the tree keeps its keys and node
   * count; the found node's heap value is replaced by the new one.
   */
  lemma ChangeOrderContents(t: Tree, key: Key, newHeapValue: int)
    requires IsTreap(t) && FindRecursive(t, key) && LowerKey(key) == key
    ensures IsTreap(InsertNode(DeleteNode(t, key), key, newHeapValue))
    ensures Keys(InsertNode(DeleteNode(t, key), key, newHeapValue)) == Keys(t)
    ensures NodeCount(InsertNode(DeleteNode(t, key), key, newHeapValue)) == NodeCount(t)
    ensures Heaps(InsertNode(DeleteNode(t, key), key, newHeapValue)) ==
            Heaps(t) - multiset{FindNode(t, key).heap} + multiset{newHeapValue}
  {
    var d := DeleteNode(t, key);
    FindRecursiveSound(t, key);
    DeleteNodeContents(t, key);
    DeleteNodeKeepsTreap(t, key);
    InsertNodeKeepsTreap(d, key, newHeapValue);
    RemoveAddBack(Keys(t), key);
  }

  class Treap {
    /** The root of the tree; `Leaf` when the treap is empty. */
    var root: Tree
    /** The number of nodes, kept by the operations that add or remove one. */
    var count: int

    /**
     * The treap invariant: the counter matches the tree, keys are in search
     * order (equal keys allowed), and heap values are in max-heap order.
     */
    ghost predicate Valid()
      reads this
    {
      count == NodeCount(root) && IsTreap(root)
    }

    /** An empty treap. */
    constructor ()
      ensures Valid() && root == Leaf && count == 0
    {
      root := Leaf;
      count := 0;
    }

    /** size: the number of nodes in the treap. */
    function Size(): (n: int)
      reads this
      requires Valid()
      ensures n == NodeCount(root) == |InOrder(root)|
    {
      count
    }

    /** find: whether the lower-cased key is present; a null key is not. */
    function Find(key: Option<Key>): (found: bool)
      reads this
      requires Valid()
      ensures found <==> IsValidKey(key) && LowerKey(key.value) in Keys(root)
    {
      if IsValidKey(key) then
        FindRecursiveComplete(root, LowerKey(key.value));
        FindRecursive(root, LowerKey(key.value))
      else false
    }

    /**
     * add: inserts the lower-cased key with the given heap value, unless the key
     * is null, the heap value is not positive, or some node already has it. A
     * key that is already present is no reason to refuse. What the new tree
     * holds is `InsertNodeKeepsTreap`.
     */
    method Add(key: Option<Key>, heapValue: int) returns (added: bool)
      requires Valid()
      modifies this
      ensures Valid()
      ensures added <==> IsValidKey(key) && heapValue > 0 && heapValue !in old(Heaps(root))
      ensures root == AddStep(old(root), key, heapValue)
      ensures count == if added then old(count) + 1 else old(count)
    {
      added := IsValidKey(key) && heapValue > 0 && !FindDuplicateHeapValue(root, heapValue);
      if added {
        var k := LowerKey(key.value);
        LowerKeyIsLower(key.value);
        InsertNodeIsTreap(root, k, heapValue);
        root := InsertNode(root, k, heapValue);
        count := count + 1;
      }
    }

    /**
     * build: with both arrays present and of equal length, empties the treap
     * and adds the pairs in index order, ignoring refusals; otherwise changes
     * nothing.
     */
    method Build(keys: Option<seq<Option<Key>>>, heapValues: Option<seq<int>>) returns (ok: bool)
      requires Valid()
      modifies this
      ensures Valid()
      ensures ok <==> keys.Some? && heapValues.Some? && |keys.value| == |heapValues.value|
      ensures !ok ==> root == old(root) && count == old(count)
      ensures ok ==> root == Built(keys.value, heapValues.value, |keys.value|)
      ensures ok ==> count == AcceptedCount(keys.value, heapValues.value, |keys.value|)
    {
      if keys.None? || heapValues.None? || |keys.value| != |heapValues.value| {
        return false;
      }
      var ks, hs := keys.value, heapValues.value;
      root := Leaf;
      count := 0;
      for i := 0 to |ks|
        invariant Valid()
        invariant root == Built(ks, hs, i)
      {
        var _ := Add(ks[i], hs[i]);
      }
      BuiltCount(ks, hs, |ks|);
      return true;
    }

    /**
     * remove: deletes the node the descent for the lower-cased key finds, and
     * refuses a null or absent key. What the new tree holds is
     * `DeleteNodeContents`.
     */
    method Remove(key: Option<Key>) returns (removed: bool)
      requires Valid()
      modifies this
      ensures Valid()
      ensures removed <==> IsValidKey(key) && LowerKey(key.value) in old(Keys(root))
      ensures removed ==> FindRecursive(old(root), LowerKey(key.value))
      ensures root == if removed then DeleteNode(old(root), LowerKey(key.value)) else old(root)
      ensures count == if removed then old(count) - 1 else old(count)
    {
      removed := IsValidKey(key) && Find(key);
      if removed {
        var k := LowerKey(key.value);
        DeleteNodeCount(root, k);
        DeleteNodeKeepsTreap(root, k);
        root := DeleteNode(root, k);
        count := count - 1;
      }
    }

    /**
     * changeOrder: removes the node holding the lower-cased key and inserts the
     * key again with the new heap value, without checking that heap value for
     * duplicates; refuses a null key, a non-positive value or an absent key.
     * What the new tree holds is `ChangeOrderContents`.
     */
    method ChangeOrder(key: Option<Key>, newHeapValue: int) returns (changed: bool)
      requires Valid()
      modifies this
      ensures Valid()
      ensures changed <==> IsValidKey(key) && newHeapValue > 0 && LowerKey(key.value) in old(Keys(root))
      ensures changed ==> FindRecursive(old(root), LowerKey(key.value))
      ensures root == if changed then InsertNode(DeleteNode(old(root), LowerKey(key.value)), LowerKey(key.value), newHeapValue)
                      else old(root)
      ensures count == old(count)
    {
      changed := IsValidKey(key) && newHeapValue > 0 && Find(key);
      if changed {
        var k := LowerKey(key.value);
        var _ := Remove(key);
        LowerKeyIsLower(key.value);
        InsertNodeIsTreap(root, k, newHeapValue);
        root := InsertNode(root, k, newHeapValue);
        count := count + 1;
      }
    }

    /**
     * findPath: the keys from the node holding the lower-cased key up to the
     * root, or `None` when `find` would answer false.
     */
    method FindPath(key: Option<Key>) returns (path: Option<seq<Key>>)
      requires Valid()
      ensures path.None? <==> !Find(key)
      ensures path.Some? ==> path.value == Reverse(Descent(root, LowerKey(key.value)).value)
      ensures path.Some? ==> |path.value| >= 1 && path.value[0] == LowerKey(key.value) &&
                             path.value[|path.value| - 1] == root.key
    {
      if IsValidKey(key) {
        FindRecursiveComplete(root, LowerKey(key.value));
      }
      path := FindPathIn(root, key);
    }
  }
}
