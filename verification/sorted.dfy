/**
 * Sequences of keys: the in-order reading of a tree is one of these, and
 * "the tree is a search tree" is "its in-order sequence is sorted".
 */
module OrderedSeqs {
  import opened TreapKeys

  /** Non-decreasing under `compareTo` (equal keys may repeat). */
  ghost predicate Sorted(s: seq<Key>) {
    forall i, j :: 0 <= i < j < |s| ==> !Less(s[j], s[i])
  }

  /** Strictly increasing under `compareTo` (no key repeats). */
  ghost predicate StrictlySorted(s: seq<Key>) {
    forall i, j :: 0 <= i < j < |s| ==> Less(s[i], s[j])
  }

  /**
   * `k` inserted into `s` before the first element greater than `k`, so that
   * a key equal to some elements goes after all of them.
   */
  ghost function InsertSorted(s: seq<Key>, k: Key): seq<Key> {
    if s == [] then [k]
    else if Less(k, s[0]) then [k] + s
    else [s[0]] + InsertSorted(s[1..], k)
  }

  /** `InsertSorted` adds `k` and keeps every element of `s`. */
  lemma {:induction false} InsertSortedMultiset(s: seq<Key>, k: Key)
    ensures multiset(InsertSorted(s, k)) == multiset(s) + multiset{k}
    ensures |InsertSorted(s, k)| == |s| + 1
  {
    if s != [] && !Less(k, s[0]) {
      assert s == [s[0]] + s[1..];
      InsertSortedMultiset(s[1..], k);
    }
  }

  /** The sequence with its element at index `i` taken out. */
  ghost function RemoveAt<T>(s: seq<T>, i: nat): seq<T>
    requires i < |s|
  {
    s[..i] + s[i + 1..]
  }

  /** `RemoveAt` takes out one copy of `s[i]` and keeps everything else. */
  lemma RemoveAtMultiset<T>(s: seq<T>, i: nat)
    requires i < |s|
    ensures |RemoveAt(s, i)| == |s| - 1
    ensures multiset(RemoveAt(s, i)) == multiset(s) - multiset{s[i]}
  {
    assert s == s[..i] + [s[i]] + s[i + 1..];
  }

  lemma IndexFront<T>(a: seq<T>, x: T, b: seq<T>, j: nat)
    requires j < |a|
    ensures (a + [x] + b)[j] == a[j]
  {
  }

  lemma IndexBack<T>(a: seq<T>, x: T, b: seq<T>, j: nat, i: nat)
    requires j < |b| && i == |a| + 1 + j
    ensures (a + [x] + b)[i] == b[j]
  {
  }

  /** The last element of `[x] + d`, for non-empty `d`, is the last element of `d`. */
  lemma LastOfCons<T>(x: T, d: seq<T>)
    requires |d| >= 1
    ensures ([x] + d)[|[x] + d| - 1] == d[|d| - 1]
  {
  }

  lemma SliceCons<T>(s: seq<T>, i: nat, j: nat)
    requires i < j <= |s|
    ensures s[i..j] == [s[i]] + s[i + 1..j]
  {
  }

  /** Removing from the part before `x`. */
  lemma RemoveAtFront<T>(a: seq<T>, x: T, b: seq<T>, j: nat)
    requires j < |a|
    ensures RemoveAt(a + [x] + b, j) == RemoveAt(a, j) + [x] + b
  {
    var s := a + [x] + b;
    assert s[..j] == a[..j];
    assert s[j + 1..] == a[j + 1..] + [x] + b;
  }

  /** Removing from the part after `x`. */
  lemma RemoveAtBack<T>(a: seq<T>, x: T, b: seq<T>, j: nat, i: nat)
    requires j < |b| && i == |a| + 1 + j
    ensures RemoveAt(a + [x] + b, i) == a + [x] + RemoveAt(b, j)
  {
    var s := a + [x] + b;
    assert s[..i] == a + [x] + b[..j];
    assert s[i + 1..] == b[j + 1..];
  }

  /** Removing `x` itself. */
  lemma RemoveAtMiddle<T>(a: seq<T>, x: T, b: seq<T>)
    ensures RemoveAt(a + [x] + b, |a|) == a + b
  {
    var s := a + [x] + b;
    assert s[..|a|] == a;
    assert s[|a| + 1..] == b;
  }

  /** A prefix one longer is the shorter prefix and the next element. */
  lemma TakeSnoc<T>(s: seq<T>, n: nat)
    requires 0 < n <= |s|
    ensures s[..n] == s[..n - 1] + [s[n - 1]]
    ensures s[..n][..n - 1] == s[..n - 1]
  {
  }

  /** Taking out one copy of an element and adding it back restores the multiset. */
  lemma RemoveAddBack<T>(m: multiset<T>, x: T)
    requires x in m
    ensures m - multiset{x} + multiset{x} == m
  {
  }

  /** Updating an element of the front part of `a + [x] + c`. */
  lemma UpdateInFront<T>(a: seq<T>, x: T, c: seq<T>, i: nat, v: T)
    requires i < |a|
    ensures (a + [x] + c)[i := v] == a[i := v] + [x] + c
  {
  }

  /** Updating the middle element of `a + [x] + c`. */
  lemma UpdateAtMiddle<T>(a: seq<T>, x: T, c: seq<T>, v: T)
    ensures (a + [x] + c)[|a| := v] == a + [v] + c
  {
  }

  /** Updating an element of the back part of `a + [x] + c`. */
  lemma UpdateInBack<T>(a: seq<T>, x: T, c: seq<T>, i: nat, v: T)
    requires i < |c|
    ensures (a + [x] + c)[|a| + 1 + i := v] == a + [x] + c[i := v]
  {
  }

  /** The multiset of a prefix grows by the element that extends it. */
  lemma MultisetSnoc<T>(s: seq<T>, n: nat)
    requires 0 < n <= |s|
    ensures multiset(s[..n]) == multiset(s[..n - 1]) + multiset{s[n - 1]}
  {
    TakeSnoc(s, n);
  }

  /** One element added to the left part of `l + {x} + r` is added to the whole. */
  lemma AddedOnLeft<T>(l: multiset<T>, l': multiset<T>, x: T, r: multiset<T>, k: T)
    requires l' == l + multiset{k}
    ensures l' + multiset{x} + r == l + multiset{x} + r + multiset{k}
  {
  }

  /** One element added to the right part of `l + {x} + r` is added to the whole. */
  lemma AddedOnRight<T>(l: multiset<T>, x: T, r: multiset<T>, r': multiset<T>, k: T)
    requires r' == r + multiset{k}
    ensures l + multiset{x} + r' == l + multiset{x} + r + multiset{k}
  {
  }

  /** The sequence read back to front. */
  function Reverse(s: seq<Key>): (r: seq<Key>)
    ensures |r| == |s|
  {
    if s == [] then [] else Reverse(s[1..]) + [s[0]]
  }

  lemma {:induction false} ReverseAt(s: seq<Key>, j: nat)
    requires j < |s|
    ensures Reverse(s)[j] == s[|s| - 1 - j]
  {
    if j < |s| - 1 {
      ReverseAt(s[1..], j);
    }
  }

  /** The reversal of a non-empty sequence starts with its last element and ends with its first. */
  lemma ReverseEnds(s: seq<Key>)
    requires |s| >= 1
    ensures Reverse(s)[0] == s[|s| - 1] && Reverse(s)[|s| - 1] == s[0]
  {
    ReverseAt(s, 0);
    ReverseAt(s, |s| - 1);
  }

  lemma StrictlySortedIsSorted(s: seq<Key>)
    requires StrictlySorted(s)
    ensures Sorted(s)
  {
    forall i, j | 0 <= i < j < |s|
      ensures !Less(s[j], s[i])
    {
      LessAsymmetric(s[i], s[j]);
    }
  }

  /**
   * `InsertSorted` puts `k` at the sorted position: everything before it is at
   * most `k`, everything after it is greater than `k`.
   */
  lemma {:induction false} InsertSortedPosition(s: seq<Key>, k: Key) returns (p: nat)
    requires Sorted(s)
    ensures p <= |s| && InsertSorted(s, k) == s[..p] + [k] + s[p..]
    ensures forall i :: 0 <= i < p ==> !Less(k, s[i])
    ensures forall i :: p <= i < |s| ==> Less(k, s[i])
  {
    if s == [] {
      p := 0;
    } else if Less(k, s[0]) {
      p := 0;
      forall i | 0 <= i < |s|
        ensures Less(k, s[i])
      {
        if i > 0 {
          LessTotal(s[0], s[i]);
          if Less(s[0], s[i]) {
            LessTransitive(k, s[0], s[i]);
          }
        }
      }
    } else {
      var q := InsertSortedPosition(s[1..], k);
      p := q + 1;
      assert s[..p] == [s[0]] + s[1..][..q];
      assert s[p..] == s[1..][q..];
    }
  }

  lemma {:induction false} InsertSortedSorted(s: seq<Key>, k: Key)
    requires Sorted(s)
    ensures Sorted(InsertSorted(s, k))
  {
    var p := InsertSortedPosition(s, k);
    var r := InsertSorted(s, k);
    forall i, j | 0 <= i < j < |r|
      ensures !Less(r[j], r[i])
    {
      if j < p {
        assert r[i] == s[i] && r[j] == s[j];
      } else if j == p {
        assert r[i] == s[i] && r[j] == k;
      } else if i < p {
        assert r[i] == s[i] && r[j] == s[j - 1];
        LessAsymmetric(k, s[j - 1]);
        NotLessTransitive(s[i], k, s[j - 1]);
      } else if i == p {
        assert r[i] == k && r[j] == s[j - 1];
        LessAsymmetric(k, s[j - 1]);
      } else {
        assert r[i] == s[i - 1] && r[j] == s[j - 1];
      }
    }
  }

  lemma {:induction false} InsertSortedStrictlySorted(s: seq<Key>, k: Key)
    requires StrictlySorted(s) && k !in s
    ensures StrictlySorted(InsertSorted(s, k))
  {
    StrictlySortedIsSorted(s);
    var p := InsertSortedPosition(s, k);
    var r := InsertSorted(s, k);
    forall i, j | 0 <= i < j < |r|
      ensures Less(r[i], r[j])
    {
      if j < p {
        assert r[i] == s[i] && r[j] == s[j];
      } else if j == p {
        assert r[i] == s[i] && r[j] == k;
        LessTotal(s[i], k);
      } else if i < p {
        assert r[i] == s[i] && r[j] == s[j - 1];
        LessTotal(s[i], k);
        LessTransitive(s[i], k, s[j - 1]);
      } else if i == p {
        assert r[i] == k && r[j] == s[j - 1];
      } else {
        assert r[i] == s[i - 1] && r[j] == s[j - 1];
      }
    }
  }

  /** Inserting into the front part of a sequence, when `k` precedes the back part. */
  lemma {:induction false} InsertSortedBefore(a: seq<Key>, b: seq<Key>, k: Key)
    requires b != [] && Less(k, b[0])
    ensures InsertSorted(a + b, k) == InsertSorted(a, k) + b
  {
    if a == [] {
      assert a + b == b;
    } else if Less(k, a[0]) {
      assert (a + b)[0] == a[0];
    } else {
      assert (a + b)[0] == a[0] && (a + b)[1..] == a[1..] + b;
      InsertSortedBefore(a[1..], b, k);
    }
  }

  /** `InsertSortedBefore` with the back part split as `[x] + c`, the shape of an in-order reading. */
  lemma InsertSortedBeforeSplit(a: seq<Key>, x: Key, c: seq<Key>, k: Key)
    requires Less(k, x)
    ensures InsertSorted(a + [x] + c, k) == InsertSorted(a, k) + [x] + c
  {
    InsertSortedBefore(a, [x] + c, k);
    assert a + [x] + c == a + ([x] + c);
  }

  /** Inserting into the back part of a sequence, when no element of the front part exceeds `k`. */
  lemma {:induction false} InsertSortedAfter(a: seq<Key>, b: seq<Key>, k: Key)
    requires forall i :: 0 <= i < |a| ==> !Less(k, a[i])
    ensures InsertSorted(a + b, k) == a + InsertSorted(b, k)
  {
    if a == [] {
      assert a + b == b;
    } else {
      assert (a + b)[0] == a[0] && (a + b)[1..] == a[1..] + b;
      InsertSortedAfter(a[1..], b, k);
    }
  }

  /** `InsertSortedAfter` with the front part split as `a + [x]`, the shape of an in-order reading. */
  lemma InsertSortedAfterSplit(a: seq<Key>, x: Key, c: seq<Key>, k: Key)
    requires forall i :: 0 <= i < |a| ==> !Less(k, a[i])
    requires !Less(k, x)
    ensures InsertSorted(a + [x] + c, k) == a + [x] + InsertSorted(c, k)
  {
    var ax := a + [x];
    assert forall i :: 0 <= i < |ax| ==> !Less(k, ax[i]) by {
      forall i | 0 <= i < |ax| ensures !Less(k, ax[i]) {
        if i < |a| { assert ax[i] == a[i]; }
      }
    }
    InsertSortedAfter(ax, c, k);
  }

  lemma RemoveAtSorted(s: seq<Key>, i: nat)
    requires i < |s| && Sorted(s)
    ensures Sorted(RemoveAt(s, i))
  {
    var r := RemoveAt(s, i);
    forall a, b | 0 <= a < b < |r|
      ensures !Less(r[b], r[a])
    {
      var a' := if a < i then a else a + 1;
      var b' := if b < i then b else b + 1;
      assert r[a] == s[a'] && r[b] == s[b'];
    }
  }

  lemma RemoveAtStrictlySorted(s: seq<Key>, i: nat)
    requires i < |s| && StrictlySorted(s)
    ensures StrictlySorted(RemoveAt(s, i))
  {
    var r := RemoveAt(s, i);
    forall a, b | 0 <= a < b < |r|
      ensures Less(r[a], r[b])
    {
      var a' := if a < i then a else a + 1;
      var b' := if b < i then b else b + 1;
      assert r[a] == s[a'] && r[b] == s[b'];
    }
  }

  /** In a strictly sorted sequence an element occurs once: removing it leaves no copy. */
  lemma StrictlySortedRemoveAt(s: seq<Key>, i: nat)
    requires i < |s| && StrictlySorted(s)
    ensures s[i] !in RemoveAt(s, i)
  {
    var r := RemoveAt(s, i);
    forall a | 0 <= a < |r|
      ensures r[a] != s[i]
    {
      var a' := if a < i then a else a + 1;
      assert r[a] == s[a'];
      if a' < i {
        LessAsymmetric(s[a'], s[i]);
      } else {
        LessAsymmetric(s[i], s[a']);
      }
    }
  }

  /** A sorted sequence split around one of its elements `x`. */
  lemma SortedSplit(a: seq<Key>, x: Key, b: seq<Key>)
    requires Sorted(a + [x] + b)
    ensures Sorted(a) && Sorted(b)
    ensures forall i :: 0 <= i < |a| ==> !Less(x, a[i])
    ensures forall j :: 0 <= j < |b| ==> !Less(b[j], x)
  {
    var s := a + [x] + b;
    assert forall i :: 0 <= i < |a| ==> s[i] == a[i];
    assert s[|a|] == x;
    assert forall j :: 0 <= j < |b| ==> s[|a| + 1 + j] == b[j];
  }
}
