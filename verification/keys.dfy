/** Option, standing in for a Java reference that may be null. */
module Wrappers {
  datatype Option<T> = None | Some(value: T)
}

/**
 * Keys of the treap: strings, lower-cased before they are stored or compared,
 * and ordered the way `String.compareTo` orders them.
 */
module TreapKeys {

  type Key = seq<char>

  predicate IsUpper(c: char) {
    'A' <= c <= 'Z'
  }

  /** Lower-casing of one character (ASCII letters only). */
  function LowerChar(c: char): (d: char)
    ensures !IsUpper(d)
    ensures IsUpper(c) ==> d as int == c as int + 32
    ensures !IsUpper(c) ==> d == c
  {
    if IsUpper(c) then (c as int + 32) as char else c
  }

  /** `String.toLowerCase`, restricted to ASCII letters. */
  function LowerKey(s: Key): (r: Key)
    ensures |r| == |s|
    ensures forall i :: 0 <= i < |s| ==> r[i] == LowerChar(s[i])
  {
    if s == [] then [] else [LowerChar(s[0])] + LowerKey(s[1..])
  }

  /** No upper-case letter occurs in `s`. */
  predicate IsLowerCase(s: Key) {
    forall i :: 0 <= i < |s| ==> !IsUpper(s[i])
  }

  /** `a` and `b` spell the same word, possibly with different letter case. */
  predicate SameIgnoringCase(a: Key, b: Key) {
    |a| == |b| &&
    forall i :: 0 <= i < |a| ==>
      a[i] == b[i] ||
      (IsUpper(a[i]) && b[i] as int == a[i] as int + 32) ||
      (IsUpper(b[i]) && a[i] as int == b[i] as int + 32)
  }

  /** A stored key contains no upper-case letter, and lower-casing it again changes nothing. */
  lemma LowerKeyIsLower(s: Key)
    ensures IsLowerCase(LowerKey(s))
    ensures LowerKey(LowerKey(s)) == LowerKey(s)
  {
    var r := LowerKey(s);
    assert forall i :: 0 <= i < |r| ==> LowerKey(r)[i] == r[i];
  }

  /** Two keys are stored as the same key exactly when they differ only in letter case. */
  lemma LowerKeyCaseInsensitive(a: Key, b: Key)
    ensures LowerKey(a) == LowerKey(b) <==> SameIgnoringCase(a, b)
  {
    if LowerKey(a) == LowerKey(b) {
      SameLowerKeyIgnoresCase(a, b);
    }
    if SameIgnoringCase(a, b) {
      IgnoringCaseSameLowerKey(a, b);
    }
  }

  lemma SameLowerKeyIgnoresCase(a: Key, b: Key)
    requires LowerKey(a) == LowerKey(b)
    ensures SameIgnoringCase(a, b)
  {
    forall i | 0 <= i < |a|
      ensures a[i] == b[i] ||
              (IsUpper(a[i]) && b[i] as int == a[i] as int + 32) ||
              (IsUpper(b[i]) && a[i] as int == b[i] as int + 32)
    {
      assert LowerChar(a[i]) == LowerKey(a)[i] == LowerKey(b)[i] == LowerChar(b[i]);
      SameLowerCharIgnoresCase(a[i], b[i]);
    }
  }

  lemma SameLowerCharIgnoresCase(c: char, d: char)
    requires LowerChar(c) == LowerChar(d)
    ensures c == d || (IsUpper(c) && d as int == c as int + 32) || (IsUpper(d) && c as int == d as int + 32)
  {
  }

  lemma IgnoringCaseSameLowerKey(a: Key, b: Key)
    requires SameIgnoringCase(a, b)
    ensures LowerKey(a) == LowerKey(b)
  {
    var la, lb := LowerKey(a), LowerKey(b);
    forall i | 0 <= i < |a|
      ensures la[i] == lb[i]
    {
      LowerCharIgnoresCase(a[i], b[i]);
    }
  }

  lemma LowerCharIgnoresCase(c: char, d: char)
    requires c == d || (IsUpper(c) && d as int == c as int + 32) || (IsUpper(d) && c as int == d as int + 32)
    ensures LowerChar(c) == LowerChar(d)
  {
  }

  /** `String.compareTo(a, b) < 0`: lexicographic order on characters, a proper prefix first. */
  predicate Less(a: Key, b: Key) {
    if |a| == 0 then |b| > 0
    else if |b| == 0 then false
    else a[0] < b[0] || (a[0] == b[0] && Less(a[1..], b[1..]))
  }

  /**
   * The first-difference reading of `compareTo`: either the keys differ first at
   * index `k` and `a` has the smaller character there, or `a` is a proper prefix of `b`.
   */
  predicate LessAtFirstDifference(a: Key, b: Key) {
    (exists k :: 0 <= k < |a| && k < |b| && a[..k] == b[..k] && a[k] < b[k]) ||
    (|a| < |b| && a == b[..|a|])
  }

  lemma LessIsFirstDifference(a: Key, b: Key)
    ensures Less(a, b) <==> LessAtFirstDifference(a, b)
  {
    if Less(a, b) {
      LessHasFirstDifference(a, b);
    }
    if LessAtFirstDifference(a, b) {
      FirstDifferenceIsLess(a, b);
    }
  }

  lemma {:induction false} LessHasFirstDifference(a: Key, b: Key)
    requires Less(a, b)
    ensures LessAtFirstDifference(a, b)
    decreases |a|
  {
    if |a| == 0 {
      assert a == b[..0];
    } else if a[0] < b[0] {
      assert a[..0] == b[..0];
    } else {
      var a', b' := a[1..], b[1..];
      LessHasFirstDifference(a', b');
      if exists k :: 0 <= k < |a'| && k < |b'| && a'[..k] == b'[..k] && a'[k] < b'[k] {
        var k :| 0 <= k < |a'| && k < |b'| && a'[..k] == b'[..k] && a'[k] < b'[k];
        FirstDifferenceCons(a, b, k);
      } else {
        assert a == [a[0]] + a' && b[..|a|] == [b[0]] + b'[..|a'|];
      }
    }
  }

  /** A first difference of the tails at `k`, behind equal heads, is one of the keys at `k + 1`. */
  lemma FirstDifferenceCons(a: Key, b: Key, k: nat)
    requires 0 < |a| && 0 < |b| && a[0] == b[0]
    requires k < |a| - 1 && k < |b| - 1 && a[1..][..k] == b[1..][..k] && a[1..][k] < b[1..][k]
    ensures a[..k + 1] == b[..k + 1] && a[k + 1] < b[k + 1]
  {
    assert a[..k + 1] == [a[0]] + a[1..][..k] && b[..k + 1] == [b[0]] + b[1..][..k];
  }

  lemma {:induction false} FirstDifferenceIsLess(a: Key, b: Key)
    requires LessAtFirstDifference(a, b)
    ensures Less(a, b)
    decreases |a|
  {
    if |a| > 0 && a[0] >= b[0] {
      var a', b' := a[1..], b[1..];
      if exists k :: 0 <= k < |a| && k < |b| && a[..k] == b[..k] && a[k] < b[k] {
        var k :| 0 <= k < |a| && k < |b| && a[..k] == b[..k] && a[k] < b[k];
        assert k > 0 && a[..k][0] == a[0] && b[..k][0] == b[0];
        assert a'[..k - 1] == a[..k][1..] && b'[..k - 1] == b[..k][1..];
        assert a'[k - 1] == a[k] && b'[k - 1] == b[k];
      } else {
        assert b[..|a|][0] == b[0];
        assert a' == a[1..] == b[..|a|][1..] == b'[..|a'|];
      }
      FirstDifferenceIsLess(a', b');
    }
  }

  lemma {:induction false} LessIrreflexive(a: Key)
    ensures !Less(a, a)
    decreases |a|
  {
    if |a| > 0 {
      LessIrreflexive(a[1..]);
    }
  }

  lemma {:induction false} LessTransitive(a: Key, b: Key, c: Key)
    requires Less(a, b) && Less(b, c)
    ensures Less(a, c)
    decreases |a|
  {
    if |a| > 0 && a[0] == b[0] && b[0] == c[0] {
      LessTransitive(a[1..], b[1..], c[1..]);
    }
  }

  /** `compareTo` is total: two different keys are ordered one way or the other. */
  lemma {:induction false} LessTotal(a: Key, b: Key)
    ensures a == b || Less(a, b) || Less(b, a)
    decreases |a|
  {
    if |a| > 0 && |b| > 0 && a[0] == b[0] {
      LessTotal(a[1..], b[1..]);
      if a[1..] == b[1..] {
        assert a == [a[0]] + a[1..] && b == [b[0]] + b[1..];
      }
    }
  }

  lemma LessAsymmetric(a: Key, b: Key)
    requires Less(a, b)
    ensures !Less(b, a)
  {
    if Less(b, a) {
      LessTransitive(a, b, a);
      LessIrreflexive(a);
    }
  }

  /** "Not greater" is transitive: `a <= b` and `b <= c` give `a <= c`. */
  lemma NotLessTransitive(a: Key, b: Key, c: Key)
    requires !Less(b, a) && !Less(c, b)
    ensures !Less(c, a)
  {
    if Less(c, a) {
      LessTotal(b, c);
      if Less(b, c) {
        LessTransitive(b, c, a);
      }
    }
  }
}
