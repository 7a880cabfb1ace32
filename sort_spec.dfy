// What every sorter in the program promises: the list ends non-decreasing and
// holds the same values as before. A sorted permutation of a list is unique,
// so every correct sorter yields the same list.
module SortSpec {

  /** Non-decreasing from left to right. */
  predicate Sorted(s: seq<int>) {
    forall i, j :: 0 <= i < j < |s| ==> s[i] <= s[j]
  }

  /** The positions lo..hi (both inclusive) of s are non-decreasing. */
  predicate SortedBetween(s: seq<int>, lo: int, hi: int) {
    forall i, j :: lo <= i < j <= hi && 0 <= i && j < |s| ==> s[i] <= s[j]
  }

  /** Two sorted lists holding the same multiset of values are equal. */
  lemma {:induction false} SortedPermutationUnique(a: seq<int>, b: seq<int>)
    requires Sorted(a) && Sorted(b)
    requires multiset(a) == multiset(b)
    ensures a == b
  {
    if a == [] || b == [] {
      assert |a| == |multiset(a)| == |multiset(b)| == |b|;
    } else {
      assert b[0] in multiset(b) && a[0] in multiset(a);
      HeadIsLeast(a, b[0]);
      HeadIsLeast(b, a[0]);
      assert a[0] == b[0];
      MultisetOfTail(a);
      MultisetOfTail(b);
      assert multiset(a[1..]) == multiset(b[1..]);
      assert Sorted(a[1..]) && Sorted(b[1..]);
      SortedPermutationUnique(a[1..], b[1..]);
      assert a == [a[0]] + a[1..] && b == [b[0]] + b[1..];
    }
  }

  /** The head of a sorted list is at most every value it holds. */
  lemma HeadIsLeast(s: seq<int>, x: int)
    requires Sorted(s) && x in multiset(s)
    ensures |s| > 0 && s[0] <= x
  {
    assert x in s;
    var i :| 0 <= i < |s| && s[i] == x;
    assert i == 0 || s[0] <= s[i];
  }

  /** Dropping the head removes one copy of it from the multiset. */
  lemma MultisetOfTail(s: seq<int>)
    requires |s| > 0
    ensures multiset(s[1..]) == multiset(s) - multiset{s[0]}
  {
    assert s == [s[0]] + s[1..];
  }

  /**
   * If two lists of equal length hold the same values and agree outside the
   * positions lo..hi-1, then they hold the same values inside that window too.
   */
  lemma WindowPermutation(s: seq<int>, t: seq<int>, lo: int, hi: int)
    requires 0 <= lo <= hi <= |s| == |t|
    requires multiset(s) == multiset(t)
    requires s[..lo] == t[..lo] && s[hi..] == t[hi..]
    ensures multiset(s[lo..hi]) == multiset(t[lo..hi])
  {
    assert s == s[..lo] + s[lo..hi] + s[hi..];
    assert t == t[..lo] + t[lo..hi] + t[hi..];
    assert multiset(s) == multiset(s[..lo]) + multiset(s[lo..hi]) + multiset(s[hi..]);
    assert multiset(t) == multiset(t[..lo]) + multiset(t[lo..hi]) + multiset(t[hi..]);
    forall x ensures multiset(s[lo..hi])[x] == multiset(t[lo..hi])[x] {
      assert multiset(s)[x] == multiset(s[..lo])[x] + multiset(s[lo..hi])[x] + multiset(s[hi..])[x];
      assert multiset(t)[x] == multiset(t[..lo])[x] + multiset(t[lo..hi])[x] + multiset(t[hi..])[x];
    }
  }
}
