// QuickSorter: partitions numbers[left..right] around its first element and
// sorts the two sides recursively. The whole list is reported after every
// element the partition loop looks at.
module Quick {
  import opened SortSpec

  /**
   * The state of SplitList's loop over s, which started as s0: the pivot
   * sits at lo, the values at left..lo-1 are below it, those at lo+1..i-1
   * are not, nothing outside left..right has moved and no value is lost.
   */
  ghost predicate Partitioned(s: seq<int>, s0: seq<int>, left: int, right: int, lo: int, i: int, pivot: int) {
    && 0 <= left <= lo < i <= right + 1 && right < |s| == |s0|
    && s[lo] == pivot
    && (forall k :: left <= k < lo ==> s[k] < pivot)
    && (forall k :: lo < k < i ==> pivot <= s[k])
    && (forall k :: 0 <= k < |s| && (k < left || right < k) ==> s[k] == s0[k])
    && multiset(s) == multiset(s0)
  }

  /**
   * One exchange of SplitList: the value s[i], smaller than the pivot sitting
   * at lo, goes to lo, the first value of the upper part goes to i and the
   * pivot moves to lo + 1. Both parts keep their bounds and grow by one.
   */
  lemma PartitionStep(s: seq<int>, s0: seq<int>, left: int, right: int, lo: int, i: int, pivot: int)
    requires Partitioned(s, s0, left, right, lo, i, pivot) && i <= right && s[i] < pivot
    ensures Partitioned(s[lo := s[i]][i := s[lo + 1]][lo + 1 := pivot], s0, left, right, lo + 1, i + 1, pivot)
  {
    var t := s[lo := s[i]][i := s[lo + 1]][lo + 1 := pivot];
    ExchangePermutes(s, lo, i);
    forall k | left <= k < lo + 1 ensures t[k] < pivot {
      if k < lo {
        assert t[k] == s[k];
      }
    }
    forall k | lo + 1 < k < i + 1 ensures pivot <= t[k] {
      if k < i {
        assert t[k] == s[k];
      } else {
        assert t[k] == s[lo + 1];
      }
    }
    forall k | 0 <= k < |t| && (k < left || right < k) ensures t[k] == s0[k] {
      assert t[k] == s[k];
    }
  }

  /** A value not below the pivot simply joins the upper part. */
  lemma PartitionKeep(s: seq<int>, s0: seq<int>, left: int, right: int, lo: int, i: int, pivot: int)
    requires Partitioned(s, s0, left, right, lo, i, pivot) && i <= right && pivot <= s[i]
    ensures Partitioned(s, s0, left, right, lo, i + 1, pivot)
  {
  }

  /** The three writes of one exchange only move values around. */
  lemma ExchangePermutes(s: seq<int>, lo: int, i: int)
    requires 0 <= lo < i < |s|
    ensures multiset(s[lo := s[i]][i := s[lo + 1]][lo + 1 := s[lo]]) == multiset(s)
  {
    var u := s[lo := s[i]];
    assert multiset(u) == multiset(s) - multiset{s[lo]} + multiset{s[i]};
    var v := u[i := s[lo + 1]];
    assert multiset(v) == multiset(u) - multiset{s[i]} + multiset{u[lo + 1]};
    assert multiset(v[lo + 1 := s[lo]]) == multiset(v) - multiset{v[lo + 1]} + multiset{s[lo]};
  }

  /**
   * If t holds the same values as s and agrees with it outside the positions
   * lo..hi-1, every value of t inside that window comes from s's window.
   */
  lemma WindowSource(s: seq<int>, t: seq<int>, lo: int, hi: int, k: int) returns (j: int)
    requires 0 <= lo <= k < hi <= |s| == |t|
    requires multiset(s) == multiset(t)
    requires forall m :: 0 <= m < |s| && (m < lo || hi <= m) ==> s[m] == t[m]
    ensures lo <= j < hi && t[k] == s[j]
  {
    assert s[..lo] == t[..lo];
    assert s[hi..] == t[hi..];
    WindowPermutation(s, t, lo, hi);
    assert t[lo..hi][k - lo] == t[k];
    assert t[k] in multiset(s[lo..hi]);
    var d :| 0 <= d < hi - lo && s[lo..hi][d] == t[k];
    j := lo + d;
  }

  /** Rearranging a window whose values are all below a bound keeps them below it. */
  lemma WindowBelow(s: seq<int>, t: seq<int>, lo: int, hi: int, bound: int)
    requires 0 <= lo <= hi <= |s| == |t|
    requires multiset(s) == multiset(t)
    requires forall m :: 0 <= m < |s| && (m < lo || hi <= m) ==> s[m] == t[m]
    requires forall k :: lo <= k < hi ==> s[k] < bound
    ensures forall k :: lo <= k < hi ==> t[k] < bound
  {
    forall k | lo <= k < hi ensures t[k] < bound {
      var j := WindowSource(s, t, lo, hi, k);
    }
  }

  /** Rearranging a window whose values are all at least a bound keeps them so. */
  lemma WindowAtLeast(s: seq<int>, t: seq<int>, lo: int, hi: int, bound: int)
    requires 0 <= lo <= hi <= |s| == |t|
    requires multiset(s) == multiset(t)
    requires forall m :: 0 <= m < |s| && (m < lo || hi <= m) ==> s[m] == t[m]
    requires forall k :: lo <= k < hi ==> bound <= s[k]
    ensures forall k :: lo <= k < hi ==> bound <= t[k]
  {
    forall k | lo <= k < hi ensures bound <= t[k] {
      var j := WindowSource(s, t, lo, hi, k);
    }
  }

  /**
   * A sorted lower part, all below the value at p, followed by a sorted upper
   * part, all at least that value, make a sorted range.
   */
  lemma JoinSorted(s: seq<int>, left: int, p: int, right: int)
    requires 0 <= left <= p <= right < |s|
    requires SortedBetween(s, left, p - 1) && SortedBetween(s, p + 1, right)
    requires forall k :: left <= k < p ==> s[k] < s[p]
    requires forall k :: p < k <= right ==> s[p] <= s[k]
    ensures SortedBetween(s, left, right)
  {
  }

  class QuickSorter {
    var numbers: seq<int>
    /** Every list printed by OutputNumbers, in order. */
    ghost var trace: seq<seq<int>>

    constructor (input: seq<int>)
      ensures numbers == input && trace == []
    {
      numbers := input;
      trace := [];
    }

    /**
     * Sorts numbers[left..right] (both inclusive) in place; nothing outside
     * that range moves. An empty or one-element range is left alone.
     */
    method QuickSort(left: int, right: int)
      requires 0 <= left && right < |numbers|
      modifies this
      ensures |numbers| == |old(numbers)|
      ensures multiset(numbers) == multiset(old(numbers))
      ensures forall k :: 0 <= k < |numbers| && (k < left || right < k) ==> numbers[k] == old(numbers)[k]
      ensures SortedBetween(numbers, left, right)
      ensures old(trace) <= trace
      ensures left >= right ==> trace == old(trace)
      decreases right - left
    {
      if left < right {
        var pivotPoint := SplitList(left, right);
        ghost var split := numbers;
        if pivotPoint > 1 {
          QuickSort(left, pivotPoint - 1);
        }
        ghost var lower := numbers;
        WindowBelow(split, lower, left, pivotPoint, split[pivotPoint]);
        if pivotPoint + 1 < right {
          QuickSort(pivotPoint + 1, right);
        }
        WindowAtLeast(lower, numbers, pivotPoint + 1, right + 1, split[pivotPoint]);
        JoinSorted(numbers, left, pivotPoint, right);
      }
    }

    /**
     * Partitions numbers[left..right] around the pivot value numbers[left]:
     * the values smaller than it end up before it, the others after it, and
     * its final position is returned. One report per element looked at.
     */
    method SplitList(left: int, right: int) returns (split: int)
      requires 0 <= left <= right < |numbers|
      modifies this
      ensures left <= split <= right && |numbers| == |old(numbers)|
      ensures numbers[split] == old(numbers)[left]
      ensures forall k :: left <= k < split ==> numbers[k] < numbers[split]
      ensures forall k :: split < k <= right ==> numbers[split] <= numbers[k]
      ensures forall k :: 0 <= k < |numbers| && (k < left || right < k) ==> numbers[k] == old(numbers)[k]
      ensures multiset(numbers) == multiset(old(numbers))
      ensures |trace| == |old(trace)| + (right - left)
      ensures old(trace) <= trace
      ensures left < right ==> trace[|trace| - 1] == numbers
    {
      var pivotPoint := numbers[left];
      var lo := left;
      var i := left + 1;
      while i <= right
        invariant Partitioned(numbers, old(numbers), left, right, lo, i, pivotPoint)
        invariant |trace| == |old(trace)| + (i - left - 1)
        invariant old(trace) <= trace
        invariant i > left + 1 ==> trace[|trace| - 1] == numbers
      {
        if numbers[i] < pivotPoint {
          // The three writes of the exchange in one update: the second write
          // reads position lo + 1, which the first one did not touch.
          PartitionStep(numbers, old(numbers), left, right, lo, i, pivotPoint);
          numbers := numbers[lo := numbers[i]][i := numbers[lo + 1]][lo + 1 := pivotPoint];
          lo := lo + 1;
        } else {
          PartitionKeep(numbers, old(numbers), left, right, lo, i, pivotPoint);
        }
        trace := trace + [numbers];
        i := i + 1;
      }
      split := lo;
    }

    /** Quick-sorts the whole list. */
    method Sort()
      modifies this
      ensures Sorted(numbers)
      ensures multiset(numbers) == multiset(old(numbers))
      ensures old(trace) <= trace
      ensures |old(numbers)| <= 1 ==> trace == old(trace)
    {
      QuickSort(0, |numbers| - 1);
    }
  }
}
