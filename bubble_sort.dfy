// BubbleSort: compares neighbours and swaps them when out of order; every
// outer pass carries the largest value of the unsorted front to its end, so
// the sorted tail grows by one each pass. The whole list is reported after
// every outer pass.
module Bubble {
  import opened SortSpec

  /**
   * The tail from position `from` on is sorted and nothing before it exceeds
   * its first (smallest) value.
   */
  ghost predicate SettledFrom(s: seq<int>, from: int) {
    && (forall k :: from <= k && 0 <= k && k + 1 < |s| ==> s[k] <= s[k + 1])
    && (0 <= from < |s| ==> forall k :: 0 <= k < from ==> s[k] <= s[from])
  }

  /**
   * The state of a pass at position j in front of the settled tail starting
   * at `from`: the tail is settled and s[j] is the largest value of s[..j+1].
   */
  ghost predicate Bubbling(s: seq<int>, j: int, from: int) {
    && 0 <= j < from <= |s|
    && SettledFrom(s, from)
    && (forall k :: 0 <= k < j ==> s[k] <= s[j])
  }

  /**
   * Swapping the out-of-order neighbours at j and j+1 in front of the settled
   * tail keeps the tail settled and moves the running maximum of the front on
   * to position j+1.
   */
  lemma SwapStep(s: seq<int>, j: int, from: int)
    requires Bubbling(s, j, from) && j + 1 < from && s[j] > s[j + 1]
    ensures Bubbling(s[j := s[j + 1]][j + 1 := s[j]], j + 1, from)
  {
    var t := s[j := s[j + 1]][j + 1 := s[j]];
    forall k | 0 <= k < j + 1 ensures t[k] <= t[j + 1] {
      if k < j {
        assert t[k] == s[k];
      }
    }
    assert SettledFrom(t, from) by {
      forall k | from <= k && 0 <= k && k + 1 < |t| ensures t[k] <= t[k + 1] {
        assert t[k] == s[k] && t[k + 1] == s[k + 1];
      }
      if from < |t| {
        forall k | 0 <= k < from ensures t[k] <= t[from] {
          assert t[from] == s[from];
          if k != j && k != j + 1 {
            assert t[k] == s[k];
          }
        }
      }
    }
  }

  /** Without a swap the running maximum of the front moves on to j+1 by itself. */
  lemma KeepStep(s: seq<int>, j: int, from: int)
    requires Bubbling(s, j, from) && j + 1 < from && s[j] <= s[j + 1]
    ensures Bubbling(s, j + 1, from)
  {
  }

  /**
   * When the last position of the unsettled front holds its maximum, the
   * settled tail grows by that position.
   */
  lemma PassSettles(s: seq<int>, from: int)
    requires Bubbling(s, from - 1, from)
    ensures SettledFrom(s, from - 1)
  {
  }

  /** Once everything from position 1 on is settled, the whole list is sorted. */
  lemma SettledSorted(s: seq<int>)
    requires |s| <= 1 || SettledFrom(s, 1)
    ensures Sorted(s)
  {
    if |s| > 1 {
      AdjacentSorted(s, |s| - 1);
    }
  }

  /** A list whose neighbours up to position hi are in order is sorted up to hi. */
  lemma {:induction false} AdjacentSorted(s: seq<int>, hi: int)
    requires 0 <= hi < |s|
    requires forall k :: 0 <= k < hi ==> s[k] <= s[k + 1]
    ensures SortedBetween(s, 0, hi)
  {
    if hi > 0 {
      AdjacentSorted(s, hi - 1);
      assert forall i :: 0 <= i < hi ==> s[i] <= s[hi - 1];
    }
  }

  class BubbleSort {
    var numbers: seq<int>
    /** Every list printed by OutputNumbers, in order. */
    ghost var trace: seq<seq<int>>

    constructor (input: seq<int>)
      ensures numbers == input && trace == []
    {
      numbers := input;
      trace := [];
    }

    /** Exchanges the values at two positions. */
    method Swap(index1: int, index2: int)
      requires 0 <= index1 < |numbers| && 0 <= index2 < |numbers|
      modifies this`numbers
      ensures numbers == old(numbers)[index1 := old(numbers)[index2]][index2 := old(numbers)[index1]]
      ensures multiset(numbers) == multiset(old(numbers))
    {
      var temp := numbers[index1];
      numbers := numbers[index1 := numbers[index2]];
      numbers := numbers[index2 := temp];
    }

    /**
     * One step of a pass: the neighbours at j and j + 1 are swapped when out
     * of order, which carries the running maximum of the front to j + 1.
     */
    method Compare(j: int, from: int)
      requires Bubbling(numbers, j, from) && j + 1 < from
      modifies this`numbers
      ensures numbers == if old(numbers)[j] > old(numbers)[j + 1]
        then old(numbers)[j := old(numbers)[j + 1]][j + 1 := old(numbers)[j]]
        else old(numbers)
      ensures Bubbling(numbers, j + 1, from)
      ensures |numbers| == |old(numbers)| && multiset(numbers) == multiset(old(numbers))
    {
      if numbers[j] > numbers[j + 1] {
        SwapStep(numbers, j, from);
        Swap(j, j + 1);
      } else {
        KeepStep(numbers, j, from);
      }
    }

    /**
     * One outer pass i of Sort: scans the pairs (j, j+1) for j < Count - 1 - i
     * and swaps each pair that is out of order, which carries the largest
     * value of the unsettled front to its last position.
     */
    method Pass(i: int)
      requires 0 <= i < |numbers| - 1
      requires SettledFrom(numbers, |numbers| - i)
      modifies this`numbers
      ensures |numbers| == |old(numbers)|
      ensures multiset(numbers) == multiset(old(numbers))
      ensures SettledFrom(numbers, |numbers| - i - 1)
    {
      var n := |numbers|;
      var j := 0;
      while j < |numbers| - 1 - i
        invariant |numbers| == n
        invariant j <= n - 1 - i
        invariant multiset(numbers) == multiset(old(numbers))
        invariant Bubbling(numbers, j, n - i)
      {
        Compare(j, n - i);
        j := j + 1;
      }
      PassSettles(numbers, n - i);
    }

    /**
     * Runs the outer passes i = 0 .. Count - 2, reporting after each, so
     * max(Count - 1, 0) reports in all.
     */
    method Sort()
      modifies this
      ensures Sorted(numbers)
      ensures multiset(numbers) == multiset(old(numbers))
      ensures |trace| == |old(trace)| + (if |numbers| > 1 then |numbers| - 1 else 0)
      ensures old(trace) <= trace
      ensures |numbers| > 1 ==> trace[|trace| - 1] == numbers
    {
      var n := |numbers|;
      var i := 0;
      while i < |numbers| - 1
        invariant |numbers| == n
        invariant 0 <= i <= (if n > 0 then n - 1 else 0)
        invariant multiset(numbers) == multiset(old(numbers))
        invariant SettledFrom(numbers, n - i)
        invariant |trace| == |old(trace)| + i
        invariant old(trace) <= trace
        invariant i > 0 ==> trace[|trace| - 1] == numbers
      {
        Pass(i);
        trace := trace + [numbers];
        i := i + 1;
      }
      SettledSorted(numbers);
    }
  }
}
