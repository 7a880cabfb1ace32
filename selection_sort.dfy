// SelectionSort: for each index, finds the first minimum of the rest of the
// list and swaps it into place. The whole list is reported after every index,
// whether or not a swap happened.
module Selection {
  import opened SortSpec

  /**
   * m is the position of the first minimum of s[lo..]: no later value is
   * smaller and every earlier value in the range is strictly larger.
   */
  ghost predicate IsFirstMin(s: seq<int>, lo: int, m: int) {
    && 0 <= lo <= m < |s|
    && (forall k :: lo <= k < |s| ==> s[m] <= s[k])
    && (forall k :: lo <= k < m ==> s[m] < s[k])
  }

  /** t is s with the first minimum of s[lo..] swapped into position lo. */
  ghost predicate SwappedFirstMin(s: seq<int>, t: seq<int>, lo: int) {
    exists m :: IsFirstMin(s, lo, m) && t == s[lo := s[m]][m := s[lo]]
  }

  /**
   * Swapping the first minimum of s[index..] into position index keeps the
   * values, puts at index a value no larger than any after it, and leaves
   * everything before index alone.
   */
  lemma SwapFirstMin(s: seq<int>, index: int, m: int)
    requires IsFirstMin(s, index, m)
    ensures var t := s[index := s[m]][m := s[index]];
      && multiset(t) == multiset(s)
      && (forall k :: index <= k < |t| ==> t[index] <= t[k])
      && (forall k :: 0 <= k < index ==> t[k] == s[k])
  {
    var t := s[index := s[m]][m := s[index]];
    forall k | index <= k < |t| ensures t[index] <= t[k] {
      if k == m {
        assert t[k] == s[index];
      } else if k != index {
        assert t[k] == s[k];
      }
    }
  }

  /**
   * One step of Sort: when s[..i] is sorted and no larger than anything after
   * it, swapping the first minimum of s[i..] into place extends both facts
   * to i + 1.
   */
  lemma SelectStep(s: seq<int>, i: int, m: int)
    requires IsFirstMin(s, i, m)
    requires SortedBetween(s, 0, i - 1)
    requires 0 < i ==> forall k :: i <= k < |s| ==> s[i - 1] <= s[k]
    ensures var t := s[i := s[m]][m := s[i]];
      && SortedBetween(t, 0, i)
      && forall k :: i + 1 <= k < |t| ==> t[i] <= t[k]
  {
    var t := s[i := s[m]][m := s[i]];
    SwapFirstMin(s, i, m);
    forall a, b | 0 <= a < b <= i ensures t[a] <= t[b] {
      if b < i {
        assert t[a] == s[a] && t[b] == s[b];
      } else {
        assert t[a] == s[a] && t[b] == s[m];
        assert s[a] <= s[i - 1];
      }
    }
  }

  /**
   * The state of Sort before index i: s[..i] is sorted and no larger than
   * anything after it.
   */
  ghost predicate SelectedBefore(s: seq<int>, i: int) {
    && 0 <= i <= |s|
    && SortedBetween(s, 0, i - 1)
    && (0 < i ==> forall k :: i <= k < |s| ==> s[i - 1] <= s[k])
  }

  /** One SelectSort call moves Sort's state from index i to i + 1, keeping the values. */
  lemma SelectAdvance(s: seq<int>, t: seq<int>, i: int)
    requires SelectedBefore(s, i) && i < |s|
    requires SwappedFirstMin(s, t, i)
    ensures SelectedBefore(t, i + 1)
    ensures |t| == |s| && multiset(t) == multiset(s)
  {
    var m :| IsFirstMin(s, i, m) && t == s[i := s[m]][m := s[i]];
    SwapFirstMin(s, i, m);
    SelectStep(s, i, m);
  }

  class SelectionSort {
    var numbers: seq<int>
    /** Every list printed by OutputNumbers, in order. */
    ghost var trace: seq<seq<int>>

    constructor (input: seq<int>)
      ensures numbers == input && trace == []
    {
      numbers := input;
      trace := [];
    }

    /**
     * Swaps the first minimum of numbers[index..] into position index. Only
     * positions index and that minimum change, and nothing changes when the
     * minimum already sits at index.
     */
    method SelectSort(index: int)
      requires 0 <= index < |numbers|
      modifies this`numbers
      ensures SwappedFirstMin(old(numbers), numbers, index)
    {
      var min := index;
      var i := index + 1;
      while i < |numbers|
        invariant index <= min < i <= |numbers|
        invariant forall k :: index <= k < i ==> numbers[min] <= numbers[k]
        invariant forall k :: index <= k < min ==> numbers[min] < numbers[k]
        modifies {}
      {
        if numbers[i] < numbers[min] {
          min := i;
        }
        i := i + 1;
      }
      ghost var s := numbers;
      assert IsFirstMin(s, index, min);
      if min != index {
        var temp := numbers[index];
        numbers := numbers[index := numbers[min]];
        numbers := numbers[min := temp];
      }
      assert numbers == s[index := s[min]][min := s[index]];
    }

    /** Selects into every index in turn; exactly Count reports. */
    method Sort()
      modifies this
      ensures Sorted(numbers)
      ensures multiset(numbers) == multiset(old(numbers))
      ensures |trace| == |old(trace)| + |numbers|
      ensures old(trace) <= trace
      ensures |numbers| > 0 ==> trace[|trace| - 1] == numbers
    {
      var n := |numbers|;
      var i := 0;
      while i < |numbers|
        invariant |numbers| == n
        invariant multiset(numbers) == multiset(old(numbers))
        invariant SelectedBefore(numbers, i)
        invariant |trace| == |old(trace)| + i
        invariant old(trace) <= trace
        invariant i > 0 ==> trace[|trace| - 1] == numbers
      {
        ghost var before := numbers;
        SelectSort(i);
        SelectAdvance(before, numbers, i);
        trace := trace + [numbers];
        i := i + 1;
      }
    }
  }
}
