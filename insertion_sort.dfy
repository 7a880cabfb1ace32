// InsertionSort: for each index from 1 on, shifts the larger values of the
// sorted prefix one place right and drops the element into the gap. The whole
// list is reported after each insertion.
module Insertion {
  import opened SortSpec

  class InsertionSort {
    var numbers: seq<int>
    /** Every list printed by OutputNumbers, in order. */
    ghost var trace: seq<seq<int>>

    constructor (input: seq<int>)
      ensures numbers == input && trace == []
    {
      numbers := input;
      trace := [];
    }

    /**
     * Inserts numbers[index] into the sorted prefix numbers[..index]: the
     * prefix up to and including index becomes a sorted rearrangement of
     * itself, and nothing after index moves.
     */
    method InsertSort(index: int)
      requires 0 <= index < |numbers|
      requires Sorted(numbers[..index])
      modifies this`numbers
      ensures |numbers| == |old(numbers)|
      ensures Sorted(numbers[..index + 1])
      ensures multiset(numbers[..index + 1]) == multiset(old(numbers)[..index + 1])
      ensures numbers[index + 1..] == old(numbers)[index + 1..]
    {
      var temp := numbers[index];
      var i := index - 1;
      while i >= 0 && numbers[i] > temp
        invariant Shifting(numbers, old(numbers), index, i)
      {
        ShiftStep(numbers, old(numbers), index, i);
        numbers := numbers[i + 1 := numbers[i]];
        i := i - 1;
      }
      ShiftDone(numbers, old(numbers), index, i);
      numbers := numbers[i + 1 := temp];
    }

    /** Inserts every element in turn; Count - 1 reports (none for 0 or 1 elements). */
    method Sort()
      modifies this
      ensures Sorted(numbers)
      ensures multiset(numbers) == multiset(old(numbers))
      ensures |trace| == |old(trace)| + (if |numbers| > 1 then |numbers| - 1 else 0)
      ensures old(trace) <= trace
      ensures |numbers| > 1 ==> trace[|trace| - 1] == numbers
    {
      var n := |numbers|;
      var i := 1;
      while i < |numbers|
        invariant |numbers| == n
        invariant 1 <= i <= (if n > 0 then n else 1)
        invariant n > 0 ==> Sorted(numbers[..i])
        invariant multiset(numbers) == multiset(old(numbers))
        invariant |trace| == |old(trace)| + i - 1
        invariant old(trace) <= trace
        invariant i > 1 ==> trace[|trace| - 1] == numbers
      {
        ghost var before := numbers;
        InsertSort(i);
        assert before == before[..i + 1] + before[i + 1..];
        assert numbers == numbers[..i + 1] + numbers[i + 1..];
        trace := trace + [numbers];
        i := i + 1;
      }
      assert n > 0 ==> numbers[..i] == numbers;
    }
  }

  /**
   * The state of InsertSort's loop over s, which started as s0: the values
   * s0[i+1..index-1], all larger than s0[index], have moved one place right,
   * and everything else is still where it was (position i + 1 is the gap).
   */
  ghost predicate Shifting(s: seq<int>, s0: seq<int>, index: int, i: int) {
    && -1 <= i < index < |s0| && |s| == |s0|
    && (forall k :: 0 <= k <= i ==> s[k] == s0[k])
    && (forall k :: i + 1 < k <= index ==> s[k] == s0[k - 1])
    && (forall k :: i < k < index ==> s0[k] > s0[index])
    && (forall k :: index < k < |s| ==> s[k] == s0[k])
  }

  /** Shifting a value larger than the one being inserted one place right. */
  lemma ShiftStep(s: seq<int>, s0: seq<int>, index: int, i: int)
    requires Shifting(s, s0, index, i) && 0 <= i && s[i] > s0[index]
    ensures Shifting(s[i + 1 := s[i]], s0, index, i - 1)
  {
  }

  /**
   * Once the scan stops at the front or at a value no larger, dropping the
   * value into the gap inserts it.
   */
  lemma ShiftDone(s: seq<int>, s0: seq<int>, index: int, i: int)
    requires Shifting(s, s0, index, i) && Sorted(s0[..index])
    requires i < 0 || s[i] <= s0[index]
    ensures Sorted(s[i + 1 := s0[index]][..index + 1])
    ensures multiset(s[i + 1 := s0[index]][..index + 1]) == multiset(s0[..index + 1])
    ensures s[i + 1 := s0[index]][index + 1..] == s0[index + 1..]
  {
    InsertedSorted(s0, s[i + 1 := s0[index]], index, i + 1);
  }

  /**
   * t is s with x = s[index] placed at position pos, after s[..pos] and
   * before the shifted s[pos..index]. When s[..index] was sorted,
   * s[pos - 1] <= x and everything shifted is larger than x, t[..index + 1]
   * is a sorted rearrangement of s[..index + 1].
   */
  lemma InsertedSorted(s: seq<int>, t: seq<int>, index: int, pos: int)
    requires 0 <= pos <= index < |s| == |t|
    requires Sorted(s[..index])
    requires pos > 0 ==> s[pos - 1] <= s[index]
    requires forall k :: pos <= k < index ==> s[k] > s[index]
    requires forall k :: 0 <= k < pos ==> t[k] == s[k]
    requires t[pos] == s[index]
    requires forall k :: pos < k <= index ==> t[k] == s[k - 1]
    requires forall k :: index < k < |s| ==> t[k] == s[k]
    ensures Sorted(t[..index + 1])
    ensures multiset(t[..index + 1]) == multiset(s[..index + 1])
    ensures t[index + 1..] == s[index + 1..]
  {
    InsertedIsSorted(s, t, index, pos);
    InsertedPermutes(s, t, index, pos);
  }

  lemma InsertedIsSorted(s: seq<int>, t: seq<int>, index: int, pos: int)
    requires 0 <= pos <= index < |s| && index < |t|
    requires Sorted(s[..index])
    requires pos > 0 ==> s[pos - 1] <= s[index]
    requires forall k :: pos <= k < index ==> s[k] > s[index]
    requires forall k :: 0 <= k < pos ==> t[k] == s[k]
    requires t[pos] == s[index]
    requires forall k :: pos < k <= index ==> t[k] == s[k - 1]
    ensures Sorted(t[..index + 1])
  {
    forall a, b | 0 <= a < b <= index ensures t[a] <= t[b] {
      if b < pos {
        assert s[..index][a] <= s[..index][b];
      } else if b == pos {
        if 0 < pos && a < pos - 1 {
          assert s[..index][a] <= s[..index][pos - 1];
        }
      } else if a < pos {
        assert s[..index][a] <= s[..index][b - 1];
      } else if a > pos {
        assert s[..index][a - 1] <= s[..index][b - 1];
      }
    }
  }

  lemma InsertedPermutes(s: seq<int>, t: seq<int>, index: int, pos: int)
    requires 0 <= pos <= index < |s| && index < |t|
    requires forall k :: 0 <= k < pos ==> t[k] == s[k]
    requires t[pos] == s[index]
    requires forall k :: pos < k <= index ==> t[k] == s[k - 1]
    ensures multiset(t[..index + 1]) == multiset(s[..index + 1])
  {
    assert t[..index + 1] == s[..pos] + [s[index]] + s[pos..index];
    assert s[..index + 1] == s[..pos] + s[pos..index] + [s[index]];
  }
}
