// MergeSorter: split the list in halves, sort each half, merge the results.
// Merged and MergeSorted are the specification; the class's MergeSort and
// Merge are the source's methods, proved to compute them, and Sort replaces
// the list with the merge-sorted one and reports once.
module Merging {
  import opened SortSpec

  /**
   * The merge of two lists: repeatedly the smaller head, the left one on a
   * tie, then what is left of either list.
   */
  function Merged(left: seq<int>, right: seq<int>): (result: seq<int>)
    ensures |result| == |left| + |right|
    ensures multiset(result) == multiset(left) + multiset(right)
    ensures |result| > 0 ==> (|left| > 0 && result[0] == left[0]) || (|right| > 0 && result[0] == right[0])
    ensures Sorted(left) && Sorted(right) ==> Sorted(result)
    decreases |left| + |right|
  {
    if left == [] then right
    else if right == [] then left
    else if left[0] <= right[0] then
      var rest := Merged(left[1..], right);
      assert left == [left[0]] + left[1..];
      assert Sorted(left) && Sorted(right) ==> Sorted([left[0]] + rest) by {
        if Sorted(left) && Sorted(right) {
          SortedCons(left[0], rest);
        }
      }
      [left[0]] + rest
    else
      var rest := Merged(left, right[1..]);
      assert right == [right[0]] + right[1..];
      assert Sorted(left) && Sorted(right) ==> Sorted([right[0]] + rest) by {
        if Sorted(left) && Sorted(right) {
          SortedCons(right[0], rest);
        }
      }
      [right[0]] + rest
  }

  /** A merge whose left head is no larger starts with that head. */
  lemma MergedLeft(l: seq<int>, r: seq<int>)
    requires |l| > 0 && |r| > 0 && l[0] <= r[0]
    ensures Merged(l, r) == [l[0]] + Merged(l[1..], r)
  {
  }

  /** A merge whose right head is smaller starts with that head. */
  lemma MergedRight(l: seq<int>, r: seq<int>)
    requires |l| > 0 && |r| > 0 && r[0] < l[0]
    ensures Merged(l, r) == [r[0]] + Merged(l, r[1..])
  {
  }

  /** Once either list is empty, the merge is the two lists one after the other. */
  lemma MergedRest(l: seq<int>, r: seq<int>)
    requires |l| == 0 || |r| == 0
    ensures Merged(l, r) == l + r
  {
    if |l| == 0 {
      assert l + r == r;
    } else {
      assert l + r == l;
    }
  }

  /** Moving the left head to the merged prefix keeps the prefix-plus-rest form. */
  lemma TakeLeft(result: seq<int>, l: seq<int>, r: seq<int>, whole: seq<int>)
    requires result + Merged(l, r) == whole
    requires |l| > 0 && |r| > 0 && l[0] <= r[0]
    ensures (result + [l[0]]) + Merged(l[1..], r) == whole
  {
    MergedLeft(l, r);
  }

  /** Moving the right head to the merged prefix keeps the prefix-plus-rest form. */
  lemma TakeRight(result: seq<int>, l: seq<int>, r: seq<int>, whole: seq<int>)
    requires result + Merged(l, r) == whole
    requires |l| > 0 && |r| > 0 && r[0] < l[0]
    ensures (result + [r[0]]) + Merged(l, r[1..]) == whole
  {
    MergedRight(l, r);
  }

  /** Once a list runs out, appending both rests completes the merge. */
  lemma TakeRest(result: seq<int>, l: seq<int>, r: seq<int>, whole: seq<int>)
    requires result + Merged(l, r) == whole
    requires |l| == 0 || |r| == 0
    ensures result + l + r == whole
  {
    MergedRest(l, r);
  }

  /** Putting a value no larger than the head in front of a sorted list keeps it sorted. */
  lemma SortedCons(x: int, rest: seq<int>)
    requires Sorted(rest)
    requires |rest| > 0 ==> x <= rest[0]
    ensures Sorted([x] + rest)
  {
  }

  /** The merge sort of a list: split at Count / 2, sort the halves, merge them. */
  function MergeSorted(list: seq<int>): (result: seq<int>)
    ensures |result| == |list|
    ensures Sorted(result)
    ensures multiset(result) == multiset(list)
    decreases |list|
  {
    if |list| > 1 then
      var left := MergeSorted(list[..|list| / 2]);
      var right := MergeSorted(list[|list| / 2..]);
      assert list == list[..|list| / 2] + list[|list| / 2..];
      Merged(left, right)
    else
      list
  }

  /** A list that is already sorted comes back unchanged. */
  lemma MergeSortOfSorted(list: seq<int>)
    requires Sorted(list)
    ensures MergeSorted(list) == list
  {
    SortedPermutationUnique(MergeSorted(list), list);
  }

  /** Sorting twice gives the same list as sorting once. */
  lemma MergeSortIdempotent(list: seq<int>)
    ensures MergeSorted(MergeSorted(list)) == MergeSorted(list)
  {
    MergeSortOfSorted(MergeSorted(list));
  }

  class MergeSorter {
    var numbers: seq<int>
    /** Every list printed by OutputNumbers, in order. */
    ghost var trace: seq<seq<int>>

    constructor (input: seq<int>)
      ensures numbers == input && trace == []
    {
      numbers := input;
      trace := [];
    }

    /**
     * Splits the list at Count / 2, sorts both halves recursively and merges
     * them; a list of at most one value comes back as it is.
     */
    method MergeSort(list: seq<int>) returns (result: seq<int>)
      ensures result == MergeSorted(list)
      decreases |list|
    {
      result := list;
      if |list| > 1 {
        var left := list[..|list| / 2];
        var right := list[|list| / 2..];
        left := MergeSort(left);
        right := MergeSort(right);
        result := Merge(left, right);
      }
    }

    /**
     * Moves the smaller head of the two lists, the left one on a tie, to the
     * result until one list is empty, then appends the rest of both.
     */
    method Merge(left: seq<int>, right: seq<int>) returns (result: seq<int>)
      ensures result == Merged(left, right)
    {
      var l, r := left, right;
      result := [];
      while |l| > 0 && |r| > 0
        invariant result + Merged(l, r) == Merged(left, right)
        decreases |l| + |r|
      {
        if l[0] <= r[0] {
          TakeLeft(result, l, r, Merged(left, right));
          result := result + [l[0]];
          l := l[1..];
        } else {
          TakeRight(result, l, r, Merged(left, right));
          result := result + [r[0]];
          r := r[1..];
        }
      }
      TakeRest(result, l, r, Merged(left, right));
      result := result + l + r;
    }

    /** Replaces the list by its merge sort and reports it exactly once. */
    method Sort()
      modifies this
      ensures numbers == MergeSorted(old(numbers))
      ensures Sorted(numbers) && multiset(numbers) == multiset(old(numbers))
      ensures trace == old(trace) + [numbers]
    {
      numbers := MergeSort(numbers);
      trace := trace + [numbers];
    }
  }
}
