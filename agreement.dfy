// Theorems over every input: a sorted permutation is unique, so each
// sorter's result is the merge-sorted list, and sorting that list again
// changes nothing.
module Agreement {
  import opened SortSpec
  import opened Bubble
  import opened Insertion
  import opened Selection
  import opened Merging
  import opened Quick
  import opened Radix

  /** Bubble sort yields the same list as merge sort. */
  method BubbleResult(input: seq<int>) returns (r: seq<int>)
    ensures r == MergeSorted(input)
  {
    var sorter := new BubbleSort(input);
    sorter.Sort();
    r := sorter.numbers;
    SortedPermutationUnique(r, MergeSorted(input));
  }

  /** Insertion sort yields the same list as merge sort. */
  method InsertionResult(input: seq<int>) returns (r: seq<int>)
    ensures r == MergeSorted(input)
  {
    var sorter := new InsertionSort(input);
    sorter.Sort();
    r := sorter.numbers;
    SortedPermutationUnique(r, MergeSorted(input));
  }

  /** Selection sort yields the same list as merge sort. */
  method SelectionResult(input: seq<int>) returns (r: seq<int>)
    ensures r == MergeSorted(input)
  {
    var sorter := new SelectionSort(input);
    sorter.Sort();
    r := sorter.numbers;
    SortedPermutationUnique(r, MergeSorted(input));
  }

  /** Quick sort yields the same list as merge sort. */
  method QuickResult(input: seq<int>) returns (r: seq<int>)
    ensures r == MergeSorted(input)
  {
    var sorter := new QuickSorter(input);
    sorter.Sort();
    r := sorter.numbers;
    SortedPermutationUnique(r, MergeSorted(input));
  }

  /**
   * Radix sort, on the lists it accepts, yields the same list as merge sort,
   * after one report per digit of the largest value.
   */
  method RadixResult(input: seq<int>) returns (r: seq<int>, ghost reports: int)
    requires |input| > 0
    requires forall k :: 0 <= k < |input| ==> 0 <= input[k] < 1_000_000_000
    ensures r == MergeSorted(input)
    ensures reports == DigitCount(Max(input))
  {
    var sorter := new RadixSorter(input);
    sorter.Sort();
    r := sorter.numbers;
    reports := |sorter.trace|;
    SortedPermutationUnique(r, MergeSorted(input));
  }

  /** Bubble-sorting the bubble-sorted list again leaves it as it is. */
  method BubbleTwice(input: seq<int>) returns (once: seq<int>, twice: seq<int>)
    ensures once == MergeSorted(input)
    ensures twice == once
  {
    once := BubbleResult(input);
    twice := BubbleResult(once);
    MergeSortIdempotent(input);
  }

  /** Insertion-sorting the insertion-sorted list again leaves it as it is. */
  method InsertionTwice(input: seq<int>) returns (once: seq<int>, twice: seq<int>)
    ensures once == MergeSorted(input)
    ensures twice == once
  {
    once := InsertionResult(input);
    twice := InsertionResult(once);
    MergeSortIdempotent(input);
  }

  /** Selection-sorting the selection-sorted list again leaves it as it is. */
  method SelectionTwice(input: seq<int>) returns (once: seq<int>, twice: seq<int>)
    ensures once == MergeSorted(input)
    ensures twice == once
  {
    once := SelectionResult(input);
    twice := SelectionResult(once);
    MergeSortIdempotent(input);
  }

  /** Quick-sorting the quick-sorted list again leaves it as it is. */
  method QuickTwice(input: seq<int>) returns (once: seq<int>, twice: seq<int>)
    ensures once == MergeSorted(input)
    ensures twice == once
  {
    once := QuickResult(input);
    twice := QuickResult(once);
    MergeSortIdempotent(input);
  }

  /** Radix-sorting the radix-sorted list again leaves it as it is. */
  method RadixTwice(input: seq<int>) returns (once: seq<int>, twice: seq<int>)
    requires |input| > 0
    requires forall k :: 0 <= k < |input| ==> 0 <= input[k] < 1_000_000_000
    ensures once == MergeSorted(input)
    ensures twice == once
  {
    ghost var n;
    once, n := RadixResult(input);
    assert multiset(once) == multiset(input);
    forall k | 0 <= k < |once| ensures 0 <= once[k] < 1_000_000_000 {
      assert once[k] in multiset(input);
    }
    twice, n := RadixResult(once);
    MergeSortIdempotent(input);
  }
}
