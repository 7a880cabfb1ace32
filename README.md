# Sorting algorithms of AlgorithmTesting, in Dafny

`AlgorithmTesting/Program.cs` is a console program that fills a list with
random numbers and sorts it with one of five algorithms chosen from a menu:
bubble, insertion, selection, quick and radix sort. It prints the list as it
goes. The file also has a merge sort that the menu never reaches. This
project models all six sorters and proves what each of them does to the list.

- Each sorter is a class with a `numbers: seq<int>` field, the C#
  `List<int> numbers`.
  - Bubble, insertion, selection and quick sort update it in place, by index.
  - Merge sort and radix sort replace it with a new list: `MergeSort`'s result
    at line 87, and the array turned back into a list at line 252.
- Each sorter has a ghost field `trace: seq<seq<int>>`. It collects every list
  `OutputNumbers` prints, or that the radix sort prints itself, in order.
- Each source method is a Dafny method with the same loops and the same
  branches.

Modules:

- `SortSpec` (`sort_spec.dfy`): what "sorted" means. A sorted permutation of a
  list is unique.
- `Bubble` (`bubble_sort.dfy`): `BubbleSort.Swap` and `BubbleSort.Sort`. The
  inner loop of `Sort` is the method `Pass`. Its loop body is the method
  `Compare`.
- `Merging` (`merge_sort.dfy`): the functions `Merged` and `MergeSorted` are
  the specification. The class `MergeSorter` has the source's `MergeSort`
  (recursive), `Merge` (a loop) and `Sort`.
- `Insertion` (`insertion_sort.dfy`): `InsertionSort.InsertSort` and
  `InsertionSort.Sort`.
- `Selection` (`selection_sort.dfy`): `SelectionSort.SelectSort` and
  `SelectionSort.Sort`.
- `Quick` (`quick_sort.dfy`): `QuickSorter.QuickSort`, `SplitList` and `Sort`.
  They keep the source's recursion guards `pivotPoint > 1` and
  `pivotPoint + 1 < right`.
- `RadixDigits` (`radix_digits.dfy`): one radix pass as a function.
  - `ByDigit` groups a list into runs by the decimal digit at a place value,
    keeping the order of each run.
  - The lemmas show this pass is stable and that it sorts by the low digits.
- `Radix` (`radix_sort.dfy`): `RadixSorter.RadixSort` and `RadixSorter.Sort`
  work on `array<int>`, like the source's `int[]` buffers. Each loop of
  `radixSort` is proved against `ByDigit`.
- `Agreement` (`agreement.dfy`): theorems for every input that relate the
  sorters.
  - Every sorter returns the same list as merge sort.
  - Sorting a sorted list again changes nothing.
- `Examples` (`examples.dfy`): two concrete runs. Quick sort on
  `[5, 3, 8, 4, 2]`, and radix sort on `[170, 45, 75, 90, 802, 24, 2, 66]`.

C#'s `int` arithmetic matters in two places, both in the radix sort:

- The digit `(v / loopCount) % 10`. C#'s `/` and `%` truncate toward zero,
  while Dafny's are Euclidean. The two agree on non-negative values, which
  is all the radix sort model accepts.
- The place value `loopCount *= 10` at line 242. It wraps around in 32 bits,
  which the bound 10^9 on the values keeps out of reach.

## Model

| member | source | states |
|---|---|---|
| Bubble.BubbleSort.Swap | AlgorithmTesting/Program.cs:21-26 | The two positions exchange their values, nothing else changes, and the values are kept. |
| Bubble.BubbleSort.Compare | AlgorithmTesting/Program.cs:34-37 | The new list is the old one with positions j and j+1 exchanged exactly when numbers[j] > numbers[j+1], and the old list otherwise. Position j+1 then holds the largest value of the front up to it, the settled tail stays settled and the values are kept. |
| Bubble.SwapStep | AlgorithmTesting/Program.cs:34-37 | Swapping an out-of-order pair in front of the settled tail moves the running maximum to j+1 and keeps the tail settled. |
| Bubble.BubbleSort.Pass | AlgorithmTesting/Program.cs:32-38 | Outer pass i grows the settled tail by one position. The tail is sorted, and nothing before it exceeds its smallest value. The values are kept. |
| Bubble.PassSettles | AlgorithmTesting/Program.cs:30-38 | When the running maximum reaches the last unsettled position, that position joins the settled tail. |
| Bubble.SettledSorted | AlgorithmTesting/Program.cs:30-41 | A list settled from position 1 on is sorted. |
| Bubble.BubbleSort.Sort | AlgorithmTesting/Program.cs:28-42 | The list ends sorted with the same values, after max(Count-1, 0) reports; when there are any, the last one is the sorted list. |
| Merging.Merged | AlgorithmTesting/Program.cs:62-83 | The merge has both lists' values and their total length. It starts with one of the two heads, and it is sorted whenever both inputs are. |
| Merging.MergedLeft | AlgorithmTesting/Program.cs:68-72 | On a tie the left head is taken first, which is what makes the merge stable. |
| Merging.MergeSorter.Merge | AlgorithmTesting/Program.cs:62-83 | The loop that takes the smaller head, then appends the rest of both lists, returns exactly `Merged(left, right)`. |
| Merging.MergeSorted | AlgorithmTesting/Program.cs:47-60 | Merge sort returns a sorted permutation of its argument. |
| Merging.MergeSorter.MergeSort | AlgorithmTesting/Program.cs:47-60 | Splitting at Count/2, sorting both halves and merging them returns exactly `MergeSorted(list)`. |
| Merging.MergeSortOfSorted | AlgorithmTesting/Program.cs:47-60 | An already sorted list comes back unchanged. |
| Merging.MergeSortIdempotent | AlgorithmTesting/Program.cs:47-60 | Sorting twice gives the same list as sorting once. |
| Merging.MergeSorter.Sort | AlgorithmTesting/Program.cs:85-89 | The list becomes its merge sort, which is sorted with the same values, and is reported exactly once. |
| Insertion.ShiftStep | AlgorithmTesting/Program.cs:99-103 | Shifting a value larger than the one being inserted one place right keeps the loop's state. The shifted values have moved one place and everything else is in place. |
| Insertion.ShiftDone | AlgorithmTesting/Program.cs:99-105 | When the scan stops, dropping the value into the gap makes the prefix up to index sorted, with the same values, and leaves the rest alone. |
| Insertion.InsertedSorted | AlgorithmTesting/Program.cs:94-106 | Placing s[index] after the values not above it, with the larger ones shifted right, sorts s[..index+1] without changing its values. |
| Insertion.InsertionSort.InsertSort | AlgorithmTesting/Program.cs:94-106 | Given a sorted prefix before index, the prefix up to index becomes a sorted rearrangement of itself. Positions after index do not move. |
| Insertion.InsertionSort.Sort | AlgorithmTesting/Program.cs:108-115 | The list ends sorted with the same values, after max(Count-1, 0) reports; when there are any, the last one is the sorted list. |
| Selection.SelectionSort.SelectSort | AlgorithmTesting/Program.cs:120-137 | The result is the old list with its first minimum from index on swapped into position index. Nothing changes when that minimum already sits at index. |
| Selection.SwapFirstMin | AlgorithmTesting/Program.cs:132-137 | That swap keeps the values and puts at index a value no larger than any after it. It leaves everything before index alone. |
| Selection.SelectAdvance | AlgorithmTesting/Program.cs:142-146 | One SelectSort call extends the sorted prefix, which is no larger than anything after it, by one position and keeps the values. |
| Selection.SelectionSort.Sort | AlgorithmTesting/Program.cs:140-147 | The list ends sorted with the same values, after exactly Count reports; for a non-empty list the last one is the sorted list. |
| Quick.PartitionStep | AlgorithmTesting/Program.cs:178-184 | The three writes for a value below the pivot grow the lower part by one, shift the pivot right by one and keep the upper part above it. Values outside the range do not change and no value is lost. |
| Quick.PartitionKeep | AlgorithmTesting/Program.cs:176-186 | A value not below the pivot simply joins the upper part. |
| Quick.ExchangePermutes | AlgorithmTesting/Program.cs:180-182 | The three writes only move values around. |
| Quick.QuickSorter.SplitList | AlgorithmTesting/Program.cs:172-189 | The returned split lies in [left, right] and holds the old numbers[left]. Everything in [left, split) is below it and everything in (split, right] is at least it. Positions outside [left, right] do not change, the values are kept, and right-left reports are made, the last of which is the partitioned list. |
| Quick.WindowBelow | AlgorithmTesting/Program.cs:159-162 | Sorting a window whose values are all below the pivot keeps them below it. |
| Quick.JoinSorted | AlgorithmTesting/Program.cs:155-168 | A sorted lower part below the pivot, the pivot, and a sorted upper part at least the pivot make a sorted range. |
| Quick.QuickSorter.QuickSort | AlgorithmTesting/Program.cs:153-169 | numbers[left..right] ends sorted with the same values and nothing outside the range moves. This holds despite the guards `pivotPoint > 1` and `pivotPoint + 1 < right`: every range they skip has at most one element. A range with left >= right is left alone and reports nothing. |
| Quick.QuickSorter.Sort | AlgorithmTesting/Program.cs:191-194 | The whole list ends sorted with the same values, including the empty list. A list of at most one value is sorted without any report. |
| RadixDigits.Digits | AlgorithmTesting/Program.cs:213 | The digit key of each value, (v / place) % 10, is in 0..9. |
| RadixDigits.BucketAt | AlgorithmTesting/Program.cs:223-226 | Inside its digit's run, a value sits after the earlier values with that digit, so a pass is stable. |
| RadixDigits.BucketsPermute | AlgorithmTesting/Program.cs:221-227 | Concatenating the runs for the digits 0..e-1 gives a permutation of the list when every key is below e. |
| RadixDigits.ByDigitPermutes | AlgorithmTesting/Program.cs:199-234 | One pass keeps the values and the length. |
| RadixDigits.LsdStep | AlgorithmTesting/Program.cs:199-234 | If the list is sorted by v % P, one stable pass at place P sorts it by v % (10P). |
| RadixDigits.KeySortedSorted | AlgorithmTesting/Program.cs:242-252 | A list sorted by v % P whose values are all below P is sorted. |
| Radix.CountStep | AlgorithmTesting/Program.cs:211-214 | Counting one more value adds one to its digit's count. |
| Radix.SumStep | AlgorithmTesting/Program.cs:217-220 | Each prefix-sum step turns numCount[i] into the end position of digit i's run. |
| Radix.RadixSorter.CountDigits | AlgorithmTesting/Program.cs:205-220 | After the counting and prefix-sum loops, numCount[d] is the end position of the run of values with digit d. |
| Radix.PlaceStep | AlgorithmTesting/Program.cs:223-227 | Placing value i at numCount[digit]-1 puts it at its final position in the pass's result. Its digit's count goes down by one. |
| Radix.PlaceDone | AlgorithmTesting/Program.cs:223-227 | After the backward scan the output is exactly the pass's result. |
| Radix.RadixSorter.PlaceNext | AlgorithmTesting/Program.cs:225-226 | One iteration of the backward placing loop. Value i, with digit d, is written at numCount[d]-1, which is in range, and numCount[d] goes down by one. Nothing else in either array changes. The loop state moves from i to i-1: every value after i-1 sits at its final position in the pass's result, and numCount[d] is the start of digit d's run plus the number of values before i with digit d. |
| Radix.RadixSorter.Place | AlgorithmTesting/Program.cs:225-226 | output becomes the old output with value written at old numCount[digit]-1, and numCount the old counts with numCount[digit] lowered by one. Nothing else changes. |
| Radix.RadixSorter.PlaceByDigit | AlgorithmTesting/Program.cs:222-227 | The output array holds exactly `ByDigit` of the input slice. |
| Radix.RadixSorter.RadixSort | AlgorithmTesting/Program.cs:199-234 | numberArray[..arrLength] becomes `ByDigit` of its old contents at place loopCount: a stable grouping by that digit. Entries past arrLength do not change. |
| Radix.Max | AlgorithmTesting/Program.cs:241 | The maximum is in the list and no element exceeds it. |
| Radix.PassStep | AlgorithmTesting/Program.cs:242-244 | One more pass after k passes gives the list after k+1 passes, still non-negative. |
| Radix.PassesKeySorted | AlgorithmTesting/Program.cs:242-250 | After k passes the list is a permutation of the input, sorted by v % 10^k. |
| Radix.RadixSorts | AlgorithmTesting/Program.cs:242-252 | When every value is below 10^k, the list after k passes is a sorted permutation. |
| Radix.DigitCountStep | AlgorithmTesting/Program.cs:242 | Each pass of the loop removes one digit from arrMax / loopCount, so the loop runs once per digit of the maximum. |
| Radix.SortDone | AlgorithmTesting/Program.cs:242-252 | When the loop stops, the number of passes is the digit count of the maximum, and the list is sorted with the same values. |
| Radix.RadixSorter.NextPass | AlgorithmTesting/Program.cs:244 | One radixSort call turns the list after k passes into the list after k+1 passes. |
| Radix.RadixSorter.ToArray | AlgorithmTesting/Program.cs:238 | A fresh array holding the list, element for element. |
| Radix.RadixSorter.Sort | AlgorithmTesting/Program.cs:236-253 | The list becomes the input after DigitCount(Max) passes, which is sorted with the same values. One report is made per pass, and report k is the list after k passes. |
| Agreement.BubbleResult | AlgorithmTesting/Program.cs:28-42 | Bubble sort returns the merge-sorted list. |
| Agreement.InsertionResult | AlgorithmTesting/Program.cs:108-115 | Insertion sort returns the merge-sorted list. |
| Agreement.SelectionResult | AlgorithmTesting/Program.cs:140-147 | Selection sort returns the merge-sorted list. |
| Agreement.QuickResult | AlgorithmTesting/Program.cs:191-194 | Quick sort returns the merge-sorted list. |
| Agreement.RadixResult | AlgorithmTesting/Program.cs:236-253 | Radix sort, on the lists it accepts, returns the merge-sorted list after one report per digit of the maximum. |
| Agreement.BubbleTwice | AlgorithmTesting/Program.cs:28-42 | Bubble-sorting the result again changes nothing: both results equal `MergeSorted(input)`. |
| Agreement.InsertionTwice | AlgorithmTesting/Program.cs:108-115 | Insertion-sorting the result again changes nothing: both results equal `MergeSorted(input)`. |
| Agreement.SelectionTwice | AlgorithmTesting/Program.cs:140-147 | Selection-sorting the result again changes nothing: both results equal `MergeSorted(input)`. |
| Agreement.QuickTwice | AlgorithmTesting/Program.cs:191-194 | Quick-sorting the result again changes nothing: both results equal `MergeSorted(input)`. |
| Agreement.RadixTwice | AlgorithmTesting/Program.cs:236-253 | Radix-sorting the result again changes nothing: both results equal `MergeSorted(input)`. |
| Examples.QuickExample | AlgorithmTesting/Program.cs:150-195 | Quick sort turns [5, 3, 8, 4, 2] into [2, 3, 4, 5, 8]. |
| Examples.RadixExample | AlgorithmTesting/Program.cs:236-253 | Any arrangement of 170, 45, 75, 90, 802, 24, 2, 66 comes out as [2, 24, 45, 66, 75, 90, 170, 802] after three reports. |
| Examples.RadixListed | AlgorithmTesting/Program.cs:236-253 | The same result for the list in the order [170, 45, 75, 90, 802, 24, 2, 66]. |

## Left out

- Console output.
  - `OutputNumbers` and the radix sort's own `Console.Write` loop
    (AlgorithmTesting/Program.cs:16, 245-249) are modelled only as the list
    appended to the ghost `trace`.
  - The text format is not modelled, including the radix sort's trailing
    space and blank line.
- The menu, `AlgSelector` and the `Main` retry loop
  (AlgorithmTesting/Program.cs:256-335). They are interactive glue around
  the sorters.
- The random list of the `Sorting` constructor (AlgorithmTesting/Program.cs:13).
  The constructors take the list as a parameter instead, so every property
  holds for any list.
- The `Sorting` base class and virtual dispatch
  (AlgorithmTesting/Program.cs:4-17). Each sorter is its own class with its
  own `numbers` field.
- Radix.RadixSorter.Sort: requires a non-empty list with every value in
  [0, 10^9). Outside that range the source differs from the model in three
  ways, none of which is modelled:
  - On an empty list, `Max()` throws.
  - Negative values are not always sorted. C#'s `/` and `%` truncate toward
    zero.
    - In a pass that runs, a negative value whose digit at the current
      place is negative gives a negative index at line 213, and the pass
      throws `IndexOutOfRangeException`.
    - A negative value whose truncated quotient `v / place` is a multiple
      of 10 gets digit 0 and no exception. Examples are -10 or -20 at
      place 1, and -5 at place 10. `[5, -10]` has keys 5 and 0 in its one
      pass and comes back as `[-10, 5]`, sorted.
    - When the maximum is at most 0, the loop runs no pass at all, so no
      negative value throws.

    In the digit-0 case and the no-pass case the list can come back
    unsorted without any error: `[-10, -20, 5]` is returned as it is (its
    keys at place 1 are 0, 0 and 5), and so is `[-1, -3]` (no pass).
  - Values of 10^9 or more make `loopCount *= 10` wrap around after the
    pass at 10^9, because C# `int` arithmetic is unchecked by default. It
    wraps to 1410065408.
    - For a maximum below 1410065408, the loop then stops after the 10
      passes that its digit count calls for, and the run is the one the
      model describes: `[1000000000, 3]` comes back as `[3, 1000000000]`.
    - For a larger maximum, two extra passes follow, at 1410065408 and at
      1215752192. Then `loopCount` turns negative and the loop stops. That
      makes 12 reports.
    - Each extra key is 0 or 1 and never decreases as the value grows, so
      the list still ends sorted.

  A list whose maximum is 0 is modelled: the loop then runs no pass.
- Radix.RadixSorter.RadixSort: requires non-negative values. On negative
  values the C# digit can be negative, and the pass can then throw, as
  above.
- Helper methods carved out of the source's loops, each with the same
  statements:
  - `Bubble.BubbleSort.Pass` and `Compare`: the inner loop and its body.
  - `Radix.RadixSorter.CountDigits`, `PlaceByDigit`, `PlaceNext` and `Place`:
    the loops of `radixSort`.
  - `NextPass`: one iteration of `Sort`'s loop.
  - `ToArray`: `List.ToArray`.
- `PlaceNext` computes the digit `(numberArray[i] / loopCount) % 10` once
  per iteration and uses it for both statements. The source computes it
  twice, at lines 225 and 226, with the same value.
- `Quick.QuickSorter.SplitList`: the three writes to `numbers` at
  AlgorithmTesting/Program.cs:180-182 are one update of the sequence. The
  second write reads position `left + 1`, which the first write does not
  touch, so the result is the same. The source's `left` parameter, which it
  increments, is the local `lo`.
- Quick.QuickSorter.SplitList: states the split, the bounds of the two
  parts by the pivot, the kept values and the frame, but not the order of
  the values inside each part. That order shows only in the intermediate
  reports; `QuickSort` sorts both parts afterwards.
- Bubble.BubbleSort.Pass: states that the pass settles one more position
  and keeps the values, but not the order left in the unsettled front. That
  order shows only in the intermediate reports; later passes sort it.
- Merge's `RemoveAt(0)` on its argument lists is modelled on local copies.
  The C# lists are fresh `GetRange` copies, so no caller sees the change.
