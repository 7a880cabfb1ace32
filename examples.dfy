// Concrete runs of the sorters on fixed lists, and what they come out as.
module Examples {
  import opened SortSpec
  import opened Quick
  import opened Radix
  import opened Agreement

  /** Quick sort with the first value of each range as pivot, on five values. */
  method QuickExample() returns (r: seq<int>)
    ensures r == [2, 3, 4, 5, 8]
  {
    var sorter := new QuickSorter([5, 3, 8, 4, 2]);
    sorter.Sort();
    r := sorter.numbers;
    assert multiset([5, 3, 8, 4, 2]) == multiset{5, 3, 8, 4, 2} == multiset{2, 3, 4, 5, 8} == multiset([2, 3, 4, 5, 8]);
    Ordered5();
    SortedPermutationUnique(r, [2, 3, 4, 5, 8]);
  }

  /**
   * Radix sort on any arrangement of eight values of up to three digits:
   * three passes, so three reports, and the values in order.
   */
  method RadixExample(input: seq<int>) returns (r: seq<int>, ghost reports: int)
    requires multiset(input) == multiset{170, 45, 75, 90, 802, 24, 2, 66}
    ensures r == [2, 24, 45, 66, 75, 90, 170, 802]
    ensures reports == 3
  {
    Bounds8(input);
    r, reports := RadixResult(input);
    Max8(input);
    Sorted8(input, r);
  }

  /** The list of the radix sort example, in the order it is given. */
  method RadixListed() returns (r: seq<int>, ghost reports: int)
    ensures r == [2, 24, 45, 66, 75, 90, 170, 802]
    ensures reports == 3
  {
    assert multiset([170, 45, 75, 90, 802, 24, 2, 66]) == multiset{170, 45, 75, 90, 802, 24, 2, 66};
    r, reports := RadixExample([170, 45, 75, 90, 802, 24, 2, 66]);
  }

  /** The expected result of the quick sort example is non-decreasing. */
  lemma Ordered5()
    ensures Sorted([2, 3, 4, 5, 8])
  {
  }

  /** The values of the radix sort example, listed in order. */
  lemma Values8()
    ensures multiset{170, 45, 75, 90, 802, 24, 2, 66} == multiset([2, 24, 45, 66, 75, 90, 170, 802])
  {
    assert multiset{170, 45, 75, 90, 802, 24, 2, 66} == multiset{2, 24, 45, 66, 75, 90, 170, 802};
  }

  /** Listed in order, they are non-decreasing. */
  lemma Ordered8()
    ensures Sorted([2, 24, 45, 66, 75, 90, 170, 802])
  {
  }

  /** The values of the radix sort example are all within radix sort's range. */
  lemma Bounds8(input: seq<int>)
    requires multiset(input) == multiset{170, 45, 75, 90, 802, 24, 2, 66}
    ensures |input| > 0
    ensures forall k :: 0 <= k < |input| ==> 0 <= input[k] < 1_000_000_000
  {
    assert 802 in multiset(input);
    forall k | 0 <= k < |input| ensures 0 <= input[k] < 1_000_000_000 {
      assert input[k] in multiset(input);
    }
  }

  /** Their largest value, 802, has three digits. */
  lemma Max8(input: seq<int>)
    requires multiset(input) == multiset{170, 45, 75, 90, 802, 24, 2, 66}
    ensures |input| > 0 && DigitCount(Max(input)) == 3
  {
    Bounds8(input);
    assert 802 in input;
    var k :| 0 <= k < |input| && input[k] == 802;
    var m := Max(input);
    assert m in multiset(input) && m >= input[k];
    assert m == 802;
    ThreeDigits();
  }

  /** Any sorted arrangement of them is the one listed in order. */
  lemma Sorted8(input: seq<int>, r: seq<int>)
    requires multiset(input) == multiset{170, 45, 75, 90, 802, 24, 2, 66}
    requires Sorted(r) && multiset(r) == multiset(input)
    ensures r == [2, 24, 45, 66, 75, 90, 170, 802]
  {
    Values8();
    Ordered8();
    SortedPermutationUnique(r, [2, 24, 45, 66, 75, 90, 170, 802]);
  }

  /** 802 has three decimal digits. */
  lemma ThreeDigits()
    ensures DigitCount(802) == 3
  {
  }
}
