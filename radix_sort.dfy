// RadixSorter: least-significant-digit radix sort. Each pass is a counting
// sort of the array by the decimal digit at the current place value; the
// place value goes 1, 10, 100, ... for as long as the largest value still has
// a digit there. The array is reported after every pass.
module Radix {
  import opened SortSpec
  import opened RadixDigits

  /** The largest value of a non-empty list (what Enumerable.Max returns). */
  function Max(s: seq<int>): (m: int)
    requires |s| > 0
    ensures m in s
    ensures forall k :: 0 <= k < |s| ==> s[k] <= m
  {
    if |s| == 1 then s[0]
    else if s[0] >= Max(s[1..]) then s[0]
    else Max(s[1..])
  }

  /** 10 to the power k: the place value of the k-th pass. */
  function Pow10(k: nat): (p: int)
    ensures p > 0
  {
    if k == 0 then 1 else 10 * Pow10(k - 1)
  }

  /** The number of decimal digits of m; none for m <= 0. */
  function DigitCount(m: int): nat
    decreases if m > 0 then m else 0
  {
    if m <= 0 then 0 else 1 + DigitCount(m / 10)
  }

  /** The list after the first k passes, at place values 1, 10, ..., 10^(k-1). */
  function Passes(s: seq<int>, k: nat): seq<int>
  {
    if k == 0 then s else ByDigit(Passes(s, k - 1), Pow10(k - 1))
  }

  /** No value is negative: C#'s truncating digit then agrees with Dafny's. */
  predicate NonNegative(s: seq<int>) {
    forall k :: 0 <= k < |s| ==> 0 <= s[k]
  }

  /**
   * The step of Sort's loop: one more pass over the list after k passes
   * gives the list after k + 1 passes, still without negative values.
   */
  lemma PassStep(input: seq<int>, k: nat, before: seq<int>, after: seq<int>)
    requires NonNegative(input) && before == Passes(input, k)
    requires after == ByDigit(before, Pow10(k))
    ensures after == Passes(input, k + 1)
    ensures NonNegative(after)
  {
    PassesKeySorted(input, k + 1);
    forall j | 0 <= j < |after| ensures 0 <= after[j] {
      assert after[j] in multiset(input);
    }
  }

  /**
   * After k passes the list holds the same values and is ordered by their
   * last k decimal digits.
   */
  lemma {:induction false} PassesKeySorted(s: seq<int>, k: nat)
    ensures multiset(Passes(s, k)) == multiset(s) && |Passes(s, k)| == |s|
    ensures KeySorted(Passes(s, k), Pow10(k))
  {
    if k == 0 {
      KeySortedByOne(s);
    } else {
      var before, after := Passes(s, k - 1), Passes(s, k);
      assert after == ByDigit(before, Pow10(k - 1));
      PassesKeySorted(s, k - 1);
      PassKeySorted(before, k - 1, after);
    }
  }

  /** Every list is ordered by the remainders modulo 1, which are all zero. */
  lemma KeySortedByOne(s: seq<int>)
    ensures KeySorted(s, 1)
  {
    forall i | 0 <= i < |s| ensures s[i] % 1 == 0 {
      DivModUnique(s[i], 1, s[i], 0);
    }
  }

  /** One pass at place value 10^n takes the order by n low digits to n + 1. */
  lemma PassKeySorted(t: seq<int>, n: nat, u: seq<int>)
    requires KeySorted(t, Pow10(n)) && u == ByDigit(t, Pow10(n))
    ensures multiset(u) == multiset(t) && |u| == |t|
    ensures KeySorted(u, Pow10(n + 1))
  {
    ByDigitPermutes(t, Pow10(n));
    LsdStep(t, Pow10(n));
  }

  /**
   * LSD radix sort is correct: when every value is a non-negative number of
   * at most k digits, k passes sort the list without changing its values.
   */
  lemma RadixSorts(s: seq<int>, k: nat)
    requires forall i :: 0 <= i < |s| ==> 0 <= s[i] < Pow10(k)
    ensures Sorted(Passes(s, k))
    ensures multiset(Passes(s, k)) == multiset(s)
  {
    PassesKeySorted(s, k);
    var t := Passes(s, k);
    forall i | 0 <= i < |t| ensures 0 <= t[i] < Pow10(k) {
      assert t[i] in multiset(s);
    }
    KeySortedSorted(t, Pow10(k));
  }

  /** Place values grow with the number of passes. */
  lemma {:induction false} Pow10Monotone(a: nat, b: nat)
    requires a <= b
    ensures Pow10(a) <= Pow10(b)
    decreases b - a
  {
    if a < b {
      Pow10Monotone(a, b - 1);
    }
  }

  /** A value below 10^k has at most k digits. */
  lemma {:induction false} DigitCountBound(m: int, k: nat)
    requires m < Pow10(k)
    ensures DigitCount(m) <= k
  {
    if m > 0 {
      DigitCountBound(m / 10, k - 1);
    }
  }

  /** Dropping the last digit of a positive value removes one digit. */
  lemma DigitCountStep(v: int, P: int)
    requires v >= 0 && P > 0 && v / P > 0
    ensures DigitCount(v / P) == 1 + DigitCount(v / (P * 10))
  {
    PlaceSplit(v, P);
    assert 10 * P == P * 10;
  }

  // ---------------------------------------------------------------------
  // The state of one counting-sort pass, loop by loop
  // ---------------------------------------------------------------------

  /** count holds, per digit, how many of a[..i] have that key. */
  ghost predicate Counted(a: seq<int>, key: seq<int>, i: int, count: seq<int>) {
    && |key| == |a| && 0 <= i <= |a| && |count| == 10
    && forall d {:trigger Bucket(a[..i], key[..i], d)} :: 0 <= d < 10 ==> count[d] == |Bucket(a[..i], key[..i], d)|
  }

  /** Counting a[i] under its key keeps the counts right. */
  lemma CountStep(a: seq<int>, key: seq<int>, i: int, count: seq<int>)
    requires Counted(a, key, i, count) && i < |a| && KeysBelow(key, 10)
    ensures Counted(a, key, i + 1, count[key[i] := count[key[i]] + 1])
  {
    forall d | 0 <= d < 10 {
      BucketExtend(a, key, i, d);
    }
  }

  /**
   * The running sum: below i, count[d] is where the run of digit d ends;
   * from i on it is still the size of bucket d.
   */
  ghost predicate Summed(a: seq<int>, key: seq<int>, i: int, count: seq<int>) {
    && |key| == |a| && 1 <= i <= 10 && |count| == 10
    && (forall d {:trigger Start(a, key, d)} :: 0 < d <= i ==> count[d - 1] == Start(a, key, d))
    && (forall d {:trigger Bucket(a, key, d)} :: i <= d < 10 ==> count[d] == |Bucket(a, key, d)|)
  }

  /** The counts of all of a start the running sum. */
  lemma SumStart(a: seq<int>, key: seq<int>, count: seq<int>)
    requires Counted(a, key, |a|, count)
    ensures Summed(a, key, 1, count)
  {
    assert a[..|a|] == a && key[..|a|] == key;
    forall d | 0 <= d < 10 ensures count[d] == |Bucket(a, key, d)| {
      assert count[d] == |Bucket(a[..|a|], key[..|a|], d)|;
    }
    assert BucketsBelow(a, key, 0) == [];
    assert BucketsBelow(a, key, 1) == BucketsBelow(a, key, 0) + Bucket(a, key, 0);
  }

  /** Adding the end of run i - 1 to the size of bucket i gives the end of run i. */
  lemma SumStep(a: seq<int>, key: seq<int>, i: int, count: seq<int>)
    requires Summed(a, key, i, count) && i < 10
    ensures Summed(a, key, i + 1, count[i := count[i] + count[i - 1]])
  {
    var count' := count[i := count[i] + count[i - 1]];
    assert count[i - 1] == Start(a, key, i);
    assert count[i] == |Bucket(a, key, i)|;
    assert Start(a, key, i + 1) == Start(a, key, i) + |Bucket(a, key, i)|;
    forall d | 0 < d <= i + 1 ensures count'[d - 1] == Start(a, key, d) {
      if d <= i {
        assert count'[d - 1] == count[d - 1];
      }
    }
    forall d | i + 1 <= d < 10 ensures count'[d] == |Bucket(a, key, d)| {
      assert count'[d] == count[d];
    }
  }

  /**
   * Placing from the back into out, whose goal is target: a[i + 1..] is in
   * place, and the counts are as Remaining says.
   */
  ghost predicate Placing(a: seq<int>, key: seq<int>, i: int, count: seq<int>, out: seq<int>, target: seq<int>) {
    && |out| == |a| == |target|
    && Remaining(a, key, i, count)
    && (forall d, k {:trigger Start(a, key, d), target[k]} :: 0 < d <= 10 && count[d - 1] <= k < Start(a, key, d) && 0 <= k < |out| ==> out[k] == target[k])
  }

  /** count[d] is the start of bucket d plus the number of a[..i + 1] still to place there. */
  ghost predicate Remaining(a: seq<int>, key: seq<int>, i: int, count: seq<int>) {
    && |key| == |a| && -1 <= i < |a| && |count| == 10
    && (forall d {:trigger Start(a, key, d)} :: 0 <= d < 10 ==> count[d] == Start(a, key, d) + |Bucket(a[..i + 1], key[..i + 1], d)|)
  }

  lemma PlaceStart(a: seq<int>, key: seq<int>, count: seq<int>, out: seq<int>, target: seq<int>)
    requires Summed(a, key, 10, count) && |out| == |a| && KeysBelow(key, 10)
    requires target == BucketsBelow(a, key, 10)
    ensures Placing(a, key, |a| - 1, count, out, target)
  {
    BucketsPermute(a, key, 10);
    assert a[..|a|] == a && key[..|a|] == key;
    forall d | 0 <= d < 10 ensures count[d] == Start(a, key, d) + |Bucket(a[..|a|], key[..|a|], d)| {
      assert count[d] == Start(a, key, d + 1);
    }
    forall d | 0 < d <= 10 ensures count[d - 1] == Start(a, key, d) {
    }
  }

  /**
   * Placing a[i] just before the end of its digit's run puts it where one
   * pass puts it, and leaves count[key[i]] one lower.
   */
  lemma PlaceStep(a: seq<int>, key: seq<int>, i: int, count: seq<int>, out: seq<int>, target: seq<int>)
    requires Placing(a, key, i, count, out, target) && 0 <= i && KeysBelow(key, 10)
    requires target == BucketsBelow(a, key, 10)
    ensures 0 <= count[key[i]] - 1 < |out|
    ensures Placing(a, key, i - 1, count[key[i] := count[key[i]] - 1], out[count[key[i]] - 1 := a[i]], target)
  {
    var d0 := key[i];
    var pos := count[d0] - 1;
    PlacePosition(a, key, i, count);
    PlaceTarget(a, key, i, pos, target);
    var count', out' := count[d0 := pos], out[pos := a[i]];
    PlaceCounts(a, key, i, count);
    forall d, k | 0 < d <= 10 && count'[d - 1] <= k < Start(a, key, d) && 0 <= k < |out'|
      ensures out'[k] == target[k]
    {
      if k != pos {
        assert count[d - 1] <= k;
      }
    }
  }

  /** The slot just below count[key[i]] comes after a[..i]'s share of bucket key[i]. */
  lemma PlacePosition(a: seq<int>, key: seq<int>, i: int, count: seq<int>)
    requires Remaining(a, key, i, count) && 0 <= i && 0 <= key[i] < 10
    ensures count[key[i]] - 1 == Start(a, key, key[i]) + |Bucket(a[..i], key[..i], key[i])|
  {
    BucketExtend(a, key, i, key[i]);
    assert count[key[i]] == Start(a, key, key[i]) + |Bucket(a[..i + 1], key[..i + 1], key[i])|;
  }

  /** That slot is where a[i] belongs once the buckets are laid out in order. */
  lemma PlaceTarget(a: seq<int>, key: seq<int>, i: int, pos: int, target: seq<int>)
    requires |key| == |a| && 0 <= i < |a| && 0 <= key[i] < 10
    requires target == BucketsBelow(a, key, 10)
    requires pos == Start(a, key, key[i]) + |Bucket(a[..i], key[..i], key[i])|
    ensures 0 <= pos < |target| && target[pos] == a[i]
  {
    BucketAt(a, key, i);
    BucketsAt(a, key, key[i], 10, |Bucket(a[..i], key[..i], key[i])|);
  }

  /** Lowering count[key[i]] by one leaves each count at its bucket's start plus a[..i]'s share. */
  lemma PlaceCounts(a: seq<int>, key: seq<int>, i: int, count: seq<int>)
    requires Remaining(a, key, i, count) && 0 <= i && KeysBelow(key, 10)
    ensures Remaining(a, key, i - 1, count[key[i] := count[key[i]] - 1])
  {
    var count' := count[key[i] := count[key[i]] - 1];
    assert a[..i - 1 + 1] == a[..i] && key[..i - 1 + 1] == key[..i];
    forall d | 0 <= d < 10 ensures count'[d] == Start(a, key, d) + |Bucket(a[..i], key[..i], d)| {
      BucketExtend(a, key, i, d);
      assert count[d] == Start(a, key, d) + |Bucket(a[..i + 1], key[..i + 1], d)|;
    }
  }

  /** With everything placed, out is its goal. */
  lemma PlaceDone(a: seq<int>, key: seq<int>, count: seq<int>, out: seq<int>, target: seq<int>)
    requires Placing(a, key, -1, count, out, target) && KeysBelow(key, 10)
    requires target == BucketsBelow(a, key, 10)
    ensures out == target
  {
    forall k | 0 <= k < |out| ensures out[k] == target[k] {
      var d := BucketOf(a, key, k, 10);
    }
  }

  /** The whole of a sequence, taken as a prefix, is the sequence itself. */
  lemma TakeAll(s: seq<int>)
    ensures s[..|s|] == s
  {
  }

  /** A non-negative value whose quotient by P is zero is below P. */
  lemma QuotientZero(v: int, P: int)
    requires 0 <= v && P > 0 && v / P <= 0
    ensures v < P
  {
    MulSign(P, v / P);
    assert v == P * (v / P) + v % P;
  }

  /** t extends t0 by the lists after passes 1, ..., n, in that order. */
  ghost predicate Reported(t0: seq<seq<int>>, t: seq<seq<int>>, input: seq<int>, n: nat) {
    t0 <= t && |t| == |t0| + n &&
    forall k :: |t0| <= k < |t| ==> t[k] == Passes(input, k - |t0| + 1)
  }

  /** Reporting the list after pass n + 1 keeps the trace in step. */
  lemma ReportStep(t0: seq<seq<int>>, t: seq<seq<int>>, input: seq<int>, n: nat, x: seq<int>)
    requires Reported(t0, t, input, n) && x == Passes(input, n + 1)
    ensures Reported(t0, t + [x], input, n + 1)
  {
    var t' := t + [x];
    forall k | |t0| <= k < |t'|
      ensures t'[k] == Passes(input, k - |t0| + 1)
    {
      if k < |t| {
        assert t'[k] == t[k];
      }
    }
  }

  /**
   * Once the largest value's quotient by 10^n is zero, n is its digit
   * count and n passes have sorted the list.
   */
  lemma SortDone(input: seq<int>, arrMax: int, loopCount: int, n: nat)
    requires |input| > 0 && NonNegative(input) && arrMax == Max(input)
    requires loopCount == Pow10(n) && arrMax / loopCount <= 0
    requires n + DigitCount(arrMax / loopCount) == DigitCount(arrMax)
    ensures n == DigitCount(Max(input))
    ensures Sorted(Passes(input, n)) && multiset(Passes(input, n)) == multiset(input)
  {
    assert 0 <= input[0] <= arrMax;
    QuotientZero(arrMax, loopCount);
    RadixSorts(input, n);
  }

  class RadixSorter {
    var numbers: seq<int>
    /** Every array printed after a pass, in order. */
    ghost var trace: seq<seq<int>>

    constructor (input: seq<int>)
      ensures numbers == input && trace == []
    {
      numbers := input;
      trace := [];
    }

    /**
     * One pass: a stable counting sort of numberArray[..arrLength] by the
     * digit at place value loopCount, copied back into numberArray. Nothing
     * past arrLength changes.
     */
    static method RadixSort(numberArray: array<int>, arrLength: int, loopCount: int)
      requires 0 <= arrLength <= numberArray.Length && loopCount > 0
      requires NonNegative(numberArray[..arrLength])
      modifies numberArray
      ensures numberArray[..arrLength] == ByDigit(old(numberArray[..arrLength]), loopCount)
      ensures numberArray[arrLength..] == old(numberArray[arrLength..])
    {
      var numCount := CountDigits(numberArray, arrLength, loopCount);
      var output := PlaceByDigit(numberArray, arrLength, loopCount, numCount, numberArray[..arrLength], Digits(numberArray[..arrLength], loopCount));
      var i := 0;
      while i < arrLength
        invariant 0 <= i <= arrLength
        invariant numberArray[..i] == output[..i]
        invariant numberArray[arrLength..] == old(numberArray[arrLength..])
        modifies numberArray
      {
        numberArray[i] := output[i];
        i := i + 1;
      }
      assert output[..arrLength] == output[..];
    }

    /**
     * The first half of a pass: numCount[d] becomes the end position, in the
     * output, of the run of values whose digit at loopCount is d. The values
     * are counted per digit and the counts summed up.
     */
    static method CountDigits(numberArray: array<int>, arrLength: int, loopCount: int) returns (numCount: array<int>)
      requires 0 <= arrLength <= numberArray.Length && loopCount > 0
      requires NonNegative(numberArray[..arrLength])
      ensures fresh(numCount)
      ensures Summed(numberArray[..arrLength], Digits(numberArray[..arrLength], loopCount), 10, numCount[..])
    {
      ghost var a := numberArray[..arrLength];
      ghost var key := Digits(a, loopCount);
      numCount := new int[10];
      var i := 0;
      while i < 10
        invariant 0 <= i <= 10
        invariant forall d :: 0 <= d < i ==> numCount[d] == 0
        modifies numCount
      {
        numCount[i] := 0;
        i := i + 1;
      }

      // Values are non-negative, so the truncating `/` and `%` of C# give
      // the same digit as Dafny's.
      i := 0;
      while i < arrLength
        invariant Counted(a, key, i, numCount[..])
        modifies numCount
      {
        ghost var count := numCount[..];
        CountStep(a, key, i, count);
        assert numberArray[i] == a[i] && key[i] == Digit(a[i], loopCount);
        var digit := (numberArray[i] / loopCount) % 10;
        numCount[digit] := numCount[digit] + 1;
        assert numCount[..] == count[key[i] := count[key[i]] + 1];
        i := i + 1;
      }

      SumStart(a, key, numCount[..]);
      i := 1;
      while i < 10
        invariant Summed(a, key, i, numCount[..])
        modifies numCount
      {
        ghost var count := numCount[..];
        SumStep(a, key, i, count);
        numCount[i] := numCount[i] + numCount[i - 1];
        assert numCount[..] == count[i := count[i] + count[i - 1]];
        i := i + 1;
      }
    }

    /**
     * The second half of a pass: the values are placed from the last one
     * back, each just before the end of its digit's run, so that values with
     * equal digits keep their order. The result is what one pass makes of
     * numberArray[..arrLength].
     */
    static method PlaceByDigit(numberArray: array<int>, arrLength: int, loopCount: int, numCount: array<int>,
                               ghost a: seq<int>, ghost key: seq<int>) returns (output: array<int>)
      requires 0 <= arrLength <= numberArray.Length && loopCount > 0 && numCount != numberArray
      requires a == numberArray[..arrLength] && key == Digits(a, loopCount)
      requires Summed(a, key, 10, numCount[..])
      modifies numCount
      ensures fresh(output) && output.Length == arrLength
      ensures output[..] == ByDigit(a, loopCount)
    {
      ghost var target := ByDigit(a, loopCount);
      assert target == BucketsBelow(a, key, 10);
      output := new int[arrLength];
      ghost var count, placed := numCount[..], output[..];
      PlaceStart(a, key, count, placed, target);
      var i := arrLength - 1;
      while i >= 0
        invariant numCount[..] == count && output[..] == placed
        invariant Placing(a, key, i, count, placed, target)
        modifies output, numCount
      {
        count, placed := PlaceNext(numberArray, arrLength, loopCount, numCount, output, i, a, key, target, count, placed);
        i := i - 1;
      }
      PlaceDone(a, key, count, placed, target);
    }

    /**
     * One step of the placing loop: numberArray[i] goes into output just
     * below the count of its digit, keeping Placing with i one lower.
     */
    static method PlaceNext(numberArray: array<int>, arrLength: int, loopCount: int, numCount: array<int>, output: array<int>,
                            i: int, ghost a: seq<int>, ghost key: seq<int>, ghost target: seq<int>,
                            ghost count: seq<int>, ghost placed: seq<int>)
      returns (ghost count': seq<int>, ghost placed': seq<int>)
      requires 0 <= arrLength <= numberArray.Length && loopCount > 0 && 0 <= i
      requires output != numCount && numCount.Length == 10
      requires a == numberArray[..arrLength] && key == Digits(a, loopCount) && target == BucketsBelow(a, key, 10)
      requires numCount[..] == count && output[..] == placed
      requires Placing(a, key, i, count, placed, target)
      modifies output, numCount
      ensures numCount[..] == count' && output[..] == placed'
      ensures 0 <= count[key[i]] - 1 < |placed| && placed' == placed[count[key[i]] - 1 := a[i]]
      ensures count' == count[key[i] := count[key[i]] - 1]
      ensures Placing(a, key, i - 1, count', placed', target)
    {
      PlaceStep(a, key, i, count, placed, target);
      assert numberArray[i] == a[i] && key[i] == Digit(a[i], loopCount);
      var digit := (numberArray[i] / loopCount) % 10;
      assert digit == key[i];
      Place(output, numCount, digit, numberArray[i]);
      placed' := placed[count[key[i]] - 1 := a[i]];
      count' := count[key[i] := count[key[i]] - 1];
    }

    /**
     * One placement: value goes just before position numCount[digit] of
     * output, and numCount[digit] goes down by one.
     */
    static method Place(output: array<int>, numCount: array<int>, digit: int, value: int)
      requires output != numCount && 0 <= digit < numCount.Length && 1 <= numCount[digit] <= output.Length
      modifies output, numCount
      ensures output[..] == old(output[..])[old(numCount[digit]) - 1 := value]
      ensures numCount[..] == old(numCount[..])[digit := old(numCount[digit]) - 1]
    {
      output[numCount[digit] - 1] := value;
      numCount[digit] := numCount[digit] - 1;
    }

    /**
     * One call of RadixSort over the whole array, seen as the step from
     * pass passes to pass passes + 1 of the input.
     */
    static method NextPass(numberArray: array<int>, arrLength: int, loopCount: int, ghost input: seq<int>, ghost passes: nat)
      requires arrLength == numberArray.Length
      requires NonNegative(input) && loopCount == Pow10(passes)
      requires numberArray[..] == Passes(input, passes) && NonNegative(numberArray[..])
      modifies numberArray
      ensures numberArray[..] == Passes(input, passes + 1) && NonNegative(numberArray[..])
    {
      ghost var before := numberArray[..];
      TakeAll(before);
      RadixSort(numberArray, arrLength, loopCount);
      TakeAll(numberArray[..]);
      PassStep(input, passes, before, numberArray[..]);
    }

    /** A fresh array holding the list (List.ToArray). */
    static method ToArray(s: seq<int>) returns (a: array<int>)
      ensures fresh(a) && a[..] == s
    {
      a := new int[|s|](i requires 0 <= i < |s| => s[i]);
      assert a[..] == s;
    }

    /**
     * Radix-sorts the list: one pass per digit of its largest value, each
     * pass reported. The place value stays at most 10^9, so multiplying it
     * by 10 never overflows a 32-bit int.
     */
    method Sort()
      requires |numbers| > 0
      requires forall k :: 0 <= k < |numbers| ==> 0 <= numbers[k] < 1_000_000_000
      modifies this
      ensures numbers == Passes(old(numbers), DigitCount(Max(old(numbers))))
      ensures Sorted(numbers)
      ensures multiset(numbers) == multiset(old(numbers))
      ensures old(trace) <= trace
      ensures |trace| == |old(trace)| + DigitCount(Max(old(numbers)))
      ensures forall k :: |old(trace)| <= k < |trace| ==> trace[k] == Passes(old(numbers), k - |old(trace)| + 1)
    {
      var input := numbers;
      var numberArray := ToArray(input);
      var arrLength := numberArray.Length;

      var arrMax := Max(input);
      assert Pow10(9) == 1_000_000_000;
      DigitCountBound(arrMax, 9);
      var loopCount := 1;
      ghost var passes: nat := 0;
      while arrMax / loopCount > 0
        invariant loopCount == Pow10(passes) && loopCount <= 1_000_000_000
        invariant numberArray[..] == Passes(input, passes) && NonNegative(numberArray[..])
        invariant passes + DigitCount(arrMax / loopCount) == DigitCount(arrMax)
        invariant Reported(old(trace), trace, input, passes)
        decreases DigitCount(arrMax / loopCount)
      {
        NextPass(numberArray, arrLength, loopCount, input, passes);
        ReportStep(old(trace), trace, input, passes, numberArray[..]);
        trace := trace + [numberArray[..]];

        DigitCountStep(arrMax, loopCount);
        Pow10Monotone(passes + 1, 9);
        loopCount := loopCount * 10;
        passes := passes + 1;
      }
      numbers := numberArray[..];
      SortDone(input, arrMax, loopCount, passes);
    }
  }
}
