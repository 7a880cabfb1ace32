// The specification of one pass of RadixSorter: a stable distribution of the
// values into ten buckets by one decimal digit, and why passes from the lowest
// digit up sort a list. The buckets are defined over a sequence of keys, one
// per value, so that the reasoning about them needs no arithmetic; the keys of
// a pass are the digits of the values at its place value.
module RadixDigits {
  import opened SortSpec

  /**
   * The decimal digit of v at the given place value, (v / place) % 10. For
   * v >= 0 Dafny's `/` and `%` agree with C#'s.
   */
  function Digit(v: int, place: int): int
    requires place > 0
  {
    (v / place) % 10
  }

  /** The digit at place of every value of s, position by position. */
  function Digits(s: seq<int>, place: int): (key: seq<int>)
    requires place > 0
    ensures |key| == |s|
    ensures forall i :: 0 <= i < |s| ==> key[i] == Digit(s[i], place) && 0 <= key[i] < 10
  {
    if s == [] then [] else Digits(s[..|s| - 1], place) + [Digit(s[|s| - 1], place)]
  }

  /** Every key is one of the bucket numbers 0 .. e-1. */
  predicate KeysBelow(key: seq<int>, e: int) {
    forall k :: 0 <= k < |key| ==> 0 <= key[k] < e
  }

  /** The values s[i] whose key[i] is d, in the order they occur in s. */
  function Bucket(s: seq<int>, key: seq<int>, d: int): (b: seq<int>)
    requires |key| == |s|
    ensures |b| <= |s|
  {
    if s == [] then []
    else Bucket(s[..|s| - 1], key[..|s| - 1], d) + (if key[|s| - 1] == d then [s[|s| - 1]] else [])
  }

  /** The buckets 0 .. d-1, one after the other. */
  function BucketsBelow(s: seq<int>, key: seq<int>, d: int): seq<int>
    requires |key| == |s| && 0 <= d <= 10
  {
    if d == 0 then [] else BucketsBelow(s, key, d - 1) + Bucket(s, key, d - 1)
  }

  /** Where bucket d starts once all ten buckets are laid out in order. */
  function Start(s: seq<int>, key: seq<int>, d: int): int
    requires |key| == |s| && 0 <= d <= 10
  {
    |BucketsBelow(s, key, d)|
  }

  /** What one pass at place value `place` makes of s: its ten digit buckets in order. */
  function ByDigit(s: seq<int>, place: int): seq<int>
    requires place > 0
  {
    BucketsBelow(s, Digits(s, place), 10)
  }

  // ---------------------------------------------------------------------
  // One bucket
  // ---------------------------------------------------------------------

  /** Appending a value appends it to its own bucket and to no other. */
  lemma BucketSnoc(s: seq<int>, key: seq<int>, x: int, kx: int, d: int)
    requires |key| == |s|
    ensures Bucket(s + [x], key + [kx], d) == Bucket(s, key, d) + (if kx == d then [x] else [])
  {
    assert (s + [x])[..|s|] == s;
    assert (key + [kx])[..|s|] == key;
  }

  /** Taking one more value of s into account extends its bucket and no other. */
  lemma BucketExtend(s: seq<int>, key: seq<int>, i: int, d: int)
    requires |key| == |s| && 0 <= i < |s|
    ensures Bucket(s[..i + 1], key[..i + 1], d) == Bucket(s[..i], key[..i], d) + (if key[i] == d then [s[i]] else [])
  {
    assert s[..i + 1] == s[..i] + [s[i]];
    assert key[..i + 1] == key[..i] + [key[i]];
    BucketSnoc(s[..i], key[..i], s[i], key[i], d);
  }

  /** The bucket of a prefix of s is a prefix of the bucket of s. */
  lemma {:induction false} BucketPrefix(s: seq<int>, key: seq<int>, m: int, d: int)
    requires |key| == |s| && 0 <= m <= |s|
    ensures Bucket(s[..m], key[..m], d) <= Bucket(s, key, d)
    decreases |s| - m
  {
    if m < |s| {
      BucketPrefix(s, key, m + 1, d);
      assert s[..m + 1] == s[..m] + [s[m]];
      assert key[..m + 1] == key[..m] + [key[m]];
      BucketSnoc(s[..m], key[..m], s[m], key[m], d);
    } else {
      assert s[..m] == s && key[..m] == key;
    }
  }

  /**
   * s[i] sits in its bucket right after the values of the same bucket that
   * come before it in s: this is what makes a pass stable.
   */
  lemma BucketAt(s: seq<int>, key: seq<int>, i: int)
    requires |key| == |s| && 0 <= i < |s|
    ensures |Bucket(s[..i], key[..i], key[i])| < |Bucket(s, key, key[i])|
    ensures Bucket(s, key, key[i])[|Bucket(s[..i], key[..i], key[i])|] == s[i]
  {
    assert s[..i + 1] == s[..i] + [s[i]];
    assert key[..i + 1] == key[..i] + [key[i]];
    BucketSnoc(s[..i], key[..i], s[i], key[i], key[i]);
    BucketPrefix(s, key, i + 1, key[i]);
  }

  /** Every value of bucket d is a value s[m] of s with key[m] == d. */
  lemma {:induction false} BucketSource(s: seq<int>, key: seq<int>, d: int, c: int) returns (m: int)
    requires |key| == |s| && 0 <= c < |Bucket(s, key, d)|
    ensures 0 <= m < |s| && key[m] == d && Bucket(s, key, d)[c] == s[m]
  {
    var init, kinit := s[..|s| - 1], key[..|s| - 1];
    if c < |Bucket(init, kinit, d)| {
      m := BucketSource(init, kinit, d, c);
    } else {
      m := |s| - 1;
    }
  }

  // ---------------------------------------------------------------------
  // The buckets laid out in order
  // ---------------------------------------------------------------------

  /** The buckets below d are a prefix of the buckets below any later e. */
  lemma {:induction false} BucketsBelowPrefix(s: seq<int>, key: seq<int>, d: int, e: int)
    requires |key| == |s| && 0 <= d <= e <= 10
    ensures BucketsBelow(s, key, d) <= BucketsBelow(s, key, e)
    decreases e - d
  {
    if d < e {
      BucketsBelowPrefix(s, key, d, e - 1);
      var lower, middle := BucketsBelow(s, key, d), BucketsBelow(s, key, e - 1);
      assert BucketsBelow(s, key, e) == middle + Bucket(s, key, e - 1);
      forall j | 0 <= j < |lower| ensures lower[j] == BucketsBelow(s, key, e)[j] {
        assert lower[j] == middle[j];
      }
    }
  }

  /** Bucket starts never decrease with the bucket number. */
  lemma StartMonotone(s: seq<int>, key: seq<int>)
    requires |key| == |s|
    ensures forall d, e :: 0 <= d <= e <= 10 ==> Start(s, key, d) <= Start(s, key, e)
  {
    forall d, e | 0 <= d <= e <= 10 ensures Start(s, key, d) <= Start(s, key, e) {
      BucketsBelowPrefix(s, key, d, e);
    }
  }

  /**
   * Position c of bucket d is position Start(d) + c of the buckets below any
   * e > d laid out in order.
   */
  lemma BucketsAt(s: seq<int>, key: seq<int>, d: int, e: int, c: int)
    requires |key| == |s| && 0 <= d < e <= 10
    requires 0 <= c < |Bucket(s, key, d)|
    ensures Start(s, key, d) + c < |BucketsBelow(s, key, e)|
    ensures BucketsBelow(s, key, e)[Start(s, key, d) + c] == Bucket(s, key, d)[c]
  {
    LastBucketAt(s, key, d, c);
    BucketsBelowPrefix(s, key, d + 1, e);
    PrefixAt(BucketsBelow(s, key, d + 1), BucketsBelow(s, key, e), Start(s, key, d) + c);
  }

  /** Bucket d is the last part of the buckets below d + 1. */
  lemma LastBucketAt(s: seq<int>, key: seq<int>, d: int, c: int)
    requires |key| == |s| && 0 <= d < 10
    requires 0 <= c < |Bucket(s, key, d)|
    ensures Start(s, key, d) + c < |BucketsBelow(s, key, d + 1)|
    ensures BucketsBelow(s, key, d + 1)[Start(s, key, d) + c] == Bucket(s, key, d)[c]
  {
  }

  /** A prefix agrees with the whole sequence at each of its positions. */
  lemma PrefixAt(a: seq<int>, b: seq<int>, j: int)
    requires a <= b && 0 <= j < |a|
    ensures j < |b| && a[j] == b[j]
  {
    assert a == b[..|a|];
  }

  /** Every position k of the buckets below e lies in one bucket d < e. */
  lemma {:induction false} BucketOf(s: seq<int>, key: seq<int>, k: int, e: int) returns (d: int)
    requires |key| == |s| && 0 <= e <= 10
    requires 0 <= k < Start(s, key, e)
    ensures 0 <= d < e && Start(s, key, d) <= k < Start(s, key, d + 1)
  {
    if k >= Start(s, key, e - 1) {
      d := e - 1;
    } else {
      d := BucketOf(s, key, k, e - 1);
    }
  }

  /** The buckets of an empty list are empty. */
  lemma {:induction false} EmptyBuckets(d: int)
    requires 0 <= d <= 10
    ensures BucketsBelow([], [], d) == []
  {
    if d > 0 {
      EmptyBuckets(d - 1);
    }
  }

  /** Appending x with key kx adds x below d exactly when kx is below d. */
  lemma {:induction false} BucketsBelowSnoc(s: seq<int>, key: seq<int>, x: int, kx: int, d: int)
    requires |key| == |s| && 0 <= d <= 10
    ensures multiset(BucketsBelow(s + [x], key + [kx], d))
      == multiset(BucketsBelow(s, key, d)) + (if 0 <= kx < d then multiset{x} else multiset{})
  {
    if d > 0 {
      BucketsBelowSnoc(s, key, x, kx, d - 1);
      BucketSnoc(s, key, x, kx, d - 1);
    }
  }

  /** With every key a bucket number below e, the buckets below e hold exactly the values of s. */
  lemma {:induction false} BucketsPermute(s: seq<int>, key: seq<int>, e: int)
    requires |key| == |s| && 0 <= e <= 10 && KeysBelow(key, e)
    ensures multiset(BucketsBelow(s, key, e)) == multiset(s)
    ensures |BucketsBelow(s, key, e)| == |s|
  {
    if s == [] {
      EmptyBuckets(e);
    } else {
      var init, kinit := s[..|s| - 1], key[..|s| - 1];
      BucketsPermute(init, kinit, e);
      assert s == init + [s[|s| - 1]] && key == kinit + [key[|s| - 1]];
      BucketsBelowSnoc(init, kinit, s[|s| - 1], key[|s| - 1], e);
    }
    assert |multiset(BucketsBelow(s, key, e))| == |BucketsBelow(s, key, e)|;
  }

  /** One pass only rearranges the values. */
  lemma ByDigitPermutes(s: seq<int>, place: int)
    requires place > 0
    ensures multiset(ByDigit(s, place)) == multiset(s)
    ensures |ByDigit(s, place)| == |s|
  {
    BucketsPermute(s, Digits(s, place), 10);
  }

  // ---------------------------------------------------------------------
  // Arithmetic of place values
  // ---------------------------------------------------------------------

  /** A positive multiple of m is at least m. */
  lemma {:induction false} MulAtLeast(m: int, x: int)
    requires m > 0 && x >= 1
    ensures m * x >= m
  {
    if x > 1 {
      MulAtLeast(m, x - 1);
      assert m * x == m * (x - 1) + m;
    }
  }

  /** Multiplying by a positive m keeps an integer's sign and does not shrink it. */
  lemma MulSign(m: int, x: int)
    requires m > 0
    ensures x >= 1 ==> m * x >= m
    ensures x <= -1 ==> m * x <= -m
  {
    if x >= 1 {
      MulAtLeast(m, x);
    } else if x <= -1 {
      MulAtLeast(m, -x);
      assert m * x == -(m * -x);
    }
  }

  /** Quotient and remainder are the only ones that fit. */
  lemma DivModUnique(v: int, m: int, q: int, r: int)
    requires m > 0 && 0 <= r < m && v == m * q + r
    ensures q == v / m && r == v % m
  {
    var q0, r0 := v / m, v % m;
    MulSign(m, q - q0);
    assert m * (q - q0) == m * q - m * q0;
  }

  /**
   * v = P * q + r with q = 10 * q2 + d is v = (10 * P) * q2 + (d * P + r),
   * and d * P + r fits below 10 * P.
   */
  lemma TenfoldPlace(v: int, P: int, q: int, r: int, q2: int, d: int)
    requires P > 0
    requires v == P * q + r && 0 <= r < P
    requires q == 10 * q2 + d && 0 <= d < 10
    ensures q2 == v / (10 * P) && d * P + r == v % (10 * P)
  {
    TenfoldSum(P, q, r, q2, d);
    TenfoldBound(P, r, d);
    DivModUnique(v, 10 * P, q2, d * P + r);
  }

  /** P * (10 * q2 + d) + r regrouped around 10 * P. */
  lemma TenfoldSum(P: int, q: int, r: int, q2: int, d: int)
    requires q == 10 * q2 + d
    ensures P * q + r == (10 * P) * q2 + (d * P + r)
  {
    assert P * q == P * (10 * q2) + P * d;
    assert P * (10 * q2) == (10 * P) * q2;
  }

  /** A digit times P plus a remainder below P stays below 10 * P. */
  lemma TenfoldBound(P: int, r: int, d: int)
    requires P > 0 && 0 <= r < P && 0 <= d < 10
    ensures 0 <= d * P + r < 10 * P
  {
    MulSign(P, d);
    MulSign(P, 9 - d);
    assert P * (9 - d) == 9 * P - P * d;
    assert P * d == d * P;
  }

  /**
   * Moving the place value up by one digit: the quotient drops its last digit,
   * and the remainder gains the digit at the old place value in front.
   */
  lemma PlaceSplit(v: int, P: int)
    requires P > 0
    ensures v / (10 * P) == v / P / 10
    ensures v % (10 * P) == Digit(v, P) * P + v % P
  {
    TenfoldPlace(v, P, v / P, v % P, v / P / 10, v / P % 10);
  }

  /** Modulo 10 * P, a smaller digit at P puts a value first. */
  lemma DigitOrder(x: int, y: int, P: int)
    requires P > 0
    requires Digit(x, P) < Digit(y, P)
    ensures x % (10 * P) <= y % (10 * P)
  {
    PlaceSplit(x, P);
    PlaceSplit(y, P);
    MulSign(P, Digit(y, P) - Digit(x, P));
    assert Digit(y, P) * P - Digit(x, P) * P == P * (Digit(y, P) - Digit(x, P));
  }

  /** With equal digits at P, the remainders modulo P decide the order modulo 10 * P. */
  lemma SameDigitOrder(x: int, y: int, P: int)
    requires P > 0
    requires Digit(x, P) == Digit(y, P) && x % P <= y % P
    ensures x % (10 * P) <= y % (10 * P)
  {
    PlaceSplit(x, P);
    PlaceSplit(y, P);
  }

  // ---------------------------------------------------------------------
  // Why passes from the lowest digit up sort the list
  // ---------------------------------------------------------------------

  /** s is ordered by the remainders of its values modulo P, its lowest digits. */
  predicate KeySorted(s: seq<int>, P: int)
    requires P > 0
  {
    forall i, j :: 0 <= i < j < |s| ==> s[i] % P <= s[j] % P
  }

  /** A bucket keeps the order of s, so it stays ordered by the lower digits. */
  lemma {:induction false} BucketKeySorted(s: seq<int>, key: seq<int>, d: int, P: int)
    requires |key| == |s| && P > 0 && KeySorted(s, P)
    ensures KeySorted(Bucket(s, key, d), P)
  {
    if s != [] {
      var init, kinit, last := s[..|s| - 1], key[..|s| - 1], s[|s| - 1];
      var b := Bucket(init, kinit, d);
      assert KeySorted(init, P);
      BucketKeySorted(init, kinit, d, P);
      if key[|s| - 1] == d {
        forall i, j | 0 <= i < j < |b| + 1 ensures (b + [last])[i] % P <= (b + [last])[j] % P {
          if j == |b| {
            var m := BucketSource(init, kinit, d, i);
          }
        }
      }
    }
  }

  /**
   * The step of LSD radix sort: a pass at place P over values already ordered
   * by their digits below P orders them by their digits below 10 * P.
   */
  lemma LsdStep(s: seq<int>, P: int)
    requires P > 0 && KeySorted(s, P)
    ensures KeySorted(ByDigit(s, P), 10 * P)
  {
    var key := Digits(s, P);
    BucketsPermute(s, key, 10);
    StartMonotone(s, key);
    forall i, j | 0 <= i < j < |ByDigit(s, P)|
      ensures ByDigit(s, P)[i] % (10 * P) <= ByDigit(s, P)[j] % (10 * P)
    {
      LsdPair(s, P, i, j);
    }
  }

  /** The pair (i, j) of one pass's result, for LsdStep. */
  lemma LsdPair(s: seq<int>, P: int, i: int, j: int)
    requires P > 0 && KeySorted(s, P)
    requires forall d, e :: 0 <= d <= e <= 10 ==> Start(s, Digits(s, P), d) <= Start(s, Digits(s, P), e)
    requires 0 <= i < j < Start(s, Digits(s, P), 10)
    ensures ByDigit(s, P)[i] % (10 * P) <= ByDigit(s, P)[j] % (10 * P)
  {
    var key := Digits(s, P);
    var di := BucketOf(s, key, i, 10);
    var dj := BucketOf(s, key, j, 10);
    var x, mx := Bucketed(s, key, di, 10, i);
    var y, my := Bucketed(s, key, dj, 10, j);
    assert Digit(x, P) == di && Digit(y, P) == dj;
    assert di < dj || (di == dj && i - Start(s, key, di) < j - Start(s, key, dj));
    if di == dj {
      BucketKeySorted(s, key, di, P);
      SameDigitOrder(x, y, P);
    } else {
      DigitOrder(x, y, P);
    }
  }

  /**
   * The value at position k of the laid-out buckets, found in bucket d: it is
   * a value s[m] of s whose key is d.
   */
  lemma Bucketed(s: seq<int>, key: seq<int>, d: int, e: int, k: int) returns (x: int, m: int)
    requires |key| == |s| && 0 <= d < e <= 10
    requires Start(s, key, d) <= k < Start(s, key, d + 1)
    ensures k < |BucketsBelow(s, key, e)| && x == BucketsBelow(s, key, e)[k]
    ensures x == Bucket(s, key, d)[k - Start(s, key, d)]
    ensures 0 <= m < |s| && s[m] == x && key[m] == d
  {
    var c := k - Start(s, key, d);
    x := Bucket(s, key, d)[c];
    BucketsAt(s, key, d, e, c);
    m := BucketSource(s, key, d, c);
  }

  /** Ordered by the remainders modulo a bound above every value means sorted. */
  lemma KeySortedSorted(s: seq<int>, P: int)
    requires P > 0 && KeySorted(s, P)
    requires forall k :: 0 <= k < |s| ==> 0 <= s[k] < P
    ensures Sorted(s)
  {
    forall k | 0 <= k < |s| ensures s[k] % P == s[k] {
      DivModUnique(s[k], P, 0, s[k]);
    }
  }
}
