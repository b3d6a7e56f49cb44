/** Mean and median of a list of durations, computed the way the statistics endpoints do:
    integer arithmetic with Go's truncating division, and a median taken after sorting the
    caller's slice in place. */
module StatFunctions {

  /** Go's `/` on integers: the quotient truncated toward zero, so the remainder takes
      the sign of the dividend (Dafny's own `/` is Euclidean). */
  function TruncDiv(a: int, b: int): (q: int)
    requires b > 0
    ensures a >= 0 ==> 0 <= a - q * b < b
    ensures a < 0 ==> -b < a - q * b <= 0
  {
    if a >= 0 then a / b else -((-a) / b)
  }

  /** The sum of the values, added up from the first to the last. */
  function Sum(s: seq<int>): int {
    if s == [] then 0 else Sum(s[..|s| - 1]) + s[|s| - 1]
  }

  /** What calcMean computes: 0 for no values, otherwise the sum divided by the count,
      truncated toward zero. */
  function Mean(s: seq<int>): int {
    if |s| == 0 then 0 else TruncDiv(Sum(s), |s|)
  }

  /** calcMean: accumulates the sum in one pass and divides by the count. */
  method CalcMean(values: seq<int>) returns (mean: int)
    ensures |values| == 0 ==> mean == 0
    ensures mean == Mean(values)
  {
    if |values| == 0 {
      return 0;
    }
    var sum := 0;
    for i := 0 to |values|
      invariant sum == Sum(values[..i])
    {
      assert values[..i + 1][..i] == values[..i];
      sum := sum + values[i];
    }
    assert values[..|values|] == values;
    mean := TruncDiv(sum, |values|);
  }

  /** Bounds on every value bound the sum. */
  lemma {:induction false} SumBounds(s: seq<int>, lo: int, hi: int)
    requires forall i | 0 <= i < |s| :: lo <= s[i] <= hi
    ensures lo * |s| <= Sum(s) <= hi * |s|
  {
    if s != [] {
      var p := s[..|s| - 1];
      assert forall i | 0 <= i < |p| :: p[i] == s[i];
      SumBounds(p, lo, hi);
      assert lo * |s| == lo * |p| + lo;
      assert hi * |s| == hi * |p| + hi;
    }
  }

  /** With `n > 0`, a product with `n` has the sign of the other factor. */
  lemma ProductSign(x: int, n: int)
    requires n > 0
    decreases if x < 0 then -x else x
    ensures x * n <= 0 ==> x <= 0
    ensures x * n >= 0 ==> x >= 0
  {
    if x > 0 {
      assert x * n == (x - 1) * n + n;
      if x - 1 > 0 { ProductSign(x - 1, n); }
    } else if x < 0 {
      assert x * n == (x + 1) * n - n;
      if x + 1 < 0 { ProductSign(x + 1, n); }
    }
  }

  /** With `n > 0`, multiplying by `n` keeps the order of two numbers and reflects it. */
  lemma ProductOrder(x: int, y: int, n: int)
    requires n > 0
    ensures x * n <= y * n ==> x <= y
    ensures x * n < y * n ==> x < y
  {
    assert x * n - y * n == (x - y) * n;
    ProductSign(x - y, n);
  }

  /** A truncated quotient of a number between `lo * n` and `hi * n` lies between `lo`
      and `hi`. */
  lemma QuotientBounds(sum: int, n: int, lo: int, hi: int)
    requires n > 0 && lo * n <= sum <= hi * n
    ensures lo <= TruncDiv(sum, n) <= hi
  {
    var q := TruncDiv(sum, n);
    if sum >= 0 {
      assert q * n <= hi * n;
      ProductOrder(q, hi, n);
      assert lo * n < (q + 1) * n by {
        assert (q + 1) * n == q * n + n;
      }
      ProductOrder(lo, q + 1, n);
    } else {
      assert lo * n <= q * n;
      ProductOrder(lo, q, n);
      assert q * n < (hi + 1) * n by {
        assert (hi + 1) * n == hi * n + n;
      }
      ProductOrder(q, hi + 1, n);
    }
  }

  /** The truncated mean never leaves the range of the values: whatever `lo` and `hi`
      bound all of them (their minimum and maximum, say) also bound the mean. */
  lemma MeanWithinBounds(s: seq<int>, lo: int, hi: int)
    requires |s| > 0
    requires forall i | 0 <= i < |s| :: lo <= s[i] <= hi
    ensures lo <= Mean(s) <= hi
  {
    SumBounds(s, lo, hi);
    QuotientBounds(Sum(s), |s|, lo, hi);
  }

  /** The mean of one value is that value. */
  lemma MeanOfSingleton(x: int)
    ensures Mean([x]) == x
  {
    assert [x][..0] == [];
    assert Sum([x]) == x;
  }

  /** The mean's fixed points: none gives 0, integer division truncates. */
  lemma MeanExamples()
    ensures Mean([]) == 0
    ensures Mean([10]) == 10
    ensures Mean([10, 20, 30]) == 20
    ensures Mean([1, 2]) == 1
  {
    assert [10][..0] == [];
    assert [10, 20, 30][..2] == [10, 20] && [10, 20][..1] == [10] && [10][..0] == [];
    assert [1, 2][..1] == [1] && [1][..0] == [];
  }

  /** Int64Slice.Len */
  function Len(a: array<int>): int
    reads a
  {
    a.Length
  }

  /** Int64Slice.Less: strict comparison, so equal elements are never out of order. */
  predicate Less(a: array<int>, i: int, j: int)
    requires 0 <= i < a.Length && 0 <= j < a.Length
    reads a
  {
    a[i] < a[j]
  }

  /** Int64Slice.Swap: exchanges the two elements and touches nothing else. */
  method Swap(a: array<int>, i: int, j: int)
    requires 0 <= i < a.Length && 0 <= j < a.Length
    modifies a
    ensures a[..] == old(a[..])[i := old(a[j])][j := old(a[i])]
    ensures multiset(a[..]) == multiset(old(a[..]))
  {
    a[i], a[j] := a[j], a[i];
  }

  ghost predicate Sorted(s: seq<int>) {
    forall i, j | 0 <= i < j < |s| :: s[i] <= s[j]
  }

  /** The first `hi` elements are in order once the one at `j` is left out, and that one
      is smaller than everything after it: the state of an insertion in progress. */
  ghost predicate SortedExceptAt(s: seq<int>, hi: int, j: int)
    requires 0 <= j < hi <= |s|
  {
    && (forall k, l | 0 <= k < l < hi && k != j && l != j :: s[k] <= s[l])
    && (forall l | j < l < hi :: s[j] < s[l])
  }

  /** The first `hi` elements are in order. */
  ghost predicate SortedBelow(s: seq<int>, hi: int)
    requires 0 <= hi <= |s|
  {
    forall k, l | 0 <= k < l < hi :: s[k] <= s[l]
  }

  lemma InsertionStart(s: seq<int>, i: int)
    requires 0 <= i < |s| && SortedBelow(s, i)
    ensures SortedExceptAt(s, i + 1, i)
  {
  }

  /** One step of the insertion: swapping the element at `j` with its larger left
      neighbour moves the gap one place left. */
  lemma InsertionStep(s: seq<int>, hi: int, j: int)
    requires 0 < j < hi <= |s| && SortedExceptAt(s, hi, j) && s[j] < s[j - 1]
    ensures SortedExceptAt(s[j - 1 := s[j]][j := s[j - 1]], hi, j - 1)
  {
  }

  /** The insertion stops at the start or next to an element that is not larger: the
      first `hi` elements are then sorted. */
  lemma InsertionDone(s: seq<int>, hi: int, j: int)
    requires 0 <= j < hi <= |s| && SortedExceptAt(s, hi, j)
    requires j == 0 || s[j - 1] <= s[j]
    ensures SortedBelow(s, hi)
  {
    assert forall k, l | 0 <= k < l < hi && l == j :: s[k] <= s[l] by {
      forall k, l | 0 <= k < l < hi && l == j ensures s[k] <= s[l] {
        if k < j - 1 {
          assert s[k] <= s[j - 1];
        }
      }
    }
  }

  /** sort.Sort over Int64Slice, written as an insertion sort that uses only Len, Less
      and Swap: afterwards the slice is ascending and holds the same values. */
  method SortInPlace(a: array<int>)
    modifies a
    ensures Sorted(a[..])
    ensures multiset(a[..]) == multiset(old(a[..]))
  {
    var n := Len(a);
    var i := 0;
    while i < n
      invariant 0 <= i <= n
      invariant SortedBelow(a[..], i)
      invariant multiset(a[..]) == multiset(old(a[..]))
    {
      Insert(a, i);
      i := i + 1;
    }
  }

  /** One pass of the insertion sort: moves the element at `i` left past the larger ones
      before it, so that the first `i + 1` elements are in order; they are a permutation
      of what they were, and the elements after them are untouched. */
  method Insert(a: array<int>, i: int)
    requires 0 <= i < a.Length && SortedBelow(a[..], i)
    modifies a
    ensures SortedBelow(a[..], i + 1)
    ensures multiset(a[..]) == multiset(old(a[..]))
    ensures a[i + 1..] == old(a[i + 1..])
    ensures multiset(a[..i + 1]) == multiset(old(a[..i + 1]))
  {
    InsertionStart(a[..], i);
    var j := i;
    while j > 0 && Less(a, j, j - 1)
      invariant 0 <= j <= i
      invariant SortedExceptAt(a[..], i + 1, j)
      invariant multiset(a[..]) == multiset(old(a[..]))
      invariant a[i + 1..] == old(a[i + 1..])
      invariant multiset(a[..i + 1]) == multiset(old(a[..i + 1]))
    {
      ghost var s := a[..];
      Swap(a, j - 1, j);
      assert a[..i + 1] == s[..i + 1][j - 1 := s[j]][j := s[j - 1]];
      InsertionStep(s, i + 1, j);
      j := j - 1;
    }
    InsertionDone(a[..], i + 1, j);
  }

  /** calcMedian's formula on sorted values, as written: the middle element for odd
      length, and for even length the truncated average of the elements at `l/2 - 1`
      and `l/2 + 1`. For `l == 2` the second index is past the end (Go panics), hence
      the precondition. */
  function WrittenMedian(s: seq<int>): int
    requires |s| != 2
  {
    var l := |s|;
    if l == 0 then 0
    else if l % 2 == 0 then TruncDiv(s[l / 2 - 1] + s[l / 2 + 1], 2)
    else s[l / 2]
  }

  /** calcMedian: sorts the caller's slice in place, then reads the median off it. */
  method CalcMedian(values: array<int>) returns (median: int)
    requires values.Length != 2
    modifies values
    ensures Sorted(values[..]) && multiset(values[..]) == multiset(old(values[..]))
    ensures median == WrittenMedian(values[..])
  {
    var l := values.Length;
    SortInPlace(values);
    if l == 0 {
      median := 0;
    } else if l % 2 == 0 {
      median := TruncDiv(values[l / 2 - 1] + values[l / 2 + 1], 2);
    } else {
      median := values[l / 2];
    }
  }

  /** What makes `m` a median of sorted values: the lower half (the middle element
      included, for odd length) is at most `m` and the upper half at least `m`. */
  ghost predicate SplitsInHalves(s: seq<int>, m: int) {
    && (forall i | 0 <= i < (|s| + 1) / 2 :: s[i] <= m)
    && (forall i | |s| / 2 <= i < |s| :: m <= s[i])
  }

  /** The conventional median: for even length the truncated average of the two middle
      elements, at `l/2 - 1` and `l/2`; defined for every length. */
  function ConventionalMedian(s: seq<int>): int {
    var l := |s|;
    if l == 0 then 0
    else if l % 2 == 0 then TruncDiv(s[l / 2 - 1] + s[l / 2], 2)
    else s[l / 2]
  }

  /** The truncated average of two ordered values lies between them. */
  lemma AverageBetween(a: int, b: int)
    requires a <= b
    ensures a <= TruncDiv(a + b, 2) <= b
  {
  }

  /** The conventional median splits the sorted values into halves, for every length. */
  lemma ConventionalMedianSplits(s: seq<int>)
    requires Sorted(s)
    ensures SplitsInHalves(s, ConventionalMedian(s))
  {
    var l := |s|;
    if l > 0 && l % 2 == 0 {
      AverageBetween(s[l / 2 - 1], s[l / 2]);
    }
  }

  /** For odd length the formula as written is the conventional median. */
  lemma WrittenMedianOdd(s: seq<int>)
    requires Sorted(s) && |s| % 2 == 1
    ensures WrittenMedian(s) == ConventionalMedian(s) == s[|s| / 2]
    ensures SplitsInHalves(s, WrittenMedian(s))
  {
    ConventionalMedianSplits(s);
  }

  /** For even length the formula as written skips the upper middle element: on
      [1, 2, 3, 10] it averages 2 and 10 into 6, above both middle elements 2 and 3,
      where the conventional median gives 2. */
  lemma WrittenMedianEvenCounterexample()
    ensures WrittenMedian([1, 2, 3, 10]) == 6
    ensures ConventionalMedian([1, 2, 3, 10]) == 2
    ensures !SplitsInHalves([1, 2, 3, 10], WrittenMedian([1, 2, 3, 10]))
  {
    assert [1, 2, 3, 10][2] < 6;
  }

  /** Every index that calcMedian's formula reads on `l` sorted values lies inside the
      slice: none for no values, `l/2 - 1` and `l/2 + 1` for even length, `l/2` for odd. */
  predicate WrittenMedianReadsInRange(l: nat) {
    if l == 0 then true
    else if l % 2 == 0 then 0 <= l / 2 - 1 && l / 2 + 1 < l
    else l / 2 < l
  }

  /** The formula as written stays inside the slice for exactly the lengths other than 2:
      for two values it reads index 2, past the end, where Go panics. The precondition
      `length != 2` of WrittenMedian and CalcMedian excludes those inputs and no others. */
  lemma WrittenMedianIndexPastEnd(l: nat)
    ensures WrittenMedianReadsInRange(l) <==> l != 2
    ensures l == 2 ==> l / 2 + 1 == l
  {
  }

  /** The median's fixed points, and the three-session example: durations 10, 20, 30
      have mean 20 and median 20. */
  lemma MedianExamples()
    ensures WrittenMedian([]) == 0
    ensures WrittenMedian([5]) == 5
    ensures WrittenMedian([1, 3, 5]) == 3
    ensures WrittenMedian([10, 20, 30]) == 20 && Mean([10, 20, 30]) == 20
    ensures ConventionalMedian([1, 2]) == 1
  {
    MeanExamples();
  }
}
