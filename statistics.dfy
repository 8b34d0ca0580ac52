/**
 The order statistics of the statistics tool: an insertion sort that works
 on a copy of its input, the median of the sorted list, and the mode found
 by one scan over the runs of equal values of the sorted list. Values are
 modelled as `real`; the sort and the mode only compare them.
 */
module Statistics {

  predicate SortedAsc(s: seq<real>) {
    forall p, q :: 0 <= p < q < |s| ==> s[p] <= s[q]
  }

  /** The first `i` elements of `s` (all of them when `i` is beyond the end) are ascending. */
  predicate SortedPrefix(s: seq<real>, i: int) {
    forall p, q :: 0 <= p < q < i && q < |s| ==> s[p] <= s[q]
  }

  /**
   The state of the inner loop while `key`, taken from index `i`, sinks to
   its place: index `j + 1` is the hole, the elements other than the hole up
   to `i` are ascending, and those right of the hole are greater than `key`.
   */
  predicate Hole(s: seq<real>, j: int, i: int, key: real) {
    && -1 <= j < i < |s|
    && (forall p, q :: 0 <= p < q <= i && p != j + 1 && q != j + 1 ==> s[p] <= s[q])
    && (forall k :: j + 1 < k <= i ==> key < s[k])
  }

  /** Taking `key` out of a sorted prefix leaves a hole at `i`. */
  lemma HoleStart(s: seq<real>, i: int)
    requires 1 <= i < |s| && SortedPrefix(s, i)
    ensures Hole(s, i - 1, i, s[i])
  {}

  /** Shifting the greater element at `j` into the hole moves the hole down. */
  lemma HoleShift(s: seq<real>, j: int, i: int, key: real)
    requires Hole(s, j, i, key) && j >= 0 && s[j] > key
    ensures Hole(s[j + 1 := s[j]], j - 1, i, key)
  {
    var t := s[j + 1 := s[j]];
    forall p, q | 0 <= p < q <= i && p != j && q != j
      ensures t[p] <= t[q]
    {
      if q == j + 1 {
        assert t[q] == s[j];
        if p < j { assert s[p] <= s[j]; }
      } else if p == j + 1 {
        assert t[p] == s[j] && s[j] <= s[q];
      }
    }
  }

  /** Once the element left of the hole is at most `key`, putting `key` in the hole sorts the prefix. */
  lemma HoleFill(s: seq<real>, j: int, i: int, key: real)
    requires Hole(s, j, i, key) && (j < 0 || s[j] <= key)
    ensures SortedPrefix(s[j + 1 := key], i + 1)
  {
    var t := s[j + 1 := key];
    forall p, q | 0 <= p < q < i + 1 && q < |t|
      ensures t[p] <= t[q]
    {
      if p == j + 1 {
        assert key < s[q];
      } else if q == j + 1 {
        assert s[p] <= s[j];
      }
    }
  }

  /**
   `insertion_sort`: copies `values` (`values[:]`) and sorts the copy in
   place; the result is ascending and a permutation of the input. The input
   is a value and cannot change.
   */
  method InsertionSort(values: seq<real>) returns (sorted: seq<real>)
    ensures SortedAsc(sorted)
    ensures multiset(sorted) == multiset(values)
  {
    var a := new real[|values|](k requires 0 <= k < |values| => values[k]);
    assert a[..] == values;
    var i := 1;
    while i < a.Length
      invariant 1 <= i && (i <= a.Length || a.Length == 0)
      invariant SortedPrefix(a[..], i)
      invariant multiset(a[..]) == multiset(values)
    {
      var key := a[i];
      var j := i - 1;
      HoleStart(a[..], i);
      assert a[..][i := key] == a[..];
      while j >= 0 && a[j] > key
        invariant Hole(a[..], j, i, key)
        invariant multiset(a[..][j + 1 := key]) == multiset(values)
      {
        HoleShift(a[..], j, i, key);
        ShiftKeepsMultiset(a[..], j, key);
        a[j + 1] := a[j];
        j := j - 1;
      }
      HoleFill(a[..], j, i, key);
      a[j + 1] := key;
      i := i + 1;
    }
    sorted := a[..];
  }

  /**
   Moving the element at `j` up into the hole at `j + 1` and the hole down to
   `j` keeps the multiset of the list with `key` in the hole.
   */
  lemma ShiftKeepsMultiset(s: seq<real>, j: int, key: real)
    requires 0 <= j && j + 1 < |s|
    ensures multiset(s[j + 1 := s[j]][j := key]) == multiset(s[j + 1 := key])
  {
    var before := s[j + 1 := key];
    var after := s[j + 1 := s[j]][j := key];
    assert after == before[j := before[j + 1]][j + 1 := before[j]];
    SwapKeepsMultiset(before, j, j + 1);
  }

  lemma SwapKeepsMultiset(s: seq<real>, i: int, j: int)
    requires 0 <= i < j < |s|
    ensures multiset(s[i := s[j]][j := s[i]]) == multiset(s)
  {
    var t := s[i := s[j]];
    assert multiset(t) == multiset(s) - multiset{s[i]} + multiset{s[j]};
    assert t[j] == s[j];
    assert multiset(t[j := s[i]]) == multiset(t) - multiset{s[j]} + multiset{s[i]};
  }

  /**
   A sorted list is determined by its multiset: two ascending lists with the
   same elements are equal, so the sort's output does not depend on how it
   was computed.
   */
  lemma {:induction false} SortedUnique(a: seq<real>, b: seq<real>)
    requires SortedAsc(a) && SortedAsc(b)
    requires multiset(a) == multiset(b)
    ensures a == b
    decreases |a|
  {
    assert |a| == |multiset(a)| == |multiset(b)| == |b|;
    if |a| > 0 {
      SortedSameHead(a, b);
      SortedTail(a);
      SortedTail(b);
      SortedUnique(a[1..], b[1..]);
      assert a == [a[0]] + a[1..] && b == [b[0]] + b[1..];
    }
  }

  /** Two ascending lists with the same elements start with the same, least, element. */
  lemma SortedSameHead(a: seq<real>, b: seq<real>)
    requires SortedAsc(a) && SortedAsc(b) && multiset(a) == multiset(b) && |a| > 0 && |b| > 0
    ensures a[0] == b[0]
  {
    assert a[0] in multiset(b);
    var i :| 0 <= i < |b| && b[i] == a[0];
    assert b[0] in multiset(a);
    var j :| 0 <= j < |a| && a[j] == b[0];
    assert a[0] <= a[j] && b[0] <= b[i];
  }

  /** The tail of an ascending list is ascending and holds the other elements. */
  lemma SortedTail(a: seq<real>)
    requires SortedAsc(a) && |a| > 0
    ensures SortedAsc(a[1..]) && multiset(a[1..]) == multiset(a) - multiset{a[0]}
  {
    assert a == [a[0]] + a[1..];
  }

  /**
   `calculate_median`: the middle element of a sorted list of odd length,
   the mean of the two middle elements of one of even length. An empty list
   is an index error, and its caller never passes one.
   */
  function Median(sortedValues: seq<real>): (r: real)
    requires |sortedValues| > 0
    ensures var lo, hi := sortedValues[(|sortedValues| - 1) / 2], sortedValues[|sortedValues| / 2];
      && (lo <= r <= hi || hi <= r <= lo)
      && (|sortedValues| % 2 == 1 ==> r == lo)
  {
    var n := |sortedValues|;
    var middle := n / 2;
    if n % 2 == 1 then sortedValues[middle]
    else (sortedValues[middle - 1] + sortedValues[middle]) / 2.0
  }

  /** The median of a sorted list lies between its least and its greatest element. */
  lemma MedianBounds(s: seq<real>)
    requires |s| > 0 && SortedAsc(s)
    ensures s[0] <= Median(s) <= s[|s| - 1]
  {
    var n, h := |s|, |s| / 2;
    if n % 2 == 0 {
      assert s[0] <= s[h - 1] <= s[h] <= s[n - 1];
    }
  }

  /** How many elements of `s` are at most `x`. */
  function CountAtMost(s: seq<real>, x: real): nat {
    if s == [] then 0
    else CountAtMost(s[..|s| - 1], x) + (if s[|s| - 1] <= x then 1 else 0)
  }

  /** How many elements of `s` are at least `x`. */
  function CountAtLeast(s: seq<real>, x: real): nat {
    if s == [] then 0
    else CountAtLeast(s[..|s| - 1], x) + (if s[|s| - 1] >= x then 1 else 0)
  }

  lemma {:induction false} CountAtMostPrefix(s: seq<real>, x: real, j: nat)
    requires j <= |s|
    requires forall k :: 0 <= k < j ==> s[k] <= x
    ensures CountAtMost(s, x) >= j
    decreases |s|
  {
    if |s| > 0 {
      var init := s[..|s| - 1];
      if j == |s| {
        CountAtMostPrefix(init, x, j - 1);
      } else {
        CountAtMostPrefix(init, x, j);
      }
    }
  }

  lemma {:induction false} CountAtLeastSuffix(s: seq<real>, x: real, j: nat)
    requires j <= |s|
    requires forall k :: j <= k < |s| ==> s[k] >= x
    ensures CountAtLeast(s, x) >= |s| - j
    decreases |s|
  {
    if |s| > j {
      CountAtLeastSuffix(s[..|s| - 1], x, j);
    }
  }

  /**
   The median splits the list in halves: at least half of the elements are
   at most the median and at least half are at least the median.
   */
  lemma MedianSplitsHalves(s: seq<real>)
    requires |s| > 0 && SortedAsc(s)
    ensures 2 * CountAtMost(s, Median(s)) >= |s|
    ensures 2 * CountAtLeast(s, Median(s)) >= |s|
  {
    var n, h := |s|, |s| / 2;
    var m := Median(s);
    if n % 2 == 1 {
      CountAtMostPrefix(s, m, h + 1);
      CountAtLeastSuffix(s, m, h);
    } else {
      assert s[h - 1] <= m <= s[h];
      CountAtMostPrefix(s, m, h);
      CountAtLeastSuffix(s, m, h);
    }
  }

  /**
   The median does not depend on which sort produced the sorted list: any
   two ascending permutations of the same values have the same median.
   */
  lemma MedianOfPermutation(a: seq<real>, b: seq<real>)
    requires |a| > 0 && SortedAsc(a) && SortedAsc(b)
    requires multiset(a) == multiset(b)
    ensures |b| > 0 && Median(a) == Median(b)
  {
    SortedUnique(a, b);
  }

  /** The mode of the statistics report: a value, or `#N/A`. */
  datatype ModeResult = NoMode | Mode(value: real)

  /** How many times `v` occurs in `s`. */
  function Occurrences(s: seq<real>, v: real): nat {
    multiset(s)[v]
  }

  /**
   `r` is the mode of `s` as the scan defines it: `#N/A` exactly when no
   value occurs more than once; otherwise a value of `s` with the largest
   number of occurrences, and the smallest such value.
   */
  predicate IsModeOf(s: seq<real>, r: ModeResult) {
    && (r.NoMode? <==> forall k :: 0 <= k < |s| ==> Occurrences(s, s[k]) == 1)
    && (r.Mode? ==> r.value in s && forall k :: 0 <= k < |s| ==> Occurrences(s, s[k]) <= Occurrences(s, r.value))
    && (r.Mode? ==> forall k :: 0 <= k < |s| && s[k] < r.value ==> Occurrences(s, s[k]) < Occurrences(s, r.value))
  }

  /** In a sorted list, a run that ends at `i` holds every occurrence of its value. */
  lemma RunHoldsAll(s: seq<real>, i: int)
    requires SortedAsc(s) && 0 < i <= |s|
    requires i < |s| ==> s[i - 1] != s[i]
    ensures Occurrences(s, s[i - 1]) == multiset(s[..i])[s[i - 1]]
  {
    assert s == s[..i] + s[i..];
    assert s[i - 1] !in multiset(s[i..]) by {
      forall k | i <= k < |s| ensures s[k] != s[i - 1] {
        assert s[i - 1] <= s[i] <= s[k];
      }
    }
  }

  /** A value that differs from the one before it in a sorted list occurs once in the prefix up to it. */
  lemma NewRunStarts(s: seq<real>, i: int)
    requires SortedAsc(s) && 0 < i < |s| && s[i - 1] != s[i]
    ensures multiset(s[..i + 1])[s[i]] == 1
  {
    assert s[..i + 1] == s[..i] + [s[i]];
    assert s[i] !in multiset(s[..i]) by {
      forall k | 0 <= k < i ensures s[k] != s[i] {
        assert s[k] <= s[i - 1] <= s[i];
      }
    }
  }

  /**
   What the mode scan knows after the first `i` values: the current run is of
   `currentValue` with `currentCount` elements so far; every finished run is
   at most `maxCount` long; the best value, if any, ends a finished run of
   exactly `maxCount` and every smaller value's run is shorter.
   */
  predicate ScanInvariant(s: seq<real>, i: int, currentValue: real, currentCount: int,
                          maxCount: int, modeValue: ModeResult)
  {
    && SortedAsc(s) && 0 < i <= |s|
    && currentValue == s[i - 1]
    && currentCount == multiset(s[..i])[currentValue]
    && 1 <= maxCount
    && (modeValue.NoMode? <==> maxCount == 1)
    && (forall k :: 0 <= k < i && s[k] != currentValue ==> Occurrences(s, s[k]) <= maxCount)
    && (modeValue.Mode? ==>
          modeValue.value in s && modeValue.value < currentValue && Occurrences(s, modeValue.value) == maxCount)
    && (modeValue.Mode? ==>
          forall k :: 0 <= k < i && s[k] < modeValue.value ==> Occurrences(s, s[k]) < maxCount)
  }

  /** The next value continues the current run. */
  lemma ScanContinueRun(s: seq<real>, i: int, currentValue: real, currentCount: int,
                        maxCount: int, modeValue: ModeResult)
    requires ScanInvariant(s, i, currentValue, currentCount, maxCount, modeValue)
    requires i < |s| && s[i] == currentValue
    ensures ScanInvariant(s, i + 1, currentValue, currentCount + 1, maxCount, modeValue)
  {
    assert s[..i + 1] == s[..i] + [s[i]];
  }

  /** The next value starts a new run; the finished run becomes the best when strictly longer. */
  lemma ScanNewRun(s: seq<real>, i: int, currentValue: real, currentCount: int,
                   maxCount: int, modeValue: ModeResult)
    requires ScanInvariant(s, i, currentValue, currentCount, maxCount, modeValue)
    requires i < |s| && s[i] != currentValue
    ensures currentCount > maxCount ==>
      ScanInvariant(s, i + 1, s[i], 1, currentCount, Mode(currentValue))
    ensures currentCount <= maxCount ==>
      ScanInvariant(s, i + 1, s[i], 1, maxCount, modeValue)
  {
    RunHoldsAll(s, i);
    NewRunStarts(s, i);
    assert currentValue < s[i];
  }

  /**
   After the last value the last run is finished too, and becomes the best
   when strictly longer: the result then satisfies `IsModeOf`.
   */
  lemma ScanEnd(s: seq<real>, currentValue: real, currentCount: int,
                maxCount: int, modeValue: ModeResult)
    requires ScanInvariant(s, |s|, currentValue, currentCount, maxCount, modeValue)
    ensures var best := if currentCount > maxCount then currentCount else maxCount;
      var value := if currentCount > maxCount then Mode(currentValue) else modeValue;
      IsModeOf(s, if best == 1 then NoMode else value)
  {
    RunHoldsAll(s, |s|);
    assert s[..|s|] == s;
    forall k | 0 <= k < |s| ensures Occurrences(s, s[k]) >= 1 {
      assert s[k] in multiset(s);
    }
  }

  /**
   `calculate_mode`: one scan over the sorted list tracking the current run
   and the longest run so far. A run replaces the best only when strictly
   longer, so among equally long runs the first (smallest value) is kept.
   */
  method CalculateMode(sortedValues: seq<real>) returns (mode: ModeResult)
    requires |sortedValues| > 0
    ensures mode.Mode? ==> mode.value in sortedValues
    ensures SortedAsc(sortedValues) ==> IsModeOf(sortedValues, mode)
  {
    var s := sortedValues;
    var maxCount := 1;
    var modeValue := NoMode;
    var currentValue := s[0];
    var currentCount := 1;
    assert s[..1] == [s[0]];
    for i := 1 to |s|
      invariant currentValue in s && (modeValue.Mode? ==> modeValue.value in s)
      invariant SortedAsc(s) ==> ScanInvariant(s, i, currentValue, currentCount, maxCount, modeValue)
    {
      if s[i] == currentValue {
        if SortedAsc(s) {
          ScanContinueRun(s, i, currentValue, currentCount, maxCount, modeValue);
        }
        currentCount := currentCount + 1;
      } else {
        if SortedAsc(s) {
          ScanNewRun(s, i, currentValue, currentCount, maxCount, modeValue);
        }
        if currentCount > maxCount {
          maxCount := currentCount;
          modeValue := Mode(currentValue);
        }
        currentValue := s[i];
        currentCount := 1;
      }
    }
    if SortedAsc(s) {
      ScanEnd(s, currentValue, currentCount, maxCount, modeValue);
    }
    if currentCount > maxCount {
      maxCount := currentCount;
      modeValue := Mode(currentValue);
    }
    if maxCount == 1 {
      return NoMode;
    }
    return modeValue;
  }

  /** The contract of `CalculateMode` leaves one answer: the mode is unique. */
  lemma ModeUnique(s: seq<real>, r1: ModeResult, r2: ModeResult)
    requires IsModeOf(s, r1) && IsModeOf(s, r2)
    ensures r1 == r2
  {
    if r1.Mode? && r2.Mode? {
      var w1, w2 := r1.value, r2.value;
      var k1 :| 0 <= k1 < |s| && s[k1] == w1;
      var k2 :| 0 <= k2 < |s| && s[k2] == w2;
      assert s[k1] == w1 && s[k2] == w2;
    }
  }

  /**
   Two runs of equal length: the strict comparison keeps the first, so the
   mode of [1, 1, 2, 2] is 1, not 2.
   */
  lemma ModeTieKeepsFirst()
    ensures IsModeOf([1.0, 1.0, 2.0, 2.0], Mode(1.0))
    ensures !IsModeOf([1.0, 1.0, 2.0, 2.0], Mode(2.0))
  {
    var s := [1.0, 1.0, 2.0, 2.0];
    assert multiset(s) == multiset{1.0, 1.0, 2.0, 2.0};
    assert Occurrences(s, 1.0) == 2 && Occurrences(s, 2.0) == 2;
    assert s[0] < 2.0;
  }
}
