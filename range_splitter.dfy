/**
 * SplitToRanges: the breakpoints that cut [min, max] into sub-ranges whose
 * bounds have the same number of digits and differ only in a run of
 * trailing digits.
 */
module RangeSplitter {
  import opened Wrappers
  import opened Collections
  import opened DigitMath

  /** The candidate derived from max + 1 with `zeros` digits zeroed, minus one. */
  function ZeroStop(max: int, zeros: nat): int {
    CountZeros(max + 1, zeros) - 1
  }

  /*
   * Both candidate families are bounded by k <= 10: 10^10 - 1 exceeds
   * int.MaxValue, so NinesValue(min, k) > max for k >= 10, and CountZeros of
   * an int with 10 or more digits zeroed is 0.
   */

  /** The all-nines candidates from min that fall inside the range. */
  function NineStops(min: nat, max: int): set<int> {
    set k | 1 <= k <= 10 && NinesValue(min, k) <= max :: NinesValue(min, k)
  }

  /** The candidates from max + 1 that lie above min. */
  function ZeroStops(min: nat, max: int): set<int> {
    set z | 1 <= z <= 10 && min < ZeroStop(max, z) :: ZeroStop(max, z)
  }

  /** What the HashSet of SplitToRanges holds when it returns. */
  function Breakpoints(min: nat, max: int): set<int> {
    {max} + NineStops(min, max) + ZeroStops(min, max)
  }

  /**
   * The first all-nines candidate above max does not fit in an int, so
   * ReplaceLastNDigitsWithNines throws before the first loop ends.
   */
  predicate NinesOverflow(min: nat, max: int) {
    forall k :: 1 <= k <= 10 ==> !(max < NinesValue(min, k) <= IntMax)
  }

  // ---------------------------------------------------------------------
  // Facts the loops of SplitToRanges rely on

  lemma TenDigitsExceedInt(k: nat)
    requires k >= 10
    ensures Pow10(k) - 1 > IntMax
  {
    Pow10Table();
    Pow10Monotone(10, k);
  }

  /** Once a candidate exceeds int.MaxValue with all before it inside the range, none lands in (max, int.MaxValue]. */
  lemma OverflowAt(min: nat, max: int, k0: nat)
    requires 1 <= k0 && NinesValue(min, k0) > IntMax
    requires forall k :: 1 <= k < k0 ==> NinesValue(min, k) <= max
    ensures NinesOverflow(min, max)
  {
    forall k | 1 <= k <= 10
      ensures !(max < NinesValue(min, k) <= IntMax)
    {
      if k >= k0 {
        NinesValueMonotone(min, k0, k);
      }
    }
  }

  /** The candidates below the first one above max are exactly those inside the range. */
  lemma NineStopsBelow(min: nat, max: int, k0: nat)
    requires max <= IntMax
    requires 1 <= k0 && max < NinesValue(min, k0)
    requires forall k :: 1 <= k < k0 ==> NinesValue(min, k) <= max
    ensures NineStops(min, max) == NinesBelow(min, k0)
  {
    NinesBelowElements(min, k0);
    forall k | k0 <= k
      ensures max < NinesValue(min, k)
    {
      NinesValueMonotone(min, k0, k);
    }
    assert k0 <= 10 by {
      if k0 > 10 {
        assert NinesValue(min, 10) <= max;
        NinesValueLowerBounds(min, 10);
        TenDigitsExceedInt(10);
      }
    }
  }

  /** The zero candidates shrink as more digits are zeroed, and never exceed max. */
  lemma ZeroStopMonotone(max: nat, j: nat, k: nat)
    requires j <= k
    ensures ZeroStop(max, k) <= ZeroStop(max, j) <= max
  {
    CountZerosMonotone(max + 1, j, k);
  }

  /** A zero candidate above min forces 10^z <= max + 1, so z < 10 while max < int.MaxValue. */
  lemma ZeroStopBound(min: nat, max: int, z: nat)
    requires min <= max < IntMax && min < ZeroStop(max, z)
    ensures z < 10
  {
    PositiveMultiple(CountZeros(max + 1, z), Pow10(z));
    if z >= 10 {
      TenDigitsExceedInt(z);
    }
  }

  lemma ZeroStopsBelow(min: nat, max: nat, z0: nat)
    requires min <= max < IntMax
    requires 1 <= z0 && ZeroStop(max, z0) <= min
    requires forall z :: 1 <= z < z0 ==> min < ZeroStop(max, z)
    ensures ZeroStops(min, max) == ZerosBelow(max, z0)
  {
    ZerosBelowElements(max, z0);
    if z0 > 10 {
      ZeroStopBound(min, max, 10);
    }
    forall z | z0 <= z
      ensures ZeroStop(max, z) <= min
    {
      ZeroStopMonotone(max, z0, z);
    }
  }

  /**
   * Bounds given the wrong way round: every all-nines candidate is at least
   * min and every zero candidate at most max, so only max itself is kept.
   */
  lemma ReversedBreakpoints(min: nat, max: int)
    requires IsInt(max) && max < min
    ensures Breakpoints(min, max) == {max}
  {
    forall k | 1 <= k <= 10
      ensures max < NinesValue(min, k)
    {
      NinesValueLowerBounds(min, k);
    }
    ZeroStopsEmpty(min, max);
  }

  /** Below min no zero candidate lies above min: each is at most max, or at most -1 when max + 1 is negative. */
  lemma ZeroStopsEmpty(min: nat, max: int)
    requires max < min
    ensures ZeroStops(min, max) == {}
  {
    forall z: nat
      ensures ZeroStop(max, z) <= min
    {
      var c := CountZeros(max + 1, z);
    }
  }

  /**
   * The second loop as written, for a negative min: with min <= -2 and
   * max >= -1 every zero candidate lies in (min, max], so the guard at
   * every zeros >= 1 holds: the loop does not leave while the int zeros
   * counts up, about 2^31 turns.
   */
  lemma ZeroLoopNeverExits(min: int, max: int, zeros: nat)
    requires min <= -2 && -1 <= max
    ensures min < ZeroStop(max, zeros) <= max
  {
    var c := CountZeros(max + 1, zeros);
    assert 0 <= c <= max + 1;
  }

  /** Every breakpoint lies in [min, max]. */
  lemma BreakpointsInRange(min: nat, max: int, y: int)
    requires min <= max && y in Breakpoints(min, max)
    ensures min <= y <= max
  {
    if y in NineStops(min, max) {
      var k :| 1 <= k <= 10 && NinesValue(min, k) <= max && y == NinesValue(min, k);
      NinesValueLowerBounds(min, k);
    } else if y in ZeroStops(min, max) {
      var z :| 1 <= z <= 10 && min < ZeroStop(max, z) && y == ZeroStop(max, z);
      ZeroStopMonotone(max, z, z);
    }
  }

  /** The largest element of a strictly ascending sequence comes last. */
  lemma LastIsMaximum(s: seq<int>, x: int)
    requires StrictlyAscending(s) && x in s
    requires forall i :: 0 <= i < |s| ==> s[i] <= x
    ensures s[|s| - 1] == x
  {
  }

  /** The all-nines candidates for 1 <= k < bound, one loop iteration at a time. */
  function NinesBelow(min: nat, bound: nat): set<int> {
    if bound <= 1 then {} else NinesBelow(min, bound - 1) + {NinesValue(min, bound - 1)}
  }

  /** The zero candidates for 1 <= z < bound, one loop iteration at a time. */
  function ZerosBelow(max: int, bound: nat): set<int> {
    if bound <= 1 then {} else ZerosBelow(max, bound - 1) + {ZeroStop(max, bound - 1)}
  }

  lemma {:induction false} NinesBelowElements(min: nat, bound: nat)
    ensures NinesBelow(min, bound) == set k | 1 <= k < bound :: NinesValue(min, k)
  {
    if bound > 1 {
      NinesBelowElements(min, bound - 1);
    }
  }

  lemma {:induction false} ZerosBelowElements(max: int, bound: nat)
    ensures ZerosBelow(max, bound) == set z | 1 <= z < bound :: ZeroStop(max, z)
  {
    if bound > 1 {
      ZerosBelowElements(max, bound - 1);
    }
  }

  /** All nines candidates for 1 <= k < bound stay within max: the first loop's history. */
  predicate NinesInside(min: nat, max: int, bound: nat) {
    bound <= 1 || (NinesInside(min, max, bound - 1) && NinesValue(min, bound - 1) <= max)
  }

  /** All zero candidates for 1 <= z < bound lie above min: the second loop's history. */
  predicate ZerosAbove(min: nat, max: int, bound: nat) {
    bound <= 1 || (ZerosAbove(min, max, bound - 1) && min < ZeroStop(max, bound - 1))
  }

  lemma {:induction false} NinesInsideElements(min: nat, max: int, bound: nat)
    requires NinesInside(min, max, bound)
    ensures forall k :: 1 <= k < bound ==> NinesValue(min, k) <= max
  {
    if bound > 1 {
      NinesInsideElements(min, max, bound - 1);
    }
  }

  lemma {:induction false} ZerosAboveElements(min: nat, max: int, bound: nat)
    requires ZerosAbove(min, max, bound)
    ensures forall z :: 1 <= z < bound ==> min < ZeroStop(max, z)
  {
    if bound > 1 {
      ZerosAboveElements(min, max, bound - 1);
    }
  }

  /** Sorting the collected breakpoints gives the sequence SplitToRanges promises. */
  lemma SortedBreakpoints(min: nat, max: int, stops: seq<int>)
    requires IsInt(max)
    requires forall y :: y in stops <==> y in Breakpoints(min, max)
    ensures var arr := SortAscending(stops);
      && StrictlyAscending(arr)
      && (forall y :: y in arr <==> y in Breakpoints(min, max))
      && |arr| > 0 && arr[|arr| - 1] == max
      && (min <= max ==> forall i :: 0 <= i < |arr| ==> min <= arr[i] <= max)
      && (max < min ==> arr == [max])
  {
    if min <= max {
      forall y | y in stops
        ensures min <= y <= max
      {
        BreakpointsInRange(min, max, y);
      }
      SortedWithin(min, max, stops);
    } else {
      ReversedBreakpoints(min, max);
      SortedWithin(max, max, stops);
    }
  }

  /** Sorting elements of [min, max] that include max ends the result at max. */
  lemma SortedWithin(min: int, max: int, stops: seq<int>)
    requires max in stops && forall y :: y in stops ==> min <= y <= max
    ensures var arr := SortAscending(stops);
      && |arr| > 0 && arr[|arr| - 1] == max
      && (forall i :: 0 <= i < |arr| ==> min <= arr[i] <= max)
  {
    var arr := SortAscending(stops);
    forall i | 0 <= i < |arr|
      ensures min <= arr[i] <= max
    {
      assert arr[i] in stops;
    }
    LastIsMaximum(arr, max);
  }

  // ---------------------------------------------------------------------
  // SplitToRanges

  /**
   * The first loop of SplitToRanges: adds to the set holding max every
   * all-nines candidate from min, for k = 1, 2, ..., until one passes max.
   */
  method CollectNineStops(min: int, max: int) returns (r: Result<seq<int>>)
    requires 0 <= min <= IntMax && IsInt(max)
    ensures r.Failure? <==> NinesOverflow(min, max)
    ensures r.Failure? ==> r.error == Overflow
    ensures r.Success? ==> forall y :: y in r.value <==> y == max || y in NineStops(min, max)
  {
    var nines := 1;
    var attempt := ReplaceLastNDigitsWithNines(min, nines);
    if attempt.Failure? {
      OverflowAt(min, max, nines);
      return Failure(attempt.error);
    }
    var stop := attempt.value;
    var stops := [max];
    ghost var seen := NinesBelow(min, nines);

    while min <= stop && stop <= max
      invariant 1 <= nines <= 10
      invariant stop == NinesValue(min, nines) && stop <= IntMax
      invariant NinesInside(min, max, nines)
      invariant seen == NinesBelow(min, nines)
      invariant forall y :: y in stops <==> y == max || y in seen
      decreases 10 - nines
    {
      if stop !in stops {
        stops := stops + [stop];
      }
      seen := seen + {stop};
      nines := nines + 1;
      assert nines <= 10 by {
        NinesValueLowerBounds(min, nines - 1);
        if nines > 10 {
          TenDigitsExceedInt(nines - 1);
        }
      }
      attempt := ReplaceLastNDigitsWithNines(min, nines);
      if attempt.Failure? {
        NinesInsideElements(min, max, nines);
        OverflowAt(min, max, nines);
        return Failure(attempt.error);
      }
      stop := attempt.value;
    }
    NinesValueLowerBounds(min, nines);
    NinesInsideElements(min, max, nines);
    NineStopsBelow(min, max, nines);
    assert max < NinesValue(min, nines) <= IntMax;
    return Success(stops);
  }

  /**
   * The second loop of SplitToRanges: adds every candidate from max + 1,
   * for zeros = 1, 2, ..., while it stays above min.
   */
  method CollectZeroStops(min: int, max: int, stops: seq<int>) returns (r: seq<int>)
    requires 0 <= min <= IntMax && IntMin <= max < IntMax
    ensures forall y :: y in r <==> y in stops || y in ZeroStops(min, max)
  {
    r := stops;
    var zeros := 1;
    var stop := CountZeros(max + 1, zeros) - 1;
    ghost var seen := ZerosBelow(max, zeros);

    while min < stop && stop <= max
      invariant 1 <= zeros <= 10
      invariant stop == ZeroStop(max, zeros)
      invariant ZerosAbove(min, max, zeros)
      invariant seen == ZerosBelow(max, zeros)
      invariant forall y :: y in r <==> y in stops || y in seen
      decreases 10 - zeros
    {
      if stop !in r {
        r := r + [stop];
      }
      seen := seen + {stop};
      ZeroStopBound(min, max, zeros);
      assert seen == ZerosBelow(max, zeros + 1) && ZerosAbove(min, max, zeros + 1);
      zeros := zeros + 1;
      stop := CountZeros(max + 1, zeros) - 1;
    }
    if min <= max {
      ZeroStopMonotone(max, zeros, zeros);
      ZerosAboveElements(min, max, zeros);
      ZeroStopsBelow(min, max, zeros);
    } else {
      ZeroStopsEmpty(min, max);
    }
  }

  /**
   * SplitToRanges: collects max, the all-nines candidates from min that do
   * not pass max, and the candidates from max + 1 that stay above min, into
   * a set, and returns them sorted. It throws Overflow when an all-nines
   * candidate does not fit in an int, which always happens for max =
   * int.MaxValue, so max + 1 is never computed there. Bounds given the wrong
   * way round are not rejected: only max is kept.
   */
  method SplitToRanges(min: int, max: int) returns (r: Result<seq<int>>)
    requires 0 <= min <= IntMax && IsInt(max)
    ensures r.Failure? <==> NinesOverflow(min, max)
    ensures r.Failure? ==> r.error == Overflow
    ensures r.Success? ==> StrictlyAscending(r.value)
    ensures r.Success? ==> forall y :: y in r.value <==> y in Breakpoints(min, max)
    ensures r.Success? ==> |r.value| > 0 && r.value[|r.value| - 1] == max
    ensures r.Success? && min <= max ==> forall i :: 0 <= i < |r.value| ==> min <= r.value[i] <= max
    ensures r.Success? && max < min ==> r.value == [max]
  {
    var nineStops := CollectNineStops(min, max);
    if nineStops.Failure? {
      return Failure(nineStops.error);
    }
    assert max < IntMax;
    var stops := CollectZeroStops(min, max, nineStops.value);
    var arr := SortAscending(stops);
    SortedBreakpoints(min, max, stops);
    return Success(arr);
  }

  // ---------------------------------------------------------------------
  // When SplitToRanges overflows

  /**
   * A range that reaches 999999999 from a nine-digit-or-shorter min always
   * overflows: every candidate up to k = 9 is at most 999999999 <= max, and
   * the next, k = 10, does not fit in an int.
   */
  lemma OverflowAcrossNineDigits(min: nat, max: int)
    requires min <= 999999999 <= max
    ensures NinesOverflow(min, max)
  {
    Pow10Table();
    DigitCountBounds(min);
    var width := DigitCount(min);
    assert width <= 9 by {
      if width > 9 {
        Pow10Monotone(9, width - 1);
      }
    }
    forall k | 1 <= k <= 10
      ensures !(max < NinesValue(min, k) <= IntMax)
    {
      if k <= 9 {
        NinesValueUpperBound(min, k);
        Pow10Monotone(if k > width then k else width, 9);
      } else {
        NinesValueLowerBounds(min, k);
      }
    }
  }

  /** Below 999999999 it never overflows: the k = 9 candidate is 999999999 itself. */
  lemma NoOverflowBelowNineDigits(min: nat, max: int)
    requires min <= max < 999999999
    ensures !NinesOverflow(min, max)
  {
    Pow10Table();
    NinesValueLowerBounds(min, 9);
    NinesValueUpperBound(min, 9);
    DigitCountBounds(min);
    if DigitCount(min) > 9 {
      Pow10Monotone(9, DigitCount(min) - 1);
    }
    assert max < NinesValue(min, 9) <= IntMax;
  }

  // ---------------------------------------------------------------------
  // The sub-ranges the breakpoints define

  /** Every number of the form 10^j - 1 inside [min, max] is a breakpoint. */
  lemma DigitBoundaryIsBreakpoint(min: nat, max: int, j: nat)
    requires max < IntMax
    requires 1 <= j && min <= Pow10(j) - 1 <= max
    ensures Pow10(j) - 1 in Breakpoints(min, max)
  {
    if j >= 10 {
      TenDigitsExceedInt(j);
    }
    NinesValueAtPowerOfTen(min, j);
    assert Pow10(j) - 1 in NineStops(min, max);
  }

  /** What a successful SplitToRanges returns, as promised by its contract. */
  ghost predicate IsSplit(min: nat, max: int, r: seq<int>) {
    && StrictlyAscending(r)
    && (forall y :: y in r <==> y in Breakpoints(min, max))
    && |r| > 0 && r[|r| - 1] == max
    && (forall i :: 0 <= i < |r| ==> min <= r[i] <= max)
  }

  /** The i-th sub-range runs from here to r[i]: min first, then one past the previous breakpoint. */
  function SubrangeStart(min: int, r: seq<int>, i: nat): int
    requires i < |r|
  {
    if i == 0 then min else r[i - 1] + 1
  }

  /**
   * Each sub-range is non-empty, inside [min, max], and its two bounds have
   * the same number of digits.
   */
  lemma SubrangeSameWidth(min: nat, max: int, r: seq<int>, i: nat)
    requires max < IntMax && IsSplit(min, max, r) && i < |r|
    ensures min <= SubrangeStart(min, r, i) <= r[i] <= max
    ensures DigitCount(SubrangeStart(min, r, i)) == DigitCount(r[i])
  {
    var lo, hi := SubrangeStart(min, r, i), r[i];
    if i > 0 {
      assert r[i - 1] < r[i];
    }
    DigitCountMonotone(lo, hi);
    var width := DigitCount(lo);
    if width < DigitCount(hi) {
      // 10^width - 1 lies in [lo, hi), so it would be a breakpoint between r[i - 1] and r[i].
      var boundary: nat := Pow10(width) - 1;
      WidthBoundary(lo, hi);
      NothingBetween(min, r, i, boundary);
      DigitBoundaryIsBreakpoint(min, max, width);
      assert false;
    }
  }

  /** When hi has more digits than lo, the largest number of lo's width lies in [lo, hi). */
  lemma WidthBoundary(lo: nat, hi: nat)
    requires DigitCount(lo) < DigitCount(hi)
    ensures 1 <= DigitCount(lo) && lo <= Pow10(DigitCount(lo)) - 1 < hi
  {
    DigitCountBounds(lo);
    DigitCountBounds(hi);
    Pow10Monotone(DigitCount(lo), DigitCount(hi) - 1);
  }

  /** No element of an ascending sequence lies strictly inside one of its sub-ranges, below its top. */
  lemma NothingBetween(min: int, r: seq<int>, i: nat, b: int)
    requires StrictlyAscending(r) && i < |r| && SubrangeStart(min, r, i) <= b < r[i]
    ensures b !in r
  {
    forall j | 0 <= j < |r|
      ensures r[j] != b
    {
      if j < i {
        assert r[j] <= r[i - 1];
      }
    }
  }

  /** The sub-ranges cover [min, max], and each x in it lies in exactly one of them. */
  lemma SubrangeCovers(min: nat, max: int, r: seq<int>, x: int) returns (i: nat)
    requires IsSplit(min, max, r) && min <= x <= max
    ensures i < |r| && SubrangeStart(min, r, i) <= x <= r[i]
    ensures forall j :: 0 <= j < |r| && SubrangeStart(min, r, j) <= x <= r[j] ==> j == i
  {
    i := 0;
    while r[i] < x
      invariant i < |r|
      invariant forall j :: 0 <= j < i ==> r[j] < x
      decreases |r| - i
    {
      i := i + 1;
    }
  }
}
