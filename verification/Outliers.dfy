/** Trimming a sample of costs before its variance is estimated. Numbers are real:
    rounding is not modelled. */
module Outliers {

  const K_MAX_VALUES: nat := 14

  // ----- sorting -----

  predicate IsSorted(s: seq<real>)
  {
    forall i, j | 0 <= i <= j < |s| :: s[i] <= s[j]
  }

  function Insert(x: real, s: seq<real>): seq<real>
  {
    if s == [] || x <= s[0] then [x] + s else [s[0]] + Insert(x, s[1..])
  }

  /** What the library's sort leaves behind. */
  function Sorted(s: seq<real>): seq<real>
  {
    if s == [] then [] else Insert(s[0], Sorted(s[1..]))
  }

  lemma {:induction false} InsertKeeps(x: real, s: seq<real>)
    ensures multiset(Insert(x, s)) == multiset(s) + multiset{x}
  {
    if s != [] {
      assert s == [s[0]] + s[1..];
      if x > s[0] { InsertKeeps(x, s[1..]); }
    }
  }

  lemma PrependSorts(x: real, s: seq<real>)
    requires IsSorted(s) && s != [] && x <= s[0]
    ensures IsSorted([x] + s)
  {
  }

  lemma {:induction false} InsertSorts(x: real, s: seq<real>)
    requires IsSorted(s)
    ensures IsSorted(Insert(x, s)) && |Insert(x, s)| == |s| + 1
    ensures Insert(x, s)[0] == x || (s != [] && Insert(x, s)[0] == s[0])
  {
    if s != [] {
      if x > s[0] {
        InsertSorts(x, s[1..]);
        PrependSorts(s[0], Insert(x, s[1..]));
      }
    }
  }

  lemma {:induction false} SortedSorts(s: seq<real>)
    ensures IsSorted(Sorted(s)) && multiset(Sorted(s)) == multiset(s) && |Sorted(s)| == |s|
  {
    if s != [] {
      SortedSorts(s[1..]);
      InsertSorts(s[0], Sorted(s[1..]));
      InsertKeeps(s[0], Sorted(s[1..]));
      assert s == [s[0]] + s[1..];
    }
  }

  lemma SortedKeepsMembers(s: seq<real>)
    ensures |Sorted(s)| == |s| && forall x :: x in Sorted(s) <==> x in s
  {
    SortedSorts(s);
    forall x ensures x in Sorted(s) <==> x in s {
      assert x in multiset(Sorted(s)) <==> x in multiset(s);
    }
  }

  // ----- median and deviation -----

  /** The median of a sorted sample. */
  function Middle(s: seq<real>): real
    requires |s| >= 2
  {
    if |s| % 2 == 1 then s[|s| / 2] else (s[|s| / 2] + s[|s| / 2 - 1]) * 0.5
  }

  /** The middle value, or the mean of the two. */
  lemma MiddleMeaning(s: seq<real>)
    requires |s| >= 2
    ensures Middle(s) + Middle(s) == s[(|s| - 1) / 2] + s[|s| / 2]
    ensures IsSorted(s) ==> s[(|s| - 1) / 2] <= Middle(s) <= s[|s| / 2]
  {
    assert |s| % 2 == 0 ==> (|s| - 1) / 2 == |s| / 2 - 1;
  }

  function Abs(x: real): (r: real)
    ensures r >= 0.0 && (r == x || r == -x)
  {
    if x < 0.0 then -x else x
  }

  function Deviations(s: seq<real>, median: real): seq<real>
  {
    seq(|s|, i requires 0 <= i < |s| => Abs(s[i] - median))
  }

  /** The median absolute deviation. */
  function Mad(s: seq<real>, median: real): real
    requires |s| >= 2
  {
    SortedSorts(Deviations(s, median));
    Middle(Sorted(Deviations(s, median)))
  }

  /** The middle distance from the median, or the mean of the two. */
  lemma MadMeaning(s: seq<real>, median: real)
    requires |s| >= 2
    ensures var t := Sorted(Deviations(s, median));
      |t| == |s| && Mad(s, median) + Mad(s, median) == t[(|s| - 1) / 2] + t[|s| / 2]
  {
    SortedSorts(Deviations(s, median));
    MiddleMeaning(Sorted(Deviations(s, median)));
  }

  /** The indices the median is made of. */
  predicate IsMiddle(n: nat, i: nat) { i == n / 2 || (n % 2 == 0 && i + 1 == n / 2) }

  /** No value is closer to the median than the middle ones; so these lie within
      one deviation of it. */
  lemma MiddleWithinMad(s: seq<real>, i: nat)
    requires IsSorted(s) && |s| >= 2 && i < |s| && IsMiddle(|s|, i)
    ensures Abs(s[i] - Middle(s)) <= Mad(s, Middle(s))
    ensures Mad(s, Middle(s)) >= 0.0
  {
    var m := Middle(s);
    var d := Deviations(s, m);
    SortedKeepsMembers(d);
    SortedSorts(d);
    forall x | x in d ensures x >= Abs(s[i] - m) {
      var j :| 0 <= j < |d| && d[j] == x;
      var a, b := s[|s| / 2 - 1], s[|s| / 2];
      assert j < |s| / 2 ==> s[j] <= a;
      assert j >= |s| / 2 ==> s[j] >= b;
    }
    assert Sorted(d)[|s| / 2] in d && Sorted(d)[|s| / 2 - 1] in d;
  }

  predicate MiddlesWithin(s: seq<real>, lower: real, upper: real)
  {
    forall i | 0 <= i < |s| && IsMiddle(|s|, i) :: lower <= s[i] <= upper
  }

  lemma MiddlesWithinMad(s: seq<real>)
    requires IsSorted(s) && |s| >= 2
    ensures var median, mad := Middle(s), Mad(s, Middle(s));
      MiddlesWithin(s, median - 5.0 * mad, median + 5.0 * mad)
  {
    forall i | 0 <= i < |s| && IsMiddle(|s|, i)
      ensures Middle(s) - 5.0 * Mad(s, Middle(s)) <= s[i] <= Middle(s) + 5.0 * Mad(s, Middle(s))
    {
      MiddleWithinMad(s, i);
    }
  }

  function CountOf(s: seq<real>, x: real): nat
  {
    if s == [] then 0 else CountOf(s[1..], x) + if s[0] == x then 1 else 0
  }

  lemma {:induction false} CountIsMultiplicity(s: seq<real>, x: real)
    ensures CountOf(s, x) == multiset(s)[x]
  {
    if s != [] {
      CountIsMultiplicity(s[1..], x);
      assert s == [s[0]] + s[1..];
    }
  }

  lemma {:induction false} ZerosAreEqualValues(s: seq<real>, m: real)
    ensures CountOf(Deviations(s, m), 0.0) == CountOf(s, m)
  {
    if s != [] {
      ZerosAreEqualValues(s[1..], m);
      assert Deviations(s, m)[1..] == Deviations(s[1..], m);
    }
  }

  /** In a sorted nonnegative sequence the zeros come first. */
  lemma {:induction false} ZerosFirst(t: seq<real>, k: nat)
    requires IsSorted(t) && k < |t| && forall i | 0 <= i < |t| :: t[i] >= 0.0
    ensures t[k] == 0.0 <==> CountOf(t, 0.0) > k
  {
    if t[0] > 0.0 {
      NoZeros(t);
    } else if k > 0 {
      ZerosFirst(t[1..], k - 1);
    }
  }

  lemma {:induction false} NoZeros(t: seq<real>)
    requires forall i | 0 <= i < |t| :: t[i] > 0.0
    ensures CountOf(t, 0.0) == 0
  {
    if t != [] { NoZeros(t[1..]); }
  }

  lemma SortedDeviations(s: seq<real>, m: real)
    ensures var t := Sorted(Deviations(s, m));
      |t| == |s| && IsSorted(t) && CountOf(t, 0.0) == CountOf(s, m) && forall i | 0 <= i < |t| :: t[i] >= 0.0
  {
    var d := Deviations(s, m);
    hide Sorted;
    SortedSorts(d);
    SortedKeepsMembers(d);
    hide IsSorted;
    forall i | 0 <= i < |d| ensures Sorted(d)[i] >= 0.0 { assert Sorted(d)[i] in d; }
    CountIsMultiplicity(Sorted(d), 0.0);
    CountIsMultiplicity(d, 0.0);
    ZerosAreEqualValues(s, m);
  }

  lemma MiddleIsZero(t: seq<real>)
    requires IsSorted(t) && |t| >= 2 && forall i | 0 <= i < |t| :: t[i] >= 0.0
    ensures Middle(t) == 0.0 <==> t[|t| / 2] == 0.0
  {
  }

  /** The deviation is zero exactly when more than half of the sample equals the median. */
  lemma MadZeroMeansMajority(s: seq<real>)
    requires |s| >= 2
    ensures Mad(s, Middle(s)) == 0.0 <==> 2 * CountOf(s, Middle(s)) > |s|
  {
    var t := Sorted(Deviations(s, Middle(s)));
    SortedDeviations(s, Middle(s));
    MiddleIsZero(t);
    ZerosFirst(t, |s| / 2);
  }

  // ----- what is kept -----

  /** How much is kept if more than half of the sample is equal. Half of it is cut off,
      rounded down but no less than two values: on the left three quarters of that if the
      lower end is the further one from the median, else one quarter, but at least one value. */
  predicate ShareKept(s: seq<real>, left: nat, kept: nat)
    requires |s| >= 3
  {
    var cut, below, above := |s| - kept, Middle(s) - s[0], s[|s| - 1] - Middle(s);
    && (if |s| >= 4 then 2 * cut <= |s| < 2 * cut + 2 else cut == 2)
    && if below > above then 4 * left <= 3 * cut < 4 * left + 4
       else if cut >= 4 then 4 * left <= cut < 4 * left + 4
       else left == 1
  }

  /** The part `s[left..right + 1]` of a sorted sample that trimming keeps: nonempty,
      inside the sample, and around the middle. */
  predicate KeepsMiddle(n: nat, left: int, right: int)
  {
    0 <= left <= right < n && forall i | 0 <= i < n && IsMiddle(n, i) :: left <= i <= right
  }

  lemma TrimKeepsMiddle(s: seq<real>, left: nat, kept: nat)
    requires |s| >= 3 && ShareKept(s, left, kept)
    ensures KeepsMiddle(|s|, left, left + kept - 1)
  {
    hide Middle;
  }

  /** Both ends lose something, and the end further from the median more. */
  lemma TrimCutsTheLongerTail(s: seq<real>, left: nat, kept: nat)
    requires |s| >= 3 && ShareKept(s, left, kept)
    ensures var right := |s| - kept - left;
      var below, above := Middle(s) - s[0], s[|s| - 1] - Middle(s);
      && left >= 1 && right >= 1
      && (below > above ==> left >= right && (|s| >= 6 ==> left > right))
      && (below <= above ==> left <= right && (|s| >= 6 ==> left < right))
  {
    hide Middle;
  }

  /** Which part of a sorted sample is kept: if more than half of it is equal, a fixed
      share, cut on the side it leans to; otherwise exactly what is within five
      deviations of the median. */
  ghost predicate KeptBy(s: seq<real>, left: nat, kept: nat)
  {
    |s| >= 3 && KeepsMiddle(|s|, left, left + kept - 1) &&
    var median, mad := Middle(s), Mad(s, Middle(s));
    if mad == 0.0 then ShareKept(s, left, kept)
    else ExactlyWithin(s, left, kept, median - 5.0 * mad, median + 5.0 * mad)
  }

  ghost predicate ExactlyWithin(s: seq<real>, left: nat, kept: nat, lower: real, upper: real)
  {
    forall i | 0 <= i < |s| :: left <= i < left + kept <==> lower <= s[i] <= upper
  }

  lemma TrimmedIsKept(s: seq<real>, left: nat, kept: nat)
    requires |s| >= 3 && Mad(s, Middle(s)) == 0.0
    requires ShareKept(s, left, kept) && KeepsMiddle(|s|, left, left + kept - 1)
    ensures KeptBy(s, left, kept)
  {
    hide Mad, Middle, ShareKept, KeepsMiddle;
  }

  lemma RangeIsKept(s: seq<real>, left: nat, kept: nat, lower: real, upper: real)
    requires |s| >= 3 && Mad(s, Middle(s)) != 0.0
    requires lower == Middle(s) - 5.0 * Mad(s, Middle(s)) && upper == Middle(s) + 5.0 * Mad(s, Middle(s))
    requires ExactlyWithin(s, left, kept, lower, upper) && KeepsMiddle(|s|, left, left + kept - 1)
    ensures KeptBy(s, left, kept)
  {
    hide Mad, Middle, ExactlyWithin, KeepsMiddle;
  }

  lemma SliceOfPrefix(s: seq<real>, n: nat, i: nat, j: nat)
    requires i <= j <= n <= |s|
    ensures s[..n][i..j] == s[i..j]
  {
  }

  class CostDistribution {
    var values: array<real>
    var numValues: nat

    ghost predicate Valid()
      reads this
    {
      values.Length == K_MAX_VALUES == 14 && numValues <= K_MAX_VALUES
    }

    constructor ()
      ensures Valid() && numValues == 0 && fresh(values)
    {
      values := new real[K_MAX_VALUES];
      numValues := 0;
    }

    ghost function Sample(): seq<real>
      requires Valid()
      reads this, values
    {
      values[..numValues]
    }

    /** Sorts the first `n` values in place and returns their median. */
    static method Median(toSort: array<real>, n: nat) returns (median: real)
      requires 2 <= n <= toSort.Length
      modifies toSort
      ensures toSort[..n] == Sorted(old(toSort[..n])) && toSort[n..] == old(toSort[n..])
      ensures IsSorted(toSort[..n]) && median == Middle(toSort[..n])
    {
      hide Sorted, IsSorted, Middle;
      var sorted := Sorted(toSort[..n]);
      SortedSorts(toSort[..n]);
      for i := 0 to n
        invariant forall j | 0 <= j < i :: toSort[j] == sorted[j]
        invariant forall j | n <= j < toSort.Length :: toSort[j] == old(toSort[j])
      {
        toSort[i] := sorted[i];
      }
      assert toSort[..n] == sorted;
      median := MiddleOf(toSort, n);
    }

    /** The element in the middle of a sorted sample, or the mean of the two. */
    static method MiddleOf(toSort: array<real>, n: nat) returns (median: real)
      requires 2 <= n <= toSort.Length
      ensures median == Middle(toSort[..n])
    {
      median := if n % 2 == 1 then toSort[n / 2] else (toSort[n / 2] + toSort[n / 2 - 1]) * 0.5;
    }

    static method MedianAbsoluteDeviation(values: array<real>, n: nat, median: real) returns (mad: real)
      requires 2 <= n <= values.Length && n <= K_MAX_VALUES
      ensures mad == Mad(values[..n], median)
    {
      var absDev := new real[K_MAX_VALUES];
      for i := 0 to n
        invariant forall j | 0 <= j < i :: absDev[j] == Abs(values[j] - median)
      {
        absDev[i] := Abs(values[i] - median);
      }
      assert absDev[..n] == Deviations(values[..n], median);
      mad := Median(absDev, n);
    }

    /** The in-place move to the front of the part that is kept. */
    method MoveToFront(left: nat, n: nat)
      requires Valid() && left + n <= K_MAX_VALUES
      modifies values
      ensures values[..n] == old(values[left..left + n])
    {
      for i := 0 to n
        invariant forall j | 0 <= j < i :: values[j] == old(values[left + j])
        invariant forall j | i <= j < values.Length :: values[j] == old(values[j])
      {
        values[i] := values[left + i];
      }
      ghost var was := old(values[left..left + n]);
      assert |was| == n && forall j | 0 <= j < n :: was[j] == old(values[left + j]);
      assert values[..n] == was;
    }

    /** Sorts the sample and drops its outliers; the result says how many on the left. */
    method RemoveOutliers() returns (left: nat)
      requires Valid()
      modifies this`numValues, values
      ensures Valid()
      ensures old(numValues) < 3 ==> Sample() == old(Sample())
      ensures old(numValues) >= 3 ==>
                var s := Sorted(old(Sample()));
                KeptBy(s, left, numValues) && Sample() == s[left..left + numValues]
    {
      hide Sorted, Mad, Middle, ShareKept, IsSorted, ExactlyWithin, MiddlesWithin, KeptBy, IsMiddle;
      left := 0;
      if numValues < 3 { return; }
      var median := Median(values, numValues);
      ghost var s := values[..numValues];
      var mad := MedianAbsoluteDeviation(values, numValues, median);
      var kept;
      assert values[..numValues] == s && median == Middle(s) && mad == Mad(s, median);
      if mad == 0.0 {
        left, kept := TrimBySkewness(values, numValues, median);
        TrimmedIsKept(s, left, kept);
      } else {
        MiddlesWithinMad(s);
        var lower, upper := median - 5.0 * mad, median + 5.0 * mad;
        left, kept := KeptRange(values, numValues, lower, upper);
        RangeIsKept(s, left, kept, lower, upper);
      }
      assert left + kept <= numValues && s == values[..][..numValues];
      SliceOfPrefix(values[..], numValues, left, left + kept);
      numValues := kept;
      MoveToFront(left, numValues);
    }

    static method TrimBySkewness(values: array<real>, n: nat, median: real) returns (left: nat, kept: nat)
      requires 3 <= n <= values.Length && median == Middle(values[..n])
      ensures ShareKept(values[..n], left, kept) && KeepsMiddle(n, left, left + kept - 1)
    {
      hide Middle;
      var skewness := (values[n - 1] - median) - (median - values[0]);
      var trim := if n / 2 >= 2 then n / 2 else 2;
      left := if skewness < 0.0 then trim * 3 / 4 else trim / 4;
      if left < 1 { left := 1; }
      kept := n - trim;
      assert values[..n][0] == values[0] && values[..n][n - 1] == values[n - 1];
      TrimKeepsMiddle(values[..n], left, kept);
    }

    /** Walks inwards from both ends to the first values within the bounds. */
    static method KeptRange(values: array<real>, n: nat, lower: real, upper: real) returns (left: nat, kept: nat)
      requires 3 <= n <= values.Length && IsSorted(values[..n])
      requires MiddlesWithin(values[..n], lower, upper)
      ensures KeepsMiddle(n, left, left + kept - 1)
      ensures ExactlyWithin(values[..n], left, kept, lower, upper)
    {
      var s := values[..n];
      assert forall i | 0 <= i < n :: s[i] == values[i];
      assert IsMiddle(n, n / 2) && (n % 2 == 0 ==> IsMiddle(n, n / 2 - 1));
      var right := n - 1;
      while values[right] > upper
        invariant n / 2 <= right < n
        invariant forall i | right < i < n :: s[i] > upper
        decreases right
      {
        right := right - 1;
      }
      left := 0;
      while left < right && values[left] < lower
        invariant 0 <= left <= n / 2 && (n % 2 == 0 ==> left < n / 2)
        invariant forall i | 0 <= i < left :: s[i] < lower
      {
        left := left + 1;
      }
      kept := right - left + 1;
    }
  }
}
