/** Median and median absolute deviation, as the behavioural sentinel computes them. */
module OrderStatistics {
  import opened Collections
  import opened JsNumbers
  import opened Ranges

  function Insert(x: real, s: seq<real>): (r: seq<real>)
    ensures |r| == |s| + 1
  {
    if s == [] || x <= s[0] then [x] + s else [s[0]] + Insert(x, s[1..])
  }

  /** `[...values].sort((a, b) => a - b)`. */
  function Sort(s: seq<real>): (r: seq<real>)
    ensures |r| == |s|
  {
    if s == [] then [] else Insert(s[0], Sort(s[1..]))
  }

  function Median(values: seq<real>): real {
    if |values| == 0 then 0.0
    else
      var sorted := Sort(values);
      var middle := |sorted| / 2;
      if |sorted| % 2 == 1 then sorted[middle] else (sorted[middle - 1] + sorted[middle]) / 2.0
  }

  function Deviations(values: seq<real>, center: real): (r: seq<real>)
    ensures |r| == |values| && forall i :: 0 <= i < |r| ==> r[i] == Abs(values[i] - center)
  {
    seq(|values|, i requires 0 <= i < |values| => Abs(values[i] - center))
  }

  function Ratio(distance: real, mad: real): real
    requires mad != 0.0
  {
    distance / (6.0 * mad)
  }

  /** Distance over spread, cut at one; without a spread, whether there is a distance. */
  function Scaled(value: real, center: real, mad: real): (d: real)
    ensures 0.0 <= d <= 1.0
  {
    if mad == 0.0 then (if value == center then 0.0 else 1.0) else Clamp(Ratio(Abs(value - center), mad), 0.0, 1.0)
  }

  function RobustDeviation(value: real, values: seq<real>): (d: real)
    ensures 0.0 <= d <= 1.0
  {
    if |values| < 4 then 0.0
    else
      var center := Median(values);
      Scaled(value, center, Median(Deviations(values, center)))
  }

  // Sorting.

  lemma {:induction false} InsertPermutes(x: real, s: seq<real>)
    ensures multiset(Insert(x, s)) == multiset{x} + multiset(s)
  {
    if s != [] && x > s[0] {
      InsertPermutes(x, s[1..]);
      assert s == [s[0]] + s[1..];
    }
  }

  lemma {:induction false} InsertSorts(x: real, s: seq<real>)
    requires Sorted(s)
    ensures Sorted(Insert(x, s))
  {
    if s != [] && x > s[0] {
      var rest := Insert(x, s[1..]);
      InsertSorts(x, s[1..]);
      InsertPermutes(x, s[1..]);
      hide Insert;
      NotBelow(s[0], x, s[1..], rest);
    }
  }

  lemma NotBelow(least: real, x: real, s: seq<real>, rest: seq<real>)
    requires least <= x && (forall i :: 0 <= i < |s| ==> least <= s[i])
    requires multiset(rest) == multiset{x} + multiset(s)
    ensures forall i :: 0 <= i < |rest| ==> least <= rest[i]
  {
    forall i | 0 <= i < |rest|
      ensures least <= rest[i]
    {
      assert rest[i] in multiset(rest);
    }
  }

  lemma {:induction false} SortSorts(s: seq<real>)
    ensures Sorted(Sort(s)) && multiset(Sort(s)) == multiset(s)
  {
    if s != [] {
      SortSorts(s[1..]);
      InsertSorts(s[0], Sort(s[1..]));
      InsertPermutes(s[0], Sort(s[1..]));
      assert s == [s[0]] + s[1..];
    }
  }

  lemma LeastIsFirst(a: seq<real>, b: seq<real>)
    requires Sorted(a) && a != [] && b != [] && b[0] in multiset(a)
    ensures a[0] <= b[0]
  {
  }

  /** There is only one way to put the same values in order. */
  lemma {:induction false} SortedUnique(a: seq<real>, b: seq<real>)
    requires Sorted(a) && Sorted(b) && multiset(a) == multiset(b)
    ensures a == b
  {
    assert |a| == |multiset(a)| == |multiset(b)| == |b|;
    if a != [] {
      assert a[0] in multiset(a) && b[0] in multiset(b);
      LeastIsFirst(a, b);
      LeastIsFirst(b, a);
      assert a == [a[0]] + a[1..] && b == [b[0]] + b[1..];
      Cancel(a[0], multiset(a[1..]), multiset(b[1..]));
      SortedUnique(a[1..], b[1..]);
    }
  }

  /** The median does not depend on the order of the values. */
  lemma MedianIgnoresOrder(a: seq<real>, b: seq<real>)
    requires multiset(a) == multiset(b)
    ensures Median(a) == Median(b)
  {
    hide Sort, Sorted;
    assert |a| == |multiset(a)| == |multiset(b)| == |b|;
    SortSorts(a);
    SortSorts(b);
    SortedUnique(Sort(a), Sort(b));
  }

  /** Whatever arrangement of the values is in order, the median is its middle, or the mean of its two middles. */
  lemma MedianExact(values: seq<real>, sorted: seq<real>)
    requires Sorted(sorted) && multiset(sorted) == multiset(values)
    ensures |sorted| == |values|
    ensures values == [] ==> Median(values) == 0.0
    ensures |values| % 2 == 1 ==> Median(values) == sorted[|values| / 2]
    ensures values != [] && |values| % 2 == 0 ==>
              Median(values) == (sorted[|values| / 2 - 1] + sorted[|values| / 2]) / 2.0
  {
    hide Sort, Sorted;
    assert |values| == |multiset(values)| == |multiset(sorted)| == |sorted|;
    SortSorts(values);
    SortedUnique(sorted, Sort(values));
  }

  /**
   * The deviation: none below four values; with a spread, the distance from the median in units of six median
   * absolute deviations, cut at one; without a spread, whether there is a distance.
   */
  lemma RobustDeviationExact(value: real, values: seq<real>)
    ensures var center, d := Median(values), RobustDeviation(value, values);
      var mad := Median(Deviations(values, center));
      && (|values| <= 3 ==> d == 0.0)
      && (|values| >= 4 && mad == 0.0 ==> d == if value == center then 0.0 else 1.0)
      && (|values| >= 4 && mad > 0.0 ==>
            if value - center >= 6.0 * mad || center - value >= 6.0 * mad then d == 1.0
            else 6.0 * mad * d == if value >= center then value - center else center - value)
      && mad >= 0.0
  {
    hide Median;
    var center := Median(values);
    var mad := Median(Deviations(values, center));
    assert mad >= 0.0 by { NonNegativeMedian(Deviations(values, center)); }
    if mad > 0.0 {
      RatioExact(Abs(value - center), mad);
    }
  }

  lemma RatioExact(distance: real, mad: real)
    requires distance >= 0.0 && mad > 0.0
    ensures Ratio(distance, mad) >= 0.0 && 6.0 * mad * Ratio(distance, mad) == distance
    ensures Ratio(distance, mad) >= 1.0 <==> distance >= 6.0 * mad
  {
    var r, unit := Ratio(distance, mad), 6.0 * mad;
    assert unit * r == distance;
    if r >= 1.0 {
      assert unit * (r - 1.0) >= 0.0;
    } else {
      assert unit * (1.0 - r) > 0.0;
    }
    NonNegativeQuotient(distance, unit);
  }

  lemma NonNegativeQuotient(a: real, b: real)
    requires a >= 0.0 && b > 0.0
    ensures a / b >= 0.0
  {
  }

  lemma NonNegativeMedian(values: seq<real>)
    requires forall i :: 0 <= i < |values| ==> values[i] >= 0.0
    ensures Median(values) >= 0.0
  {
    var sorted := Sort(values);
    SortSorts(values);
    forall i | 0 <= i < |sorted|
      ensures sorted[i] >= 0.0
    {
      assert sorted[i] in multiset(sorted);
      assert sorted[i] in multiset(values);
    }
    hide Sort;
  }

  // Affine maps.

  function Image(x: real, p: real, q: real): real {
    p * x + q
  }

  function Affine(s: seq<real>, p: real, q: real): (r: seq<real>)
    ensures |r| == |s| && forall i :: 0 <= i < |r| ==> r[i] == Image(s[i], p, q)
  {
    if s == [] then [] else [Image(s[0], p, q)] + Affine(s[1..], p, q)
  }

  lemma ImageOrder(x: real, y: real, p: real, q: real)
    requires x <= y
    ensures if p >= 0.0 then Image(x, p, q) <= Image(y, p, q) else Image(y, p, q) <= Image(x, p, q)
  {
    var gap := p * (y - x);
    assert Image(y, p, q) - Image(x, p, q) == gap;
  }

  function Reverse(s: seq<real>): (r: seq<real>)
    ensures |r| == |s|
  {
    if s == [] then [] else Reverse(s[1..]) + [s[0]]
  }

  lemma {:induction false} ReverseAt(s: seq<real>, k: nat)
    requires k < |s|
    ensures Reverse(s)[k] == s[|s| - 1 - k]
  {
    if k < |s| - 1 {
      ReverseAt(s[1..], k);
    }
  }

  lemma {:induction false} ReversePermutes(s: seq<real>)
    ensures multiset(Reverse(s)) == multiset(s)
  {
    if s != [] {
      ReversePermutes(s[1..]);
      assert s == [s[0]] + s[1..];
    }
  }

  lemma {:induction false} AffineInsert(x: real, s: seq<real>, p: real, q: real)
    ensures multiset(Affine(Insert(x, s), p, q)) == multiset{Image(x, p, q)} + multiset(Affine(s, p, q))
  {
    hide Image;
    if s != [] && x > s[0] {
      AffineInsert(x, s[1..], p, q);
      assert Insert(x, s)[1..] == Insert(x, s[1..]);
    } else {
      assert Insert(x, s)[1..] == s;
    }
  }

  lemma {:induction false} AffineSort(s: seq<real>, p: real, q: real)
    ensures multiset(Affine(Sort(s), p, q)) == multiset(Affine(s, p, q))
  {
    hide Image;
    if s != [] {
      AffineSort(s[1..], p, q);
      AffineInsert(s[0], Sort(s[1..]), p, q);
    }
  }

  lemma AffineSorted(s: seq<real>, p: real, q: real)
    requires Sorted(s)
    ensures Sorted(if p >= 0.0 then Affine(s, p, q) else Reverse(Affine(s, p, q)))
  {
    hide Image;
    var image := Affine(s, p, q);
    forall i, j | 0 <= i < j < |s|
      ensures if p >= 0.0 then image[i] <= image[j] else image[j] <= image[i]
    {
      ImageOrder(s[i], s[j], p, q);
    }
    if p < 0.0 {
      forall i, j | 0 <= i < j < |image|
        ensures Reverse(image)[i] <= Reverse(image)[j]
      {
        ReverseAt(image, i);
        ReverseAt(image, j);
      }
    }
  }

  /** The sorted affine image is the affine image of the sorted values, backwards for a negative factor. */
  lemma SortAffine(s: seq<real>, p: real, q: real)
    ensures Sort(Affine(s, p, q)) == if p >= 0.0 then Affine(Sort(s), p, q) else Reverse(Affine(Sort(s), p, q))
  {
    hide *;
    var image := Affine(Sort(s), p, q);
    SortSorts(s);
    SortSorts(Affine(s, p, q));
    AffineSort(s, p, q);
    AffineSorted(Sort(s), p, q);
    ReversePermutes(image);
    SortedUnique(Sort(Affine(s, p, q)), if p >= 0.0 then image else Reverse(image));
  }

  lemma MedianOfImage(s: seq<real>, p: real, q: real)
    requires s != []
    ensures Median(Affine(s, p, q)) == Image(Median(s), p, q)
  {
    hide Sort, Affine, Image, Reverse;
    SortAffine(s, p, q);
    var sorted, middle := Sort(s), |s| / 2;
    if p < 0.0 {
      ReverseAt(Affine(sorted, p, q), middle);
    }
    if |s| % 2 == 0 {
      if p < 0.0 {
        ReverseAt(Affine(sorted, p, q), middle - 1);
      }
      ImageMidpoint(sorted[middle - 1], sorted[middle], p, q);
    }
  }

  /** The median commutes with every affine map, decreasing ones included. */
  lemma MedianAffine(s: seq<real>, t: seq<real>, p: real, q: real)
    requires s != [] && |t| == |s| && forall i :: 0 <= i < |s| ==> t[i] == p * s[i] + q
    ensures Median(t) == p * Median(s) + q
  {
    assert t == Affine(s, p, q);
    hide Median, Affine;
    MedianOfImage(s, p, q);
  }

  lemma ImageMidpoint(x: real, y: real, p: real, q: real)
    ensures (Image(x, p, q) + Image(y, p, q)) / 2.0 == Image((x + y) / 2.0, p, q)
  {
  }

  lemma DeviationsAffine(s: seq<real>, center: real, p: real, q: real)
    ensures Deviations(Affine(s, p, q), Image(center, p, q)) == Affine(Deviations(s, center), Abs(p), 0.0)
  {
    hide Image;
    forall i | 0 <= i < |s|
      ensures Abs(Image(s[i], p, q) - Image(center, p, q)) == Image(Abs(s[i] - center), Abs(p), 0.0)
    {
      ImageDistance(s[i], center, p, q);
    }
  }

  lemma ImageDistance(x: real, y: real, p: real, q: real)
    ensures Abs(Image(x, p, q) - Image(y, p, q)) == Image(Abs(x - y), Abs(p), 0.0) == Abs(p) * Abs(x - y)
  {
    assert Image(x, p, q) - Image(y, p, q) == p * (x - y);
    AbsProduct(p, x - y);
  }

  lemma AbsProduct(a: real, b: real)
    ensures Abs(a * b) == Abs(a) * Abs(b)
  {
  }

  /** Rescaling value and window together, by any nonzero factor, leaves the deviation unchanged. */
  lemma RobustDeviationAffine(value: real, values: seq<real>, scaled: seq<real>, p: real, q: real)
    requires p != 0.0 && |scaled| == |values|
    requires forall i :: 0 <= i < |values| ==> scaled[i] == p * values[i] + q
    ensures RobustDeviation(p * value + q, scaled) == RobustDeviation(value, values)
  {
    assert scaled == Affine(values, p, q);
    hide RobustDeviation, Affine;
    DeviationOfImage(value, values, p, q);
  }

  lemma DeviationOfImage(value: real, values: seq<real>, p: real, q: real)
    requires p != 0.0
    ensures RobustDeviation(Image(value, p, q), Affine(values, p, q)) == RobustDeviation(value, values)
  {
    if |values| >= 4 {
      var center := Median(values);
      var mad := Median(Deviations(values, center));
      var scaled := Affine(values, p, q);
      MedianOfImage(values, p, q);
      DeviationsAffine(values, center, p, q);
      MedianOfImage(Deviations(values, center), Abs(p), 0.0);
      ImageOfMad(mad, p);
      hide Image, Affine, Median, Deviations;
      assert Median(scaled) == Image(center, p, q);
      assert Median(Deviations(scaled, Median(scaled))) == Abs(p) * mad;
      ScaledKept(value, center, mad, p, q);
    }
  }

  lemma ScaledKept(value: real, center: real, mad: real, p: real, q: real)
    requires p != 0.0
    ensures Scaled(Image(value, p, q), Image(center, p, q), Abs(p) * mad) == Scaled(value, center, mad)
  {
    hide Image, Clamp, Abs, Ratio;
    ImageDistance(value, center, p, q);
    ImageDistinct(value, center, p, q);
    ImageOfMad(mad, p);
    if mad != 0.0 {
      RatioKept(p, Abs(value - center), mad, Abs(Image(value, p, q) - Image(center, p, q)), Abs(p) * mad);
    }
  }

  lemma ImageDistinct(x: real, y: real, p: real, q: real)
    requires p != 0.0
    ensures Image(x, p, q) == Image(y, p, q) <==> x == y
  {
    assert Image(x, p, q) - Image(y, p, q) == p * (x - y);
    NonzeroProduct(p, x - y);
  }

  lemma RatioKept(p: real, distance: real, mad: real, distance': real, mad': real)
    requires p != 0.0 && mad != 0.0 && distance' == Abs(p) * distance && mad' == Abs(p) * mad
    ensures mad' != 0.0 && Ratio(distance', mad') == Ratio(distance, mad)
  {
    NonzeroProduct(Abs(p), mad);
    CancelFactor(Abs(p), distance, 6.0 * mad);
    assert 6.0 * mad' == Abs(p) * (6.0 * mad);
  }

  lemma ImageOfMad(mad: real, p: real)
    requires p != 0.0
    ensures Image(mad, Abs(p), 0.0) == Abs(p) * mad && 6.0 * (Abs(p) * mad) == Abs(p) * (6.0 * mad)
    ensures mad == 0.0 <==> Abs(p) * mad == 0.0
  {
    NonzeroProduct(Abs(p), mad);
  }

  lemma NonzeroProduct(a: real, b: real)
    requires a != 0.0
    ensures a * b == 0.0 <==> b == 0.0
  {
  }

  lemma CancelFactor(f: real, a: real, b: real)
    requires f != 0.0 && b != 0.0
    ensures f * b != 0.0 && (f * a) / (f * b) == a / b
  {
    var r := a / b;
    assert f * a == r * (f * b);
  }

  // Robustness.

  lemma {:induction false} CountInsert(x: real, s: seq<real>, lo: real, hi: real)
    ensures CountIn(Insert(x, s), lo, hi) == (if lo <= x <= hi then 1 else 0) + CountIn(s, lo, hi)
  {
    hide CountIn;
    CountInHead(Insert(x, s), lo, hi);
    if s != [] && x > s[0] {
      CountInHead(s, lo, hi);
      CountInsert(x, s[1..], lo, hi);
      assert Insert(x, s)[1..] == Insert(x, s[1..]);
    } else {
      assert Insert(x, s)[1..] == s;
    }
  }

  lemma {:induction false} CountSort(s: seq<real>, lo: real, hi: real)
    ensures CountIn(Sort(s), lo, hi) == CountIn(s, lo, hi)
  {
    if s != [] {
      CountInHead(s, lo, hi);
      CountSort(s[1..], lo, hi);
      CountInsert(s[0], Sort(s[1..]), lo, hi);
    }
  }

  /** In sorted order, a value below the range leaves it only later positions, one above only earlier ones. */
  lemma {:induction false} CountSplit(s: seq<real>, k: nat, lo: real, hi: real)
    requires Sorted(s) && k < |s|
    ensures s[k] < lo ==> CountIn(s, lo, hi) < |s| - k
    ensures s[k] > hi ==> CountIn(s, lo, hi) <= k
  {
    hide CountIn;
    CountInHead(s, lo, hi);
    if k > 0 {
      CountSplit(s[1..], k - 1, lo, hi);
    } else if s[0] > hi {
      NoneIn(s, lo, hi);
    }
  }

  lemma {:induction false} NoneIn(s: seq<real>, lo: real, hi: real)
    requires forall i :: 0 <= i < |s| ==> s[i] > hi
    ensures CountIn(s, lo, hi) == 0
  {
    if s != [] {
      NoneIn(s[..|s| - 1], lo, hi);
    }
  }

  /** In sorted order, a majority within the range covers the middle. */
  lemma MajorityCoversMiddle(s: seq<real>, k: nat, lo: real, hi: real)
    requires Sorted(s) && 2 * CountIn(s, lo, hi) > |s| && k < |s|
    requires k == |s| / 2 || (|s| % 2 == 0 && k == |s| / 2 - 1)
    ensures lo <= s[k] <= hi
  {
    hide CountIn, Sorted;
    CountSplit(s, k, lo, hi);
  }

  /** When more than half of the values lie in a range, so does the median. */
  lemma MajorityBoundsMedian(s: seq<real>, lo: real, hi: real)
    requires 2 * CountIn(s, lo, hi) > |s|
    ensures lo <= Median(s) <= hi
  {
    hide Sort, CountIn, Sorted;
    var sorted, middle := Sort(s), |s| / 2;
    SortSorts(s);
    CountSort(s, lo, hi);
    MajorityCoversMiddle(sorted, middle, lo, hi);
    if |s| % 2 == 0 {
      MajorityCoversMiddle(sorted, middle - 1, lo, hi);
    }
  }

  lemma {:induction false} UnchangedCounted(a: seq<real>, b: seq<real>, lo: real, hi: real)
    requires |a| == |b| && forall i :: 0 <= i < |a| && a[i] == b[i] ==> lo <= a[i] <= hi
    ensures CountIn(b, lo, hi) >= |a| - |set i | 0 <= i < |a| && a[i] != b[i]|
  {
    if a != [] {
      var n := |a| - 1;
      UnchangedCounted(a[..n], b[..n], lo, hi);
      var before := set i | 0 <= i < n && a[..n][i] != b[..n][i];
      assert (set i | 0 <= i < |a| && a[i] != b[i]) == before + if a[n] != b[n] then {n} else {};
    }
  }

  /** Changing fewer than half of the values leaves the median within the range of the unchanged ones. */
  lemma MedianRobust(a: seq<real>, b: seq<real>, lo: real, hi: real)
    requires |a| == |b| && 2 * |set i | 0 <= i < |a| && a[i] != b[i]| < |a|
    requires forall i :: 0 <= i < |a| && a[i] == b[i] ==> lo <= a[i] <= hi
    ensures lo <= Median(b) <= hi
  {
    UnchangedCounted(a, b, lo, hi);
    MajorityBoundsMedian(b, lo, hi);
  }
}
