/** Counting and filtering numbers by range: timestamps by age, samples by value. */
module Ranges {
  import opened Collections

  predicate Sorted(ts: seq<real>) {
    forall i, j :: 0 <= i < j < |ts| ==> ts[i] <= ts[j]
  }

  /** How many timestamps are not older than `from`. */
  function CountSince(ts: seq<real>, from: real): (n: nat)
    ensures n <= |ts|
  {
    if ts == [] then 0
    else CountSince(ts[..|ts| - 1], from) + (if ts[|ts| - 1] >= from then 1 else 0)
  }

  /** Those timestamps, in order. */
  function Since(ts: seq<real>, from: real): seq<real> {
    if ts == [] then []
    else
      var kept := Since(ts[..|ts| - 1], from);
      if ts[|ts| - 1] >= from then kept + [ts[|ts| - 1]] else kept
  }

  /** How many timestamps lie in the closed interval [a, b]. */
  function CountIn(ts: seq<real>, a: real, b: real): (n: nat)
    ensures n <= |ts|
  {
    if ts == [] then 0
    else CountIn(ts[..|ts| - 1], a, b) + (if a <= ts[|ts| - 1] <= b then 1 else 0)
  }

  /** The same count, taken from the front. */
  lemma {:induction false} CountInHead(ts: seq<real>, a: real, b: real)
    requires ts != []
    ensures CountIn(ts, a, b) == (if a <= ts[0] <= b then 1 else 0) + CountIn(ts[1..], a, b)
  {
    if |ts| > 1 {
      CountInHead(ts[..|ts| - 1], a, b);
      assert ts[..|ts| - 1][1..] == ts[1..][..|ts| - 2];
    }
  }

  function Lesser(a: nat, b: nat): nat {
    if a <= b then a else b
  }

  lemma {:induction false} NoneSince(ts: seq<real>, from: real)
    requires forall i :: 0 <= i < |ts| ==> ts[i] < from
    ensures CountSince(ts, from) == 0 && Since(ts, from) == []
  {
    if ts != [] {
      NoneSince(ts[..|ts| - 1], from);
    }
  }

  lemma SortedLast(ts: seq<real>, n: nat, from: real)
    requires Sorted(ts) && ts != []
    ensures Sorted(ts[..|ts| - 1]) && ts == ts[..|ts| - 1] + [ts[|ts| - 1]]
    ensures ts[|ts| - 1] < from ==> CountSince(ts, from) == CountSince(LastN(ts, n), from) == 0 && Since(ts, from) == []
  {
    hide CountSince, Since;
    if ts[|ts| - 1] < from {
      NoneSince(ts, from);
      NoneSince(LastN(ts, n), from);
    }
  }

  /** In order, the recent timestamps are the last ones. */
  lemma {:induction false} SinceIsLastN(ts: seq<real>, from: real)
    requires Sorted(ts)
    ensures Since(ts, from) == LastN(ts, CountSince(ts, from))
  {
    hide Sorted;
    if ts != [] {
      var init, t := ts[..|ts| - 1], ts[|ts| - 1];
      SortedLast(ts, 0, from);
      if t >= from {
        SinceIsLastN(init, from);
        assert Since(ts, from) == Since(init, from) + [t] && CountSince(ts, from) == CountSince(init, from) + 1;
        hide Since, CountSince, LastN;
        LastNExtend(init, t, CountSince(init, from));
      }
    }
  }

  lemma SortedSuffix(ts: seq<real>, n: nat)
    requires Sorted(ts)
    ensures Sorted(LastN(ts, n))
  {
  }

  lemma CountLastStep(ts: seq<real>, t: real, n: nat, from: real)
    ensures CountSince(LastN(ts + [t], n + 1), from) == CountSince(LastN(ts, n), from) + if t >= from then 1 else 0
    ensures CountSince(ts + [t], from) == CountSince(ts, from) + if t >= from then 1 else 0
  {
    hide LastN, CountSince;
    LastNExtend(ts, t, n);
    CountAppend(LastN(ts, n), t, from);
    CountAppend(ts, t, from);
  }

  /** A window of the last n timestamps holds the recent ones, up to n of them. */
  lemma {:induction false} CountInLastN(ts: seq<real>, n: nat, from: real)
    requires Sorted(ts)
    ensures CountSince(LastN(ts, n), from) == Lesser(n, CountSince(ts, from))
  {
    hide Sorted, CountSince;
    if n > 0 && |ts| > n {
      var init, t := ts[..|ts| - 1], ts[|ts| - 1];
      hide LastN;
      SortedLast(ts, n, from);
      if t >= from {
        CountInLastN(init, n - 1, from);
        CountLastStep(init, t, n - 1, from);
      }
    }
  }

  lemma LastNExtend<T>(s: seq<T>, x: T, m: nat)
    ensures LastN(s, m) + [x] == LastN(s + [x], m + 1)
  {
  }

  lemma LastNTwice<T>(s: seq<T>, a: nat, b: nat)
    ensures LastN(LastN(s, a), b) == LastN(s, Lesser(a, b))
  {
  }

  lemma {:induction false} CountLater(ts: seq<real>, early: real, late: real)
    requires early <= late
    ensures CountSince(ts, late) <= CountSince(ts, early)
  {
    if ts != [] {
      CountLater(ts[..|ts| - 1], early, late);
    }
  }

  lemma {:induction false} IntervalWithinSince(ts: seq<real>, from: real, a: real, b: real)
    requires from <= a
    ensures CountIn(ts, a, b) <= CountSince(ts, from)
  {
    if ts != [] {
      IntervalWithinSince(ts[..|ts| - 1], from, a, b);
    }
  }

  lemma CountInAppend(ts: seq<real>, t: real, a: real, b: real)
    ensures CountIn(ts + [t], a, b) == CountIn(ts, a, b) + if a <= t <= b then 1 else 0
  {
    assert (ts + [t])[..|ts|] == ts;
  }

  lemma CountAppend(ts: seq<real>, t: real, from: real)
    ensures CountSince(ts + [t], from) == CountSince(ts, from) + if t >= from then 1 else 0
  {
    assert (ts + [t])[..|ts|] == ts;
  }
}
