/**
 * The two statistics `handle_missing_values` fills numeric gaps with, computed exactly on
 * rationals: pandas' `Series.median()` and `Series.mean()` over the non-null values, which are
 * undefined (NaN) when there are none.
 */
module Stats {
  import opened Wrappers
  import Sorting

  /** The order the median sorts by. */
  function RealLe(): (real, real) -> bool {
    (a: real, b: real) => a <= b
  }

  lemma RealLeIsTotalPreorder()
    ensures Sorting.TotalPreorder(RealLe())
  {
  }

  function Sum(xs: seq<real>): real
    decreases |xs|
  {
    if |xs| == 0 then 0.0 else Sum(xs[..|xs| - 1]) + xs[|xs| - 1]
  }

  /** `Series.mean()`: the sum divided by the count; undefined for no values. */
  function Mean(xs: seq<real>): (r: Option<real>)
    ensures r.Some? <==> |xs| > 0
  {
    if |xs| == 0 then None else Some(Sum(xs) / (|xs| as real))
  }

  /** `Series.median()`: the middle sorted value, or the average of the two middle ones for an even count. */
  function Median(xs: seq<real>): (r: Option<real>)
    ensures r.Some? <==> |xs| > 0
  {
    if |xs| == 0 then None
    else
      var s := Sorting.Sort(xs, RealLe());
      assert |s| == |multiset(s)| == |xs|;
      var n := |s|;
      if n % 2 == 1 then Some(s[n / 2]) else Some((s[n / 2 - 1] + s[n / 2]) / 2.0)
  }

  predicate Within(xs: seq<real>, lo: real, hi: real) {
    forall i :: 0 <= i < |xs| ==> lo <= xs[i] <= hi
  }

  lemma {:induction false} SumBounds(xs: seq<real>, lo: real, hi: real)
    requires Within(xs, lo, hi)
    ensures (|xs| as real) * lo <= Sum(xs) <= (|xs| as real) * hi
    decreases |xs|
  {
    if |xs| > 0 {
      var init := xs[..|xs| - 1];
      SumBounds(init, lo, hi);
      assert Sum(xs) == Sum(init) + xs[|xs| - 1] && lo <= xs[|xs| - 1] <= hi;
      ScaleStep(|init|, lo);
      ScaleStep(|init|, hi);
    }
  }

  /** One more copy of `x` in a multiple of `x`. */
  lemma ScaleStep(n: nat, x: real)
    ensures ((n + 1) as real) * x == (n as real) * x + x
  {
  }

  /** Adding a value in front adds it to the sum. */
  lemma {:induction false} SumCons(x: real, xs: seq<real>)
    ensures Sum([x] + xs) == x + Sum(xs)
    decreases |xs|
  {
    if |xs| > 0 {
      var init := xs[..|xs| - 1];
      SumCons(x, init);
      assert ([x] + xs)[..|xs|] == [x] + init;
    }
  }

  /** The mean never leaves the range of the values it is taken over. */
  lemma MeanWithinRange(xs: seq<real>, lo: real, hi: real)
    requires |xs| > 0 && Within(xs, lo, hi)
    ensures lo <= Mean(xs).value <= hi
  {
    SumBounds(xs, lo, hi);
    var n := |xs| as real;
    assert Mean(xs).value * n == Sum(xs);
  }

  lemma SortedValuesWithin(xs: seq<real>, lo: real, hi: real)
    requires Within(xs, lo, hi)
    ensures Within(Sorting.Sort(xs, RealLe()), lo, hi)
  {
    var s := Sorting.Sort(xs, RealLe());
    forall i | 0 <= i < |s| ensures lo <= s[i] <= hi {
      assert s[i] in multiset(xs);
    }
  }

  /** The median never leaves the range of the values it is taken over. */
  lemma MedianWithinRange(xs: seq<real>, lo: real, hi: real)
    requires |xs| > 0 && Within(xs, lo, hi)
    ensures lo <= Median(xs).value <= hi
  {
    SortedValuesWithin(xs, lo, hi);
    assert |Sorting.Sort(xs, RealLe())| == |multiset(xs)| == |xs|;
  }

  /** `x <= m`, as a property to count by. */
  function AtMost(m: real): real -> bool {
    x => x <= m
  }

  /** `x >= m`, as a property to count by. */
  function AtLeast(m: real): real -> bool {
    x => x >= m
  }

  /** On sorted values, the middle (or the average of the two middles) has half the values on either side. */
  lemma SortedMiddleSplits(s: seq<real>, m: real)
    requires |s| > 0 && Sorting.SortedBy(s, RealLe())
    requires m == if |s| % 2 == 1 then s[|s| / 2] else (s[|s| / 2 - 1] + s[|s| / 2]) / 2.0
    ensures 2 * Sorting.Count(s, AtMost(m)) >= |s|
    ensures 2 * Sorting.Count(s, AtLeast(m)) >= |s|
  {
    var n := |s|;
    if n % 2 == 1 {
      assert forall i :: 0 <= i < n / 2 + 1 ==> AtMost(m)(s[i]) by {
        forall i | 0 <= i < n / 2 + 1 ensures s[i] <= m {
          if i < n / 2 { assert RealLe()(s[i], s[n / 2]); }
        }
      }
      assert forall i :: n / 2 <= i < n ==> AtLeast(m)(s[i]) by {
        forall i | n / 2 <= i < n ensures s[i] >= m {
          if i > n / 2 { assert RealLe()(s[n / 2], s[i]); }
        }
      }
      Sorting.CountPrefix(s, AtMost(m), n / 2 + 1);
      Sorting.CountSuffix(s, AtLeast(m), n / 2);
    } else {
      assert RealLe()(s[n / 2 - 1], s[n / 2]);
      assert forall i :: 0 <= i < n / 2 ==> AtMost(m)(s[i]) by {
        forall i | 0 <= i < n / 2 ensures s[i] <= m {
          if i < n / 2 - 1 { assert RealLe()(s[i], s[n / 2 - 1]); }
        }
      }
      assert forall i :: n / 2 <= i < n ==> AtLeast(m)(s[i]) by {
        forall i | n / 2 <= i < n ensures s[i] >= m {
          if i > n / 2 { assert RealLe()(s[n / 2], s[i]); }
        }
      }
      Sorting.CountPrefix(s, AtMost(m), n / 2);
      Sorting.CountSuffix(s, AtLeast(m), n / 2);
    }
  }

  /**
   * The defining property of a median: at least half of the values are at most it, and at
   * least half are at least it.
   */
  lemma MedianSplitsInHalf(xs: seq<real>)
    requires |xs| > 0
    ensures 2 * Sorting.Count(xs, AtMost(Median(xs).value)) >= |xs|
    ensures 2 * Sorting.Count(xs, AtLeast(Median(xs).value)) >= |xs|
  {
    var s := Sorting.Sort(xs, RealLe());
    assert |s| == |xs| by {
      assert |s| == |multiset(s)| == |xs|;
    }
    var m := Median(xs).value;
    assert m == if |s| % 2 == 1 then s[|s| / 2] else (s[|s| / 2 - 1] + s[|s| / 2]) / 2.0;
    assert Sorting.SortedBy(s, RealLe()) by {
      RealLeIsTotalPreorder();
      Sorting.SortSorted(xs, RealLe());
    }
    SortedMiddleSplits(s, m);
    Sorting.CountSort(xs, RealLe(), AtMost(m));
    Sorting.CountSort(xs, RealLe(), AtLeast(m));
  }
}
