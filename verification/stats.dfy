/** Exact arithmetic over `real` for the descriptive statistics the
    dashboard computes: sums, means, sample variance, relative change and
    compound growth. Undefined results (a zero denominator, too few values)
    are `None`, never an infinity or a silent zero. */
module Stats {
  import opened Wrappers

  function Sum(xs: seq<real>): real {
    if |xs| == 0 then 0.0 else Sum(xs[..|xs| - 1]) + xs[|xs| - 1]
  }

  /** The arithmetic mean (pandas `mean` over defined values). */
  function Mean(xs: seq<real>): real
    requires |xs| > 0
  {
    Sum(xs) / (|xs| as real)
  }

  /** Adds `c` to every element. */
  function Shift(xs: seq<real>, c: real): (r: seq<real>)
    ensures |r| == |xs|
  {
    seq(|xs|, i requires 0 <= i < |xs| => xs[i] + c)
  }

  /** The values of the defined cells, in order (what pandas' skip-NaN
      reductions look at). */
  function NonNull(rs: seq<Option<real>>): (xs: seq<real>)
    ensures |xs| <= |rs|
  {
    if |rs| == 0 then []
    else
      var init := NonNull(rs[..|rs| - 1]);
      match rs[|rs| - 1]
      case None => init
      case Some(x) => init + [x]
  }

  /** `r` is the relative change from `from` to `to`: `to = from * (1 + r)`,
      and it is undefined exactly when `from` is zero. */
  predicate IsRelativeChange(from: real, to: real, r: Option<real>) {
    && (r.None? <==> from == 0.0)
    && (r.Some? ==> from * (1.0 + r.value) == to)
  }

  /** Relative change `(to - from) / from`; undefined when `from` is zero. */
  function RelativeChange(from: real, to: real): (r: Option<real>)
    ensures IsRelativeChange(from, to, r)
  {
    if from == 0.0 then None
    else
      var q := (to - from) / from;
      assert from * q == to - from;
      Some(q)
  }

  /** The compound growth factor: the product of `1 + x` over `xs`. */
  function Growth(xs: seq<real>): real {
    if |xs| == 0 then 1.0 else Growth(xs[..|xs| - 1]) * (1.0 + xs[|xs| - 1])
  }

  /** Sum of squared deviations from `m`. */
  function SquaredDeviation(xs: seq<real>, m: real): real {
    if |xs| == 0 then 0.0
    else SquaredDeviation(xs[..|xs| - 1], m) + (xs[|xs| - 1] - m) * (xs[|xs| - 1] - m)
  }

  /** The sample variance (divisor `n - 1`), defined for two or more values. */
  function SampleVariance(xs: seq<real>): real
    requires |xs| >= 2
  {
    SquaredDeviation(xs, Mean(xs)) / ((|xs| - 1) as real)
  }

  lemma {:induction false} SumAbove(xs: seq<real>, c: real)
    requires |xs| > 0
    requires forall i :: 0 <= i < |xs| ==> c < xs[i]
    ensures (|xs| as real) * c < Sum(xs)
    decreases |xs|
  {
    if |xs| > 1 {
      SumAbove(xs[..|xs| - 1], c);
    }
  }

  lemma {:induction false} SumBelow(xs: seq<real>, c: real)
    requires |xs| > 0
    requires forall i :: 0 <= i < |xs| ==> xs[i] < c
    ensures Sum(xs) < (|xs| as real) * c
    decreases |xs|
  {
    if |xs| > 1 {
      SumBelow(xs[..|xs| - 1], c);
    }
  }

  /** The mean lies between the smallest and the largest value. */
  lemma MeanBetween(xs: seq<real>)
    requires |xs| > 0
    ensures exists i :: 0 <= i < |xs| && xs[i] <= Mean(xs)
    ensures exists j :: 0 <= j < |xs| && Mean(xs) <= xs[j]
  {
    var m := Mean(xs);
    var n := |xs| as real;
    assert Sum(xs) == n * m;
    if forall i :: 0 <= i < |xs| ==> m < xs[i] {
      SumAbove(xs, m);
      assert false;
    }
    if forall j :: 0 <= j < |xs| ==> xs[j] < m {
      SumBelow(xs, m);
      assert false;
    }
  }

  /** `m` is the mean of `xs`: times the count it gives the sum. */
  predicate IsMeanOf(m: real, xs: seq<real>) {
    m * (|xs| as real) == Sum(xs)
  }

  /** `Series.mean()` over the values that are left once NaN is skipped:
      NaN (None) when nothing is left; otherwise the value that times the
      count gives the sum, which lies between the smallest and the largest
      value. */
  function MeanOrNone(xs: seq<real>): (r: Option<real>)
    ensures r.None? <==> |xs| == 0
    ensures r.Some? ==> IsMeanOf(r.value, xs)
    ensures r.Some? ==> exists i :: 0 <= i < |xs| && xs[i] <= r.value
    ensures r.Some? ==> exists j :: 0 <= j < |xs| && r.value <= xs[j]
  {
    if |xs| == 0 then None
    else
      MeanBetween(xs);
      Some(Mean(xs))
  }

  lemma {:induction false} SumShift(xs: seq<real>, c: real)
    ensures Sum(Shift(xs, c)) == Sum(xs) + (|xs| as real) * c
    decreases |xs|
  {
    if |xs| > 0 {
      var n := |xs|;
      assert Shift(xs, c)[..n - 1] == Shift(xs[..n - 1], c);
      SumShift(xs[..n - 1], c);
    }
  }

  /** Shifting every value by `c` shifts the mean by exactly `c`. */
  lemma MeanShift(xs: seq<real>, c: real)
    requires |xs| > 0
    ensures Mean(Shift(xs, c)) == Mean(xs) + c
  {
    SumShift(xs, c);
    var n := |xs| as real;
    DivCancel(n, c);
    assert Sum(Shift(xs, c)) / n == Sum(xs) / n + (n * c) / n;
  }

  lemma DivCancel(n: real, c: real)
    requires n != 0.0
    ensures (n * c) / n == c
  {
  }

  lemma {:induction false} SquaredDeviationNonNegative(xs: seq<real>, m: real)
    ensures SquaredDeviation(xs, m) >= 0.0
    decreases |xs|
  {
    if |xs| > 0 {
      SquaredDeviationNonNegative(xs[..|xs| - 1], m);
      SquareNonNegative(xs[|xs| - 1] - m);
    }
  }

  lemma SquareNonNegative(d: real)
    ensures d * d >= 0.0
  {
    if d < 0.0 {
      assert d * d == (-d) * (-d);
    }
  }

  lemma {:induction false} SumConstant(xs: seq<real>, c: real)
    requires forall i :: 0 <= i < |xs| ==> xs[i] == c
    ensures Sum(xs) == (|xs| as real) * c
    decreases |xs|
  {
    if |xs| > 0 {
      SumConstant(xs[..|xs| - 1], c);
    }
  }

  lemma {:induction false} SquaredDeviationAtConstant(xs: seq<real>, c: real)
    requires forall i :: 0 <= i < |xs| ==> xs[i] == c
    ensures SquaredDeviation(xs, c) == 0.0
    decreases |xs|
  {
    if |xs| > 0 {
      SquaredDeviationAtConstant(xs[..|xs| - 1], c);
    }
  }

  /** The sample variance is never negative, and a flat series has
      dispersion 0: a defined value, unlike a series with fewer than two
      values, which has none. */
  lemma VarianceOfFlatIsZero(xs: seq<real>)
    requires |xs| >= 2
    ensures SampleVariance(xs) >= 0.0
    ensures (forall i :: 0 <= i < |xs| ==> xs[i] == xs[0]) ==> SampleVariance(xs) == 0.0
  {
    var m := Mean(xs);
    SquaredDeviationNonNegative(xs, m);
    if forall i :: 0 <= i < |xs| ==> xs[i] == xs[0] {
      SumConstant(xs, xs[0]);
      assert m == xs[0];
      SquaredDeviationAtConstant(xs, xs[0]);
    }
  }

  /** If each cell of `ys` is the matching cell of `xs` plus `c` (and
      defined exactly when it is), the defined values shift by `c` too. */
  lemma {:induction false} NonNullShift(ys: seq<Option<real>>, xs: seq<Option<real>>, c: real)
    requires |ys| == |xs|
    requires forall i :: 0 <= i < |xs| ==> (ys[i].None? <==> xs[i].None?)
    requires forall i :: 0 <= i < |xs| && xs[i].Some? ==> ys[i].value == xs[i].value + c
    ensures NonNull(ys) == Shift(NonNull(xs), c)
    decreases |xs|
  {
    if |xs| > 0 {
      var n := |xs|;
      NonNullShift(ys[..n - 1], xs[..n - 1], c);
    }
  }

  /** The defined values are exactly the values of the defined cells. */
  lemma {:induction false} NonNullMembers(rs: seq<Option<real>>)
    ensures forall x :: x in NonNull(rs) <==> Some(x) in rs
    decreases |rs|
  {
    if |rs| > 0 {
      var init := rs[..|rs| - 1];
      assert rs == init + [rs[|rs| - 1]];
      NonNullMembers(init);
    }
  }

  /** Each defined value occurs in `NonNull(rs)` exactly as often as its
      cell occurs in `rs`, so the values number the cells minus the NULLs. */
  lemma {:induction false} NonNullCounts(rs: seq<Option<real>>)
    ensures forall x :: multiset(NonNull(rs))[x] == multiset(rs)[Some(x)]
    ensures |NonNull(rs)| == |rs| - multiset(rs)[None]
    decreases |rs|
  {
    if |rs| > 0 {
      var init, c := rs[..|rs| - 1], rs[|rs| - 1];
      assert multiset(rs) == multiset(init) + multiset{c} by {
        assert rs == init + [c];
      }
      NonNullCounts(init);
      match c
      case None =>
        assert NonNull(rs) == NonNull(init);
      case Some(v) =>
        assert multiset(NonNull(rs)) == multiset(NonNull(init)) + multiset{v};
    }
  }
}
