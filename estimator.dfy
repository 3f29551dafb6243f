/**
 * The Monte-Carlo bookkeeping the driver scripts share: one-sided counts of
 * null statistics against the observed one, p-values, the three-way verdict,
 * numpy's population variance, and the fraction of runs under a threshold.
 *
 * numpy's NaN (the mean or variance of an empty array) is None; every
 * comparison with NaN is false.
 */
module Estimator {
  import opened Options
  import Arith

  // ---------------------------------------------------------------------------
  // Counting and p-values
  // ---------------------------------------------------------------------------

  /** a < b on floats that may be NaN. */
  predicate Lt(a: Option<real>, b: Option<real>)
  {
    a.Some? && b.Some? && a.value < b.value
  }

  /** The statistics as floats that are never NaN. */
  function AllSome(xs: seq<real>): (r: seq<Option<real>>)
    ensures |r| == |xs| && forall k :: 0 <= k < |xs| ==> r[k] == Some(xs[k])
  {
    seq(|xs|, k requires 0 <= k < |xs| => Some(xs[k]))
  }

  /** np.sum(nulls < x). */
  function CountBelow(nulls: seq<Option<real>>, x: Option<real>): (r: nat)
    ensures r <= |nulls|
    ensures x.None? ==> r == 0
  {
    if nulls == [] then 0
    else CountBelow(nulls[..|nulls| - 1], x) + (if Lt(nulls[|nulls| - 1], x) then 1 else 0)
  }

  /** np.sum(nulls > x). */
  function CountAbove(nulls: seq<Option<real>>, x: Option<real>): (r: nat)
    ensures r <= |nulls|
    ensures x.None? ==> r == 0
  {
    if nulls == [] then 0
    else CountAbove(nulls[..|nulls| - 1], x) + (if Lt(x, nulls[|nulls| - 1]) then 1 else 0)
  }

  /** A larger observed value has at least as many nulls below it. */
  lemma {:induction false} CountBelowMonotone(nulls: seq<Option<real>>, x: real, y: real)
    requires x <= y
    ensures CountBelow(nulls, Some(x)) <= CountBelow(nulls, Some(y))
  {
    if nulls != [] {
      CountBelowMonotone(nulls[..|nulls| - 1], x, y);
    }
  }

  /** A larger observed value has at most as many nulls above it. */
  lemma {:induction false} CountAboveAntitone(nulls: seq<Option<real>>, x: real, y: real)
    requires x <= y
    ensures CountAbove(nulls, Some(y)) <= CountAbove(nulls, Some(x))
  {
    if nulls != [] {
      CountAboveAntitone(nulls[..|nulls| - 1], x, y);
    }
  }

  /** Below and above split the nulls that differ from the observed value. */
  lemma {:induction false} CountSplit(nulls: seq<real>, x: real)
    ensures CountBelow(AllSome(nulls), Some(x)) + CountAbove(AllSome(nulls), Some(x))
         == |nulls| - CountEqual(nulls, x)
  {
    if nulls != [] {
      var n := |nulls| - 1;
      assert AllSome(nulls)[..n] == AllSome(nulls[..n]);
      CountSplit(nulls[..n], x);
    }
  }

  function CountEqual(xs: seq<real>, x: real): (r: nat)
    ensures r <= |xs|
  {
    if xs == [] then 0 else CountEqual(xs[..|xs| - 1], x) + (if xs[|xs| - 1] == x then 1 else 0)
  }

  /** count / nSims. */
  function PValue(count: nat, nSims: nat): (p: real)
    requires nSims > 0
    ensures count <= nSims ==> 0.0 <= p <= 1.0
  {
    if count <= nSims then Arith.FractionBounds(count as real, nSims as real); count as real / nSims as real
    else count as real / nSims as real
  }

  /** More extreme nulls never give a smaller p-value. */
  lemma PValueMonotone(c1: nat, c2: nat, nSims: nat)
    requires nSims > 0 && c1 <= c2
    ensures PValue(c1, nSims) <= PValue(c2, nSims)
  {
    Arith.DivideMonotone(c1 as real, c2 as real, nSims as real);
  }

  /** [first + i for i in range(n)]. */
  function Seeds(first: int, n: nat): (r: seq<int>)
    ensures |r| == n && forall i :: 0 <= i < n ==> r[i] == first + i
  {
    seq(n, i requires 0 <= i < n => first + i)
  }

  /** The lower-tail p-value: the share of nulls strictly below the observed value. */
  function LowerTailP(nulls: seq<Option<real>>, observed: Option<real>): (p: real)
    requires |nulls| > 0
    ensures 0.0 <= p <= 1.0
    ensures observed.None? ==> p == 0.0
  {
    PValue(CountBelow(nulls, observed), |nulls|)
  }

  /** The upper-tail p-value: the share of nulls strictly above the observed value. */
  function UpperTailP(nulls: seq<Option<real>>, observed: Option<real>): (p: real)
    requires |nulls| > 0
    ensures 0.0 <= p <= 1.0
    ensures observed.None? ==> p == 0.0
  {
    PValue(CountAbove(nulls, observed), |nulls|)
  }

  /** The lower-tail p-value never decreases as the observed value grows. */
  lemma LowerTailPMonotone(nulls: seq<Option<real>>, x: real, y: real)
    requires |nulls| > 0 && x <= y
    ensures LowerTailP(nulls, Some(x)) <= LowerTailP(nulls, Some(y))
  {
    CountBelowMonotone(nulls, x, y);
    PValueMonotone(CountBelow(nulls, Some(x)), CountBelow(nulls, Some(y)), |nulls|);
  }

  /** The upper-tail p-value never increases as the observed value grows. */
  lemma UpperTailPAntitone(nulls: seq<Option<real>>, x: real, y: real)
    requires |nulls| > 0 && x <= y
    ensures UpperTailP(nulls, Some(y)) <= UpperTailP(nulls, Some(x))
  {
    CountAboveAntitone(nulls, x, y);
    PValueMonotone(CountAbove(nulls, Some(y)), CountAbove(nulls, Some(x)), |nulls|);
  }

  // ---------------------------------------------------------------------------
  // Verdict
  // ---------------------------------------------------------------------------

  /** The three conclusions: significant in the tested tail, in the opposite tail, or neither. */
  datatype Verdict = Signal | Inverse | Consistent

  const LowerThreshold: real := 0.05
  const UpperThreshold: real := 0.95

  function ThreeWay(p: real): (v: Verdict)
    ensures v == Signal <==> p < LowerThreshold
    ensures v == Inverse <==> p > UpperThreshold
    ensures v == Consistent <==> LowerThreshold <= p <= UpperThreshold
  {
    if p < LowerThreshold then Signal
    else if p > UpperThreshold then Inverse
    else Consistent
  }

  // ---------------------------------------------------------------------------
  // Population variance
  // ---------------------------------------------------------------------------

  function Sum(xs: seq<real>): real
  {
    if xs == [] then 0.0 else Sum(xs[..|xs| - 1]) + xs[|xs| - 1]
  }

  function Mean(xs: seq<real>): real
    requires |xs| > 0
  {
    Sum(xs) / |xs| as real
  }

  /** The sum of squared deviations from m. */
  function SumSquaredDeviation(xs: seq<real>, m: real): (r: real)
    ensures r >= 0.0
  {
    if xs == [] then 0.0
    else
      var d := xs[|xs| - 1] - m;
      Arith.Square(d);
      SumSquaredDeviation(xs[..|xs| - 1], m) + d * d
  }

  /** np.var of a non-empty array: the mean squared deviation from the mean. */
  function Variance(xs: seq<real>): (r: real)
    requires |xs| > 0
    ensures r >= 0.0
  {
    Arith.NonNegativeQuotient(SumSquaredDeviation(xs, Mean(xs)), |xs| as real);
    SumSquaredDeviation(xs, Mean(xs)) / |xs| as real
  }

  /** np.var: NaN for an empty array. */
  function PopulationVariance(xs: seq<real>): (r: Option<real>)
    ensures r.None? <==> |xs| == 0
    ensures r.Some? ==> r.value >= 0.0
  {
    if |xs| == 0 then None else Some(Variance(xs))
  }

  /** The worker's statistic: 0.0 when nothing survives, else the variance. */
  function GuardedVariance(xs: seq<real>): (r: real)
    ensures r >= 0.0
    ensures |xs| == 0 ==> r == 0.0
    ensures |xs| > 0 ==> Some(r) == PopulationVariance(xs)
  {
    if |xs| == 0 then 0.0 else Variance(xs)
  }

  function Shift(xs: seq<real>, c: real): (r: seq<real>)
    ensures |r| == |xs|
  {
    seq(|xs|, k requires 0 <= k < |xs| => xs[k] + c)
  }

  lemma {:induction false} SumShift(xs: seq<real>, c: real)
    ensures Sum(Shift(xs, c)) == Sum(xs) + |xs| as real * c
  {
    if xs != [] {
      var n := |xs| - 1;
      assert Shift(xs, c)[..n] == Shift(xs[..n], c);
      SumShift(xs[..n], c);
    }
  }

  lemma {:induction false} SumSquaredDeviationShift(xs: seq<real>, m: real, c: real)
    ensures SumSquaredDeviation(Shift(xs, c), m + c) == SumSquaredDeviation(xs, m)
  {
    if xs != [] {
      var n := |xs| - 1;
      assert Shift(xs, c)[..n] == Shift(xs[..n], c);
      SumSquaredDeviationShift(xs[..n], m, c);
    }
  }

  /** Adding a constant to every value leaves the variance unchanged. */
  lemma VarianceShift(xs: seq<real>, c: real)
    requires |xs| > 0
    ensures Variance(Shift(xs, c)) == Variance(xs)
  {
    SumShift(xs, c);
    Arith.QuotientShift(Sum(xs), |xs| as real, c);
    assert Mean(Shift(xs, c)) == Mean(xs) + c;
    SumSquaredDeviationShift(xs, Mean(xs), c);
  }

  lemma {:induction false} SumConstant(xs: seq<real>, c: real)
    requires forall k :: 0 <= k < |xs| ==> xs[k] == c
    ensures Sum(xs) == |xs| as real * c
  {
    if xs != [] {
      SumConstant(xs[..|xs| - 1], c);
    }
  }

  lemma {:induction false} SumSquaredDeviationConstant(xs: seq<real>, c: real)
    requires forall k :: 0 <= k < |xs| ==> xs[k] == c
    ensures SumSquaredDeviation(xs, c) == 0.0
  {
    if xs != [] {
      SumSquaredDeviationConstant(xs[..|xs| - 1], c);
    }
  }

  /** A constant array has variance 0. */
  lemma VarianceConstant(xs: seq<real>, c: real)
    requires |xs| > 0
    requires forall k :: 0 <= k < |xs| ==> xs[k] == c
    ensures Variance(xs) == 0.0
  {
    SumConstant(xs, c);
    Arith.QuotientShift(0.0, |xs| as real, c);
    assert Mean(xs) == c;
    SumSquaredDeviationConstant(xs, c);
  }

  // ---------------------------------------------------------------------------
  // Threshold fraction and failed runs
  // ---------------------------------------------------------------------------

  /** The angle a run reports when its analysis raised. */
  const FailSafeAngle: real := 90.0

  /** Angles below this count as an "Axis of Evil" alignment. */
  const EvilThreshold: real := 10.0

  /** try: the analysed angle; except: 90.0. None is the raised exception. */
  function WorkerAngle(analysed: Option<real>): (r: real)
    ensures analysed.None? ==> r == FailSafeAngle
    ensures analysed.Some? ==> r == analysed.value
  {
    match analysed
    case None => FailSafeAngle
    case Some(angle) => angle
  }

  /** np.sum(angles < threshold) / len(angles); NaN for no runs. */
  function FractionBelow(angles: seq<real>, threshold: real): (r: Option<real>)
    ensures r.None? <==> |angles| == 0
    ensures r.Some? ==> 0.0 <= r.value <= 1.0
  {
    if |angles| == 0 then None
    else Some(PValue(CountBelow(AllSome(angles), Some(threshold)), |angles|))
  }

  /** No null below the observed value: the count is zero. */
  lemma {:induction false} NoneBelow(nulls: seq<Option<real>>, x: Option<real>)
    requires forall k :: 0 <= k < |nulls| ==> !Lt(nulls[k], x)
    ensures CountBelow(nulls, x) == 0
  {
    if nulls != [] {
      NoneBelow(nulls[..|nulls| - 1], x);
    }
  }

  /** When every run fell back to 90 degrees, no run is aligned: the fraction is 0. */
  lemma AllFailedScoresZero(angles: seq<real>)
    requires |angles| > 0
    requires forall k :: 0 <= k < |angles| ==> angles[k] == FailSafeAngle
    ensures FractionBelow(angles, EvilThreshold) == Some(0.0)
  {
    NoneBelow(AllSome(angles), Some(EvilThreshold));
  }

  /** A run whose analysis raised never counts as aligned. */
  lemma {:induction false} FailedRunsNotCounted(outcomes: seq<Option<real>>)
    ensures CountBelow(AllSome(seq(|outcomes|, k requires 0 <= k < |outcomes| => WorkerAngle(outcomes[k]))), Some(EvilThreshold))
         == CountBelow(outcomes, Some(EvilThreshold))
  {
    if outcomes != [] {
      var n := |outcomes| - 1;
      var angles := seq(|outcomes|, k requires 0 <= k < |outcomes| => WorkerAngle(outcomes[k]));
      assert AllSome(angles)[..n] == AllSome(seq(n, k requires 0 <= k < n => WorkerAngle(outcomes[..n][k])));
      FailedRunsNotCounted(outcomes[..n]);
    }
  }
}
