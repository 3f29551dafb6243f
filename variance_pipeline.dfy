/**
 * The ecliptic-variance ("shielding") test: is the ecliptic strip of the real
 * map quieter than the strips of randomly rotated copies?
 *
 * The real statistic is np.var of the strip pixels above the sentinel; each
 * null is the strip statistic of one rotated copy (seeds 2025, 2026, ...);
 * the p-value is the share of nulls strictly below the real value.
 */
module VariancePipeline {
  import opened Options
  import opened Vectors
  import opened Estimator
  import opened EclipticStrip
  import Shuffling

  const NSims: nat := 1000
  const FirstSeed: int := 2025

  /** worker_variance for each seed. */
  function NullVariances(original: seq<real>, strip: seq<nat>, latitudes: seq<real>, seeds: seq<int>,
                         sampler: (int, nat) -> Mat3, rotate: (Mat3, seq<real>) -> seq<real>): (r: seq<real>)
    requires KeepsPixelCount(rotate) && IndicesBelow(strip, |original|) && |latitudes| == |strip|
    ensures |r| == |seeds|
    ensures forall k :: 0 <= k < |r| ==> r[k] >= 0.0
  {
    seq(|seeds|, k requires 0 <= k < |seeds| =>
      StripStatistic(NullMap(original, seeds[k], sampler, rotate), strip, latitudes))
  }

  /** The real statistic: the sentinel filter only, and no guard against an empty strip. */
  function RealVariance(skyMap: seq<real>, strip: seq<nat>): (r: Option<real>)
    requires IndicesBelow(strip, |skyMap|)
    ensures r.Some? ==> r.value >= 0.0
  {
    var pixels := Shuffling.Gather(skyMap, strip);
    PopulationVariance(Select(pixels, Unmasked(pixels)))
  }

  lemma {:induction false} SelectAll(xs: seq<real>, keep: seq<bool>)
    requires |keep| == |xs| && forall k :: 0 <= k < |keep| ==> keep[k]
    ensures Select(xs, keep) == xs
  {
    if xs != [] {
      SelectAll(xs[..|xs| - 1], keep[..|xs| - 1]);
    }
  }

  /**
   * When no strip pixel is masked the real statistic is the variance of the
   * whole strip, low galactic latitudes included, while a null worker would
   * drop every strip pixel within 40 degrees of the galactic plane.
   */
  lemma RealKeepsGalacticPlane(skyMap: seq<real>, strip: seq<nat>)
    requires IndicesBelow(strip, |skyMap|)
    requires forall k :: 0 <= k < |strip| ==> skyMap[strip[k]] > Sentinel
    ensures RealVariance(skyMap, strip) == PopulationVariance(Shuffling.Gather(skyMap, strip))
  {
    var pixels := Shuffling.Gather(skyMap, strip);
    SelectAll(pixels, Unmasked(pixels));
  }

  /** A fully masked strip makes the real variance NaN; no null is below NaN, so p = 0 and the verdict is Signal. */
  lemma MaskedStripReportsSignal(skyMap: seq<real>, strip: seq<nat>, nulls: seq<real>)
    requires IndicesBelow(strip, |skyMap|) && |nulls| > 0
    requires forall k :: 0 <= k < |strip| ==> skyMap[strip[k]] <= Sentinel
    ensures RealVariance(skyMap, strip).None?
    ensures ThreeWay(LowerTailP(AllSome(nulls), RealVariance(skyMap, strip))) == Signal
  {
    var pixels := Shuffling.Gather(skyMap, strip);
    NothingSelected(pixels, Unmasked(pixels));
  }

  /**
   * main: the strip from the ecliptic latitudes, the real variance, the
   * nulls for seeds 2025.., the p-value and the verdict. The worker reads the
   * galactic latitude of every strip pixel from the same pixel grid.
   */
  function VarianceTest(original: seq<real>, eclipticLatitude: seq<real>, galacticLatitude: seq<real>,
                        sampler: (int, nat) -> Mat3, rotate: (Mat3, seq<real>) -> seq<real>): (r: (real, Verdict))
    requires KeepsPixelCount(rotate)
    requires |eclipticLatitude| == |original| && |galacticLatitude| == |original|
    ensures 0.0 <= r.0 <= 1.0
    ensures r.1 == ThreeWay(r.0)
  {
    var strip := StripIndices(eclipticLatitude);
    var nulls := NullVariances(original, strip, StripLatitudes(galacticLatitude, strip),
                               Seeds(FirstSeed, NSims), sampler, rotate);
    var p := LowerTailP(AllSome(nulls), RealVariance(original, strip));
    (p, ThreeWay(p))
  }
}
