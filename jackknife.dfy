/**
 * The galactic jackknife: does the strip variance anomaly survive a |b| > 40
 * cut? The real and the null statistics go through the same worker; the real
 * one uses seed 0, which draws a rotation like any other seed. The p-value is
 * the share of nulls strictly above the real value.
 */
module Jackknife {
  import opened Options
  import opened Vectors
  import opened Estimator
  import opened EclipticStrip
  import VariancePipeline

  const NSims: nat := 1000
  const FirstSeed: int := 2025

  /** worker_jackknife: the strip statistic of the map rotated by the generator seeded with seed. */
  function JackknifeWorker(original: seq<real>, seed: int, strip: seq<nat>, galacticLatitude: seq<real>,
                           sampler: (int, nat) -> Mat3, rotate: (Mat3, seq<real>) -> seq<real>): (r: real)
    requires KeepsPixelCount(rotate)
    requires IndicesBelow(strip, |original|) && IndicesBelow(strip, |galacticLatitude|)
    ensures r >= 0.0
  {
    StripStatistic(NullMap(original, seed, sampler, rotate), strip, StripLatitudes(galacticLatitude, strip))
  }

  /** The null pool: worker_jackknife for seeds 2025, 2026, ... */
  function JackknifeNulls(original: seq<real>, strip: seq<nat>, galacticLatitude: seq<real>,
                          sampler: (int, nat) -> Mat3, rotate: (Mat3, seq<real>) -> seq<real>): (r: seq<real>)
    requires KeepsPixelCount(rotate)
    requires IndicesBelow(strip, |original|) && IndicesBelow(strip, |galacticLatitude|)
    ensures |r| == NSims
    ensures forall k :: 0 <= k < NSims ==> r[k] >= 0.0
  {
    var seeds := Seeds(FirstSeed, NSims);
    seq(NSims, k requires 0 <= k < NSims =>
      JackknifeWorker(original, seeds[k], strip, galacticLatitude, sampler, rotate))
  }

  /** main: the strip from the ecliptic latitudes, the real value at seed 0, the nulls, the p-value and the verdict. */
  function JackknifeTest(original: seq<real>, eclipticLatitude: seq<real>, galacticLatitude: seq<real>,
                         sampler: (int, nat) -> Mat3, rotate: (Mat3, seq<real>) -> seq<real>): (r: (real, Verdict))
    requires KeepsPixelCount(rotate)
    requires |eclipticLatitude| == |original| && |galacticLatitude| == |original|
    ensures 0.0 <= r.0 <= 1.0
    ensures r.1 == ThreeWay(r.0)
  {
    var strip := StripIndices(eclipticLatitude);
    var observed := JackknifeWorker(original, 0, strip, galacticLatitude, sampler, rotate);
    var nulls := JackknifeNulls(original, strip, galacticLatitude, sampler, rotate);
    var p := UpperTailP(AllSome(nulls), Some(observed));
    (p, ThreeWay(p))
  }

  /**
   * The jackknife and the variance test draw the same null pool: the same
   * seeds, the same rotations, the same strip, the same galactic cut and the
   * same sentinel filter. They differ only in the real value and in the tail
   * they count.
   */
  lemma JackknifeNullsMatchVariance(original: seq<real>, eclipticLatitude: seq<real>, galacticLatitude: seq<real>,
                                    sampler: (int, nat) -> Mat3, rotate: (Mat3, seq<real>) -> seq<real>)
    requires KeepsPixelCount(rotate)
    requires |eclipticLatitude| == |original| && |galacticLatitude| == |original|
    ensures IndicesBelow(StripIndices(eclipticLatitude), |original|)
    ensures JackknifeNulls(original, StripIndices(eclipticLatitude), galacticLatitude, sampler, rotate)
         == VariancePipeline.NullVariances(original, StripIndices(eclipticLatitude),
                                           StripLatitudes(galacticLatitude, StripIndices(eclipticLatitude)),
                                           Seeds(VariancePipeline.FirstSeed, VariancePipeline.NSims), sampler, rotate)
  {
    var strip := StripIndices(eclipticLatitude);
    var jack := JackknifeNulls(original, strip, galacticLatitude, sampler, rotate);
    var vari := VariancePipeline.NullVariances(original, strip, StripLatitudes(galacticLatitude, strip),
                                               Seeds(VariancePipeline.FirstSeed, VariancePipeline.NSims), sampler, rotate);
    assert |jack| == |vari|;
    forall k | 0 <= k < |jack|
      ensures jack[k] == vari[k]
    {
    }
  }
}
