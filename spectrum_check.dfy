/**
 * The spectrum-dependency check: is an "Axis of Evil" alignment more likely
 * under the real power spectrum than under a scale-invariant one?
 *
 * The scale-invariant spectrum has C_0 = 0 and C_l = 1 / (l (l + 1)); it is
 * rescaled in place so that its l = 10 entry equals the real one. Each track
 * simulates maps from one spectrum with seeds 50000, 50001, ..., and reports
 * the share of runs whose quadrupole-octopole angle is below 10 degrees; a run
 * whose analysis raised reports 90 degrees. Map synthesis and the analysis are
 * the parameter `simulate`, which returns None where the analysis raised.
 */
module SpectrumCheck {
  import opened Options
  import opened Estimator
  import Arith

  /** The multipole range of both spectra (lmax = 64). */
  const SpectrumLmax: nat := 64
  /** The multipole at which the flat spectrum is matched to the real one. */
  const PivotL: nat := 10
  const NSims: nat := 1000
  const FirstSeed: int := 50000
  /** Probabilities closer than this are called independent. */
  const Tolerance: real := 0.005

  /** get_theoretical_spectrum: C_0 = 0, C_l = 1 / (l (l + 1)). */
  function ScaleInvariant(lmax: nat): (r: seq<real>)
    ensures |r| == lmax + 1 && r[0] == 0.0
    ensures forall l :: 1 <= l <= lmax ==> r[l] > 0.0
  {
    seq(lmax + 1, l requires 0 <= l <= lmax =>
      if l == 0 then 0.0 else 1.0 / (l as real * (l as real + 1.0)))
  }

  /** The Harrison-Zel'dovich property: l (l + 1) C_l is the same constant for every l >= 1. */
  lemma ScaleInvariantFlat(lmax: nat, l: nat)
    requires 1 <= l <= lmax
    ensures l as real * (l as real + 1.0) * ScaleInvariant(lmax)[l] == 1.0
  {
    var d := l as real * (l as real + 1.0);
    Arith.PositiveProduct(l as real, l as real + 1.0);
    assert d * (1.0 / d) == 1.0;
  }

  /** Power falls strictly with l from l = 1 on. */
  lemma ScaleInvariantDecreasing(lmax: nat, l: nat)
    requires 1 <= l < lmax
    ensures ScaleInvariant(lmax)[l + 1] < ScaleInvariant(lmax)[l]
  {
    var a := l as real * (l as real + 1.0);
    var b := (l as real + 1.0) * (l as real + 2.0);
    Arith.PositiveProduct(l as real, l as real + 1.0);
    assert b == a + 2.0 * (l as real + 1.0);
    Arith.ReciprocalDecreasing(a, b);
  }

  /** flat_cls * (real_cls[10] / flat_cls[10]). */
  function Normalised(flat: seq<real>, realCls: seq<real>): (r: seq<real>)
    requires |flat| > PivotL && |realCls| > PivotL && flat[PivotL] != 0.0
    ensures |r| == |flat|
    ensures r[PivotL] == realCls[PivotL]
  {
    var factor := realCls[PivotL] / flat[PivotL];
    seq(|flat|, l requires 0 <= l < |flat| => flat[l] * factor)
  }

  /** Rescaling keeps every ratio between two multipoles: C'_i C_j == C'_j C_i. */
  lemma NormalisedKeepsShape(flat: seq<real>, realCls: seq<real>, i: nat, j: nat)
    requires |flat| > PivotL && |realCls| > PivotL && flat[PivotL] != 0.0
    requires i < |flat| && j < |flat|
    ensures Normalised(flat, realCls)[i] * flat[j] == Normalised(flat, realCls)[j] * flat[i]
  {
  }

  /** flat_cls *= norm_factor, in place. */
  method Renormalise(flat: array<real>, realCls: seq<real>)
    requires flat.Length > PivotL && |realCls| > PivotL && flat[PivotL] != 0.0
    modifies flat
    ensures flat[..] == Normalised(old(flat[..]), realCls)
  {
    var factor := realCls[PivotL] / flat[PivotL];
    var l := 0;
    while l < flat.Length
      invariant 0 <= l <= flat.Length
      invariant forall k :: 0 <= k < l ==> flat[k] == old(flat[k]) * factor
      invariant forall k :: l <= k < flat.Length ==> flat[k] == old(flat[k])
    {
      flat[l] := flat[l] * factor;
      l := l + 1;
    }
    assert factor == realCls[PivotL] / old(flat[..])[PivotL];
    assert forall k :: 0 <= k < flat.Length ==> flat[..][k] == Normalised(old(flat[..]), realCls)[k];
  }

  /** The angles of one track: the analysed angle of each seeded run, or 90 where it raised. */
  function TrackAngles(cls: seq<real>, nSims: nat, simulate: (seq<real>, int) -> Option<real>): (r: seq<real>)
    ensures |r| == nSims
    ensures forall k :: 0 <= k < nSims ==> r[k] == WorkerAngle(simulate(cls, FirstSeed + k))
  {
    seq(nSims, k requires 0 <= k < nSims => WorkerAngle(simulate(cls, FirstSeed + k)))
  }

  /** run_track: the share of runs below 10 degrees; NaN (None) for no runs. */
  function RunTrack(cls: seq<real>, nSims: nat, simulate: (seq<real>, int) -> Option<real>): (r: Option<real>)
    ensures r.None? <==> nSims == 0
    ensures r.Some? ==> 0.0 <= r.value <= 1.0
  {
    FractionBelow(TrackAngles(cls, nSims, simulate), EvilThreshold)
  }

  /** A run whose analysis raised never counts: the track counts only real angles below 10. */
  lemma RunTrackCountsAnalysedRuns(cls: seq<real>, nSims: nat, simulate: (seq<real>, int) -> Option<real>)
    requires nSims > 0
    ensures RunTrack(cls, nSims, simulate)
         == Some(PValue(CountBelow(seq(nSims, k requires 0 <= k < nSims => simulate(cls, FirstSeed + k)),
                                   Some(EvilThreshold)), nSims))
  {
    var outcomes := seq(nSims, k requires 0 <= k < nSims => simulate(cls, FirstSeed + k));
    FailedRunsNotCounted(outcomes);
    assert TrackAngles(cls, nSims, simulate)
        == seq(|outcomes|, k requires 0 <= k < |outcomes| => WorkerAngle(outcomes[k]));
  }

  /**
   * As written, analyze_axis_of_evil raises on every map (it calls a function
   * config.py does not define), so every run reports 90 degrees and the track
   * probability is 0.
   */
  lemma AllRaisedTrackIsZero(cls: seq<real>, nSims: nat, simulate: (seq<real>, int) -> Option<real>)
    requires nSims > 0
    requires forall c, seed :: simulate(c, seed).None?
    ensures RunTrack(cls, nSims, simulate) == Some(0.0)
  {
    AllFailedScoresZero(TrackAngles(cls, nSims, simulate));
  }

  /** The three conclusions of main. */
  datatype SpectrumVerdict = Independent | Dependent | InverseDependence

  /** Comparisons with NaN are false, so a NaN probability falls through to InverseDependence. */
  function Compare(probReal: Option<real>, probFlat: Option<real>): (v: SpectrumVerdict)
    ensures v == Independent <==>
              probReal.Some? && probFlat.Some? && Arith.Abs(probReal.value - probFlat.value) < Tolerance
    ensures v == Dependent <==>
              probReal.Some? && probFlat.Some? && Arith.Abs(probReal.value - probFlat.value) >= Tolerance
              && probReal.value > probFlat.value
    ensures probReal.None? || probFlat.None? ==> v == InverseDependence
  {
    if probReal.Some? && probFlat.Some? && Arith.Abs(probReal.value - probFlat.value) < Tolerance then Independent
    else if probReal.Some? && probFlat.Some? && probReal.value > probFlat.value then Dependent
    else InverseDependence
  }

  /** With 1000 runs per track, "independent" means the two tracks' counts differ by at most 4. */
  lemma IndependentWithinFourRuns(cReal: nat, cFlat: nat)
    requires cReal <= NSims && cFlat <= NSims
    ensures Compare(Some(PValue(cReal, NSims)), Some(PValue(cFlat, NSims))) == Independent
        <==> -5 < cReal - cFlat < 5
  {
    var d := PValue(cReal, NSims) - PValue(cFlat, NSims);
    assert d == (cReal - cFlat) as real / 1000.0;
  }

  /** As written both tracks score 0, so main always reports independence. */
  lemma AllRaisedIsIndependent(realCls: seq<real>, simulate: (seq<real>, int) -> Option<real>)
    requires |realCls| > PivotL
    requires forall c, seed :: simulate(c, seed).None?
    ensures Compare(RunTrack(realCls, NSims, simulate),
                    RunTrack(Normalised(ScaleInvariant(SpectrumLmax), realCls), NSims, simulate)) == Independent
  {
    AllRaisedTrackIsZero(realCls, NSims, simulate);
    AllRaisedTrackIsZero(Normalised(ScaleInvariant(SpectrumLmax), realCls), NSims, simulate);
  }

  /** main: the flat spectrum rescaled in place, both tracks, and the verdict. */
  method RunSpectrumCheck(realCls: seq<real>, simulate: (seq<real>, int) -> Option<real>)
    returns (probReal: Option<real>, probFlat: Option<real>, verdict: SpectrumVerdict)
    requires |realCls| > PivotL
    ensures probReal == RunTrack(realCls, NSims, simulate) && probReal.Some?
    ensures probFlat == RunTrack(Normalised(ScaleInvariant(SpectrumLmax), realCls), NSims, simulate) && probFlat.Some?
    ensures verdict == Compare(probReal, probFlat)
    ensures (forall c, seed :: simulate(c, seed).None?) ==> verdict == Independent
  {
    var spectrum := ScaleInvariant(SpectrumLmax);
    var flat := new real[|spectrum|](l requires 0 <= l < |spectrum| => spectrum[l]);
    assert flat[..] == spectrum;
    assert flat[PivotL] != 0.0;
    Renormalise(flat, realCls);
    probReal := RunTrack(realCls, NSims, simulate);
    probFlat := RunTrack(flat[..], NSims, simulate);
    verdict := Compare(probReal, probFlat);
    if forall c, seed :: simulate(c, seed).None? {
      AllRaisedIsIndependent(realCls, simulate);
    }
  }
}
