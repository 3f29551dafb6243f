/**
 * The mask sensitivity ladder: does a galactic mask make pure noise align?
 *
 * For each cut in 0, 10, 20, 30, 40 degrees a binary mask zeroes every pixel
 * with |b| below the cut; each run multiplies a fresh noise map by the mask
 * and measures the quadrupole-octopole angle (90 degrees where the analysis
 * raised). A step reports the unmasked sky fraction and the share of its 500
 * runs below 10 degrees. Pixel latitudes are an input; map synthesis and the
 * analysis are the parameters `synthesise` and `analyse`.
 */
module MaskLadder {
  import opened Options
  import opened Estimator
  import Arith

  const LadderNSims: nat := 500
  const SeedBase: int := 10000
  /** The cuts of the ladder, in degrees, in the order they are run. */
  const Cuts: seq<int> := [0, 10, 20, 30, 40]

  /** Entry k of the mask: 0.0 where |b_k| is below the cut, else 1.0. */
  function MaskOf(latitude: seq<real>, cut: int): (r: seq<real>)
    ensures |r| == |latitude|
    ensures forall k :: 0 <= k < |r| ==> (r[k] == 0.0 <==> Arith.Abs(latitude[k]) < cut as real)
    ensures forall k :: 0 <= k < |r| ==> r[k] == 0.0 || r[k] == 1.0
  {
    seq(|latitude|, k requires 0 <= k < |latitude| => if Arith.Abs(latitude[k]) < cut as real then 0.0 else 1.0)
  }

  /** generate_galactic_mask: all ones for a zero cut, else ones with the low-latitude band zeroed. */
  method GenerateGalacticMask(latitude: seq<real>, cut: int) returns (mask: array<real>)
    ensures fresh(mask)
    ensures mask[..] == MaskOf(latitude, cut)
  {
    mask := new real[|latitude|](k => 1.0);
    if cut == 0 {
      CutZeroKeepsAll(latitude);
      assert mask[..] == MaskOf(latitude, cut);
      return;
    }
    var k := 0;
    while k < mask.Length
      invariant 0 <= k <= mask.Length
      invariant forall j :: 0 <= j < k ==> mask[j] == MaskOf(latitude, cut)[j]
      invariant forall j :: k <= j < mask.Length ==> mask[j] == 1.0
    {
      if Arith.Abs(latitude[k]) < cut as real {
        mask[k] := 0.0;
      }
      k := k + 1;
    }
  }

  /** The zero-cut shortcut agrees with the general rule: no |b| is below 0. */
  lemma CutZeroKeepsAll(latitude: seq<real>)
    ensures forall k :: 0 <= k < |latitude| ==> MaskOf(latitude, 0)[k] == 1.0
  {
  }

  /** A wider cut masks every pixel a narrower one masks. */
  lemma MaskMonotone(latitude: seq<real>, narrow: int, wide: int, k: nat)
    requires narrow <= wide && k < |latitude|
    ensures MaskOf(latitude, wide)[k] <= MaskOf(latitude, narrow)[k]
  {
  }

  /** np.sum(mask) / len(mask); NaN (None) for an empty map. */
  function SkyFraction(mask: seq<real>): (r: Option<real>)
    ensures r.None? <==> |mask| == 0
  {
    if |mask| == 0 then None else Some(Sum(mask) / |mask| as real)
  }

  lemma {:induction false} MaskSumBounds(latitude: seq<real>, cut: int)
    ensures 0.0 <= Sum(MaskOf(latitude, cut)) <= |latitude| as real
  {
    if latitude != [] {
      var n := |latitude| - 1;
      assert MaskOf(latitude, cut)[..n] == MaskOf(latitude[..n], cut);
      MaskSumBounds(latitude[..n], cut);
    }
  }

  lemma {:induction false} MaskSumAntitone(latitude: seq<real>, narrow: int, wide: int)
    requires narrow <= wide
    ensures Sum(MaskOf(latitude, wide)) <= Sum(MaskOf(latitude, narrow))
  {
    if latitude != [] {
      var n := |latitude| - 1;
      assert MaskOf(latitude, wide)[..n] == MaskOf(latitude[..n], wide);
      assert MaskOf(latitude, narrow)[..n] == MaskOf(latitude[..n], narrow);
      MaskSumAntitone(latitude[..n], narrow, wide);
      MaskMonotone(latitude, narrow, wide, n);
    }
  }

  lemma {:induction false} MaskSumCutZero(latitude: seq<real>)
    ensures Sum(MaskOf(latitude, 0)) == |latitude| as real
  {
    if latitude != [] {
      var n := |latitude| - 1;
      assert MaskOf(latitude, 0)[..n] == MaskOf(latitude[..n], 0);
      MaskSumCutZero(latitude[..n]);
    }
  }

  /** The sky fraction lies in [0, 1], is 1 with no cut, and shrinks as the cut widens. */
  lemma SkyFractionProperties(latitude: seq<real>, narrow: int, wide: int)
    requires |latitude| > 0 && narrow <= wide
    ensures 0.0 <= SkyFraction(MaskOf(latitude, wide)).value <= 1.0
    ensures SkyFraction(MaskOf(latitude, 0)) == Some(1.0)
    ensures SkyFraction(MaskOf(latitude, wide)).value <= SkyFraction(MaskOf(latitude, narrow)).value
  {
    var n := |latitude| as real;
    MaskSumBounds(latitude, wide);
    Arith.FractionBounds(Sum(MaskOf(latitude, wide)), n);
    MaskSumCutZero(latitude);
    assert n / n == 1.0;
    MaskSumAntitone(latitude, narrow, wide);
    Arith.DivideMonotone(Sum(MaskOf(latitude, wide)), Sum(MaskOf(latitude, narrow)), n);
  }

  /** random_map * mask. */
  function Masked(skyMap: seq<real>, mask: seq<real>): (r: seq<real>)
    requires |mask| == |skyMap|
    ensures |r| == |skyMap|
  {
    seq(|skyMap|, k requires 0 <= k < |skyMap| => skyMap[k] * mask[k])
  }

  /** Masking keeps the pixels at or beyond the cut and zeroes the rest. */
  lemma MaskedPixels(skyMap: seq<real>, latitude: seq<real>, cut: int, k: nat)
    requires |latitude| == |skyMap| && k < |skyMap|
    ensures Arith.Abs(latitude[k]) < cut as real ==> Masked(skyMap, MaskOf(latitude, cut))[k] == 0.0
    ensures Arith.Abs(latitude[k]) >= cut as real ==> Masked(skyMap, MaskOf(latitude, cut))[k] == skyMap[k]
  {
  }

  /** The seed of run i at a given cut: 10000 + cut * 10000 + i. */
  function LadderSeed(cut: int, i: nat): int
  {
    SeedBase + cut * SeedBase + i
  }

  /** With fewer than 10000 runs per step, no two (cut, run) pairs share a seed. */
  lemma LadderSeedsDistinct(c1: int, i1: nat, c2: int, i2: nat)
    requires i1 < SeedBase && i2 < SeedBase
    requires LadderSeed(c1, i1) == LadderSeed(c2, i2)
    ensures c1 == c2 && i1 == i2
  {
  }

  /** Every synthesised map has one value per pixel. */
  ghost predicate MapsOfSize(synthesise: int -> seq<real>, npix: nat)
  {
    forall seed :: |synthesise(seed)| == npix
  }

  /** The angle of run i at a cut: the analysed angle of the masked map, or 90 where it raised. */
  function StepAngles(latitude: seq<real>, cut: int, nSims: nat,
                      synthesise: int -> seq<real>, analyse: seq<real> -> Option<real>): (r: seq<real>)
    requires MapsOfSize(synthesise, |latitude|)
    ensures |r| == nSims
  {
    seq(nSims, i requires 0 <= i < nSims =>
      WorkerAngle(analyse(Masked(synthesise(LadderSeed(cut, i)), MaskOf(latitude, cut)))))
  }

  /** The step's probability: the share of runs below 10 degrees. */
  function StepProbability(latitude: seq<real>, cut: int, nSims: nat,
                           synthesise: int -> seq<real>, analyse: seq<real> -> Option<real>): (r: Option<real>)
    requires MapsOfSize(synthesise, |latitude|)
    ensures r.None? <==> nSims == 0
    ensures r.Some? ==> 0.0 <= r.value <= 1.0
  {
    FractionBelow(StepAngles(latitude, cut, nSims, synthesise, analyse), EvilThreshold)
  }

  /** As written every analysis raises, so every run reports 90 degrees and every step scores 0. */
  lemma AllRaisedStepIsZero(latitude: seq<real>, cut: int, nSims: nat,
                            synthesise: int -> seq<real>, analyse: seq<real> -> Option<real>)
    requires MapsOfSize(synthesise, |latitude|) && nSims > 0
    requires forall m :: analyse(m).None?
    ensures StepProbability(latitude, cut, nSims, synthesise, analyse) == Some(0.0)
  {
    AllFailedScoresZero(StepAngles(latitude, cut, nSims, synthesise, analyse));
  }

  /** run_ladder_step: build the mask, then the sky fraction and the probability. */
  method RunLadderStep(latitude: seq<real>, cut: int, nSims: nat,
                       synthesise: int -> seq<real>, analyse: seq<real> -> Option<real>)
    returns (fSky: Option<real>, prob: Option<real>)
    requires MapsOfSize(synthesise, |latitude|)
    ensures fSky == SkyFraction(MaskOf(latitude, cut))
    ensures prob == StepProbability(latitude, cut, nSims, synthesise, analyse)
  {
    var mask := GenerateGalacticMask(latitude, cut);
    var maskValues := mask[..];
    fSky := SkyFraction(maskValues);
    prob := FractionBelow(seq(nSims, i requires 0 <= i < nSims =>
      WorkerAngle(analyse(Masked(synthesise(LadderSeed(cut, i)), maskValues)))), EvilThreshold);
  }

  /** main: one (cut, f_sky, probability) row per cut, in ladder order. */
  method RunLadder(latitude: seq<real>, synthesise: int -> seq<real>, analyse: seq<real> -> Option<real>)
    returns (results: seq<(int, Option<real>, Option<real>)>)
    requires MapsOfSize(synthesise, |latitude|)
    ensures |results| == |Cuts|
    ensures forall k :: 0 <= k < |Cuts| ==>
              results[k] == (Cuts[k], SkyFraction(MaskOf(latitude, Cuts[k])),
                             StepProbability(latitude, Cuts[k], LadderNSims, synthesise, analyse))
  {
    results := [];
    var k := 0;
    while k < |Cuts|
      invariant 0 <= k <= |Cuts| && |results| == k
      invariant forall j :: 0 <= j < k ==>
                  results[j] == (Cuts[j], SkyFraction(MaskOf(latitude, Cuts[j])),
                                 StepProbability(latitude, Cuts[j], LadderNSims, synthesise, analyse))
    {
      var fSky, prob := RunLadderStep(latitude, Cuts[k], LadderNSims, synthesise, analyse);
      results := results + [(Cuts[k], fSky, prob)];
      k := k + 1;
    }
  }
}
