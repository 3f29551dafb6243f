/**
 * Parity statistic engine.
 *
 * Over a band of degrees [max(lmin, 2), lmax] the power of each degree,
 * l(l+1)/(2 pi) * (|a_l0|^2 + 2 sum_{m>=1} |a_lm|^2), is accumulated into an
 * even bucket P+ or an odd bucket P-, and the statistic is (P+ - P-)/(P+ + P-),
 * or exactly 0 when both buckets are empty.
 *
 * The coefficients are taken as input: they stand for the forward transform
 * of the map after monopole and dipole removal, both of which are outside
 * this model.
 */
module Parity {
  import opened Alm
  import Arith

  /** First degree of the band: max(lmin, 2), so monopole and dipole never enter. */
  function StartDegree(lmin: int): (s: nat)
    ensures s >= 2 && s >= lmin
    ensures s == lmin || s == 2
  {
    if lmin > 2 then lmin else 2
  }

  /** sum_{m=1..top} |a_lm|^2 for one degree l. */
  function OrderPower(alm: seq<Complex>, lmax: nat, l: nat, top: nat): (r: real)
    requires |alm| == Size(lmax) && top <= l <= lmax
    ensures r >= 0.0
  {
    if top == 0 then 0.0
    else OrderPower(alm, lmax, l, top - 1) + AbsSq(alm[Index(lmax, l, top)])
  }

  /** Power of degree l: the m = 0 term once, every m > 0 term twice. */
  function DegreePower(alm: seq<Complex>, lmax: nat, l: nat): (r: real)
    requires |alm| == Size(lmax) && l <= lmax
    ensures r >= 0.0
  {
    AbsSq(alm[Index(lmax, l, 0)]) + 2.0 * OrderPower(alm, lmax, l, l)
  }

  /**
   * l(l+1)/(2 pi) times a degree power p: the C_l weighting of one degree.
   * 2 pi is written as the double it evaluates to; it cancels in the statistic.
   */
  function Weighted(l: nat, p: real): (r: real)
    requires p >= 0.0
    ensures r >= 0.0
    ensures p == 0.0 ==> r == 0.0
    ensures l >= 1 && p > 0.0 ==> r > 0.0
  {
    NonNegativeQuotient((l * (l + 1)) as real, p);
    (l * (l + 1)) as real * p / 6.283185307179586
  }

  /** The weighted power of degree l. */
  function WeightedPower(alm: seq<Complex>, lmax: nat, l: nat): (r: real)
    requires |alm| == Size(lmax) && l <= lmax
    ensures r >= 0.0
    ensures DegreePower(alm, lmax, l) == 0.0 ==> r == 0.0
    ensures l >= 1 && DegreePower(alm, lmax, l) > 0.0 ==> r > 0.0
  {
    Weighted(l, DegreePower(alm, lmax, l))
  }

  lemma NonNegativeQuotient(w: real, p: real)
    requires w >= 0.0 && p >= 0.0
    ensures w * p / 6.283185307179586 >= 0.0
    ensures p == 0.0 ==> w * p / 6.283185307179586 == 0.0
    ensures w > 0.0 && p > 0.0 ==> w * p / 6.283185307179586 > 0.0
  {
    Arith.NonNegativeProduct(w, p);
    if w > 0.0 && p > 0.0 {
      Arith.PositiveProduct(w, p);
    }
  }

  /** Sum of the weighted powers of the degrees lo..hi whose parity is `even`. */
  function BandPower(alm: seq<Complex>, lmax: nat, lo: nat, hi: int, even: bool): (r: real)
    requires |alm| == Size(lmax) && (hi < lo || hi <= lmax)
    ensures r >= 0.0
    decreases hi
  {
    if hi < lo then 0.0
    else
      BandPower(alm, lmax, lo, hi - 1, even)
      + (if (hi % 2 == 0) == even then WeightedPower(alm, lmax, hi) else 0.0)
  }

  /** Accumulates the even and odd buckets degree by degree. */
  method GetParityModes(alm: seq<Complex>, lmax: nat, lmin: int) returns (pPlus: real, pMinus: real)
    requires |alm| == Size(lmax)
    ensures pPlus == BandPower(alm, lmax, StartDegree(lmin), lmax, true)
    ensures pMinus == BandPower(alm, lmax, StartDegree(lmin), lmax, false)
  {
    pPlus, pMinus := 0.0, 0.0;
    var startL := if lmin > 2 then lmin else 2;
    var l := startL;
    while l <= lmax
      invariant startL <= l
      invariant l <= lmax + 1 || l == startL
      invariant pPlus == BandPower(alm, lmax, startL, l - 1, true)
      invariant pMinus == BandPower(alm, lmax, startL, l - 1, false)
    {
      var clM0 := AbsSq(alm[Index(lmax, l, 0)]);
      var clMRest := OrderPower(alm, lmax, l, l);
      var clTotal := clM0 + 2.0 * clMRest;
      assert clTotal == DegreePower(alm, lmax, l);
      var contribution := Weighted(l, clTotal);
      if l % 2 == 0 {
        pPlus := pPlus + contribution;
      } else {
        pMinus := pMinus + contribution;
      }
      l := l + 1;
    }
  }

  /** (P+ - P-)/(P+ + P-), or exactly 0 when P+ + P- is zero. */
  function PointParity(pPlus: real, pMinus: real): (r: real)
    ensures pPlus + pMinus == 0.0 ==> r == 0.0
    ensures pPlus + pMinus != 0.0 ==> r * (pPlus + pMinus) == pPlus - pMinus
    ensures pPlus >= 0.0 && pMinus >= 0.0 ==> -1.0 <= r <= 1.0
    ensures pPlus > 0.0 && pMinus == 0.0 ==> r == 1.0
    ensures pPlus == 0.0 && pMinus > 0.0 ==> r == -1.0
  {
    if pPlus + pMinus == 0.0 then 0.0
    else
      RatioBounds(pPlus, pMinus);
      (pPlus - pMinus) / (pPlus + pMinus)
  }

  lemma RatioBounds(a: real, b: real)
    requires a + b != 0.0
    ensures (a - b) / (a + b) * (a + b) == a - b
    ensures a >= 0.0 && b >= 0.0 ==> -1.0 <= (a - b) / (a + b) <= 1.0
  {
    var r := (a - b) / (a + b);
    assert r * (a + b) == a - b;
    if a >= 0.0 && b >= 0.0 {
      NormalisedDifference(r, a, b);
    }
  }

  /** r * (a + b) == a - b with a, b >= 0 puts r in [-1, 1]. */
  lemma NormalisedDifference(r: real, a: real, b: real)
    requires a >= 0.0 && b >= 0.0 && a + b != 0.0
    requires r * (a + b) == a - b
    ensures -1.0 <= r <= 1.0
  {
    assert (1.0 - r) * (a + b) == 2.0 * b;
    assert (1.0 + r) * (a + b) == 2.0 * a;
    Arith.NonNegativeFactor(1.0 - r, a + b);
    Arith.NonNegativeFactor(1.0 + r, a + b);
  }

  /** The parity statistic of a coefficient set over the band [max(lmin, 2), lmax]. */
  function ParityStatistic(alm: seq<Complex>, lmax: nat, lmin: int): (r: real)
    requires |alm| == Size(lmax)
    ensures -1.0 <= r <= 1.0
    ensures StartDegree(lmin) > lmax ==> r == 0.0
  {
    PointParity(BandPower(alm, lmax, StartDegree(lmin), lmax, true),
                BandPower(alm, lmax, StartDegree(lmin), lmax, false))
  }

  /** calculate_point_parity on the coefficients of the cleaned map. */
  method CalculatePointParity(alm: seq<Complex>, lmax: nat, lmin: int) returns (p: real)
    requires |alm| == Size(lmax)
    ensures p == ParityStatistic(alm, lmax, lmin)
    ensures -1.0 <= p <= 1.0
  {
    var pPlus, pMinus := GetParityModes(alm, lmax, lmin);
    if pPlus + pMinus == 0.0 {
      return 0.0;
    }
    return (pPlus - pMinus) / (pPlus + pMinus);
  }

  /**
   * The directional scan: for every pixel i of a grid with 12 * nside^2 pixels,
   * the statistic of the map rotated so that pixel i becomes the pole.
   * coeffsFor(i) stands for the coefficients of that rotated, cleaned map.
   */
  method ScanParityDirections(nsideScan: nat, coeffsFor: nat -> seq<Complex>, lmax: nat, lmin: int)
    returns (indices: seq<int>, results: array<real>)
    requires forall i: nat :: i < 12 * nsideScan * nsideScan ==> |coeffsFor(i)| == Size(lmax)
    ensures fresh(results)
    ensures |indices| == results.Length == 12 * nsideScan * nsideScan
    ensures forall i :: 0 <= i < |indices| ==> indices[i] == i
    ensures forall i :: 0 <= i < results.Length ==> results[i] == ParityStatistic(coeffsFor(i), lmax, lmin)
  {
    var npix := 12 * nsideScan * nsideScan;
    results := new real[npix](_ => 0.0);
    var i := 0;
    while i < npix
      invariant 0 <= i <= npix
      invariant forall k :: 0 <= k < i ==> results[k] == ParityStatistic(coeffsFor(k), lmax, lmin)
    {
      results[i] := CalculatePointParity(coeffsFor(i), lmax, lmin);
      i := i + 1;
    }
    indices := seq(npix, k => k);
  }

  // ---------------------------------------------------------------------------
  // Properties of the statistic
  // ---------------------------------------------------------------------------

  lemma {:induction false} OrderPowerDependsOnDegree(alm: seq<Complex>, alm': seq<Complex>, lmax: nat, l: nat, top: nat)
    requires |alm| == |alm'| == Size(lmax) && top <= l <= lmax
    requires forall m :: 0 <= m <= l ==> alm[Index(lmax, l, m)] == alm'[Index(lmax, l, m)]
    ensures OrderPower(alm, lmax, l, top) == OrderPower(alm', lmax, l, top)
  {
    if top > 0 {
      OrderPowerDependsOnDegree(alm, alm', lmax, l, top - 1);
    }
  }

  lemma {:induction false} BandPowerDependsOnDegrees(alm: seq<Complex>, alm': seq<Complex>, lmax: nat, lo: nat, hi: int, even: bool)
    requires |alm| == |alm'| == Size(lmax) && hi <= lmax
    requires forall k :: 0 <= k < |alm| && Degree(lmax, k) >= lo ==> alm[k] == alm'[k]
    ensures BandPower(alm, lmax, lo, hi, even) == BandPower(alm', lmax, lo, hi, even)
    decreases hi
  {
    if hi >= lo {
      BandPowerDependsOnDegrees(alm, alm', lmax, lo, hi - 1, even);
      forall m | 0 <= m <= hi
        ensures alm[Index(lmax, hi, m)] == alm'[Index(lmax, hi, m)]
      {
        LocateIndex(lmax, hi, m);
      }
      OrderPowerDependsOnDegree(alm, alm', lmax, hi, hi);
    }
  }

  /**
   * Degrees 0 and 1 never contribute, whatever lmin is: two coefficient sets
   * that agree on every degree >= 2 have the same statistic. In particular an
   * injected dipole leaves the statistic unchanged.
   */
  lemma LowDegreesIgnored(alm: seq<Complex>, alm': seq<Complex>, lmax: nat, lmin: int)
    requires |alm| == |alm'| == Size(lmax)
    requires forall k :: 0 <= k < |alm| && Degree(lmax, k) >= 2 ==> alm[k] == alm'[k]
    ensures ParityStatistic(alm, lmax, lmin) == ParityStatistic(alm', lmax, lmin)
  {
    BandPowerDependsOnDegrees(alm, alm', lmax, StartDegree(lmin), lmax, true);
    BandPowerDependsOnDegrees(alm, alm', lmax, StartDegree(lmin), lmax, false);
  }

  lemma {:induction false} OrderPowerVanishes(alm: seq<Complex>, lmax: nat, l: nat, top: nat)
    requires |alm| == Size(lmax) && top <= l <= lmax
    requires forall m :: 1 <= m <= top ==> alm[Index(lmax, l, m)] == Zero
    ensures OrderPower(alm, lmax, l, top) == 0.0
  {
    if top > 0 {
      OrderPowerVanishes(alm, lmax, l, top - 1);
      OrderPowerZeroStep(alm, lmax, l, top);
    }
  }

  lemma OrderPowerZeroStep(alm: seq<Complex>, lmax: nat, l: nat, top: nat)
    requires |alm| == Size(lmax) && 1 <= top <= l <= lmax
    requires alm[Index(lmax, l, top)] == Zero
    ensures OrderPower(alm, lmax, l, top) == OrderPower(alm, lmax, l, top - 1)
  {
    assert AbsSq(alm[Index(lmax, l, top)]) == 0.0;
  }

  lemma {:induction false} OrderPowerAtLeast(alm: seq<Complex>, lmax: nat, l: nat, top: nat, m: nat)
    requires |alm| == Size(lmax) && top <= l <= lmax && 1 <= m <= top
    ensures OrderPower(alm, lmax, l, top) >= AbsSq(alm[Index(lmax, l, m)])
  {
    if m < top {
      OrderPowerAtLeast(alm, lmax, l, top - 1, m);
    }
  }

  /** A degree whose coefficients are all zero has no power. */
  lemma DegreePowerVanishes(alm: seq<Complex>, lmax: nat, l: nat)
    requires |alm| == Size(lmax) && l <= lmax
    requires forall m :: 0 <= m <= l ==> alm[Index(lmax, l, m)] == Zero
    ensures DegreePower(alm, lmax, l) == 0.0
  {
    OrderPowerVanishes(alm, lmax, l, l);
    ZeroDegreePower(alm, lmax, l);
  }

  lemma ZeroDegreePower(alm: seq<Complex>, lmax: nat, l: nat)
    requires |alm| == Size(lmax) && l <= lmax
    requires alm[Index(lmax, l, 0)] == Zero
    requires OrderPower(alm, lmax, l, l) == 0.0
    ensures DegreePower(alm, lmax, l) == 0.0
  {
  }

  /** A degree with one coefficient of non-zero power has positive power. */
  lemma DegreePowerPositive(alm: seq<Complex>, lmax: nat, l: nat, m: nat)
    requires |alm| == Size(lmax) && m <= l <= lmax
    requires AbsSq(alm[Index(lmax, l, m)]) > 0.0
    ensures DegreePower(alm, lmax, l) > 0.0
  {
    if m > 0 {
      OrderPowerAtLeast(alm, lmax, l, l, m);
    }
  }

  /** If every degree in lo..hi other than l0 has no power, the band holds l0's weighted power alone. */
  lemma {:induction false} BandPowerSingle(alm: seq<Complex>, lmax: nat, lo: nat, hi: int, even: bool, l0: nat)
    requires |alm| == Size(lmax) && hi <= lmax
    requires forall l: nat :: lo <= l <= hi && l != l0 ==> DegreePower(alm, lmax, l) == 0.0
    ensures BandPower(alm, lmax, lo, hi, even)
         == if lo <= l0 <= hi && (l0 % 2 == 0) == even then WeightedPower(alm, lmax, l0) else 0.0
    decreases hi
  {
    if hi >= lo {
      BandPowerSingle(alm, lmax, lo, hi - 1, even, l0);
    }
  }

  /**
   * Power confined to one degree l0 of the band gives +1 when l0 is even and
   * -1 when it is odd; degrees 0 and 1 may hold anything.
   */
  lemma SingleDegreeParity(alm: seq<Complex>, lmax: nat, lmin: int, l0: nat, m0: nat)
    requires |alm| == Size(lmax)
    requires StartDegree(lmin) <= l0 <= lmax && m0 <= l0
    requires forall k :: 0 <= k < |alm| && Degree(lmax, k) >= 2 && Degree(lmax, k) != l0 ==> alm[k] == Zero
    requires AbsSq(alm[Index(lmax, l0, m0)]) > 0.0
    ensures ParityStatistic(alm, lmax, lmin) == if l0 % 2 == 0 then 1.0 else -1.0
  {
    var lo := StartDegree(lmin);
    forall l: nat | lo <= l <= lmax && l != l0
      ensures DegreePower(alm, lmax, l) == 0.0
    {
      forall m | 0 <= m <= l
        ensures alm[Index(lmax, l, m)] == Zero
      {
        LocateIndex(lmax, l, m);
      }
      DegreePowerVanishes(alm, lmax, l);
    }
    BandPowerSingle(alm, lmax, lo, lmax, true, l0);
    BandPowerSingle(alm, lmax, lo, lmax, false, l0);
    DegreePowerPositive(alm, lmax, l0, m0);
  }

  /** If no degree above `top` has power, the band stops at `top`. */
  lemma {:induction false} BandPowerTruncated(alm: seq<Complex>, lmax: nat, lo: nat, hi: int, top: int, even: bool)
    requires |alm| == Size(lmax) && top <= hi <= lmax
    requires forall l: nat :: top < l <= hi ==> DegreePower(alm, lmax, l) == 0.0
    ensures BandPower(alm, lmax, lo, hi, even) == BandPower(alm, lmax, lo, top, even)
    decreases hi - top
  {
    if hi > top {
      BandPowerTruncated(alm, lmax, lo, hi - 1, top, even);
    }
  }

  // ---------------------------------------------------------------------------
  // Single-mode and mixed-mode coefficient sets
  // ---------------------------------------------------------------------------

  /** The coefficients of a map holding a unit (l0, m = 0) mode and nothing else. */
  function PureMode(lmax: nat, l0: nat): (alm: seq<Complex>)
    requires l0 <= lmax
    ensures |alm| == Size(lmax)
  {
    seq(Size(lmax), k => if k == Index(lmax, l0, 0) then One else Zero)
  }

  lemma PureModeEntry(lmax: nat, l0: nat, l: nat, m: nat)
    requires l0 <= lmax && m <= l <= lmax
    ensures PureMode(lmax, l0)[Index(lmax, l, m)] == if l == l0 && m == 0 then One else Zero
  {
    if Index(lmax, l, m) == Index(lmax, l0, 0) {
      IndexInjective(lmax, l, m, l0, 0);
    }
  }

  /** A pure even mode scores +1 and a pure odd mode -1. */
  lemma PureModeParity(lmax: nat, lmin: int, l0: nat)
    requires StartDegree(lmin) <= l0 <= lmax
    ensures ParityStatistic(PureMode(lmax, l0), lmax, lmin) == if l0 % 2 == 0 then 1.0 else -1.0
  {
    var alm := PureMode(lmax, l0);
    forall k | 0 <= k < |alm| && Degree(lmax, k) >= 2 && Degree(lmax, k) != l0
      ensures alm[k] == Zero
    {
      LocateIndex(lmax, l0, 0);
    }
    assert alm[Index(lmax, l0, 0)] == One;
    SingleDegreeParity(alm, lmax, lmin, l0, 0);
  }

  /**
   * Adding any multiple of a pure dipole (l = 1) to a pure quadrupole leaves
   * the statistic at +1.
   */
  lemma DipoleContamination(lmax: nat, lmin: int, x: real)
    requires 2 <= lmax && lmin <= 2
    ensures ParityStatistic(Add(PureMode(lmax, 2), Scale(x, PureMode(lmax, 1))), lmax, lmin) == 1.0
  {
    var clean := PureMode(lmax, 2);
    var dirty := Add(clean, Scale(x, PureMode(lmax, 1)));
    forall k | 0 <= k < |dirty| && Degree(lmax, k) >= 2
      ensures dirty[k] == clean[k]
    {
      LocateIndex(lmax, 1, 0);
    }
    LowDegreesIgnored(dirty, clean, lmax, lmin);
    PureModeParity(lmax, lmin, 2);
  }

  /** The sum of a unit quadrupole and a unit octupole. */
  function QuadrupoleOctupole(lmax: nat): (alm: seq<Complex>)
    requires 3 <= lmax
    ensures |alm| == Size(lmax)
  {
    Add(PureMode(lmax, 2), PureMode(lmax, 3))
  }

  lemma QuadrupoleOctupoleEntry(lmax: nat, l: nat, m: nat)
    requires 3 <= lmax && m <= l <= lmax
    ensures QuadrupoleOctupole(lmax)[Index(lmax, l, m)] == if m == 0 && 2 <= l <= 3 then One else Zero
  {
    PureModeEntry(lmax, 2, l, m);
    PureModeEntry(lmax, 3, l, m);
  }

  /** A degree holding a unit m = 0 coefficient and no m > 0 power has power 1. */
  lemma UnitDegreePower(alm: seq<Complex>, lmax: nat, l: nat)
    requires |alm| == Size(lmax) && l <= lmax
    requires alm[Index(lmax, l, 0)] == One
    requires OrderPower(alm, lmax, l, l) == 0.0
    ensures DegreePower(alm, lmax, l) == 1.0
  {
  }

  lemma QuadrupoleOctupoleOrders(lmax: nat, l: nat)
    requires 3 <= lmax && l <= lmax
    ensures OrderPower(QuadrupoleOctupole(lmax), lmax, l, l) == 0.0
  {
    var alm := QuadrupoleOctupole(lmax);
    forall m | 1 <= m <= l
      ensures alm[Index(lmax, l, m)] == Zero
    {
      QuadrupoleOctupoleEntry(lmax, l, m);
    }
    OrderPowerVanishes(alm, lmax, l, l);
  }

  lemma QuadrupoleOctupolePower(lmax: nat, l: nat)
    requires 3 <= lmax && l <= lmax
    ensures DegreePower(QuadrupoleOctupole(lmax), lmax, l) == if 2 <= l <= 3 then 1.0 else 0.0
  {
    var alm := QuadrupoleOctupole(lmax);
    QuadrupoleOctupoleOrders(lmax, l);
    QuadrupoleOctupoleEntry(lmax, l, 0);
    if 2 <= l <= 3 {
      UnitDegreePower(alm, lmax, l);
    } else {
      ZeroDegreePower(alm, lmax, l);
    }
  }

  /** Powers 6/(2 pi) and 12/(2 pi) give (6 - 12)/(6 + 12) = -1/3. */
  lemma MixtureRatio()
    ensures PointParity(Weighted(2, 1.0), Weighted(3, 1.0)) == -1.0 / 3.0
  {
    var pPlus, pMinus := Weighted(2, 1.0), Weighted(3, 1.0);
    assert pPlus == 6.0 / 6.283185307179586;
    assert pMinus == 12.0 / 6.283185307179586;
    var total := pPlus + pMinus;
    var r := PointParity(pPlus, pMinus);
    assert r * total == pPlus - pMinus;
    assert pPlus - pMinus == (-1.0 / 3.0) * total;
    Arith.CancelPositive(r, -1.0 / 3.0, total);
  }

  /**
   * An equal mixture of a unit quadrupole and a unit octupole scores exactly
   * -1/3: the l(l+1) weights are 6 and 12, so the odd bucket dominates.
   */
  lemma QuadrupoleOctupoleBand(lmax: nat, even: bool)
    requires 3 <= lmax
    ensures BandPower(QuadrupoleOctupole(lmax), lmax, 2, lmax, even)
         == if even then Weighted(2, 1.0) else Weighted(3, 1.0)
  {
    var alm := QuadrupoleOctupole(lmax);
    forall l: nat | 3 < l <= lmax
      ensures DegreePower(alm, lmax, l) == 0.0
    {
      QuadrupoleOctupolePower(lmax, l);
    }
    BandPowerTruncated(alm, lmax, 2, lmax, 3, even);
    QuadrupoleOctupolePower(lmax, 2);
    QuadrupoleOctupolePower(lmax, 3);
  }

  lemma QuadrupoleOctupoleParity(lmax: nat, lmin: int)
    requires 3 <= lmax && lmin <= 2
    ensures ParityStatistic(QuadrupoleOctupole(lmax), lmax, lmin) == -1.0 / 3.0
  {
    QuadrupoleOctupoleBand(lmax, true);
    QuadrupoleOctupoleBand(lmax, false);
    MixtureRatio();
  }
}
