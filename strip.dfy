/**
 * The ecliptic-strip statistic of the variance and jackknife scripts.
 *
 * The strip is the ascending list of pixels whose ecliptic latitude lies within
 * 20 degrees of the ecliptic. A null statistic rotates the map with a freshly
 * seeded null generator, takes the strip pixels, keeps those whose galactic
 * latitude is beyond 40 degrees in either direction, drops the healpy UNSEEN
 * sentinel, and returns the population variance, or 0.0 if nothing survives.
 * Pixel latitudes are inputs.
 */
module EclipticStrip {
  import opened Vectors
  import Arith
  import Estimator
  import Nulling
  import Shuffling

  /** Half-width, in degrees, of the ecliptic belt. */
  const BeltHalfWidth: real := 20.0

  /** Galactic latitude, in degrees, a strip pixel must exceed in absolute value. */
  const GalacticCut: real := 40.0

  /** Values at or below this are masked (healpy's UNSEEN is -1.6375e30). */
  const Sentinel: real := -100000000000000000000.0

  /** np.where(|b_ecl| < 20)[0]: indices below n, ascending. */
  function StripFrom(eclipticLatitude: seq<real>, n: nat): (r: seq<nat>)
    requires n <= |eclipticLatitude|
    ensures forall k :: 0 <= k < |r| ==> r[k] < n
  {
    if n == 0 then []
    else StripFrom(eclipticLatitude, n - 1) + (if Arith.Abs(eclipticLatitude[n - 1]) < BeltHalfWidth then [n - 1] else [])
  }

  function StripIndices(eclipticLatitude: seq<real>): (r: seq<nat>)
    ensures forall k :: 0 <= k < |r| ==> r[k] < |eclipticLatitude|
  {
    StripFrom(eclipticLatitude, |eclipticLatitude|)
  }

  lemma {:induction false} StripFromMember(eclipticLatitude: seq<real>, n: nat, p: nat)
    requires n <= |eclipticLatitude|
    ensures p in StripFrom(eclipticLatitude, n) <==> p < n && Arith.Abs(eclipticLatitude[p]) < BeltHalfWidth
  {
    if n > 0 {
      StripFromMember(eclipticLatitude, n - 1, p);
    }
  }

  lemma {:induction false} StripFromAscending(eclipticLatitude: seq<real>, n: nat)
    requires n <= |eclipticLatitude|
    ensures forall a, b :: 0 <= a < b < |StripFrom(eclipticLatitude, n)| ==>
              StripFrom(eclipticLatitude, n)[a] < StripFrom(eclipticLatitude, n)[b]
  {
    if n > 0 {
      StripFromAscending(eclipticLatitude, n - 1);
    }
  }

  /** The strip holds exactly the belt pixels, each once, in ascending order. */
  lemma StripIndicesSpec(eclipticLatitude: seq<real>, p: nat)
    ensures p in StripIndices(eclipticLatitude) <==> p < |eclipticLatitude| && Arith.Abs(eclipticLatitude[p]) < BeltHalfWidth
    ensures forall a, b :: 0 <= a < b < |StripIndices(eclipticLatitude)| ==>
              StripIndices(eclipticLatitude)[a] < StripIndices(eclipticLatitude)[b]
  {
    StripFromMember(eclipticLatitude, |eclipticLatitude|, p);
    StripFromAscending(eclipticLatitude, |eclipticLatitude|);
  }

  predicate IndicesBelow(strip: seq<nat>, n: nat)
  {
    forall k :: 0 <= k < |strip| ==> strip[k] < n
  }

  /** GALACTIC_LATS: the galactic latitude of each strip pixel, index for index. */
  function StripLatitudes(galacticLatitude: seq<real>, strip: seq<nat>): (r: seq<real>)
    requires IndicesBelow(strip, |galacticLatitude|)
    ensures |r| == |strip|
    ensures forall k :: 0 <= k < |strip| ==> r[k] == galacticLatitude[strip[k]]
  {
    Shuffling.Gather(galacticLatitude, strip)
  }

  /** Boolean-mask selection xs[keep], order kept. */
  function Select(xs: seq<real>, keep: seq<bool>): (r: seq<real>)
    requires |keep| == |xs|
    ensures |r| <= |xs|
  {
    if xs == [] then []
    else
      var n := |xs| - 1;
      Select(xs[..n], keep[..n]) + (if keep[n] then [xs[n]] else [])
  }

  /** Every selected value is a kept entry. */
  lemma {:induction false} SelectSound(xs: seq<real>, keep: seq<bool>, v: real)
    requires |keep| == |xs| && v in Select(xs, keep)
    ensures exists k :: 0 <= k < |xs| && keep[k] && xs[k] == v
  {
    var n := |xs| - 1;
    if v in Select(xs[..n], keep[..n]) {
      SelectSound(xs[..n], keep[..n], v);
      var k :| 0 <= k < n && keep[..n][k] && xs[..n][k] == v;
      assert keep[k] && xs[k] == v;
    } else {
      assert keep[n] && xs[n] == v;
    }
  }

  /** Every kept entry is selected. */
  lemma {:induction false} SelectComplete(xs: seq<real>, keep: seq<bool>, k: nat)
    requires |keep| == |xs| && k < |xs| && keep[k]
    ensures xs[k] in Select(xs, keep)
  {
    var n := |xs| - 1;
    if k < n {
      SelectComplete(xs[..n], keep[..n], k);
    }
  }

  /** A value survives selection exactly when some kept entry holds it. */
  lemma SelectMember(xs: seq<real>, keep: seq<bool>, v: real)
    requires |keep| == |xs|
    ensures v in Select(xs, keep) <==> exists k :: 0 <= k < |xs| && keep[k] && xs[k] == v
  {
    if v in Select(xs, keep) {
      SelectSound(xs, keep, v);
    }
    if exists k :: 0 <= k < |xs| && keep[k] && xs[k] == v {
      var k :| 0 <= k < |xs| && keep[k] && xs[k] == v;
      SelectComplete(xs, keep, k);
    }
  }

  /** |b_gal| > 40, per strip entry. */
  function HighLatitude(latitudes: seq<real>): (r: seq<bool>)
    ensures |r| == |latitudes|
  {
    seq(|latitudes|, k requires 0 <= k < |latitudes| => Arith.Abs(latitudes[k]) > GalacticCut)
  }

  /** x > -1e20, per entry. */
  function Unmasked(xs: seq<real>): (r: seq<bool>)
    ensures |r| == |xs|
  {
    seq(|xs|, k requires 0 <= k < |xs| => xs[k] > Sentinel)
  }

  /** Both tests at once, per strip entry. */
  function CleanAndValid(pixels: seq<real>, latitudes: seq<real>): (r: seq<bool>)
    requires |latitudes| == |pixels|
    ensures |r| == |pixels|
  {
    seq(|pixels|, k requires 0 <= k < |pixels| => Arith.Abs(latitudes[k]) > GalacticCut && pixels[k] > Sentinel)
  }

  /** The two filters in sequence: the galactic cut, then the sentinel. */
  function StripValues(pixels: seq<real>, latitudes: seq<real>): seq<real>
    requires |latitudes| == |pixels|
  {
    var clean := Select(pixels, HighLatitude(latitudes));
    Select(clean, Unmasked(clean))
  }

  lemma {:induction false} TwoFilters(pixels: seq<real>, latitudes: seq<real>)
    requires |latitudes| == |pixels|
    ensures StripValues(pixels, latitudes) == Select(pixels, CleanAndValid(pixels, latitudes))
  {
    if pixels != [] {
      var n := |pixels| - 1;
      assert HighLatitude(latitudes)[..n] == HighLatitude(latitudes[..n]);
      assert CleanAndValid(pixels, latitudes)[..n] == CleanAndValid(pixels[..n], latitudes[..n]);
      TwoFilters(pixels[..n], latitudes[..n]);
      var clean := Select(pixels[..n], HighLatitude(latitudes[..n]));
      var tail := if HighLatitude(latitudes)[n] then [pixels[n]] else [];
      assert Select(pixels, HighLatitude(latitudes)) == clean + tail;
      SelectAppend(clean, tail);
    }
  }

  lemma {:induction false} SelectAppend(a: seq<real>, b: seq<real>)
    requires |b| <= 1
    ensures Select(a + b, Unmasked(a + b)) == Select(a, Unmasked(a)) + Select(b, Unmasked(b))
  {
    if b != [] {
      assert (a + b)[..|a|] == a;
      assert Unmasked(a + b)[..|a|] == Unmasked(a);
      assert Select(b, Unmasked(b)) == Select([], []) + (if b[0] > Sentinel then [b[0]] else []);
    } else {
      assert a + b == a;
    }
  }

  /** rotate_map_pixel returns a map with as many pixels as it was given. */
  ghost predicate KeepsPixelCount(rotate: (Mat3, seq<real>) -> seq<real>)
  {
    forall m, x :: |rotate(m, x)| == |x|
  }

  /** The map a null worker analyses: the original rotated by the first draw of a generator seeded with seed. */
  function NullMap(original: seq<real>, seed: int, sampler: (int, nat) -> Mat3,
                   rotate: (Mat3, seq<real>) -> seq<real>): (r: seq<real>)
    ensures r == rotate(Nulling.FixReflection(sampler(seed, 0)), original)
    ensures KeepsPixelCount(rotate) ==> |r| == |original|
  {
    Nulling.Nulls(original, seed, sampler, rotate, 0, 1)[0].1
  }

  /** worker_variance / worker_jackknife on an already rotated map. */
  function StripStatistic(rotated: seq<real>, strip: seq<nat>, latitudes: seq<real>): (r: real)
    requires IndicesBelow(strip, |rotated|) && |latitudes| == |strip|
    ensures r >= 0.0
  {
    Estimator.GuardedVariance(StripValues(Shuffling.Gather(rotated, strip), latitudes))
  }

  /** A strip entry survives exactly when it is beyond the galactic cut and not masked. */
  lemma StripStatisticKeeps(rotated: seq<real>, strip: seq<nat>, latitudes: seq<real>)
    requires IndicesBelow(strip, |rotated|) && |latitudes| == |strip|
    ensures StripStatistic(rotated, strip, latitudes)
         == Estimator.GuardedVariance(Select(Shuffling.Gather(rotated, strip), CleanAndValid(Shuffling.Gather(rotated, strip), latitudes)))
  {
    TwoFilters(Shuffling.Gather(rotated, strip), latitudes);
  }

  /** With no strip entry beyond the galactic cut the statistic is 0.0. */
  lemma {:induction false} NoHighLatitudeGivesZero(rotated: seq<real>, strip: seq<nat>, latitudes: seq<real>)
    requires IndicesBelow(strip, |rotated|) && |latitudes| == |strip|
    requires forall k :: 0 <= k < |latitudes| ==> Arith.Abs(latitudes[k]) <= GalacticCut
    ensures StripStatistic(rotated, strip, latitudes) == 0.0
  {
    var pixels := Shuffling.Gather(rotated, strip);
    TwoFilters(pixels, latitudes);
    NothingSelected(pixels, CleanAndValid(pixels, latitudes));
  }

  lemma {:induction false} NothingSelected(xs: seq<real>, keep: seq<bool>)
    requires |keep| == |xs| && forall k :: 0 <= k < |keep| ==> !keep[k]
    ensures Select(xs, keep) == []
  {
    if xs != [] {
      NothingSelected(xs[..|xs| - 1], keep[..|xs| - 1]);
    }
  }
}
