/**
 * Cold-spot search and the nodal distances of a sky position.
 *
 * find_cold_spot copies the smoothed map, overwrites every pixel whose
 * galactic latitude is above -20 degrees with +infinity, and takes numpy's
 * argmin (the first index of the minimum). check_nodal_alignment compares a
 * position with the north and south ecliptic poles and the vernal equinox by
 * clipped dot products. The smoothing, the pixel latitudes and the
 * angle-to-vector conversions are inputs.
 */
module Geo {
  import opened Vectors

  /** Latitude (degrees) above which pixels are excluded from the search. */
  const SearchLatitude: real := -20.0

  /** A float of the search map: finite, or +infinity for an excluded pixel. */
  datatype Extended = Finite(v: real) | PosInf

  predicate Below(a: Extended, b: Extended)
  {
    match (a, b)
    case (Finite(x), Finite(y)) => x < y
    case (Finite(_), PosInf) => true
    case (PosInf, _) => false
  }

  predicate AtMost(a: Extended, b: Extended)
  {
    !Below(b, a)
  }

  /** Entry k of the search map. */
  function SearchValue(smoothed: seq<real>, latitude: seq<real>, k: nat): Extended
    requires |latitude| == |smoothed| && k < |smoothed|
  {
    if latitude[k] > SearchLatitude then PosInf else Finite(smoothed[k])
  }

  /** i is where argmin stops: a minimum, and strictly below every earlier entry. */
  ghost predicate IsFirstMin(s: seq<Extended>, i: nat)
  {
    && i < |s|
    && (forall k :: 0 <= k < |s| ==> AtMost(s[i], s[k]))
    && (forall k :: 0 <= k < i ==> Below(s[i], s[k]))
  }

  /** The search map (masked copy) and the index argmin returns on it. */
  method FindColdSpotIndex(smoothed: array<real>, latitude: seq<real>) returns (search: array<Extended>, minIdx: nat)
    requires smoothed.Length > 0 && |latitude| == smoothed.Length
    ensures fresh(search) && search.Length == smoothed.Length
    ensures forall k :: 0 <= k < search.Length ==> search[k] == SearchValue(smoothed[..], latitude, k)
    ensures IsFirstMin(search[..], minIdx)
  {
    var n := smoothed.Length;
    search := new Extended[n](k requires 0 <= k < n reads smoothed => Finite(smoothed[k]));
    var k := 0;
    while k < n
      invariant 0 <= k <= n
      invariant forall j :: 0 <= j < k ==> search[j] == SearchValue(smoothed[..], latitude, j)
      invariant forall j :: k <= j < n ==> search[j] == Finite(smoothed[j])
    {
      if latitude[k] > SearchLatitude {
        search[k] := PosInf;
      }
      k := k + 1;
    }
    minIdx := 0;
    k := 1;
    while k < n
      invariant 1 <= k <= n && minIdx < k
      invariant forall j :: 0 <= j < k ==> AtMost(search[minIdx], search[j])
      invariant forall j :: 0 <= j < minIdx ==> Below(search[minIdx], search[j])
    {
      if Below(search[k], search[minIdx]) {
        minIdx := k;
      }
      k := k + 1;
    }
  }

  /** No entry at or below the first minimum comes before it. */
  lemma FirstMinIsFirst(s: seq<Extended>, i: nat, j: nat)
    requires IsFirstMin(s, i) && j < |s| && AtMost(s[j], s[i])
    ensures i <= j
  {
  }

  /** argmin has one answer. */
  lemma FirstMinUnique(s: seq<Extended>, i: nat, j: nat)
    requires IsFirstMin(s, i) && IsFirstMin(s, j)
    ensures i == j
  {
    FirstMinIsFirst(s, i, j);
    FirstMinIsFirst(s, j, i);
  }

  /** A searchable pixel colder than every other searchable pixel is the one found. */
  lemma ColdestPixelFound(smoothed: seq<real>, latitude: seq<real>, target: nat, i: nat)
    requires |latitude| == |smoothed| && target < |smoothed|
    requires latitude[target] <= SearchLatitude
    requires forall k :: 0 <= k < |smoothed| && k != target && latitude[k] <= SearchLatitude
               ==> smoothed[target] < smoothed[k]
    requires IsFirstMin(seq(|smoothed|, k requires 0 <= k < |smoothed| => SearchValue(smoothed, latitude, k)), i)
    ensures i == target
  {
    var s := seq(|smoothed|, k requires 0 <= k < |smoothed| => SearchValue(smoothed, latitude, k));
    assert AtMost(s[i], s[target]);
  }

  /** With every pixel excluded, argmin falls back to pixel 0. */
  lemma AllExcludedPicksZero(smoothed: seq<real>, latitude: seq<real>, i: nat)
    requires |latitude| == |smoothed| > 0
    requires forall k :: 0 <= k < |smoothed| ==> latitude[k] > SearchLatitude
    requires IsFirstMin(seq(|smoothed|, k requires 0 <= k < |smoothed| => SearchValue(smoothed, latitude, k)), i)
    ensures i == 0
  {
    var s := seq(|smoothed|, k requires 0 <= k < |smoothed| => SearchValue(smoothed, latitude, k));
    assert !Below(s[i], s[0]);
  }

  // ---------------------------------------------------------------------------
  // check_nodal_alignment
  // ---------------------------------------------------------------------------

  /** np.clip(x, -1, 1). */
  function Clip(x: real): (r: real)
    ensures -1.0 <= r <= 1.0
    ensures -1.0 <= x <= 1.0 ==> r == x
    ensures x < -1.0 ==> r == -1.0
    ensures x > 1.0 ==> r == 1.0
  {
    if x < -1.0 then -1.0 else if x > 1.0 then 1.0 else x
  }

  /** Clipping is symmetric about zero. */
  lemma ClipOdd(x: real)
    ensures Clip(-x) == -Clip(x)
  {
  }

  /** The three distances, as the clipped cosines whose arccos (in degrees) the source reports. */
  datatype NodalDistances = NodalDistances(cosNep: real, cosSep: real, cosEquinox: real)

  function CheckNodalAlignment(spot: Vec3, nep: Vec3): (r: NodalDistances)
    ensures -1.0 <= r.cosNep <= 1.0 && -1.0 <= r.cosSep <= 1.0 && -1.0 <= r.cosEquinox <= 1.0
  {
    var sep := Neg(nep);
    NodalDistances(Clip(Dot(spot, nep)), Clip(Dot(spot, sep)), Clip(Dot(spot, Equinox)))
  }

  /** The south pole is the antipode: its cosine is the negated north-pole cosine. */
  lemma SouthIsAntipodal(spot: Vec3, nep: Vec3)
    ensures CheckNodalAlignment(spot, nep).cosSep == -CheckNodalAlignment(spot, nep).cosNep
  {
    DotSymmetric(spot, Neg(nep));
    DotNegLeft(nep, spot);
    DotSymmetric(nep, spot);
    ClipOdd(Dot(spot, nep));
  }

  /** The equinox distance depends only on the spot's x component. */
  lemma EquinoxDistance(spot: Vec3, nep: Vec3)
    ensures CheckNodalAlignment(spot, nep).cosEquinox == Clip(spot.x)
  {
  }

  /** A spot at the (unit) north ecliptic pole is 0 degrees from it and 180 from the south pole. */
  lemma SpotAtPole(nep: Vec3)
    requires IsUnit(nep)
    ensures CheckNodalAlignment(nep, nep).cosNep == 1.0
    ensures CheckNodalAlignment(nep, nep).cosSep == -1.0
  {
    SouthIsAntipodal(nep, nep);
  }
}
