/**
 * The quasar alignment test: are the pair separation vectors of a high-redshift
 * catalog more aligned with the solar axis than those of spun catalogs?
 *
 * The redshift itself stands in for the comoving distance. Each null spins the
 * right ascensions by one offset drawn by the shuffling routine's own, unseeded
 * generator (the seed the worker receives is never used), so the offsets are a
 * parameter. The spherical-to-Cartesian conversion and the vector length are
 * parameters too. The p-value is the share of nulls strictly above the real score.
 */
module QuasarPipeline {
  import opened Options
  import opened Vectors
  import opened Estimator
  import Quasar
  import Shuffling

  const NSims: nat := 1000
  /** Size of the mock catalog main generates when no catalog file is given. */
  const MockCatalogSize: nat := 5000

  /** Object positions: the k-th object at (ra_k, dec_k) and distance z_k. */
  function ToCatalog(ra: seq<real>, dec: seq<real>, z: seq<real>, toCartesian: (real, real, real) -> Vec3): (r: seq<Vec3>)
    requires |dec| == |ra| && |z| == |ra|
    ensures |r| == |ra|
    ensures forall k :: 0 <= k < |r| ==> r[k] == toCartesian(ra[k], dec[k], z[k])
  {
    seq(|ra|, k requires 0 <= k < |ra| => toCartesian(ra[k], dec[k], z[k]))
  }

  /** What one call of the two engine functions gives: a score (NaN for no vectors) or the ValueError. */
  datatype Outcome = Scored(score: Option<real>) | Raised

  function CatalogScore(coords: seq<Vec3>, axis: Vec3, norm: Vec3 -> real): (r: Outcome)
    ensures r.Raised? <==> |coords| > Quasar.MaxObjects
  {
    match Quasar.GetSeparationVectors(coords, norm)
    case CatalogTooLarge(_) => Raised
    case Separations(vs) => Scored(Quasar.CorrelateWithAxis(vs, axis))
  }

  /** worker_null_catalog: spin the right ascensions, then score the catalog. */
  function NullScore(ra: seq<real>, dec: seq<real>, z: seq<real>, axis: Vec3, offset: real,
                     toCartesian: (real, real, real) -> Vec3, norm: Vec3 -> real): (r: Outcome)
    requires |dec| == |ra| && |z| == |ra|
    ensures r.Raised? <==> |ra| > Quasar.MaxObjects
  {
    CatalogScore(ToCatalog(Shuffling.Spun(ra, offset), dec, z, toCartesian), axis, norm)
  }

  /**
   * main: None when the catalog is too large (the real analysis raises before
   * any null runs), else the p-value and the verdict.
   */
  function QuasarTest(ra: seq<real>, dec: seq<real>, z: seq<real>, axis: Vec3, offsets: seq<real>,
                      toCartesian: (real, real, real) -> Vec3, norm: Vec3 -> real): (r: Option<(real, Verdict)>)
    requires |dec| == |ra| && |z| == |ra| && |offsets| == NSims
    ensures r.None? <==> |ra| > Quasar.MaxObjects
    ensures r.Some? ==> 0.0 <= r.value.0 <= 1.0 && r.value.1 == ThreeWay(r.value.0)
  {
    var observed := CatalogScore(ToCatalog(ra, dec, z, toCartesian), axis, norm);
    if observed.Raised? then None
    else
      var nulls := seq(NSims, k requires 0 <= k < NSims =>
        NullScore(ra, dec, z, axis, offsets[k], toCartesian, norm).score);
      var p := UpperTailP(nulls, observed.score);
      Some((p, ThreeWay(p)))
  }

  /** The mock catalog of 5000 objects is over the brute-force limit: main never reaches the nulls. */
  lemma MockCatalogRaises(ra: seq<real>, dec: seq<real>, z: seq<real>, axis: Vec3, offsets: seq<real>,
                          toCartesian: (real, real, real) -> Vec3, norm: Vec3 -> real)
    requires |ra| == MockCatalogSize && |dec| == |ra| && |z| == |ra| && |offsets| == NSims
    ensures QuasarTest(ra, dec, z, axis, offsets, toCartesian, norm).None?
  {
  }

  /** A zero offset reproduces the real catalog, and so the real score. */
  lemma ZeroSpinIsReal(ra: seq<real>, dec: seq<real>, z: seq<real>, axis: Vec3,
                       toCartesian: (real, real, real) -> Vec3, norm: Vec3 -> real)
    requires |dec| == |ra| && |z| == |ra|
    requires forall i :: 0 <= i < |ra| ==> 0.0 <= ra[i] < 360.0
    ensures NullScore(ra, dec, z, axis, 0.0, toCartesian, norm)
         == CatalogScore(ToCatalog(ra, dec, z, toCartesian), axis, norm)
  {
    Shuffling.SpinZeroOffset(ra);
  }

  /** With the Euclidean length and a unit axis, every score of a non-empty vector set lies in [0, 1]. */
  lemma ScoreInRange(coords: seq<Vec3>, axis: Vec3, norm: Vec3 -> real)
    requires Quasar.Euclidean(norm) && IsUnit(axis)
    requires CatalogScore(coords, axis, norm).Scored? && CatalogScore(coords, axis, norm).score.Some?
    ensures 0.0 <= CatalogScore(coords, axis, norm).score.value <= 1.0
  {
    var vs := Quasar.GetSeparationVectors(coords, norm).vectors;
    Quasar.EuclideanHomogeneous(norm);
    forall k | 0 <= k < |vs|
      ensures IsUnit(vs[k])
    {
      Quasar.SeparationsHaveUnitLength(coords, norm, k);
    }
    Quasar.CorrelateInRange(vs, axis);
  }
}
