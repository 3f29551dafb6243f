/**
 * Principal axes of single multipoles ("axis of evil").
 *
 * The axis of degree l is found by keeping only the degree-l coefficients,
 * synthesising that multipole on the sky, weighting every pixel direction by
 * the squared map value, and taking the first eigenvector of the resulting
 * 3x3 second-moment tensor C = sum_p w_p r_p r_p^T. Axes are compared
 * headlessly, through |a . b|.
 *
 * The synthesis (alm2map), the pixel directions (pix2vec) and the symmetric
 * eigen-solver (eigh) are library calls and enter as function parameters.
 * Angles are reported as the cosines |a . b| that the source feeds to arccos.
 */
module Harmonics {
  import opened Alm
  import opened Vectors
  import Arith

  // ---------------------------------------------------------------------------
  // Degree filter
  // ---------------------------------------------------------------------------

  /** The coefficient set with every degree other than l set to zero. */
  function Filtered(alm: seq<Complex>, lmax: nat, l: nat): (f: seq<Complex>)
    requires |alm| == Size(lmax)
    ensures |f| == |alm|
  {
    seq(|alm|, k requires 0 <= k < |alm| => if Degree(lmax, k) == l then alm[k] else Zero)
  }

  /**
   * Zero-fills a new array of the input's length and copies the entries
   * (l, m), m = 0..l, into it one order at a time.
   */
  method FilterDegree(alm: seq<Complex>, lmax: nat, l: nat) returns (filtered: array<Complex>)
    requires |alm| == Size(lmax) && l <= lmax
    ensures filtered.Length == |alm|
    ensures filtered[..] == Filtered(alm, lmax, l)
  {
    filtered := new Complex[|alm|](_ => Zero);
    var m := 0;
    while m <= l
      invariant m <= l + 1
      invariant filtered.Length == |alm|
      invariant forall k :: 0 <= k < filtered.Length ==>
        filtered[k] == if Degree(lmax, k) == l && Order(lmax, k) < m then alm[k] else Zero
    {
      LocateIndex(lmax, l, m);
      forall k | 0 <= k < filtered.Length && Degree(lmax, k) == l && Order(lmax, k) == m
        ensures k == Index(lmax, l, m)
      {
        IndexLocate(lmax, k);
      }
      filtered[Index(lmax, l, m)] := alm[Index(lmax, l, m)];
      m := m + 1;
    }
  }

  /** The entries (l, m), m = 0..l, are copied unchanged. */
  lemma FilteredKeepsDegree(alm: seq<Complex>, lmax: nat, l: nat, m: nat)
    requires |alm| == Size(lmax) && m <= l <= lmax
    ensures Filtered(alm, lmax, l)[Index(lmax, l, m)] == alm[Index(lmax, l, m)]
  {
    LocateIndex(lmax, l, m);
  }

  /** Filtering twice is filtering once. */
  lemma FilteredIdempotent(alm: seq<Complex>, lmax: nat, l: nat)
    requires |alm| == Size(lmax)
    ensures Filtered(Filtered(alm, lmax, l), lmax, l) == Filtered(alm, lmax, l)
  {
  }

  /** Two coefficient sets filter to the same set exactly when they agree on degree l. */
  lemma FilteredEqualIff(alm: seq<Complex>, alm': seq<Complex>, lmax: nat, l: nat)
    requires |alm| == |alm'| == Size(lmax) && l <= lmax
    ensures Filtered(alm, lmax, l) == Filtered(alm', lmax, l)
        <==> forall m :: 0 <= m <= l ==> alm[Index(lmax, l, m)] == alm'[Index(lmax, l, m)]
  {
    if forall m :: 0 <= m <= l ==> alm[Index(lmax, l, m)] == alm'[Index(lmax, l, m)] {
      forall k | 0 <= k < |alm| && Degree(lmax, k) == l
        ensures alm[k] == alm'[k]
      {
        IndexLocate(lmax, k);
      }
    } else {
      var m :| 0 <= m <= l && alm[Index(lmax, l, m)] != alm'[Index(lmax, l, m)];
      FilteredKeepsDegree(alm, lmax, l, m);
      FilteredKeepsDegree(alm', lmax, l, m);
    }
  }

  // ---------------------------------------------------------------------------
  // Second-moment tensor
  // ---------------------------------------------------------------------------

  /** Pixel weights: the squared map values. */
  function Weights(mapL: seq<real>): (w: seq<real>)
    ensures |w| == |mapL|
    ensures forall p :: 0 <= p < |w| ==> w[p] >= 0.0
  {
    seq(|mapL|, p requires 0 <= p < |mapL| => Sq(mapL[p]))
  }

  /** The directions of pixels 0..n-1. */
  function PixelVectors(pixelVector: nat -> Vec3, n: nat): (r: seq<Vec3>)
    ensures |r| == n
  {
    seq(n, p requires 0 <= p => pixelVector(p))
  }

  /** w r r^T, with entry (i, j) equal to r_i (r_j w). */
  function Outer(r: Vec3, w: real): Mat3
  {
    Mat3(ScaleV(r.x * w, r), ScaleV(r.y * w, r), ScaleV(r.z * w, r))
  }

  /** C = sum_p w_p r_p r_p^T over the pixels. */
  function Covariance(vecs: seq<Vec3>, w: seq<real>): Mat3
    requires |vecs| == |w|
  {
    if |vecs| == 0 then ZeroMat
    else MatAdd(Covariance(vecs[..|vecs| - 1], w[..|w| - 1]), Outer(vecs[|vecs| - 1], w[|w| - 1]))
  }

  lemma OuterSymmetric(r: Vec3, w: real)
    ensures Symmetric(Outer(r, w))
  {
  }

  /** The tensor is symmetric, as eigh requires of its input. */
  lemma {:induction false} CovarianceSymmetric(vecs: seq<Vec3>, w: seq<real>)
    requires |vecs| == |w|
    ensures Symmetric(Covariance(vecs, w))
  {
    if |vecs| > 0 {
      CovarianceSymmetric(vecs[..|vecs| - 1], w[..|w| - 1]);
      OuterSymmetric(vecs[|vecs| - 1], w[|w| - 1]);
    }
  }

  lemma QuadFormAdd(a: Mat3, b: Mat3, x: Vec3)
    ensures QuadForm(MatAdd(a, b), x) == QuadForm(a, x) + QuadForm(b, x)
  {
  }

  /** x^T (w r r^T) x = w (r . x)^2. */
  lemma QuadFormOuter(r: Vec3, w: real, x: Vec3)
    ensures QuadForm(Outer(r, w), x) == w * (Dot(r, x) * Dot(r, x))
  {
    var m := Outer(r, w);
    OuterForm(r.x, r.y, r.z, w, x.x, x.y, x.z, Dot(r, x),
              m.c0.x, m.c0.y, m.c0.z, m.c1.x, m.c1.y, m.c1.z, m.c2.x, m.c2.y, m.c2.z);
  }

  /** The polynomial identity behind QuadFormOuter, entry by entry. */
  lemma OuterForm(a: real, b: real, c: real, w: real, u: real, v: real, t: real, d: real,
                  m00: real, m01: real, m02: real, m10: real, m11: real, m12: real,
                  m20: real, m21: real, m22: real)
    requires m00 == (a * w) * a && m01 == (a * w) * b && m02 == (a * w) * c
    requires m10 == (b * w) * a && m11 == (b * w) * b && m12 == (b * w) * c
    requires m20 == (c * w) * a && m21 == (c * w) * b && m22 == (c * w) * c
    requires d == a * u + b * v + c * t
    ensures u * (u * m00 + v * m10 + t * m20) + v * (u * m01 + v * m11 + t * m21)
          + t * (u * m02 + v * m12 + t * m22) == w * (d * d)
  {
  }

  /** x^T C x = sum_p w_p (r_p . x)^2 >= 0 when every weight is >= 0. */
  lemma {:induction false} CovariancePositiveSemidefinite(vecs: seq<Vec3>, w: seq<real>, x: Vec3)
    requires |vecs| == |w|
    requires forall p :: 0 <= p < |w| ==> w[p] >= 0.0
    ensures QuadForm(Covariance(vecs, w), x) >= 0.0
  {
    if |vecs| > 0 {
      var n := |vecs| - 1;
      CovariancePositiveSemidefinite(vecs[..n], w[..n], x);
      QuadFormAdd(Covariance(vecs[..n], w[..n]), Outer(vecs[n], w[n]), x);
      QuadFormOuter(vecs[n], w[n], x);
      Arith.Square(Dot(vecs[n], x));
      Arith.NonNegativeProduct(w[n], Dot(vecs[n], x) * Dot(vecs[n], x));
    }
  }

  // ---------------------------------------------------------------------------
  // Principal axis
  // ---------------------------------------------------------------------------

  /** The tensor built from the degree-l multipole synthesised on the pixel grid. */
  function MultipoleTensor(alm: seq<Complex>, lmax: nat, l: nat,
                           alm2map: seq<Complex> -> seq<real>, pixelVector: nat -> Vec3): Mat3
    requires |alm| == Size(lmax)
  {
    var mapL := alm2map(Filtered(alm, lmax, l));
    Covariance(PixelVectors(pixelVector, |mapL|), Weights(mapL))
  }

  /** The axis: eigenvector column 0 of the tensor. */
  function PrincipalAxis(alm: seq<Complex>, lmax: nat, l: nat,
                         alm2map: seq<Complex> -> seq<real>, pixelVector: nat -> Vec3,
                         eigh: Mat3 -> Mat3): Vec3
    requires |alm| == Size(lmax)
  {
    eigh(MultipoleTensor(alm, lmax, l, alm2map, pixelVector)).c0
  }

  /** The tensor handed to the eigen-solver is symmetric and positive semi-definite. */
  lemma MultipoleTensorSymmetricPsd(alm: seq<Complex>, lmax: nat, l: nat,
                                    alm2map: seq<Complex> -> seq<real>, pixelVector: nat -> Vec3, x: Vec3)
    requires |alm| == Size(lmax)
    ensures Symmetric(MultipoleTensor(alm, lmax, l, alm2map, pixelVector))
    ensures QuadForm(MultipoleTensor(alm, lmax, l, alm2map, pixelVector), x) >= 0.0
  {
    var mapL := alm2map(Filtered(alm, lmax, l));
    CovarianceSymmetric(PixelVectors(pixelVector, |mapL|), Weights(mapL));
    CovariancePositiveSemidefinite(PixelVectors(pixelVector, |mapL|), Weights(mapL), x);
  }

  /** The axis of degree l depends on the degree-l coefficients only. */
  lemma PrincipalAxisDependsOnDegree(alm: seq<Complex>, alm': seq<Complex>, lmax: nat, l: nat,
                                     alm2map: seq<Complex> -> seq<real>, pixelVector: nat -> Vec3,
                                     eigh: Mat3 -> Mat3)
    requires |alm| == |alm'| == Size(lmax) && l <= lmax
    requires forall m :: 0 <= m <= l ==> alm[Index(lmax, l, m)] == alm'[Index(lmax, l, m)]
    ensures PrincipalAxis(alm, lmax, l, alm2map, pixelVector, eigh)
         == PrincipalAxis(alm', lmax, l, alm2map, pixelVector, eigh)
  {
    FilteredEqualIff(alm, alm', lmax, l);
  }

  /** get_principal_axis for a coefficient set of degree lmax. */
  method GetPrincipalAxis(alm: seq<Complex>, lmax: nat, l: nat,
                          alm2map: seq<Complex> -> seq<real>, pixelVector: nat -> Vec3,
                          eigh: Mat3 -> Mat3) returns (axis: Vec3)
    requires |alm| == Size(lmax) && l <= lmax
    ensures axis == PrincipalAxis(alm, lmax, l, alm2map, pixelVector, eigh)
  {
    var filtered := FilterDegree(alm, lmax, l);
    var mapL := alm2map(filtered[..]);
    var vecs := PixelVectors(pixelVector, |mapL|);
    var weights := Weights(mapL);
    var cov := Covariance(vecs, weights);
    var evecs := eigh(cov);
    axis := evecs.c0;
  }

  // ---------------------------------------------------------------------------
  // Alignment report
  // ---------------------------------------------------------------------------

  /** The two axes and the cosines whose arccos gives the reported angles. */
  datatype AxisReport = AxisReport(axisL2: Vec3, axisL3: Vec3,
                                   cos23: real, cos2Ecl: real, cos3Ecl: real, cos2Eq: real)

  function Report(axisL2: Vec3, axisL3: Vec3, eclPole: Vec3): AxisReport
  {
    AxisReport(axisL2, axisL3, AbsDot(axisL2, axisL3), AbsDot(axisL2, eclPole),
               AbsDot(axisL3, eclPole), AbsDot(axisL2, Equinox))
  }

  /** The maps are expanded to degree 10 before the axes are extracted. */
  const AnalysisLmax: nat := 10

  /**
   * analyze_axis_of_evil on the coefficients of the dipole-cleaned map.
   * The ecliptic pole is a parameter.
   */
  method AnalyzeAxisOfEvil(alm: seq<Complex>, alm2map: seq<Complex> -> seq<real>,
                           pixelVector: nat -> Vec3, eigh: Mat3 -> Mat3, eclPole: Vec3)
    returns (report: AxisReport)
    requires |alm| == Size(AnalysisLmax)
    ensures report == Report(PrincipalAxis(alm, AnalysisLmax, 2, alm2map, pixelVector, eigh),
                             PrincipalAxis(alm, AnalysisLmax, 3, alm2map, pixelVector, eigh), eclPole)
  {
    var axisL2 := GetPrincipalAxis(alm, AnalysisLmax, 2, alm2map, pixelVector, eigh);
    var axisL3 := GetPrincipalAxis(alm, AnalysisLmax, 3, alm2map, pixelVector, eigh);
    report := Report(axisL2, axisL3, eclPole);
  }

  /** The equinox cosine is the absolute x-component of the l = 2 axis. */
  lemma EquinoxCosine(axisL2: Vec3, axisL3: Vec3, eclPole: Vec3)
    ensures Report(axisL2, axisL3, eclPole).cos2Eq == Arith.Abs(axisL2.x)
  {
  }

  /** Flipping either axis (eigenvectors have no preferred sign) changes no cosine. */
  lemma ReportHeadless(axisL2: Vec3, axisL3: Vec3, eclPole: Vec3)
    ensures Report(Neg(axisL2), axisL3, eclPole).cos23 == Report(axisL2, axisL3, eclPole).cos23
    ensures Report(Neg(axisL2), axisL3, eclPole).cos2Ecl == Report(axisL2, axisL3, eclPole).cos2Ecl
    ensures Report(Neg(axisL2), axisL3, eclPole).cos2Eq == Report(axisL2, axisL3, eclPole).cos2Eq
    ensures Report(axisL2, Neg(axisL3), eclPole).cos23 == Report(axisL2, axisL3, eclPole).cos23
    ensures Report(axisL2, Neg(axisL3), eclPole).cos3Ecl == Report(axisL2, axisL3, eclPole).cos3Ecl
    ensures Report(axisL3, axisL2, eclPole).cos23 == Report(axisL2, axisL3, eclPole).cos23
  {
    AbsDotHeadless(axisL2, axisL3);
    AbsDotHeadless(axisL2, eclPole);
    AbsDotHeadless(axisL3, eclPole);
    AbsDotHeadless(axisL2, Equinox);
  }

  /** With unit axes and a unit pole every cosine lies in [0, 1], inside arccos's domain. */
  lemma ReportInRange(axisL2: Vec3, axisL3: Vec3, eclPole: Vec3)
    requires IsUnit(axisL2) && IsUnit(axisL3) && IsUnit(eclPole)
    ensures 0.0 <= Report(axisL2, axisL3, eclPole).cos23 <= 1.0
    ensures 0.0 <= Report(axisL2, axisL3, eclPole).cos2Ecl <= 1.0
    ensures 0.0 <= Report(axisL2, axisL3, eclPole).cos3Ecl <= 1.0
    ensures 0.0 <= Report(axisL2, axisL3, eclPole).cos2Eq <= 1.0
  {
    var r := Report(axisL2, axisL3, eclPole);
    assert r.cos23 <= 1.0 by { UnitDotBound(axisL2, axisL3); }
    assert r.cos2Ecl <= 1.0 by { UnitDotBound(axisL2, eclPole); }
    assert r.cos3Ecl <= 1.0 by { UnitDotBound(axisL3, eclPole); }
    assert r.cos2Eq <= 1.0 by {
      assert IsUnit(Equinox);
      UnitDotBound(axisL2, Equinox);
    }
  }
}
