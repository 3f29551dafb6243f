/**
 * Cartesian 3-vectors and 3x3 matrices over the reals: the positions, axes
 * and rotation matrices the engines pass around.
 */
module Vectors {
  import Arith

  datatype Vec3 = Vec3(x: real, y: real, z: real)

  const Origin: Vec3 := Vec3(0.0, 0.0, 0.0)

  /** The vernal equinox direction (right ascension 0, declination 0): Cartesian x. */
  const Equinox: Vec3 := Vec3(1.0, 0.0, 0.0)

  function Dot(a: Vec3, b: Vec3): real
  {
    a.x * b.x + a.y * b.y + a.z * b.z
  }

  function Neg(a: Vec3): Vec3
  {
    Vec3(-a.x, -a.y, -a.z)
  }

  function Sub(a: Vec3, b: Vec3): Vec3
  {
    Vec3(a.x - b.x, a.y - b.y, a.z - b.z)
  }

  function Plus(a: Vec3, b: Vec3): Vec3
  {
    Vec3(a.x + b.x, a.y + b.y, a.z + b.z)
  }

  function ScaleV(s: real, a: Vec3): Vec3
  {
    Vec3(s * a.x, s * a.y, s * a.z)
  }

  function Cross(a: Vec3, b: Vec3): Vec3
  {
    Vec3(a.y * b.z - a.z * b.y, a.z * b.x - a.x * b.z, a.x * b.y - a.y * b.x)
  }

  /** Headless comparison of two axes: |a . b|. */
  function AbsDot(a: Vec3, b: Vec3): (r: real)
    ensures r >= 0.0
    ensures r == Dot(a, b) || r == -Dot(a, b)
  {
    Arith.Abs(Dot(a, b))
  }

  predicate IsUnit(a: Vec3)
  {
    Dot(a, a) == 1.0
  }

  lemma DotSymmetric(a: Vec3, b: Vec3)
    ensures Dot(a, b) == Dot(b, a)
  {
  }

  lemma DotNegLeft(a: Vec3, b: Vec3)
    ensures Dot(Neg(a), b) == -Dot(a, b)
  {
  }

  /** |a . b| is symmetric and unchanged when either axis is flipped. */
  lemma AbsDotHeadless(a: Vec3, b: Vec3)
    ensures AbsDot(a, b) == AbsDot(b, a)
    ensures AbsDot(Neg(a), b) == AbsDot(a, b)
    ensures AbsDot(a, Neg(b)) == AbsDot(a, b)
  {
    DotSymmetric(a, b);
    DotNegLeft(a, b);
    DotNegLeft(b, a);
    DotSymmetric(a, Neg(b));
  }

  lemma SelfDotNonNegative(a: Vec3)
    ensures Dot(a, a) >= 0.0
  {
    Arith.Square(a.x);
    Arith.Square(a.y);
    Arith.Square(a.z);
  }

  lemma SubSelfDot(a: Vec3, b: Vec3)
    ensures Dot(Sub(a, b), Sub(a, b)) == Dot(a, a) - 2.0 * Dot(a, b) + Dot(b, b)
  {
  }

  lemma PlusSelfDot(a: Vec3, b: Vec3)
    ensures Dot(Plus(a, b), Plus(a, b)) == Dot(a, a) + 2.0 * Dot(a, b) + Dot(b, b)
  {
  }

  /** For unit vectors |a . b| <= 1, so the cosine is in arccos's domain. */
  lemma UnitDotBound(a: Vec3, b: Vec3)
    requires IsUnit(a) && IsUnit(b)
    ensures -1.0 <= Dot(a, b) <= 1.0
    ensures AbsDot(a, b) <= 1.0
  {
    SubSelfDot(a, b);
    PlusSelfDot(a, b);
    SelfDotNonNegative(Sub(a, b));
    SelfDotNonNegative(Plus(a, b));
  }

  /** A 3x3 matrix stored by columns. */
  datatype Mat3 = Mat3(c0: Vec3, c1: Vec3, c2: Vec3)

  function Det(m: Mat3): real
  {
    Dot(m.c0, Cross(m.c1, m.c2))
  }

  /** The columns are orthonormal: m^T m = I. */
  predicate Orthogonal(m: Mat3)
  {
    && Dot(m.c0, m.c0) == 1.0 && Dot(m.c1, m.c1) == 1.0 && Dot(m.c2, m.c2) == 1.0
    && Dot(m.c0, m.c1) == 0.0 && Dot(m.c0, m.c2) == 0.0 && Dot(m.c1, m.c2) == 0.0
  }

  predicate Symmetric(m: Mat3)
  {
    m.c0.y == m.c1.x && m.c0.z == m.c2.x && m.c1.z == m.c2.y
  }

  const ZeroMat: Mat3 := Mat3(Origin, Origin, Origin)

  function MatAdd(a: Mat3, b: Mat3): Mat3
  {
    Mat3(Plus(a.c0, b.c0), Plus(a.c1, b.c1), Plus(a.c2, b.c2))
  }

  /** The quadratic form x^T m x. */
  function QuadForm(m: Mat3, x: Vec3): real
  {
    x.x * (x.x * m.c0.x + x.y * m.c1.x + x.z * m.c2.x)
    + x.y * (x.x * m.c0.y + x.y * m.c1.y + x.z * m.c2.y)
    + x.z * (x.x * m.c0.z + x.y * m.c1.z + x.z * m.c2.z)
  }
}
