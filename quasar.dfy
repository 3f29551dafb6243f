/**
 * Quasar separation vectors and their alignment with an axis.
 *
 * For a catalog of at most 2000 objects (positions in Cartesian form), every
 * pair i < j, taken in row-major order, gives the difference position_i -
 * position_j; differences of zero length are dropped and the rest are divided
 * by their length. The alignment score of a set of vectors is the mean of
 * |v . axis|.
 *
 * The length is an abstract function `norm` (numpy's Euclidean norm); the
 * properties that need more than "some function" state what they assume of it.
 */
module Quasar {
  import opened Vectors
  import opened Options
  import Arith

  /** Largest catalog for which pairs are formed. */
  const MaxObjects: nat := 2000

  // ---------------------------------------------------------------------------
  // Pair enumeration
  // ---------------------------------------------------------------------------

  /** The pairs (i, j), i < j < n, of one row i. */
  function Row(i: nat, n: nat): (r: seq<(nat, nat)>)
    requires i < n
    ensures |r| == n - i - 1
  {
    seq(n - i - 1, k requires 0 <= k < n - i - 1 => (i, i + 1 + k))
  }

  /** Rows i..n-1 of the strict upper triangle, one after the other. */
  function PairsFrom(i: nat, n: nat): seq<(nat, nat)>
    decreases n - i
  {
    if i >= n then [] else Row(i, n) + PairsFrom(i + 1, n)
  }

  /** The strict upper triangle of an n x n index grid in row-major order. */
  function Pairs(n: nat): seq<(nat, nat)>
  {
    PairsFrom(0, n)
  }

  lemma {:induction false} PairsFromCount(i: nat, n: nat)
    requires i <= n
    ensures 2 * |PairsFrom(i, n)| == (n - i) * (n - i - 1)
    decreases n - i
  {
    if i < n {
      PairsFromCount(i + 1, n);
      assert 2 * (n - i - 1) + (n - i - 1) * (n - i - 2) == (n - i) * (n - i - 1);
    }
  }

  /** There are n(n-1)/2 pairs before any is filtered. */
  lemma PairsCount(n: nat)
    ensures 2 * |Pairs(n)| == n * (n - 1)
  {
    PairsFromCount(0, n);
  }

  lemma {:induction false} PairsFromMember(i: nat, n: nat, p: (nat, nat))
    ensures p in PairsFrom(i, n) <==> i <= p.0 < p.1 < n
    decreases n - i
  {
    if i < n {
      PairsFromMember(i + 1, n, p);
      if p.0 == i && p.1 < n && i < p.1 {
        assert Row(i, n)[p.1 - i - 1] == p;
      }
    }
  }

  /** The pairs are exactly the (i, j) with i < j < n. */
  lemma PairsMember(n: nat, p: (nat, nat))
    ensures p in Pairs(n) <==> p.0 < p.1 < n
  {
    PairsFromMember(0, n, p);
  }

  lemma PairsInRange(n: nat)
    ensures forall k :: 0 <= k < |Pairs(n)| ==> Pairs(n)[k].0 < Pairs(n)[k].1 < n
  {
    forall k | 0 <= k < |Pairs(n)|
      ensures Pairs(n)[k].0 < Pairs(n)[k].1 < n
    {
      PairsMember(n, Pairs(n)[k]);
    }
  }

  /** Row-major order: first index, then second index. */
  predicate LexLess(p: (nat, nat), q: (nat, nat))
  {
    p.0 < q.0 || (p.0 == q.0 && p.1 < q.1)
  }

  lemma {:induction false} PairsFromOrdered(i: nat, n: nat)
    ensures forall a, b :: 0 <= a < b < |PairsFrom(i, n)| ==> LexLess(PairsFrom(i, n)[a], PairsFrom(i, n)[b])
    decreases n - i
  {
    if i < n {
      PairsFromOrdered(i + 1, n);
      var row, rest := Row(i, n), PairsFrom(i + 1, n);
      forall b | 0 <= b < |rest|
        ensures rest[b].0 > i
      {
        PairsFromMember(i + 1, n, rest[b]);
      }
      assert PairsFrom(i, n) == row + rest;
    }
  }

  /** The pairs are listed in strictly increasing row-major order, so none repeats. */
  lemma PairsOrdered(n: nat)
    ensures forall a, b :: 0 <= a < b < |Pairs(n)| ==> LexLess(Pairs(n)[a], Pairs(n)[b])
  {
    PairsFromOrdered(0, n);
  }

  // ---------------------------------------------------------------------------
  // Separation vectors
  // ---------------------------------------------------------------------------

  /** position_i - position_j for every pair, in pair order. */
  function PairDifferences(coords: seq<Vec3>): (d: seq<Vec3>)
    ensures |d| == |Pairs(|coords|)|
  {
    PairsInRange(|coords|);
    var ps := Pairs(|coords|);
    seq(|ps|, k requires 0 <= k < |ps| => Sub(coords[ps[k].0], coords[ps[k].1]))
  }

  /** The vectors of non-zero length, in their original order. */
  function Kept(vs: seq<Vec3>, norm: Vec3 -> real): (r: seq<Vec3>)
    ensures |r| <= |vs|
    ensures forall v :: v in r ==> v in vs && norm(v) > 0.0
  {
    if vs == [] then []
    else (if norm(vs[0]) > 0.0 then [vs[0]] else []) + Kept(vs[1..], norm)
  }

  /** v scaled by 1 / n. */
  function Divide(v: Vec3, n: real): Vec3
    requires n > 0.0
  {
    ScaleV(1.0 / n, v)
  }

  /** Every vector divided by its own (positive) length. */
  function NormaliseAll(vs: seq<Vec3>, norm: Vec3 -> real): (r: seq<Vec3>)
    requires forall v :: v in vs ==> norm(v) > 0.0
    ensures |r| == |vs|
  {
    seq(|vs|, k requires 0 <= k < |vs| => Divide(vs[k], norm(vs[k])))
  }

  /** get_separation_vectors: ValueError for large catalogs, else the normalised pair vectors. */
  datatype Separation = Separations(vectors: seq<Vec3>) | CatalogTooLarge(count: nat)

  function GetSeparationVectors(coords: seq<Vec3>, norm: Vec3 -> real): (r: Separation)
    ensures r.CatalogTooLarge? <==> |coords| > MaxObjects
    ensures r.CatalogTooLarge? ==> r.count == |coords|
    ensures r.Separations? ==> 2 * |r.vectors| <= |coords| * (|coords| - 1)
  {
    PairsCount(|coords|);
    if |coords| > MaxObjects then CatalogTooLarge(|coords|)
    else
      var kept := Kept(PairDifferences(coords), norm);
      Separations(NormaliseAll(kept, norm))
  }

  /** An abstract length: non-negative, and zero exactly at the origin. */
  ghost predicate IsNorm(norm: Vec3 -> real)
  {
    forall v :: norm(v) >= 0.0 && (norm(v) == 0.0 <==> v == Origin)
  }

  /** A length that scales with positive factors. */
  ghost predicate Homogeneous(norm: Vec3 -> real)
  {
    forall s: real, v :: s > 0.0 ==> norm(ScaleV(s, v)) == s * norm(v)
  }

  /** The Euclidean length: the non-negative square root of v . v. */
  ghost predicate Euclidean(norm: Vec3 -> real)
  {
    forall v :: norm(v) >= 0.0 && norm(v) * norm(v) == Dot(v, v)
  }

  lemma {:induction false} KeptAppend(a: seq<Vec3>, b: seq<Vec3>, norm: Vec3 -> real)
    ensures Kept(a + b, norm) == Kept(a, norm) + Kept(b, norm)
  {
    if a != [] {
      assert (a + b)[0] == a[0];
      assert (a + b)[1..] == a[1..] + b;
      KeptAppend(a[1..], b, norm);
      var head := if norm(a[0]) > 0.0 then [a[0]] else [];
      assert Kept(a + b, norm) == head + (Kept(a[1..], norm) + Kept(b, norm));
    } else {
      assert a + b == b;
    }
  }

  /** A vector is kept exactly when it occurs and has non-zero length. */
  lemma {:induction false} KeptMember(vs: seq<Vec3>, norm: Vec3 -> real, v: Vec3)
    ensures v in Kept(vs, norm) <==> v in vs && norm(v) > 0.0
  {
    if vs != [] {
      KeptMember(vs[1..], norm, v);
      assert vs == [vs[0]] + vs[1..];
    }
  }

  /** Nothing is dropped when every length is positive. */
  lemma {:induction false} KeptAll(vs: seq<Vec3>, norm: Vec3 -> real)
    requires forall k :: 0 <= k < |vs| ==> norm(vs[k]) > 0.0
    ensures Kept(vs, norm) == vs
  {
    if vs != [] {
      KeptAll(vs[1..], norm);
    }
  }

  /** A pair difference has positive length exactly when the two positions differ. */
  lemma DifferenceKeptIffDistinct(coords: seq<Vec3>, norm: Vec3 -> real, k: nat)
    requires IsNorm(norm)
    requires k < |Pairs(|coords|)|
    ensures Pairs(|coords|)[k].0 < Pairs(|coords|)[k].1 < |coords|
    ensures norm(PairDifferences(coords)[k]) > 0.0
        <==> coords[Pairs(|coords|)[k].0] != coords[Pairs(|coords|)[k].1]
  {
    PairsInRange(|coords|);
    var p := Pairs(|coords|)[k];
    assert PairDifferences(coords)[k] == Sub(coords[p.0], coords[p.1]);
    assert Sub(coords[p.0], coords[p.1]) == Origin <==> coords[p.0] == coords[p.1];
  }

  /** With pairwise distinct positions no pair is dropped: n(n-1)/2 vectors. */
  lemma DistinctCatalogKeepsAllPairs(coords: seq<Vec3>, norm: Vec3 -> real)
    requires IsNorm(norm) && |coords| <= MaxObjects
    requires forall i, j :: 0 <= i < j < |coords| ==> coords[i] != coords[j]
    ensures GetSeparationVectors(coords, norm).Separations?
    ensures 2 * |GetSeparationVectors(coords, norm).vectors| == |coords| * (|coords| - 1)
  {
    var diffs := PairDifferences(coords);
    forall k | 0 <= k < |diffs|
      ensures norm(diffs[k]) > 0.0
    {
      DifferenceKeptIffDistinct(coords, norm, k);
    }
    KeptAll(diffs, norm);
    PairsCount(|coords|);
  }

  /** Each output vector is its difference divided by that difference's length: it has length 1. */
  lemma SeparationsHaveUnitLength(coords: seq<Vec3>, norm: Vec3 -> real, k: nat)
    requires Homogeneous(norm)
    requires GetSeparationVectors(coords, norm).Separations?
    requires k < |GetSeparationVectors(coords, norm).vectors|
    ensures norm(GetSeparationVectors(coords, norm).vectors[k]) == 1.0
  {
    var kept := Kept(PairDifferences(coords), norm);
    assert kept[k] in kept;
    assert GetSeparationVectors(coords, norm).vectors[k] == Divide(kept[k], norm(kept[k]));
    DivideByOwnNorm(kept[k], norm);
  }

  /** A vector of positive length divided by that length has length 1. */
  lemma DivideByOwnNorm(v: Vec3, norm: Vec3 -> real)
    requires Homogeneous(norm) && norm(v) > 0.0
    ensures norm(Divide(v, norm(v))) == 1.0
  {
    var n := norm(v);
    assert norm(ScaleV(1.0 / n, v)) == (1.0 / n) * n;
  }

  /** Non-negative numbers with equal squares are equal. */
  lemma RootUnique(n: real, s: real)
    requires n >= 0.0 && s >= 0.0 && n * n == s * s
    ensures n == s
  {
    if n + s > 0.0 {
      assert (n - s) * (n + s) == n * n - s * s;
      Arith.CancelPositive(n - s, 0.0, n + s);
    }
  }

  /** (s v) . (s v) == (s s)(v . v). */
  lemma ScaledSelfDot(s: real, v: Vec3)
    ensures Dot(ScaleV(s, v), ScaleV(s, v)) == (s * s) * Dot(v, v)
  {
    assert (s * v.x) * (s * v.x) == (s * s) * (v.x * v.x);
    assert (s * v.y) * (s * v.y) == (s * s) * (v.y * v.y);
    assert (s * v.z) * (s * v.z) == (s * s) * (v.z * v.z);
  }

  /** The Euclidean length scales with a positive factor. */
  lemma EuclideanScale(norm: Vec3 -> real, s: real, v: Vec3)
    requires Euclidean(norm) && s > 0.0
    ensures norm(ScaleV(s, v)) == s * norm(v)
  {
    var n, m := norm(v), norm(ScaleV(s, v));
    assert n >= 0.0 && n * n == Dot(v, v);
    assert m >= 0.0 && m * m == Dot(ScaleV(s, v), ScaleV(s, v));
    ScaledSelfDot(s, v);
    assert (s * n) * (s * n) == (s * s) * (n * n);
    Arith.NonNegativeProduct(s, n);
    RootUnique(m, s * n);
  }

  /** numpy's norm, the Euclidean length, is homogeneous: the unit-length result applies to it. */
  lemma EuclideanHomogeneous(norm: Vec3 -> real)
    requires Euclidean(norm)
    ensures Homogeneous(norm)
  {
    forall s: real, v | s > 0.0
      ensures norm(ScaleV(s, v)) == s * norm(v)
    {
      EuclideanScale(norm, s, v);
    }
  }

  lemma EuclideanOnAxis(norm: Vec3 -> real)
    requires Euclidean(norm)
    ensures norm(Vec3(-100.0, 0.0, 0.0)) == 100.0
  {
    var d := Vec3(-100.0, 0.0, 0.0);
    assert norm(d) >= 0.0 && norm(d) * norm(d) == Dot(d, d);
    RootUnique(norm(d), 100.0);
  }

  lemma NormaliseSingle(v: Vec3, norm: Vec3 -> real)
    requires norm(v) > 0.0
    ensures NormaliseAll([v], norm) == [Divide(v, norm(v))]
  {
  }

  lemma DivideOnAxis()
    ensures Divide(Vec3(-100.0, 0.0, 0.0), 100.0) == Vec3(-1.0, 0.0, 0.0)
  {
  }

  /** Two objects on the x-axis at distances 100 and 200 give the single vector (-1, 0, 0). */
  lemma SeparationOnAxis(norm: Vec3 -> real)
    requires Euclidean(norm)
    ensures GetSeparationVectors([Vec3(100.0, 0.0, 0.0), Vec3(200.0, 0.0, 0.0)], norm)
         == Separations([Vec3(-1.0, 0.0, 0.0)])
  {
    var coords := [Vec3(100.0, 0.0, 0.0), Vec3(200.0, 0.0, 0.0)];
    var d := Vec3(-100.0, 0.0, 0.0);
    assert PairDifferences(coords) == [d] by {
      assert Pairs(2) == [(0, 1)] by {
        assert Row(0, 2) == [(0, 1)];
        assert Row(1, 2) == [];
      }
    }
    EuclideanOnAxis(norm);
    assert Kept([d], norm) == [d];
    DivideOnAxis();
    NormaliseSingle(d, norm);
  }

  // ---------------------------------------------------------------------------
  // Alignment score
  // ---------------------------------------------------------------------------

  /** sum_k |vs[k] . axis|. */
  function AbsDotSum(vs: seq<Vec3>, axis: Vec3): (s: real)
    ensures s >= 0.0
  {
    if vs == [] then 0.0 else AbsDotSum(vs[..|vs| - 1], axis) + AbsDot(vs[|vs| - 1], axis)
  }

  /** The mean |v . axis|; None for an empty set, where numpy's mean is NaN. */
  function CorrelateWithAxis(vs: seq<Vec3>, axis: Vec3): (r: Option<real>)
    ensures r.None? <==> |vs| == 0
    ensures r.Some? ==> r.value >= 0.0
  {
    if |vs| == 0 then None else Some(AbsDotSum(vs, axis) / |vs| as real)
  }

  /** Flipping any of the vectors leaves the sum unchanged. */
  lemma {:induction false} AbsDotSumFlip(vs: seq<Vec3>, ws: seq<Vec3>, axis: Vec3)
    requires |vs| == |ws|
    requires forall k :: 0 <= k < |vs| ==> ws[k] == vs[k] || ws[k] == Neg(vs[k])
    ensures AbsDotSum(ws, axis) == AbsDotSum(vs, axis)
  {
    if vs != [] {
      var n := |vs| - 1;
      AbsDotSumFlip(vs[..n], ws[..n], axis);
      AbsDotHeadless(vs[n], axis);
    }
  }

  /** The score is unchanged when any input vector is negated. */
  lemma CorrelateSignInvariant(vs: seq<Vec3>, ws: seq<Vec3>, axis: Vec3)
    requires |vs| == |ws|
    requires forall k :: 0 <= k < |vs| ==> ws[k] == vs[k] || ws[k] == Neg(vs[k])
    ensures CorrelateWithAxis(ws, axis) == CorrelateWithAxis(vs, axis)
  {
    AbsDotSumFlip(vs, ws, axis);
  }

  lemma {:induction false} AbsDotSumBound(vs: seq<Vec3>, axis: Vec3)
    requires IsUnit(axis)
    requires forall k :: 0 <= k < |vs| ==> IsUnit(vs[k])
    ensures AbsDotSum(vs, axis) <= |vs| as real
  {
    if vs != [] {
      var n := |vs| - 1;
      AbsDotSumBound(vs[..n], axis);
      assert AbsDot(vs[n], axis) <= 1.0 by {
        UnitDotBound(vs[n], axis);
      }
    }
  }

  /** With unit vectors and a unit axis the score lies in [0, 1]. */
  lemma CorrelateInRange(vs: seq<Vec3>, axis: Vec3)
    requires |vs| > 0 && IsUnit(axis)
    requires forall k :: 0 <= k < |vs| ==> IsUnit(vs[k])
    ensures 0.0 <= CorrelateWithAxis(vs, axis).value <= 1.0
  {
    AbsDotSumBound(vs, axis);
    Arith.FractionBounds(AbsDotSum(vs, axis), |vs| as real);
  }

  lemma {:induction false} AbsDotSumAligned(vs: seq<Vec3>, axis: Vec3)
    requires IsUnit(axis)
    requires forall k :: 0 <= k < |vs| ==> vs[k] == axis || vs[k] == Neg(axis)
    ensures AbsDotSum(vs, axis) == |vs| as real
  {
    if vs != [] {
      var n := |vs| - 1;
      AbsDotSumAligned(vs[..n], axis);
      AbsDotHeadless(axis, axis);
    }
  }

  /** Vectors all equal to +axis or -axis, with a unit axis, score exactly 1. */
  lemma CorrelatePerfect(vs: seq<Vec3>, axis: Vec3)
    requires |vs| > 0 && IsUnit(axis)
    requires forall k :: 0 <= k < |vs| ==> vs[k] == axis || vs[k] == Neg(axis)
    ensures CorrelateWithAxis(vs, axis) == Some(1.0)
  {
    AbsDotSumAligned(vs, axis);
    SelfQuotient(|vs| as real);
  }

  lemma SelfQuotient(n: real)
    requires n > 0.0
    ensures n / n == 1.0
  {
  }

  /** The z-axis example: [0, 0, 1] and [0, 0, -1] against [0, 0, 1] score 1. */
  lemma PerfectAlignmentExample()
    ensures CorrelateWithAxis([Vec3(0.0, 0.0, 1.0), Vec3(0.0, 0.0, -1.0)], Vec3(0.0, 0.0, 1.0)) == Some(1.0)
  {
    var axis := Vec3(0.0, 0.0, 1.0);
    assert IsUnit(axis);
    assert Vec3(0.0, 0.0, -1.0) == Neg(axis);
    CorrelatePerfect([axis, Neg(axis)], axis);
  }
}
