/**
 * The null generator: rotated copies of one map.
 *
 * Each draw takes the next orthogonal matrix from the seeded generator and,
 * when its determinant is negative (a reflection), negates its first column so
 * that the result is a proper rotation. The k-th matrix the seeded generator
 * produces is the parameter `sampler(seed, k)`; the pixel rotation is the
 * parameter `rotate`.
 */
module Nulling {
  import opened Vectors
  import Arith

  /** The matrix with its first column negated (R[:, 0] *= -1). */
  function NegateColumn0(m: Mat3): (r: Mat3)
    ensures r.c1 == m.c1 && r.c2 == m.c2
  {
    m.(c0 := Neg(m.c0))
  }

  /** Negating one column negates the determinant. */
  lemma DetNegateColumn0(m: Mat3)
    ensures Det(NegateColumn0(m)) == -Det(m)
  {
    DotNegLeft(m.c0, Cross(m.c1, m.c2));
  }

  /** Negating a column of an orthogonal matrix leaves it orthogonal. */
  lemma OrthogonalNegateColumn0(m: Mat3)
    requires Orthogonal(m)
    ensures Orthogonal(NegateColumn0(m))
  {
    DotNegLeft(m.c0, m.c0);
    DotSymmetric(Neg(m.c0), m.c0);
    DotNegLeft(m.c0, Neg(m.c0));
    DotNegLeft(m.c0, m.c1);
    DotNegLeft(m.c0, m.c2);
  }

  /** The reflection fix of _get_random_rotation, on one drawn matrix. */
  function FixReflection(m: Mat3): (r: Mat3)
    ensures Det(r) >= 0.0
    ensures Det(r) == Arith.Abs(Det(m))
    ensures Det(m) >= 0.0 ==> r == m
    ensures Det(m) < 0.0 ==> r.c0 == Neg(m.c0) && r.c1 == m.c1 && r.c2 == m.c2
    ensures Orthogonal(m) ==> Orthogonal(r)
  {
    if Det(m) < 0.0 then
      DetNegateColumn0(m);
      if Orthogonal(m) then OrthogonalNegateColumn0(m); NegateColumn0(m) else NegateColumn0(m)
    else m
  }

  /** Fixing twice is fixing once. */
  lemma FixReflectionIdempotent(m: Mat3)
    ensures FixReflection(FixReflection(m)) == FixReflection(m)
  {
  }

  /** The nulls a generator yields from its (drawsSoFar)-th draw on: (i, original rotated by draw i). */
  function Nulls(originalMap: seq<real>, seed: int, sampler: (int, nat) -> Mat3,
                 rotate: (Mat3, seq<real>) -> seq<real>, drawsSoFar: nat, nSims: nat): (r: seq<(nat, seq<real>)>)
    ensures |r| == nSims
    ensures forall i :: 0 <= i < nSims ==> r[i].0 == i
  {
    seq(nSims, i requires 0 <= i < nSims => (i as nat, rotate(FixReflection(sampler(seed, drawsSoFar + i)), originalMap)))
  }

  class NullGenerator {
    const originalMap: seq<real>
    const seed: int
    const sampler: (int, nat) -> Mat3
    /** How many matrices have been drawn from the seeded generator. */
    var draws: nat

    constructor(mapData: seq<real>, seed: int, sampler: (int, nat) -> Mat3)
      ensures originalMap == mapData && this.seed == seed && this.sampler == sampler
      ensures draws == 0
    {
      originalMap := mapData;
      this.seed := seed;
      this.sampler := sampler;
      draws := 0;
    }

    /** Takes the next draw and turns a reflection into a rotation. */
    method GetRandomRotation() returns (r: Mat3)
      modifies this
      ensures draws == old(draws) + 1
      ensures r == FixReflection(sampler(seed, old(draws)))
    {
      r := sampler(seed, draws);
      draws := draws + 1;
      if Det(r) < 0.0 {
        r := r.(c0 := Neg(r.c0));
      }
    }

    /** generate_nulls, with the yielded pairs collected in order. */
    method GenerateNulls(nSims: nat, rotate: (Mat3, seq<real>) -> seq<real>)
      returns (nulls: seq<(nat, seq<real>)>)
      modifies this
      ensures draws == old(draws) + nSims
      ensures nulls == Nulls(originalMap, seed, sampler, rotate, old(draws), nSims)
    {
      nulls := [];
      var i := 0;
      while i < nSims
        invariant 0 <= i <= nSims
        invariant draws == old(draws) + i
        invariant nulls == Nulls(originalMap, seed, sampler, rotate, old(draws), i)
      {
        var rotation := GetRandomRotation();
        var rotatedMap := rotate(rotation, originalMap);
        nulls := nulls + [(i, rotatedMap)];
        i := i + 1;
      }
    }
  }
}
