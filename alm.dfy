/**
 * Harmonic coefficient sets.
 *
 * A real field's spherical-harmonic expansion up to degree lmax is stored as a
 * flat sequence of complex coefficients a_lm, 0 <= m <= l <= lmax, in the
 * HEALPix "m-major" order: all degrees of order 0 first, then all degrees of
 * order 1, and so on. The index of (l, m) is m*(2*lmax+1-m)/2 + l.
 */
module Alm {
  import Arith

  datatype Complex = Complex(re: real, im: real)

  const Zero: Complex := Complex(0.0, 0.0)

  const One: Complex := Complex(1.0, 0.0)

  /** Coefficient-wise sum: the coefficients of the sum of two maps. */
  function Add(a: seq<Complex>, b: seq<Complex>): (s: seq<Complex>)
    requires |a| == |b|
    ensures |s| == |a|
  {
    seq(|a|, k requires 0 <= k < |a| => Complex(a[k].re + b[k].re, a[k].im + b[k].im))
  }

  /** Coefficient-wise scaling: the coefficients of a map multiplied by x. */
  function Scale(x: real, a: seq<Complex>): (s: seq<Complex>)
    ensures |s| == |a|
  {
    seq(|a|, k requires 0 <= k < |a| => Complex(x * a[k].re, x * a[k].im))
  }

  function Sq(x: real): (r: real)
    ensures r >= 0.0
    ensures x == 0.0 ==> r == 0.0
    ensures x == 1.0 ==> r == 1.0
  {
    Arith.Square(x);
    x * x
  }

  /** |c|^2, the power of one coefficient. */
  function AbsSq(c: Complex): (r: real)
    ensures r >= 0.0
    ensures c == Zero ==> r == 0.0
  {
    Arith.Square(c.re);
    Arith.Square(c.im);
    Sq(c.re) + Sq(c.im)
  }

  /** Flat index of (l = m, m): the first slot of the block holding order m. */
  function BlockStart(lmax: nat, m: nat): nat
    requires m <= lmax + 1
  {
    if m == 0 then 0 else BlockStart(lmax, m - 1) + (lmax - (m - 1) + 1)
  }

  /** Number of coefficients of a set truncated at lmax. */
  function Size(lmax: nat): nat
  {
    BlockStart(lmax, lmax + 1)
  }

  lemma {:induction false} BlockStartMonotone(lmax: nat, m: nat, m': nat)
    requires m <= m' <= lmax + 1
    ensures BlockStart(lmax, m) + (m' - m) <= BlockStart(lmax, m')
    decreases m' - m
  {
    if m < m' {
      BlockStartMonotone(lmax, m, m' - 1);
    }
  }

  /** Flat index of coefficient (l, m). */
  function Index(lmax: nat, l: nat, m: nat): (k: nat)
    requires m <= l <= lmax
    ensures BlockStart(lmax, m) <= k < BlockStart(lmax, m + 1)
    ensures k < Size(lmax)
  {
    BlockStartMonotone(lmax, m + 1, lmax + 1);
    BlockStart(lmax, m) + (l - m)
  }

  /** The closed form healpy uses: twice BlockStart is m*(2*lmax+3-m). */
  lemma {:induction false} BlockStartClosedForm(lmax: nat, m: nat)
    requires m <= lmax + 1
    ensures 2 * BlockStart(lmax, m) == m * (2 * lmax + 3 - m)
  {
    if m > 0 {
      BlockStartClosedForm(lmax, m - 1);
      assert (m - 1) * (2 * lmax + 3 - (m - 1)) + 2 * (lmax - (m - 1) + 1)
          == m * (2 * lmax + 3 - m);
    }
  }

  /** The index agrees with healpy's getidx formula m*(2*lmax+1-m)/2 + l,
      and the set has (lmax+1)(lmax+2)/2 entries. */
  lemma IndexClosedForm(lmax: nat, l: nat, m: nat)
    requires m <= l <= lmax
    ensures 2 * Index(lmax, l, m) == m * (2 * lmax + 1 - m) + 2 * l
    ensures 2 * Size(lmax) == (lmax + 1) * (lmax + 2)
  {
    BlockStartClosedForm(lmax, m);
    BlockStartClosedForm(lmax, lmax + 1);
  }

  /** Inverse of Index, searching the order blocks from m upwards. */
  function LocateFrom(lmax: nat, m: nat, k: nat): (lm: (nat, nat))
    requires m <= lmax
    requires BlockStart(lmax, m) <= k < Size(lmax)
    ensures lm.1 <= lm.0 <= lmax
    decreases lmax - m
  {
    if k < BlockStart(lmax, m + 1) then
      (m + (k - BlockStart(lmax, m)), m)
    else
      LocateFrom(lmax, m + 1, k)
  }

  /** Degree l of the coefficient stored at flat index k. */
  function Degree(lmax: nat, k: nat): (l: nat)
    requires k < Size(lmax)
    ensures l <= lmax
  {
    LocateFrom(lmax, 0, k).0
  }

  /** Order m of the coefficient stored at flat index k. */
  function Order(lmax: nat, k: nat): (m: nat)
    requires k < Size(lmax)
    ensures m <= Degree(lmax, k)
  {
    LocateFrom(lmax, 0, k).1
  }

  lemma {:induction false} LocateFromIndex(lmax: nat, m0: nat, l: nat, m: nat)
    requires m0 <= m <= l <= lmax
    ensures BlockStart(lmax, m0) <= Index(lmax, l, m)
    ensures LocateFrom(lmax, m0, Index(lmax, l, m)) == (l, m)
    decreases m - m0
  {
    BlockStartMonotone(lmax, m0, m);
    if m0 < m {
      BlockStartMonotone(lmax, m0 + 1, m);
      LocateFromIndex(lmax, m0 + 1, l, m);
    }
  }

  lemma {:induction false} IndexLocateFrom(lmax: nat, m0: nat, k: nat)
    requires m0 <= lmax
    requires BlockStart(lmax, m0) <= k < Size(lmax)
    ensures Index(lmax, LocateFrom(lmax, m0, k).0, LocateFrom(lmax, m0, k).1) == k
    decreases lmax - m0
  {
    if k >= BlockStart(lmax, m0 + 1) {
      IndexLocateFrom(lmax, m0 + 1, k);
    }
  }

  /** Reading back the position of (l, m) gives (l, m). */
  lemma LocateIndex(lmax: nat, l: nat, m: nat)
    requires m <= l <= lmax
    ensures Degree(lmax, Index(lmax, l, m)) == l
    ensures Order(lmax, Index(lmax, l, m)) == m
  {
    LocateFromIndex(lmax, 0, l, m);
  }

  /** Every slot is the index of its own (degree, order): the layout is a bijection. */
  lemma IndexLocate(lmax: nat, k: nat)
    requires k < Size(lmax)
    ensures Index(lmax, Degree(lmax, k), Order(lmax, k)) == k
  {
    IndexLocateFrom(lmax, 0, k);
  }

  /** Distinct (l, m) pairs occupy distinct slots. */
  lemma IndexInjective(lmax: nat, l: nat, m: nat, l': nat, m': nat)
    requires m <= l <= lmax && m' <= l' <= lmax
    requires Index(lmax, l, m) == Index(lmax, l', m')
    ensures l == l' && m == m'
  {
    LocateIndex(lmax, l, m);
    LocateIndex(lmax, l', m');
  }
}
