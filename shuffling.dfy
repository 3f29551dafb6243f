/**
 * Null catalogs made by shuffling right ascensions and declinations.
 *
 * 'spin' adds one random offset to every right ascension and wraps the result
 * into [0, 360) with Python's floor-based float remainder; 'scramble' draws a
 * random permutation of the object indices (numpy's in-place Fisher-Yates
 * shuffle of 0..n-1) and reorders both coordinate arrays by it; any other
 * method returns the inputs. The random offset and the shuffle's swap partners
 * are parameters.
 */
module Shuffling {

  // ---------------------------------------------------------------------------
  // Spin
  // ---------------------------------------------------------------------------

  /** Python's x % 360.0: the remainder after flooring division, always in [0, 360). */
  function PyMod360(x: real): (r: real)
    ensures 0.0 <= r < 360.0
    ensures x - r == 360.0 * ((x - r) / 360.0).Floor as real
  {
    x - 360.0 * (x / 360.0).Floor as real
  }

  lemma FloorUnique(y: real, f: int)
    requires f as real <= y < f as real + 1.0
    ensures y.Floor == f
  {
  }

  /** Adding whole turns does not change the remainder. */
  lemma PyMod360Periodic(x: real, k: int)
    ensures PyMod360(x + 360.0 * k as real) == PyMod360(x)
  {
    var f := (x / 360.0).Floor;
    FloorUnique((x + 360.0 * k as real) / 360.0, f + k);
  }

  /** On [0, 360) the remainder is the identity. */
  lemma PyMod360Identity(x: real)
    requires 0.0 <= x < 360.0
    ensures PyMod360(x) == x
  {
    FloorUnique(x / 360.0, 0);
  }

  /** (ra_i + offset) % 360 for every object, with one shared offset. */
  function Spun(ra: seq<real>, offset: real): (r: seq<real>)
    ensures |r| == |ra|
    ensures forall i :: 0 <= i < |r| ==> 0.0 <= r[i] < 360.0
  {
    seq(|ra|, i requires 0 <= i < |ra| => PyMod360(ra[i] + offset))
  }

  /** Spinning keeps every pairwise right-ascension difference modulo 360. */
  lemma SpinPreservesDifferences(ra: seq<real>, offset: real, i: nat, j: nat)
    requires i < |ra| && j < |ra|
    ensures PyMod360(Spun(ra, offset)[i] - Spun(ra, offset)[j]) == PyMod360(ra[i] - ra[j])
  {
    var x, y := ra[i] + offset, ra[j] + offset;
    var kx, ky := (x / 360.0).Floor, (y / 360.0).Floor;
    assert Spun(ra, offset)[i] - Spun(ra, offset)[j] == (ra[i] - ra[j]) + 360.0 * (ky - kx) as real;
    PyMod360Periodic(ra[i] - ra[j], ky - kx);
  }

  /** A zero offset leaves right ascensions already in [0, 360) as they are. */
  lemma SpinZeroOffset(ra: seq<real>)
    requires forall i :: 0 <= i < |ra| ==> 0.0 <= ra[i] < 360.0
    ensures Spun(ra, 0.0) == ra
  {
    forall i | 0 <= i < |ra|
      ensures Spun(ra, 0.0)[i] == ra[i]
    {
      PyMod360Identity(ra[i]);
    }
  }

  // ---------------------------------------------------------------------------
  // Scramble
  // ---------------------------------------------------------------------------

  /** The exchange of positions i and j. */
  function Swap<T>(s: seq<T>, i: nat, j: nat): (r: seq<T>)
    requires i < |s| && j < |s|
    ensures |r| == |s|
    ensures r[i] == s[j] && r[j] == s[i]
    ensures forall k :: 0 <= k < |s| && k != i && k != j ==> r[k] == s[k]
  {
    s[i := s[j]][j := s[i]]
  }

  /** Swap partners a Fisher-Yates shuffle can draw: partner[i] in 0..i. */
  predicate ValidPartners(partner: seq<nat>, n: nat)
  {
    |partner| == n && forall i :: 0 <= i < n ==> partner[i] <= i
  }

  /** The shuffle's remaining steps: swap i with partner[i], for i down to 1. */
  function ShuffleDown<T>(s: seq<T>, partner: seq<nat>, i: nat): (r: seq<T>)
    requires ValidPartners(partner, |s|) && i < |s|
    ensures |r| == |s|
    ensures forall x :: x in r ==> x in s
    decreases i
  {
    if i == 0 then s
    else
      var t := Swap(s, i, partner[i]);
      assert forall x :: x in t ==> x in s;
      ShuffleDown(t, partner, i - 1)
  }

  /** The whole shuffle of s with the given swap partners: a permutation of s. */
  function Shuffled<T>(s: seq<T>, partner: seq<nat>): (r: seq<T>)
    requires ValidPartners(partner, |s|)
    ensures |r| == |s|
    ensures forall x :: x in r ==> x in s
  {
    if |s| == 0 then s else ShuffleDown(s, partner, |s| - 1)
  }

  /** rng.shuffle: Fisher-Yates in place, last position first. */
  method ShuffleInPlace(a: array<nat>, partner: seq<nat>)
    requires ValidPartners(partner, a.Length)
    modifies a
    ensures a[..] == Shuffled(old(a[..]), partner)
  {
    if a.Length == 0 {
      return;
    }
    var i := a.Length - 1;
    while i > 0
      invariant 0 <= i < a.Length
      invariant ShuffleDown(a[..], partner, i) == Shuffled(old(a[..]), partner)
      decreases i
    {
      var j := partner[i];
      assert Swap(a[..], i, j) == a[..][i := a[j]][j := a[i]];
      a[i], a[j] := a[j], a[i];
      i := i - 1;
    }
  }
  lemma {:induction false} ShuffleDownMultiset<T>(s: seq<T>, partner: seq<nat>, i: nat)
    requires ValidPartners(partner, |s|) && i < |s|
    ensures multiset(ShuffleDown(s, partner, i)) == multiset(s)
    decreases i
  {
    if i > 0 {
      var t := Swap(s, i, partner[i]);
      ShuffleDownMultiset(t, partner, i - 1);
      SwapMultiset(s, i, partner[i]);
    }
  }

  /** An exchange of two positions keeps the multiset of values. */
  lemma SwapMultiset<T>(s: seq<T>, i: nat, j: nat)
    requires i < |s| && j < |s|
    ensures multiset(Swap(s, i, j)) == multiset(s)
  {
    assert Swap(s, i, j) == s[i := s[j]][j := s[i]];
  }

  /** The shuffle is a permutation. */
  lemma ShuffledMultiset<T>(s: seq<T>, partner: seq<nat>)
    requires ValidPartners(partner, |s|)
    ensures multiset(Shuffled(s, partner)) == multiset(s)
  {
    if |s| > 0 {
      ShuffleDownMultiset(s, partner, |s| - 1);
    }
  }

  /** np.arange(n). */
  function Range(n: nat): (r: seq<nat>)
    ensures |r| == n && forall k :: 0 <= k < n ==> r[k] == k
  {
    seq(n, k requires 0 <= k < n => k)
  }

  /** Fancy indexing s[idx]. */
  function Gather<T>(s: seq<T>, idx: seq<nat>): (r: seq<T>)
    requires forall x :: x in idx ==> x < |s|
    ensures |r| == |idx|
  {
    seq(|idx|, k requires 0 <= k < |idx| => assert idx[k] in idx; s[idx[k]])
  }

  lemma {:induction false} ShuffleDownGather<T>(s: seq<T>, idx: seq<nat>, partner: seq<nat>, i: nat)
    requires forall x :: x in idx ==> x < |s|
    requires ValidPartners(partner, |idx|) && i < |idx|
    ensures Gather(s, ShuffleDown(idx, partner, i)) == ShuffleDown(Gather(s, idx), partner, i)
    decreases i
  {
    if i > 0 {
      var swapped := Swap(idx, i, partner[i]);
      assert forall x :: x in swapped ==> x in idx;
      assert Gather(s, swapped) == Swap(Gather(s, idx), i, partner[i]);
      ShuffleDownGather(s, swapped, partner, i - 1);
    }
  }

  /** Reordering by the shuffled index array is the same as shuffling the values. */
  lemma GatherShuffledRange<T>(s: seq<T>, partner: seq<nat>)
    requires ValidPartners(partner, |s|)
    ensures Gather(s, Shuffled(Range(|s|), partner)) == Shuffled(s, partner)
  {
    assert Gather(s, Range(|s|)) == s;
    if |s| > 0 {
      ShuffleDownGather(s, Range(|s|), partner, |s| - 1);
    }
  }

  /** Pairs (ra_k, dec_k). */
  function Zip(ra: seq<real>, dec: seq<real>): (r: seq<(real, real)>)
    requires |ra| == |dec|
    ensures |r| == |ra|
  {
    seq(|ra|, k requires 0 <= k < |ra| => (ra[k], dec[k]))
  }

  lemma {:induction false} ShuffleDownZip(ra: seq<real>, dec: seq<real>, partner: seq<nat>, i: nat)
    requires |ra| == |dec| && ValidPartners(partner, |ra|) && i < |ra|
    ensures Zip(ShuffleDown(ra, partner, i), ShuffleDown(dec, partner, i)) == ShuffleDown(Zip(ra, dec), partner, i)
    decreases i
  {
    if i > 0 {
      var j := partner[i];
      assert Zip(Swap(ra, i, j), Swap(dec, i, j)) == Swap(Zip(ra, dec), i, j);
      ShuffleDownZip(Swap(ra, i, j), Swap(dec, i, j), partner, i - 1);
    }
  }

  /** One permutation for both arrays: the (ra, dec) pairs survive as a multiset. */
  lemma ScramblePreservesPairs(ra: seq<real>, dec: seq<real>, partner: seq<nat>)
    requires |ra| == |dec| && ValidPartners(partner, |ra|)
    ensures multiset(Zip(Shuffled(ra, partner), Shuffled(dec, partner))) == multiset(Zip(ra, dec))
  {
    if |ra| > 0 {
      ShuffleDownZip(ra, dec, partner, |ra| - 1);
    }
    ShuffledMultiset(Zip(ra, dec), partner);
  }

  // ---------------------------------------------------------------------------
  // shuffle_catalog_vectors
  // ---------------------------------------------------------------------------

  method ShuffleCatalogVectors(ra: seq<real>, dec: seq<real>, mode: string, offset: real, partner: seq<nat>)
    returns (raNull: seq<real>, decNull: seq<real>)
    requires |ra| == |dec| && ValidPartners(partner, |ra|)
    ensures |raNull| == |ra| && |decNull| == |dec|
    ensures mode == "spin" ==> raNull == Spun(ra, offset) && decNull == dec
    ensures mode == "scramble" ==> raNull == Shuffled(ra, partner) && decNull == Shuffled(dec, partner)
    ensures mode != "spin" && mode != "scramble" ==> raNull == ra && decNull == dec
  {
    if mode == "spin" {
      return Spun(ra, offset), dec;
    } else if mode == "scramble" {
      var indices := new nat[|ra|](k => k);
      assert indices[..] == Range(|ra|);
      ShuffleInPlace(indices, partner);
      GatherShuffledRange(ra, partner);
      GatherShuffledRange(dec, partner);
      return Gather(ra, indices[..]), Gather(dec, indices[..]);
    }
    return ra, dec;
  }
}
