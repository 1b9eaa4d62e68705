/** The Fortran-order reshapes behind the boolean gathers of the pressure
    loops (tscale_cci.py:695-704 at the point scale, 773-779 at the grid
    scale). numpy's `reshape(..., order='F')` keeps the column-major flat
    order of the elements: element (a, b, c) of an (n0, n1, n2) array sits at
    flat position `a + n0 * (b + n1 * c)`, and an (m0, m1) array reads flat
    position `r + m0 * j` at [r, j]. Index triples are (first, second, third)
    axis of the array being reshaped. */
module Layout {

  /** Column-major position of (a, b, c) in an array whose first two
      extents are n0 and n1. */
  function Flat3(n0: nat, n1: nat, a: nat, b: nat, c: nat): nat
  {
    a + n0 * (b + n1 * c)
  }

  /** The element at column-major position k (numpy's `unravel_index` with
      order='F'), by successive division. */
  function Unflat3(n0: nat, n1: nat, k: nat): (nat, nat, nat)
    requires n0 > 0 && n1 > 0
  {
    (k % n0, (k / n0) % n1, (k / n0) / n1)
  }

  /** Euclidean division of `a + n * q` by n when a is a digit. */
  lemma DivModDigit(a: nat, n: nat, q: nat)
    requires a < n
    ensures (a + n * q) % n == a && (a + n * q) / n == q
  {
    var x := a + n * q;
    var d := x / n - q;
    assert x == n * (x / n) + x % n;
    assert n * d == a - x % n by {
      assert n * d == n * (x / n) - n * q;
    }
    if d >= 1 {
      MultipleAtLeast(n, d);
    } else if d <= -1 {
      MultipleAtLeast(n, -d);
    }
  }

  /** A positive multiple of n is at least n. */
  lemma {:induction false} MultipleAtLeast(n: nat, d: int)
    requires d >= 1
    ensures n * d >= n
  {
    if d > 1 {
      MultipleAtLeast(n, d - 1);
      assert n * d == n * (d - 1) + n;
    }
  }

  /** Unflattening a flattened position gives the element back. */
  lemma UnflatFlat(n0: nat, n1: nat, a: nat, b: nat, c: nat)
    requires a < n0 && b < n1
    ensures Unflat3(n0, n1, Flat3(n0, n1, a, b, c)) == (a, b, c)
  {
    DivModDigit(a, n0, b + n1 * c);
    DivModDigit(b, n1, c);
  }

  /** Position of (level l, station s) in `thisp.reshape(thisp.size, order='F')`
      for a (level, station) mask with nL levels, which is also the column of
      `TtempVec` and `ztempVec` the gather reads for that entry. */
  function MaskPosition(nL: nat, l: nat, s: nat): nat
  {
    l + nL * s
  }

  /** The boolean gather returns the selected entries in increasing mask
      position, and the positions of different stations do not interleave:
      with one selected level per station, the s-th gathered value belongs to
      station s. */
  lemma StationsInOrder(nL: nat, l: nat, l': nat, s: nat, s': nat)
    requires l < nL && l' < nL && s < s'
    ensures MaskPosition(nL, l, s) < MaskPosition(nL, l', s')
  {
    MultipleAtLeast(nL, s' - s);
    assert nL * s' == nL * s + nL * (s' - s);
  }

  /** `np.tile(levels[::-1], S)` read at a mask position. */
  function TiledLevel(levels: seq<real>, pos: nat): real
    requires |levels| > 0
  {
    levels[|levels| - 1 - pos % |levels|]
  }

  /** p1 of the entry (l, s) is the pressure of level l in the reversed list. */
  lemma TiledLevelOfEntry(levels: seq<real>, l: nat, s: nat)
    requires l < |levels|
    ensures TiledLevel(levels, MaskPosition(|levels|, l, s)) == levels[|levels| - 1 - l]
  {
    DivModDigit(l, |levels|, s);
  }

  /** Point scale: `Ttemp` is (time, level, station) with nT timesteps and
      nL levels; `Ttemp.reshape(nT, nL*S, order='F')[i, thispVec]` reads, for
      the entry (l, s), this element of Ttemp. */
  function FineGather(nT: nat, nL: nat, i: nat, l: nat, s: nat): (nat, nat, nat)
    requires nT > 0 && nL > 0
  {
    Unflat3(nT, nL, i + nT * MaskPosition(nL, l, s))
  }

  /** At the point scale the gather reads the selected level of timestep i
      and station s. */
  lemma FineGatherReadsSelected(nT: nat, nL: nat, i: nat, l: nat, s: nat)
    requires i < nT && l < nL
    ensures FineGather(nT, nL, i, l, s) == (i, l, s)
  {
    UnflatFlat(nT, nL, i, l, s);
  }

  /** Grid scale, as written: `Ttemp` is (level, time, station) but is
      reshaped to (nT, nL*S) in Fortran order all the same, so for the entry
      (l, s) at timestep i it reads this element. */
  function CoarseGatherAsWritten(nL: nat, nT: nat, i: nat, l: nat, s: nat): (nat, nat, nat)
    requires nL > 0 && nT > 0
  {
    Unflat3(nL, nT, i + nT * MaskPosition(nL, l, s))
  }

  /** Two levels, two timesteps, one station: at timestep 0 with level 1
      selected, the gather reads level 0 of timestep 1. */
  lemma CoarseGatherMisreads()
    ensures CoarseGatherAsWritten(2, 2, 0, 1, 0) == (0, 1, 0)
  {
    DivModDigit(0, 2, 1);
    DivModDigit(1, 2, 0);
  }

  /** As soon as there are two levels and two timesteps the as-written
      gather misses the selected level of the first station at timestep 0. */
  lemma CoarseGatherWrongWhenLayered(nL: nat, nT: nat)
    requires nL >= 2 && nT >= 2
    ensures CoarseGatherAsWritten(nL, nT, 0, 1, 0) != (1, 0, 0)
  {
    CoarseGatherCorrectIff(nL, nT, 0, 1, 0);
    assert 0 * (nL - 1) != 1 * (nT - 1);
  }

  /** With a single timestep or a single level the as-written gather does
      read the selected element. */
  lemma CoarseGatherAgreesWhenFlat(nL: nat, nT: nat, i: nat, l: nat, s: nat)
    requires i < nT && l < nL && (nT == 1 || nL == 1)
    ensures CoarseGatherAsWritten(nL, nT, i, l, s) == (l, i, s)
  {
    assert i + nT * MaskPosition(nL, l, s) == Flat3(nL, nT, l, i, s);
    UnflatFlat(nL, nT, l, i, s);
  }

  /** The as-written grid-scale gather reads the selected element exactly
      when i (nL - 1) == l (nT - 1): at level 0 of timestep 0, on the
      diagonal when there are as many levels as timesteps, and everywhere
      when there is one level and one timestep, but not in general. */
  lemma CoarseGatherCorrectIff(nL: nat, nT: nat, i: nat, l: nat, s: nat)
    requires i < nT && l < nL
    ensures CoarseGatherAsWritten(nL, nT, i, l, s) == (l, i, s) <==> i * (nL - 1) == l * (nT - 1)
  {
    var k := i + nT * MaskPosition(nL, l, s);
    var target := Flat3(nL, nT, l, i, s);
    if CoarseGatherAsWritten(nL, nT, i, l, s) == (l, i, s) {
      FlatUnflat(nL, nT, k);
      assert k == target;
    }
    if k == target {
      UnflatFlat(nL, nT, l, i, s);
    }
    SamePositionIff(nL, nT, i, l, s);
  }

  /** Re-flattening an unflattened position gives it back, with each index
      within its extent. */
  lemma FlatUnflat(n0: nat, n1: nat, k: nat)
    requires n0 > 0 && n1 > 0
    ensures Unflat3(n0, n1, k).0 < n0 && Unflat3(n0, n1, k).1 < n1
    ensures Flat3(n0, n1, Unflat3(n0, n1, k).0, Unflat3(n0, n1, k).1, Unflat3(n0, n1, k).2) == k
  {
    var q := k / n0;
    assert k == k % n0 + n0 * q;
    assert q == q % n1 + n1 * (q / n1);
  }

  /** The flat position the as-written gather reads is the position of the
      selected element exactly when i (nL - 1) == l (nT - 1). */
  lemma SamePositionIff(nL: nat, nT: nat, i: nat, l: nat, s: nat)
    ensures i + nT * MaskPosition(nL, l, s) == Flat3(nL, nT, l, i, s) <==> i * (nL - 1) == l * (nT - 1)
  {
    var c := nL * nT * s;
    assert nT * (l + nL * s) == nT * l + c;
    assert nL * (i + nT * s) == nL * i + c;
    assert i * (nL - 1) == i * nL - i;
    assert l * (nT - 1) == l * nT - l;
  }

  /** Grid scale, corrected: the (level, time, station) arrays are first
      transposed to (time, level, station), as at the point scale, and the
      gather then reads the transposed element (a, b, c), which is the
      original element (b, a, c). */
  function CoarseGather(nL: nat, nT: nat, i: nat, l: nat, s: nat): (nat, nat, nat)
    requires nL > 0 && nT > 0
  {
    var (a, b, c) := FineGather(nT, nL, i, l, s);
    (b, a, c)
  }

  /** The corrected gather reads the selected level of timestep i and
      station s. */
  lemma CoarseGatherReadsSelected(nL: nat, nT: nat, i: nat, l: nat, s: nat)
    requires i < nT && l < nL
    ensures CoarseGather(nL, nT, i, l, s) == (l, i, s)
  {
    FineGatherReadsSelected(nT, nL, i, l, s);
  }
}
