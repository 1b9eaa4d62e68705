/** Vertical interpolation of a pressure-level variable to each point's
    elevation (tscale_cci.py:239-370). For every timestep and every point the
    horizontally interpolated column of level geopotentials is searched with
    bisect_left for the point's geopotential (elevation * g); a result of 0 is
    advanced to 1, and the variable is interpolated linearly between that
    level and the one below it. */
module Vertical {
  import opened Floats
  import opened Outcomes

  /** Why the vertical interpolation raises an IndexError: the level index
      ran past the top of the column (`t_interp[n, size]`,
      tscale_cci.py:355-356), or the window has no timestep, so `sa_vec`
      is still the one-dimensional `np.zeros(xdim)` when `sa_vec[:,1:]`
      drops its first column (tscale_cci.py:247, 368). */
  datatype LevelError = AboveTopLevel | EmptyWindow

  predicate Ascending(a: seq<real>)
  {
    forall i, j :: 0 <= i <= j < |a| ==> a[i] <= a[j]
  }

  /** The first index whose value is at or above x, or |a| when there is none. */
  function FirstAtOrAbove(a: seq<real>, x: real): (n: nat)
    ensures n <= |a|
    ensures forall i :: 0 <= i < n ==> a[i] < x
    ensures n < |a| ==> a[n] >= x
  {
    if |a| == 0 then 0
    else if a[0] >= x then 0
    else 1 + FirstAtOrAbove(a[1..], x)
  }

  /** Python's bisect.bisect_left(a, x, lo, hi), step by step, on any input. */
  function BisectFrom(a: seq<real>, x: real, lo: nat, hi: nat): (n: nat)
    requires lo <= hi <= |a|
    ensures lo <= n <= hi
    decreases hi - lo
  {
    if lo < hi then
      var mid := (lo + hi) / 2;
      if a[mid] < x then BisectFrom(a, x, mid + 1, hi) else BisectFrom(a, x, lo, mid)
    else lo
  }

  /** On an ascending column the binary search finds the first index at or
      above x. */
  lemma {:induction false} BisectSorted(a: seq<real>, x: real, lo: nat, hi: nat)
    requires Ascending(a)
    requires lo <= hi <= |a|
    requires forall i :: 0 <= i < lo ==> a[i] < x
    requires forall i :: hi <= i < |a| ==> a[i] >= x
    ensures BisectFrom(a, x, lo, hi) == FirstAtOrAbove(a, x)
    decreases hi - lo
  {
    if lo < hi {
      var mid := (lo + hi) / 2;
      if a[mid] < x {
        BisectSorted(a, x, mid + 1, hi);
      } else {
        BisectSorted(a, x, lo, mid);
      }
    }
  }

  /** bisect_left as the library runs it: a halving loop over [lo, hi). */
  method BisectLeft(a: seq<real>, x: real) returns (n: nat)
    ensures n == BisectFrom(a, x, 0, |a|)
    ensures n <= |a|
    ensures Ascending(a) ==> n == FirstAtOrAbove(a, x)
  {
    var lo, hi := 0, |a|;
    while lo < hi
      invariant 0 <= lo <= hi <= |a|
      invariant BisectFrom(a, x, lo, hi) == BisectFrom(a, x, 0, |a|)
      decreases hi - lo
    {
      var mid := (lo + hi) / 2;
      if a[mid] < x {
        lo := mid + 1;
      } else {
        hi := mid;
      }
    }
    n := lo;
    if Ascending(a) {
      BisectSorted(a, x, 0, |a|);
    }
  }

  /** The upper bracketing level `n` of tscale_cci.py:350-351: bisect_left's
      result, with 0 advanced to 1. The lower level is always n - 1. */
  function UpperLevel(zcol: seq<real>, e: real): nat
  {
    var n := BisectFrom(zcol, e, 0, |zcol|);
    if n == 0 then 1 else n
  }

  /** `dG = upperT - lowT; dG /= upperZ - lowZ; dG *= e - upperZ; dG += upperT`
      (tscale_cci.py:357-360), in IEEE arithmetic so that a zero layer
      thickness gives the non-finite value numpy gives. */
  function Interpolate(lowT: real, upperT: real, lowZ: real, upperZ: real, e: real): Float
  {
    Add(Mul(Div(Fin(upperT - lowT), Fin(upperZ - lowZ)), Fin(e - upperZ)), Fin(upperT))
  }

  /** The interpolated value at one point, from its temperature and
      geopotential columns (one entry per level) and its geopotential e. */
  function ResolvePoint(tcol: seq<real>, zcol: seq<real>, e: real): Result<Float, LevelError>
    requires |tcol| == |zcol|
  {
    var n := UpperLevel(zcol, e);
    if n >= |zcol| then Err(AboveTopLevel)
    else Ok(Interpolate(tcol[n - 1], tcol[n], zcol[n - 1], zcol[n], e))
  }

  /** Column p of a level-by-point array. */
  function Column(m: seq<seq<real>>, p: nat): (c: seq<real>)
    requires forall l :: 0 <= l < |m| ==> p < |m[l]|
    ensures |c| == |m| && forall l :: 0 <= l < |m| ==> c[l] == m[l][p]
  {
    seq(|m|, l requires 0 <= l < |m| => m[l][p])
  }

  /** `t_interp`/`z_interp` of one timestep: levels by points, same shape. */
  predicate WellShaped(tInterp: seq<seq<real>>, zInterp: seq<seq<real>>, points: nat)
  {
    |tInterp| == |zInterp| &&
    forall l :: 0 <= l < |tInterp| ==> |tInterp[l]| == points && |zInterp[l]| == points
  }

  /** The vector `pl_obs` of one timestep: every point's value, or the
      IndexError of the fancy indexing as soon as one point is above the top. */
  function InterpolateStep(tInterp: seq<seq<real>>, zInterp: seq<seq<real>>, ele: seq<real>): Result<seq<Float>, LevelError>
    requires WellShaped(tInterp, zInterp, |ele|)
  {
    if forall p :: 0 <= p < |ele| ==> ResolvePoint(Column(tInterp, p), Column(zInterp, p), ele[p]).Ok?
    then Ok(seq(|ele|, p requires 0 <= p < |ele| => ResolvePoint(Column(tInterp, p), Column(zInterp, p), ele[p]).value))
    else Err(AboveTopLevel)
  }

  /** The per-point bracketing and interpolation of one timestep
      (tscale_cci.py:348-362), point by point. */
  method InterpolateLevels(tInterp: seq<seq<real>>, zInterp: seq<seq<real>>, ele: seq<real>)
    returns (r: Result<seq<Float>, LevelError>)
    requires WellShaped(tInterp, zInterp, |ele|)
    ensures r == InterpolateStep(tInterp, zInterp, ele)
  {
    var out: seq<Float> := [];
    var p := 0;
    while p < |ele|
      invariant 0 <= p <= |ele|
      invariant |out| == p
      invariant forall q :: 0 <= q < p ==>
        ResolvePoint(Column(tInterp, q), Column(zInterp, q), ele[q]) == Ok(out[q])
    {
      var zcol := Column(zInterp, p);
      var tcol := Column(tInterp, p);
      var n := BisectLeft(zcol, ele[p]);
      if n == 0 {
        n := 1;
      }
      assert n == UpperLevel(zcol, ele[p]);
      if n >= |zcol| {
        assert ResolvePoint(tcol, zcol, ele[p]).Err?;
        return Err(AboveTopLevel);
      }
      out := out + [Interpolate(tcol[n - 1], tcol[n], zcol[n - 1], zcol[n], ele[p])];
      p := p + 1;
    }
    assert out == seq(|ele|, p requires 0 <= p < |ele| =>
      ResolvePoint(Column(tInterp, p), Column(zInterp, p), ele[p]).value);
    r := Ok(out);
  }

  /** The timestep loop of tscale_cci.py:250-365: one `pl_obs` per timestep of
      the window, stacked in time order (the `column_stack` of `sa_vec`). A
      timestep whose indexing fails aborts the whole run, and so does an
      empty window, on which the initial zero column cannot be dropped. */
  method LevelSeries(tSteps: seq<seq<seq<real>>>, zSteps: seq<seq<seq<real>>>, ele: seq<real>)
    returns (r: Result<seq<seq<Float>>, LevelError>)
    requires |tSteps| == |zSteps|
    requires forall k :: 0 <= k < |tSteps| ==> WellShaped(tSteps[k], zSteps[k], |ele|)
    ensures r.Ok? <==> |tSteps| > 0 && forall k :: 0 <= k < |tSteps| ==> InterpolateStep(tSteps[k], zSteps[k], ele).Ok?
    ensures |tSteps| == 0 ==> r == Err(EmptyWindow)
    ensures r.Ok? ==> |r.value| == |tSteps|
    ensures r.Ok? ==> forall k :: 0 <= k < |tSteps| ==> InterpolateStep(tSteps[k], zSteps[k], ele) == Ok(r.value[k])
  {
    if |tSteps| == 0 {
      return Err(EmptyWindow);
    }
    var saVec: seq<seq<Float>> := [];
    var k := 0;
    while k < |tSteps|
      invariant 0 <= k <= |tSteps|
      invariant |saVec| == k
      invariant forall j :: 0 <= j < k ==> InterpolateStep(tSteps[j], zSteps[j], ele) == Ok(saVec[j])
    {
      var plObs := InterpolateLevels(tSteps[k], zSteps[k], ele);
      if plObs.Err? {
        return Err(plObs.error);
      }
      saVec := saVec + [plObs.value];
      k := k + 1;
    }
    r := Ok(saVec);
  }

  // ---------------------------------------------------------------------
  // Properties of the bracketing

  /** The interpolation is defined (no IndexError) exactly when the column has
      at least two levels and the point is not above the top level. */
  lemma ResolveDefinedIff(tcol: seq<real>, zcol: seq<real>, e: real)
    requires |tcol| == |zcol|
    requires Ascending(zcol)
    ensures ResolvePoint(tcol, zcol, e).Ok? <==> |zcol| >= 2 && e <= zcol[|zcol| - 1]
  {
    BisectSorted(zcol, e, 0, |zcol|);
  }

  /** On an ascending column, within its height range, the bracketing levels
      enclose the point: Z_lower <= e <= Z_upper with lower = upper - 1. */
  lemma BracketEncloses(zcol: seq<real>, e: real)
    requires Ascending(zcol) && |zcol| >= 2
    requires zcol[0] <= e <= zcol[|zcol| - 1]
    ensures 1 <= UpperLevel(zcol, e) < |zcol|
    ensures zcol[UpperLevel(zcol, e) - 1] <= e <= zcol[UpperLevel(zcol, e)]
  {
    BisectSorted(zcol, e, 0, |zcol|);
  }

  /** Below the lowest level the lower bracket is level 0 and the upper one
      level 1. */
  lemma BelowLowestUsesFirstPair(zcol: seq<real>, e: real)
    requires |zcol| >= 1
    requires Ascending(zcol) && e <= zcol[0]
    ensures UpperLevel(zcol, e) == 1
  {
    BisectSorted(zcol, e, 0, |zcol|);
  }

  // ---------------------------------------------------------------------
  // Properties of the interpolation formula

  /** With a non-degenerate layer the formula is the straight line through
      (lowZ, lowT) and (upperZ, upperT), written from the lower end. */
  lemma InterpolateIsLine(lowT: real, upperT: real, lowZ: real, upperZ: real, e: real)
    requires lowZ != upperZ
    ensures Interpolate(lowT, upperT, lowZ, upperZ, e)
      == Fin(lowT + (upperT - lowT) * (e - lowZ) / (upperZ - lowZ))
  {
    var d := upperZ - lowZ;
    var s := (upperT - lowT) / d;
    calc {
      upperT + s * (e - upperZ);
      == { assert upperT == lowT + s * d; }
      lowT + s * d + s * (e - upperZ);
      ==
      lowT + s * (e - lowZ);
      == { assert s * (e - lowZ) == (upperT - lowT) * (e - lowZ) / d; }
      lowT + (upperT - lowT) * (e - lowZ) / d;
    }
  }

  /** The formula reproduces the level values at both level heights. */
  lemma InterpolateAtLevels(lowT: real, upperT: real, lowZ: real, upperZ: real)
    requires lowZ != upperZ
    ensures Interpolate(lowT, upperT, lowZ, upperZ, lowZ) == Fin(lowT)
    ensures Interpolate(lowT, upperT, lowZ, upperZ, upperZ) == Fin(upperT)
  {
    InterpolateIsLine(lowT, upperT, lowZ, upperZ, lowZ);
  }

  /** Between the two level heights the value lies between the level values. */
  lemma InterpolateBetween(lowT: real, upperT: real, lowZ: real, upperZ: real, e: real)
    requires lowZ < upperZ && lowZ <= e <= upperZ
    ensures Interpolate(lowT, upperT, lowZ, upperZ, e).Fin?
    ensures var v := Interpolate(lowT, upperT, lowZ, upperZ, e).v;
      (lowT <= upperT ==> lowT <= v <= upperT) && (upperT <= lowT ==> upperT <= v <= lowT)
  {
    InterpolateIsLine(lowT, upperT, lowZ, upperZ, e);
    var w := (e - lowZ) / (upperZ - lowZ);
    FractionInUnit(e - lowZ, upperZ - lowZ);
    assert (upperT - lowT) * (e - lowZ) / (upperZ - lowZ) == (upperT - lowT) * w;
    ScaledWithin(upperT - lowT, w);
  }

  /** A part of a whole lies in [0, 1]. */
  lemma FractionInUnit(num: real, d: real)
    requires 0.0 <= num <= d && 0.0 < d
    ensures 0.0 <= num / d <= 1.0
  {
    var q := num / d;
    assert q * d == num;
  }

  /** Scaling by a fraction in [0, 1] keeps a value between 0 and itself. */
  lemma ScaledWithin(a: real, w: real)
    requires 0.0 <= w <= 1.0
    ensures a >= 0.0 ==> 0.0 <= a * w <= a
    ensures a <= 0.0 ==> a <= a * w <= 0.0
  {
    assert a - a * w == a * (1.0 - w);
    if a >= 0.0 {
      NonNegativeProduct(a, 1.0 - w);
      NonNegativeProduct(a, w);
    } else {
      NonNegativeProduct(-a, 1.0 - w);
      NonNegativeProduct(-a, w);
    }
  }

  /** The product of two non-negative numbers is non-negative. */
  lemma NonNegativeProduct(x: real, y: real)
    requires x >= 0.0 && y >= 0.0
    ensures x * y >= 0.0
  {
  }

  /** A zero layer thickness gives a non-finite value (inf or NaN), never a
      number. */
  lemma InterpolateDegenerate(lowT: real, upperT: real, z: real, e: real)
    ensures !Interpolate(lowT, upperT, z, z, e).Fin?
  {
  }

  /** Within the column's range, on an ascending column, the point's value
      lies between the temperatures of its bracketing levels. The two lowest
      levels may share a height unless the point sits exactly on them. */
  lemma ResolveWithinRange(tcol: seq<real>, zcol: seq<real>, e: real)
    requires |tcol| == |zcol| >= 2
    requires Ascending(zcol) && (zcol[0] < e || zcol[0] < zcol[1])
    requires zcol[0] <= e <= zcol[|zcol| - 1]
    ensures var n := UpperLevel(zcol, e);
      1 <= n < |zcol| && ResolvePoint(tcol, zcol, e).Ok? &&
      ResolvePoint(tcol, zcol, e).value.Fin? &&
      var v := ResolvePoint(tcol, zcol, e).value.v;
      (tcol[n - 1] <= tcol[n] ==> tcol[n - 1] <= v <= tcol[n]) &&
      (tcol[n] <= tcol[n - 1] ==> tcol[n] <= v <= tcol[n - 1])
  {
    BracketEncloses(zcol, e);
    var n := UpperLevel(zcol, e);
    BisectSorted(zcol, e, 0, |zcol|);
    if BisectFrom(zcol, e, 0, |zcol|) == 0 {
      assert n == 1;
    } else {
      assert zcol[n - 1] < e;
    }
    assert zcol[n - 1] < zcol[n];
    InterpolateBetween(tcol[n - 1], tcol[n], zcol[n - 1], zcol[n], e);
  }

  /** Below the lowest level the value is the linear extrapolation of the two
      lowest levels. */
  lemma ResolveBelowExtrapolates(tcol: seq<real>, zcol: seq<real>, e: real)
    requires |tcol| == |zcol| >= 2
    requires Ascending(zcol) && zcol[0] < zcol[1] && e < zcol[0]
    ensures ResolvePoint(tcol, zcol, e)
      == Ok(Fin(tcol[0] + (tcol[1] - tcol[0]) * (e - zcol[0]) / (zcol[1] - zcol[0])))
  {
    BelowLowestUsesFirstPair(zcol, e);
    assert ResolvePoint(tcol, zcol, e) == Ok(Interpolate(tcol[0], tcol[1], zcol[0], zcol[1], e));
    InterpolateIsLine(tcol[0], tcol[1], zcol[0], zcol[1], e);
    assert Interpolate(tcol[0], tcol[1], zcol[0], zcol[1], e)
      == Fin(tcol[0] + (tcol[1] - tcol[0]) * (e - zcol[0]) / (zcol[1] - zcol[0]));
  }
}
