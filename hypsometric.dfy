/** Surface pressure from the hypsometric equation at the point scale
    (tscale_cci.py:665-707) and at the grid scale (tscale_cci.py:755-784).
    For every timestep and station the overlying pressure level is found:
    `dz = z_level - z_target` is computed, its negative entries are overwritten
    in place with the sentinel 999999 through the alias `newdz`, and the
    levels whose dz equals the column minimum are selected. The pressure of
    that level, its geopotential and the mean of the two temperatures are
    then fed to the hypsometric formula, which is a parameter here
    (`hyps(p1, z1, zTarget, tBar)`): it uses exp. */
module Hypsometric {
  import opened Outcomes

  /** What `newdz[newdz<0]=999999` writes over the levels below the target. */
  const Sentinel: real := 999999.0

  function Masked(x: real): real
  {
    if x < 0.0 then Sentinel else x
  }

  /** `newdz[newdz<0]=999999` on a (time, level, station) or
      (level, time, station) array: every negative entry becomes the
      sentinel, every other entry is left as it is. */
  method MaskBelowSurface(dz: array3<real>)
    modifies dz
    ensures forall a, b, c :: 0 <= a < dz.Length0 && 0 <= b < dz.Length1 && 0 <= c < dz.Length2 ==>
      dz[a, b, c] == Masked(old(dz[a, b, c]))
  {
    forall a, b, c | 0 <= a < dz.Length0 && 0 <= b < dz.Length1 && 0 <= c < dz.Length2 && dz[a, b, c] < 0.0 {
      dz[a, b, c] := Sentinel;
    }
  }

  /** np.argmin of a column: the first level holding its minimum. */
  function ArgMin(col: seq<real>): (l: nat)
    requires |col| > 0
    ensures l < |col|
    ensures forall k :: 0 <= k < |col| ==> col[l] <= col[k]
    ensures forall k :: 0 <= k < l ==> col[l] < col[k]
  {
    if |col| == 1 then 0
    else
      var r := 1 + ArgMin(col[1..]);
      if col[0] <= col[r] then 0 else r
  }

  /** np.min of a column. */
  function SeqMin(col: seq<real>): real
    requires |col| > 0
  {
    col[ArgMin(col)]
  }

  /** Level l is a lower bound of the column. */
  predicate IsLowest(col: seq<real>, l: nat)
    requires l < |col|
  {
    forall k :: 0 <= k < |col| ==> col[l] <= col[k]
  }

  /** `thisp` of one station: the levels whose dz equals the column minimum,
      which are exactly its lower bounds. */
  function OverlyingMask(col: seq<real>): (mask: seq<bool>)
    requires |col| > 0
    ensures |mask| == |col|
    ensures forall l :: 0 <= l < |col| ==> (mask[l] <==> IsLowest(col, l))
  {
    forall l | 0 <= l < |col|
      ensures col[l] == SeqMin(col) <==> IsLowest(col, l)
    {
      AtMinimumIffLowest(col, l);
    }
    seq(|col|, l requires 0 <= l < |col| => col[l] == SeqMin(col))
  }

  /** A level holds the column minimum exactly when it is a lower bound. */
  lemma AtMinimumIffLowest(col: seq<real>, l: nat)
    requires l < |col|
    ensures col[l] == SeqMin(col) <==> IsLowest(col, l)
  {
    var j := ArgMin(col);
    if IsLowest(col, l) {
      assert col[l] <= col[j];
    }
  }

  /** How many levels hold the value v. */
  function Count(col: seq<real>, v: real): nat
  {
    if |col| == 0 then 0 else (if col[0] == v then 1 else 0) + Count(col[1..], v)
  }

  /** The boolean gather yields exactly one level for the station: the
      column minimum occurs once. */
  predicate UniqueMinimum(col: seq<real>)
    requires |col| > 0
  {
    Count(col, SeqMin(col)) == 1
  }

  /** A value found at index l occurs once exactly when no other index holds it. */
  lemma {:induction false} SingleOccurrence(col: seq<real>, v: real, l: nat)
    requires l < |col| && col[l] == v
    ensures Count(col, v) == 1 <==> forall k :: 0 <= k < |col| && col[k] == v ==> k == l
  {
    var rest := col[1..];
    if l == 0 {
      NoneBeyond(rest, v);
      if Count(rest, v) > 0 {
        var k := FirstHolding(rest, v);
        assert col[k + 1] == v;
      }
    } else {
      assert rest[l - 1] == v;
      if col[0] == v {
        NoneBeyond(rest, v);
      } else {
        SingleOccurrence(rest, v, l - 1);
        if forall k :: 0 <= k < |rest| && rest[k] == v ==> k == l - 1 {
          forall k | 0 <= k < |col| && col[k] == v
            ensures k == l
          {
            assert rest[k - 1] == v;
          }
        }
      }
    }
  }

  /** A value no level holds has count zero, and conversely. */
  lemma {:induction false} NoneBeyond(col: seq<real>, v: real)
    ensures Count(col, v) == 0 <==> forall k :: 0 <= k < |col| ==> col[k] != v
  {
    if |col| > 0 {
      NoneBeyond(col[1..], v);
      if forall k :: 0 <= k < |col| ==> col[k] != v {
        assert forall k :: 0 <= k < |col| - 1 ==> col[1..][k] != v by {
          forall k | 0 <= k < |col| - 1
            ensures col[1..][k] != v
          {
            assert col[1..][k] == col[k + 1];
          }
        }
      }
    }
  }

  /** Some level holds a value whose count is positive. */
  function FirstHolding(col: seq<real>, v: real): (k: nat)
    requires Count(col, v) > 0
    ensures k < |col| && col[k] == v
  {
    if col[0] == v then 0 else 1 + FirstHolding(col[1..], v)
  }

  /** A unique minimum means no level other than the selected one attains it. */
  lemma UniqueMinimumIff(col: seq<real>)
    requires |col| > 0
    ensures UniqueMinimum(col) <==>
      forall k :: 0 <= k < |col| && col[k] == SeqMin(col) ==> k == SelectedLevel(col)
  {
    SingleOccurrence(col, SeqMin(col), SelectedLevel(col));
  }

  /** The level the gather picks: the first (and, when the minimum is
      unique, only) level at the column minimum. */
  function SelectedLevel(col: seq<real>): (l: nat)
    requires |col| > 0
    ensures l < |col| && col[l] == SeqMin(col)
  {
    ArgMin(col)
  }

  /** The masked dz column of one station, from the original differences. */
  function MaskedColumn(dz: seq<real>): (m: seq<real>)
    ensures |m| == |dz| && forall l :: 0 <= l < |dz| ==> m[l] == Masked(dz[l])
  {
    seq(|dz|, l requires 0 <= l < |dz| => Masked(dz[l]))
  }

  /** Level l is at or above the target and no other such level is closer. */
  predicate NearestOverlying(dz: seq<real>, l: nat)
    requires l < |dz|
  {
    0.0 <= dz[l] && forall k :: 0 <= k < |dz| && 0.0 <= dz[k] ==> dz[l] <= dz[k]
  }

  /** Some level lies at or above the target, below the sentinel. */
  predicate HasOverlying(dz: seq<real>)
  {
    exists w :: 0 <= w < |dz| && 0.0 <= dz[w] < Sentinel
  }

  /** When some level lies at or above the target (and below the sentinel),
      the selected levels are exactly the overlying levels closest to the
      target: the mask is the argmin of the non-negative differences. */
  lemma SelectsNearestOverlying(dz: seq<real>, l: nat)
    requires HasOverlying(dz) && l < |dz|
    ensures OverlyingMask(MaskedColumn(dz))[l] <==> NearestOverlying(dz, l)
  {
    var m := MaskedColumn(dz);
    var w :| 0 <= w < |dz| && 0.0 <= dz[w] < Sentinel;
    var mn := SeqMin(m);
    assert mn <= m[w] < Sentinel;
    var j := ArgMin(m);
    assert 0.0 <= dz[j];
    if OverlyingMask(m)[l] {
      assert m[l] <= m[w];
      forall k | 0 <= k < |dz| && 0.0 <= dz[k]
        ensures dz[l] <= dz[k]
      {
        assert m[l] <= m[k];
      }
    }
    if NearestOverlying(dz, l) {
      assert m[l] <= m[j];
    }
  }

  /** With no level at or above the target every level is masked, and every
      level ties for the minimum. */
  lemma NoOverlyingSelectsAll(dz: seq<real>)
    requires |dz| > 0
    requires forall l :: 0 <= l < |dz| ==> dz[l] < 0.0
    ensures forall l :: 0 <= l < |dz| ==> OverlyingMask(MaskedColumn(dz))[l]
  {
  }

  /** Distinct differences with an overlying level give a single selected
      level, the nearest overlying one. */
  lemma UniqueWhenDistinct(dz: seq<real>)
    requires HasOverlying(dz)
    requires forall k, j :: 0 <= k < j < |dz| ==> dz[k] != dz[j]
    ensures |dz| > 0 && UniqueMinimum(MaskedColumn(dz))
    ensures NearestOverlying(dz, SelectedLevel(MaskedColumn(dz)))
  {
    var m := MaskedColumn(dz);
    var mask := OverlyingMask(m);
    var l := SelectedLevel(m);
    SelectsNearestOverlying(dz, l);
    forall k | 0 <= k < |m| && m[k] == SeqMin(m)
      ensures k == l
    {
      assert mask[k];
      SelectsNearestOverlying(dz, k);
      assert dz[k] == dz[l];
    }
    UniqueMinimumIff(m);
  }

  /** The pressure (Pa) of level l: `np.tile(levels[::-1], S)[thispVec] * 1e2`
      takes level l's pressure from the reversed level list. */
  function LevelPressure(levels: seq<real>, l: nat): real
    requires l < |levels|
  {
    100.0 * levels[|levels| - 1 - l]
  }

  // ---------------------------------------------------------------------
  // One station at one timestep

  /** Why a timestep's gather fails: a station's minimum is attained by more
      than one level, the boolean mask selects more values than there are
      stations and the row assignment `psf[i,:] = ...` raises. */
  datatype GatherError = TiedLevels

  /** What the pressure of one station at one timestep is computed from: the
      geopotential and temperature of every pressure level above it, the
      target height (geopotential) and the temperature at the target. */
  datatype Column = Column(z: seq<real>, t: seq<real>, zTarget: real, tTarget: real)

  predicate WellFormed(c: Column, levels: seq<real>)
  {
    |c.z| == |c.t| == |levels| > 0
  }

  /** `dz = ztemp - statz` (or `ztemp - Zc`) for the column. */
  function Dz(c: Column): (dz: seq<real>)
    ensures |dz| == |c.z| && forall l :: 0 <= l < |dz| ==> dz[l] == c.z[l] - c.zTarget
  {
    seq(|c.z|, l requires 0 <= l < |c.z| => c.z[l] - c.zTarget)
  }

  /** The pressure of the station: p1, z1 and T1 are taken at the selected
      level and the hypsometric formula `hyps(p1, z1, zTarget, mean(T1, T0))`
      gives the surface pressure; a tie in the minimum is the gather error. */
  function StationPressure(c: Column, levels: seq<real>, hyps: (real, real, real, real) -> real): Result<real, GatherError>
    requires WellFormed(c, levels)
  {
    var col := MaskedColumn(Dz(c));
    if UniqueMinimum(col) then
      var l := SelectedLevel(col);
      Ok(hyps(LevelPressure(levels, l), c.z[l], c.zTarget, (c.t[l] + c.tTarget) / 2.0))
    else
      Err(TiedLevels)
  }

  /** When some level lies at or above the target and the differences are
      distinct, the station's pressure is defined and is taken at the
      nearest overlying level. */
  lemma StationAtNearestOverlying(c: Column, levels: seq<real>, hyps: (real, real, real, real) -> real)
    requires WellFormed(c, levels)
    requires HasOverlying(Dz(c))
    requires forall k, j :: 0 <= k < j < |c.z| ==> c.z[k] != c.z[j]
    ensures StationPressure(c, levels, hyps).Ok?
    ensures exists l :: (0 <= l < |c.z| && NearestOverlying(Dz(c), l) &&
      StationPressure(c, levels, hyps).value ==
        hyps(LevelPressure(levels, l), c.z[l], c.zTarget, (c.t[l] + c.tTarget) / 2.0))
  {
    var dz := Dz(c);
    forall k, j | 0 <= k < j < |dz|
      ensures dz[k] != dz[j]
    {
      assert c.z[k] != c.z[j];
    }
    UniqueWhenDistinct(dz);
    var l := SelectedLevel(MaskedColumn(dz));
    assert StationPressure(c, levels, hyps) ==
      Ok(hyps(LevelPressure(levels, l), c.z[l], c.zTarget, (c.t[l] + c.tTarget) / 2.0));
    assert NearestOverlying(dz, l);
  }

  // ---------------------------------------------------------------------
  // Rows and runs

  /** Items 0..n-1 collected in order; the first failing item makes the
      whole collection fail. A row of psf is collected over the stations, the
      whole psf over the timesteps. */
  function Collect<T>(n: nat, item: nat --> Result<T, GatherError>): Result<seq<T>, GatherError>
    requires forall k :: 0 <= k < n ==> item.requires(k)
  {
    if n == 0 then Ok([])
    else match Collect(n - 1, item)
      case Err(e) => Err(e)
      case Ok(prefix) =>
        match item(n - 1)
        case Err(e) => Err(e)
        case Ok(v) => Ok(prefix + [v])
  }

  /** A collection succeeds exactly when every item does, and then holds
      each item's value in order. */
  lemma {:induction false} CollectIff<T>(n: nat, item: nat --> Result<T, GatherError>)
    requires forall k :: 0 <= k < n ==> item.requires(k)
    ensures Collect(n, item).Ok? <==> forall k :: 0 <= k < n ==> item(k).Ok?
    ensures Collect(n, item).Ok? ==> |Collect(n, item).value| == n
    ensures Collect(n, item).Ok? ==> forall k :: 0 <= k < n ==> Collect(n, item).value[k] == item(k).value
  {
    if n > 0 {
      CollectIff(n - 1, item);
    }
  }

  /** A single failing item makes the collection of any longer prefix fail. */
  lemma CollectFails<T>(n: nat, item: nat --> Result<T, GatherError>, k: nat)
    requires forall j :: 0 <= j < n ==> item.requires(j)
    requires k < n && item(k).Err?
    ensures Collect(n, item).Err?
  {
    CollectIff(n, item);
  }

  // ---------------------------------------------------------------------
  // Grids: the read-only inputs, as their extents and indexing functions

  datatype Grid3 = Grid3(n0: nat, n1: nat, n2: nat, at: (nat, nat, nat) -> real)
  datatype Grid2 = Grid2(n0: nat, n1: nat, at: (nat, nat) -> real)

  // ---------------------------------------------------------------------
  // Point (fine) scale, tscale_cci.py:665-707: ztemp and Ttemp are
  // (time, level, station), statz holds the stations' geopotential heights,
  // the point temperature tPoint is (station, time)

  predicate FineShape(ztemp: Grid3, ttemp: Grid3, statz: seq<real>, levels: seq<real>, tPoint: Grid2)
  {
    ttemp.n0 == ztemp.n0 && ttemp.n1 == ztemp.n1 == |levels| > 0 &&
    ttemp.n2 == ztemp.n2 == |statz| &&
    tPoint.n0 == |statz| && tPoint.n1 == ztemp.n0
  }

  /** Station s at timestep i: the levels of `ztemp[i, :, s]` and
      `Ttemp[i, :, s]`, the target `statz[s]` and the point temperature. */
  function FineColumn(ztemp: Grid3, ttemp: Grid3, statz: seq<real>, levels: seq<real>, tPoint: Grid2,
                      i: nat, s: nat): (c: Column)
    requires FineShape(ztemp, ttemp, statz, levels, tPoint) && s < |statz|
    ensures WellFormed(c, levels)
  {
    Column(seq(|levels|, l requires 0 <= l < |levels| => ztemp.at(i, l, s)),
           seq(|levels|, l requires 0 <= l < |levels| => ttemp.at(i, l, s)),
           statz[s], tPoint.at(s, i))
  }

  /** The stations of timestep i. */
  function FineStations(ztemp: Grid3, ttemp: Grid3, statz: seq<real>, levels: seq<real>, tPoint: Grid2,
                        hyps: (real, real, real, real) -> real, i: nat): (f: nat --> Result<real, GatherError>)
    requires FineShape(ztemp, ttemp, statz, levels, tPoint)
    ensures forall s :: 0 <= s < |statz| ==> f.requires(s)
  {
    (s: nat) requires s < |statz| => StationPressure(FineColumn(ztemp, ttemp, statz, levels, tPoint, i, s), levels, hyps)
  }

  /** Row i of psf, or the error its gather raises. */
  function FineRowSpec(ztemp: Grid3, ttemp: Grid3, statz: seq<real>, levels: seq<real>, tPoint: Grid2,
                       hyps: (real, real, real, real) -> real, i: nat): (r: Result<seq<real>, GatherError>)
    requires FineShape(ztemp, ttemp, statz, levels, tPoint)
    ensures r.Ok? ==> |r.value| == |statz|
  {
    var f := FineStations(ztemp, ttemp, statz, levels, tPoint, hyps, i);
    CollectIff(|statz|, f);
    Collect(|statz|, f)
  }

  /** Row i of psf is defined exactly when every station has a single
      selected level, and then holds each station's hypsometric pressure. */
  lemma FineRowIff(ztemp: Grid3, ttemp: Grid3, statz: seq<real>, levels: seq<real>, tPoint: Grid2,
                   hyps: (real, real, real, real) -> real, i: nat)
    requires FineShape(ztemp, ttemp, statz, levels, tPoint)
    ensures FineRowSpec(ztemp, ttemp, statz, levels, tPoint, hyps, i).Ok? <==>
      forall s :: 0 <= s < |statz| ==>
        StationPressure(FineColumn(ztemp, ttemp, statz, levels, tPoint, i, s), levels, hyps).Ok?
    ensures FineRowSpec(ztemp, ttemp, statz, levels, tPoint, hyps, i).Ok? ==>
      forall s :: 0 <= s < |statz| ==>
        FineRowSpec(ztemp, ttemp, statz, levels, tPoint, hyps, i).value[s] ==
        StationPressure(FineColumn(ztemp, ttemp, statz, levels, tPoint, i, s), levels, hyps).value
  {
    var f := FineStations(ztemp, ttemp, statz, levels, tPoint, hyps, i);
    assert forall s :: 0 <= s < |statz| ==>
      f(s) == StationPressure(FineColumn(ztemp, ttemp, statz, levels, tPoint, i, s), levels, hyps);
    CollectIff(|statz|, f);
  }

  /** Station s's column of `newdz[i, :, :]` on a (time, level, station) array. */
  function FineSlice(dz: array3<real>, i: nat, s: nat): (col: seq<real>)
    reads dz
    requires i < dz.Length0 && s < dz.Length2
    ensures |col| == dz.Length1 && forall l :: 0 <= l < dz.Length1 ==> col[l] == dz[i, l, s]
  {
    seq(dz.Length1, l requires 0 <= l < dz.Length1 reads dz => dz[i, l, s])
  }

  /** `dz = ztemp - statz` followed by `newdz[newdz<0]=999999` through the
      alias: a fresh (time, level, station) array of masked differences. */
  method FineDifferences(ztemp: Grid3, statz: seq<real>, nL: nat) returns (dz: array3<real>)
    requires ztemp.n1 == nL && ztemp.n2 == |statz|
    ensures fresh(dz)
    ensures dz.Length0 == ztemp.n0 && dz.Length1 == nL && dz.Length2 == |statz|
    ensures forall a, b, c :: 0 <= a < ztemp.n0 && 0 <= b < nL && 0 <= c < |statz| ==>
      dz[a, b, c] == Masked(ztemp.at(a, b, c) - statz[c])
  {
    var nT, nS := ztemp.n0, |statz|;
    dz := new real[nT, nL, nS];
    forall a, b, c | 0 <= a < nT && 0 <= b < nL && 0 <= c < nS {
      dz[a, b, c] := ztemp.at(a, b, c) - statz[c];
    }
    var newdz := dz;
    MaskBelowSurface(newdz);
  }

  /** After masking, station s's column of `newdz[i, :, :]` is the masked
      column of the station's differences. */
  lemma FineSliceIsMasked(dz: array3<real>, ztemp: Grid3, ttemp: Grid3, statz: seq<real>, levels: seq<real>,
                          tPoint: Grid2, i: nat, s: nat)
    requires FineShape(ztemp, ttemp, statz, levels, tPoint)
    requires dz.Length1 == |levels| && dz.Length2 == |statz| && i < dz.Length0 && s < |statz|
    requires forall l, c :: 0 <= l < |levels| && 0 <= c < |statz| ==> dz[i, l, c] == Masked(ztemp.at(i, l, c) - statz[c])
    ensures FineSlice(dz, i, s) == MaskedColumn(Dz(FineColumn(ztemp, ttemp, statz, levels, tPoint, i, s)))
  {
  }

  /** What the loop body computes for station s at timestep i from the
      station's masked column: p1, z1 and T1 gathered at the selected level
      and fed to the hypsometric formula with `Tbar = mean([T0, T1])`. */
  function FineValue(col: seq<real>, ztemp: Grid3, ttemp: Grid3, statz: seq<real>, levels: seq<real>,
                     tPoint: Grid2, hyps: (real, real, real, real) -> real, i: nat, s: nat): real
    requires |col| == |levels| > 0 && s < |statz|
  {
    var l := SelectedLevel(col);
    hyps(LevelPressure(levels, l), ztemp.at(i, l, s), statz[s], (ttemp.at(i, l, s) + tPoint.at(s, i)) / 2.0)
  }

  /** The gathered value is the station's pressure. */
  lemma FineStationOfColumn(col: seq<real>, ztemp: Grid3, ttemp: Grid3, statz: seq<real>, levels: seq<real>,
                            tPoint: Grid2, hyps: (real, real, real, real) -> real, i: nat, s: nat)
    requires FineShape(ztemp, ttemp, statz, levels, tPoint) && s < |statz|
    requires col == MaskedColumn(Dz(FineColumn(ztemp, ttemp, statz, levels, tPoint, i, s)))
    ensures FineStations(ztemp, ttemp, statz, levels, tPoint, hyps, i)(s) ==
      if UniqueMinimum(col) then Ok(FineValue(col, ztemp, ttemp, statz, levels, tPoint, hyps, i, s))
      else Err(TiedLevels)
  {
  }

  /** One pass of the timestep loop body (tscale_cci.py:689-707): the mask
      `thisp` from the columns of `newdz[i, :, :]`, the gathered p1, z1 and
      T1 of the selected levels, and the row of pressures; `ok` is false
      when the gather fails. */
  method FineRow(dz: array3<real>, ztemp: Grid3, ttemp: Grid3, statz: seq<real>, levels: seq<real>,
                 tPoint: Grid2, hyps: (real, real, real, real) -> real, i: nat)
    returns (row: seq<real>, ok: bool)
    requires FineShape(ztemp, ttemp, statz, levels, tPoint)
    requires dz.Length0 == ztemp.n0 && dz.Length1 == |levels| && dz.Length2 == |statz| && i < dz.Length0
    requires forall l, c :: 0 <= l < |levels| && 0 <= c < |statz| ==> dz[i, l, c] == Masked(ztemp.at(i, l, c) - statz[c])
    ensures ok <==> FineRowSpec(ztemp, ttemp, statz, levels, tPoint, hyps, i).Ok?
    ensures ok ==> row == FineRowSpec(ztemp, ttemp, statz, levels, tPoint, hyps, i).value
  {
    var nS := |statz|;
    var cols := seq(nS, s requires 0 <= s < nS reads dz => FineSlice(dz, i, s));
    ok := forall s :: 0 <= s < nS ==> UniqueMinimum(cols[s]);
    row := seq(nS, s requires 0 <= s < nS => FineValue(cols[s], ztemp, ttemp, statz, levels, tPoint, hyps, i, s));
    forall s | 0 <= s < nS
      ensures cols[s] == MaskedColumn(Dz(FineColumn(ztemp, ttemp, statz, levels, tPoint, i, s)))
    {
      FineSliceIsMasked(dz, ztemp, ttemp, statz, levels, tPoint, i, s);
    }
    FineRowOfColumns(cols, row, ztemp, ttemp, statz, levels, tPoint, hyps, i);
  }

  /** The row gathered from the stations' masked columns is row i of psf,
      and it is defined exactly when every column has a unique minimum. */
  lemma FineRowOfColumns(cols: seq<seq<real>>, row: seq<real>, ztemp: Grid3, ttemp: Grid3, statz: seq<real>,
                         levels: seq<real>, tPoint: Grid2, hyps: (real, real, real, real) -> real, i: nat)
    requires FineShape(ztemp, ttemp, statz, levels, tPoint)
    requires |cols| == |row| == |statz|
    requires forall s :: 0 <= s < |statz| ==> |cols[s]| == |levels|
    requires forall s :: 0 <= s < |statz| ==>
      cols[s] == MaskedColumn(Dz(FineColumn(ztemp, ttemp, statz, levels, tPoint, i, s)))
    requires forall s :: 0 <= s < |statz| ==>
      row[s] == FineValue(cols[s], ztemp, ttemp, statz, levels, tPoint, hyps, i, s)
    ensures (forall s :: 0 <= s < |statz| ==> UniqueMinimum(cols[s])) <==>
      FineRowSpec(ztemp, ttemp, statz, levels, tPoint, hyps, i).Ok?
    ensures FineRowSpec(ztemp, ttemp, statz, levels, tPoint, hyps, i).Ok? ==>
      row == FineRowSpec(ztemp, ttemp, statz, levels, tPoint, hyps, i).value
  {
    var f := FineStations(ztemp, ttemp, statz, levels, tPoint, hyps, i);
    CollectIff(|statz|, f);
    forall s | 0 <= s < |statz|
      ensures f(s).Ok? <==> UniqueMinimum(cols[s])
      ensures f(s).Ok? ==> f(s).value == row[s]
    {
      FineStationOfColumn(cols[s], ztemp, ttemp, statz, levels, tPoint, hyps, i, s);
    }
  }

  /** `psf[i,:] = row`: row i is overwritten, every other row is kept. */
  method StoreRow(psf: array2<real>, i: nat, row: seq<real>)
    requires i < psf.Length0 && |row| == psf.Length1
    modifies psf
    ensures forall s :: 0 <= s < psf.Length1 ==> psf[i, s] == row[s]
    ensures forall a, s :: 0 <= a < psf.Length0 && a != i && 0 <= s < psf.Length1 ==> psf[a, s] == old(psf[a, s])
  {
    forall s | 0 <= s < psf.Length1 {
      psf[i, s] := row[s];
    }
  }

  /** rows[a] is row a of psf for every timestep a < |rows|, stated one
      timestep at a time. */
  ghost predicate FineRowsMatch(ztemp: Grid3, ttemp: Grid3, statz: seq<real>, levels: seq<real>,
                                tPoint: Grid2, hyps: (real, real, real, real) -> real, rows: seq<seq<real>>)
    requires FineShape(ztemp, ttemp, statz, levels, tPoint)
    decreases |rows|
  {
    |rows| == 0 ||
    (FineRowsMatch(ztemp, ttemp, statz, levels, tPoint, hyps, rows[..|rows| - 1]) &&
     FineRowSpec(ztemp, ttemp, statz, levels, tPoint, hyps, |rows| - 1) == Ok(rows[|rows| - 1]))
  }

  lemma {:induction false} FineRowsMatchAll(ztemp: Grid3, ttemp: Grid3, statz: seq<real>, levels: seq<real>,
                                            tPoint: Grid2, hyps: (real, real, real, real) -> real, rows: seq<seq<real>>)
    requires FineShape(ztemp, ttemp, statz, levels, tPoint)
    requires FineRowsMatch(ztemp, ttemp, statz, levels, tPoint, hyps, rows)
    ensures forall a :: 0 <= a < |rows| ==> FineRowSpec(ztemp, ttemp, statz, levels, tPoint, hyps, a) == Ok(rows[a])
  {
    if |rows| > 0 {
      var prefix := rows[..|rows| - 1];
      FineRowsMatchAll(ztemp, ttemp, statz, levels, tPoint, hyps, prefix);
      forall a | 0 <= a < |rows| - 1
        ensures rows[a] == prefix[a]
      {
      }
    }
  }

  /** The point-scale pressure loop (tscale_cci.py:670-707): dz is built and
      masked in place, then psf is written one timestep row at a time; `ok`
      is false when a row's gather fails. */
  method FinePressure(ztemp: Grid3, ttemp: Grid3, statz: seq<real>, levels: seq<real>,
                      tPoint: Grid2, hyps: (real, real, real, real) -> real)
    returns (psf: array2<real>, ok: bool)
    requires FineShape(ztemp, ttemp, statz, levels, tPoint)
    ensures psf.Length0 == ztemp.n0 && psf.Length1 == |statz|
    ensures ok <==> forall i :: 0 <= i < ztemp.n0 ==> FineRowSpec(ztemp, ttemp, statz, levels, tPoint, hyps, i).Ok?
    ensures ok ==> forall i, s :: 0 <= i < ztemp.n0 && 0 <= s < |statz| ==>
      psf[i, s] == FineRowSpec(ztemp, ttemp, statz, levels, tPoint, hyps, i).value[s]
  {
    var nT, nL, nS := ztemp.n0, |levels|, |statz|;
    var dz := FineDifferences(ztemp, statz, nL);
    psf := new real[nT, nS];
    ghost var rows: seq<seq<real>> := [];
    var i := 0;
    while i < nT
      invariant 0 <= i <= nT && |rows| == i
      modifies psf
      invariant FineRowsMatch(ztemp, ttemp, statz, levels, tPoint, hyps, rows)
      invariant forall a, l, c :: 0 <= a < nT && 0 <= l < nL && 0 <= c < nS ==> dz[a, l, c] == Masked(ztemp.at(a, l, c) - statz[c])
      invariant forall a :: 0 <= a < i ==> |rows[a]| == nS
      invariant forall a, s :: 0 <= a < i && 0 <= s < nS ==> psf[a, s] == rows[a][s]
    {
      var row, rowOk := FineRow(dz, ztemp, ttemp, statz, levels, tPoint, hyps, i);
      if !rowOk {
        ok := false;
        return;
      }
      StoreRow(psf, i, row);
      assert (rows + [row])[..i] == rows;
      rows := rows + [row];
      i := i + 1;
    }
    FineRowsMatchAll(ztemp, ttemp, statz, levels, tPoint, hyps, rows);
    ok := true;
  }
  // ---------------------------------------------------------------------
  // Grid (coarse) scale, tscale_cci.py:753-784: ztemp and Ttemp are
  // (level, time, station), Zc is the grid geopotential (time, station) and
  // the grid 2 m temperature t2m is (station, time). The gathers of z1 and
  // T1 are modelled at (level, time, station); see the Layout module for
  // what the Fortran-order reshape of tscale_cci.py:773-779 actually reads.

  predicate CoarseShape(ztemp: Grid3, ttemp: Grid3, zc: Grid2, levels: seq<real>, t2m: Grid2)
  {
    ttemp.n0 == ztemp.n0 == |levels| > 0 && ttemp.n1 == ztemp.n1 && ttemp.n2 == ztemp.n2 &&
    zc.n0 == ztemp.n1 && zc.n1 == ztemp.n2 &&
    t2m.n0 == ztemp.n2 && t2m.n1 == ztemp.n1
  }

  /** Station s at timestep i: the levels of `ztemp[:, i, s]` and
      `Ttemp[:, i, s]`, the target `Zc[i, s]` and the 2 m temperature. */
  function CoarseColumn(ztemp: Grid3, ttemp: Grid3, zc: Grid2, levels: seq<real>, t2m: Grid2,
                      i: nat, s: nat): (c: Column)
    requires CoarseShape(ztemp, ttemp, zc, levels, t2m) && s < zc.n1
    ensures WellFormed(c, levels)
  {
    Column(seq(|levels|, l requires 0 <= l < |levels| => ztemp.at(l, i, s)),
           seq(|levels|, l requires 0 <= l < |levels| => ttemp.at(l, i, s)),
           zc.at(i, s), t2m.at(s, i))
  }

  /** The stations of timestep i. */
  function CoarseStations(ztemp: Grid3, ttemp: Grid3, zc: Grid2, levels: seq<real>, t2m: Grid2,
                        hyps: (real, real, real, real) -> real, i: nat): (f: nat --> Result<real, GatherError>)
    requires CoarseShape(ztemp, ttemp, zc, levels, t2m)
    ensures forall s :: 0 <= s < zc.n1 ==> f.requires(s)
  {
    (s: nat) requires s < zc.n1 => StationPressure(CoarseColumn(ztemp, ttemp, zc, levels, t2m, i, s), levels, hyps)
  }

  /** Row i of psc, or the error its gather raises. */
  function CoarseRowSpec(ztemp: Grid3, ttemp: Grid3, zc: Grid2, levels: seq<real>, t2m: Grid2,
                       hyps: (real, real, real, real) -> real, i: nat): (r: Result<seq<real>, GatherError>)
    requires CoarseShape(ztemp, ttemp, zc, levels, t2m)
    ensures r.Ok? ==> |r.value| == zc.n1
  {
    var f := CoarseStations(ztemp, ttemp, zc, levels, t2m, hyps, i);
    CollectIff(zc.n1, f);
    Collect(zc.n1, f)
  }

  /** Row i of psc is defined exactly when every station has a single
      selected level, and then holds each station's hypsometric pressure. */
  lemma CoarseRowIff(ztemp: Grid3, ttemp: Grid3, zc: Grid2, levels: seq<real>, t2m: Grid2,
                   hyps: (real, real, real, real) -> real, i: nat)
    requires CoarseShape(ztemp, ttemp, zc, levels, t2m)
    ensures CoarseRowSpec(ztemp, ttemp, zc, levels, t2m, hyps, i).Ok? <==>
      forall s :: 0 <= s < zc.n1 ==>
        StationPressure(CoarseColumn(ztemp, ttemp, zc, levels, t2m, i, s), levels, hyps).Ok?
    ensures CoarseRowSpec(ztemp, ttemp, zc, levels, t2m, hyps, i).Ok? ==>
      forall s :: 0 <= s < zc.n1 ==>
        CoarseRowSpec(ztemp, ttemp, zc, levels, t2m, hyps, i).value[s] ==
        StationPressure(CoarseColumn(ztemp, ttemp, zc, levels, t2m, i, s), levels, hyps).value
  {
    var f := CoarseStations(ztemp, ttemp, zc, levels, t2m, hyps, i);
    assert forall s :: 0 <= s < zc.n1 ==>
      f(s) == StationPressure(CoarseColumn(ztemp, ttemp, zc, levels, t2m, i, s), levels, hyps);
    CollectIff(zc.n1, f);
  }

  /** Station s's column of `newdz[:, i, :]` on a (level, time, station) array. */
  function CoarseSlice(dz: array3<real>, i: nat, s: nat): (col: seq<real>)
    reads dz
    requires i < dz.Length1 && s < dz.Length2
    ensures |col| == dz.Length0 && forall l :: 0 <= l < dz.Length0 ==> col[l] == dz[l, i, s]
  {
    seq(dz.Length0, l requires 0 <= l < dz.Length0 reads dz => dz[l, i, s])
  }

  /** `dz = ztemp - Zc` followed by `newdz[newdz<0]=999999` through the
      alias: a fresh (level, time, station) array of masked differences. */
  method CoarseDifferences(ztemp: Grid3, zc: Grid2, nL: nat) returns (dz: array3<real>)
    requires ztemp.n0 == nL && zc.n0 == ztemp.n1 && zc.n1 == ztemp.n2
    ensures fresh(dz)
    ensures dz.Length0 == nL && dz.Length1 == ztemp.n1 && dz.Length2 == ztemp.n2
    ensures forall a, b, c :: 0 <= a < nL && 0 <= b < ztemp.n1 && 0 <= c < ztemp.n2 ==>
      dz[a, b, c] == Masked(ztemp.at(a, b, c) - zc.at(b, c))
  {
    var nT, nS := ztemp.n1, ztemp.n2;
    dz := new real[nL, nT, nS];
    forall a, b, c | 0 <= a < nL && 0 <= b < nT && 0 <= c < nS {
      dz[a, b, c] := ztemp.at(a, b, c) - zc.at(b, c);
    }
    var newdz := dz;
    MaskBelowSurface(newdz);
  }

  /** After masking, station s's column of `newdz[:, i, :]` is the masked
      column of the station's differences. */
  lemma CoarseSliceIsMasked(dz: array3<real>, ztemp: Grid3, ttemp: Grid3, zc: Grid2, levels: seq<real>,
                            t2m: Grid2, i: nat, s: nat)
    requires CoarseShape(ztemp, ttemp, zc, levels, t2m)
    requires dz.Length0 == |levels| && dz.Length2 == zc.n1 && i < dz.Length1 && s < zc.n1
    requires forall l, c :: 0 <= l < |levels| && 0 <= c < zc.n1 ==> dz[l, i, c] == Masked(ztemp.at(l, i, c) - zc.at(i, c))
    ensures CoarseSlice(dz, i, s) == MaskedColumn(Dz(CoarseColumn(ztemp, ttemp, zc, levels, t2m, i, s)))
  {
  }

  /** What the loop body computes for station s at timestep i from the
      station's masked column: p1, z1 and T1 gathered at the selected level
      and fed to the hypsometric formula with `Tbar = mean([T0, T1])`. */
  function CoarseValue(col: seq<real>, ztemp: Grid3, ttemp: Grid3, zc: Grid2, levels: seq<real>,
                     t2m: Grid2, hyps: (real, real, real, real) -> real, i: nat, s: nat): real
    requires |col| == |levels| > 0 && s < zc.n1
  {
    var l := SelectedLevel(col);
    hyps(LevelPressure(levels, l), ztemp.at(l, i, s), zc.at(i, s), (t2m.at(s, i) + ttemp.at(l, i, s)) / 2.0)
  }

  /** The gathered value is the station's pressure. */
  lemma CoarseStationOfColumn(col: seq<real>, ztemp: Grid3, ttemp: Grid3, zc: Grid2, levels: seq<real>,
                            t2m: Grid2, hyps: (real, real, real, real) -> real, i: nat, s: nat)
    requires CoarseShape(ztemp, ttemp, zc, levels, t2m) && s < zc.n1
    requires col == MaskedColumn(Dz(CoarseColumn(ztemp, ttemp, zc, levels, t2m, i, s)))
    ensures CoarseStations(ztemp, ttemp, zc, levels, t2m, hyps, i)(s) ==
      if UniqueMinimum(col) then Ok(CoarseValue(col, ztemp, ttemp, zc, levels, t2m, hyps, i, s))
      else Err(TiedLevels)
  {
  }

  /** One pass of the timestep loop body (tscale_cci.py:766-784): the mask
      `thisp` from the columns of `newdz[:, i, :]`, the gathered p1, z1 and
      T1 of the selected levels, and the row of pressures; `ok` is false
      when the gather fails. */
  method CoarseRow(dz: array3<real>, ztemp: Grid3, ttemp: Grid3, zc: Grid2, levels: seq<real>,
                 t2m: Grid2, hyps: (real, real, real, real) -> real, i: nat)
    returns (row: seq<real>, ok: bool)
    requires CoarseShape(ztemp, ttemp, zc, levels, t2m)
    requires dz.Length0 == |levels| && dz.Length1 == ztemp.n1 && dz.Length2 == zc.n1 && i < dz.Length1
    requires forall l, c :: 0 <= l < |levels| && 0 <= c < zc.n1 ==> dz[l, i, c] == Masked(ztemp.at(l, i, c) - zc.at(i, c))
    ensures ok <==> CoarseRowSpec(ztemp, ttemp, zc, levels, t2m, hyps, i).Ok?
    ensures ok ==> row == CoarseRowSpec(ztemp, ttemp, zc, levels, t2m, hyps, i).value
  {
    var nS := zc.n1;
    var cols := seq(nS, s requires 0 <= s < nS reads dz => CoarseSlice(dz, i, s));
    ok := forall s :: 0 <= s < nS ==> UniqueMinimum(cols[s]);
    row := seq(nS, s requires 0 <= s < nS => CoarseValue(cols[s], ztemp, ttemp, zc, levels, t2m, hyps, i, s));
    forall s | 0 <= s < nS
      ensures cols[s] == MaskedColumn(Dz(CoarseColumn(ztemp, ttemp, zc, levels, t2m, i, s)))
    {
      CoarseSliceIsMasked(dz, ztemp, ttemp, zc, levels, t2m, i, s);
    }
    CoarseRowOfColumns(cols, row, ztemp, ttemp, zc, levels, t2m, hyps, i);
  }

  /** The row gathered from the stations' masked columns is row i of psc,
      and it is defined exactly when every column has a unique minimum. */
  lemma CoarseRowOfColumns(cols: seq<seq<real>>, row: seq<real>, ztemp: Grid3, ttemp: Grid3, zc: Grid2,
                         levels: seq<real>, t2m: Grid2, hyps: (real, real, real, real) -> real, i: nat)
    requires CoarseShape(ztemp, ttemp, zc, levels, t2m)
    requires |cols| == |row| == zc.n1
    requires forall s :: 0 <= s < zc.n1 ==> |cols[s]| == |levels|
    requires forall s :: 0 <= s < zc.n1 ==>
      cols[s] == MaskedColumn(Dz(CoarseColumn(ztemp, ttemp, zc, levels, t2m, i, s)))
    requires forall s :: 0 <= s < zc.n1 ==>
      row[s] == CoarseValue(cols[s], ztemp, ttemp, zc, levels, t2m, hyps, i, s)
    ensures (forall s :: 0 <= s < zc.n1 ==> UniqueMinimum(cols[s])) <==>
      CoarseRowSpec(ztemp, ttemp, zc, levels, t2m, hyps, i).Ok?
    ensures CoarseRowSpec(ztemp, ttemp, zc, levels, t2m, hyps, i).Ok? ==>
      row == CoarseRowSpec(ztemp, ttemp, zc, levels, t2m, hyps, i).value
  {
    var f := CoarseStations(ztemp, ttemp, zc, levels, t2m, hyps, i);
    CollectIff(zc.n1, f);
    forall s | 0 <= s < zc.n1
      ensures f(s).Ok? <==> UniqueMinimum(cols[s])
      ensures f(s).Ok? ==> f(s).value == row[s]
    {
      CoarseStationOfColumn(cols[s], ztemp, ttemp, zc, levels, t2m, hyps, i, s);
    }
  }

  /** rows[a] is row a of psc for every timestep a < |rows|, stated one
      timestep at a time. */
  ghost predicate CoarseRowsMatch(ztemp: Grid3, ttemp: Grid3, zc: Grid2, levels: seq<real>,
                                t2m: Grid2, hyps: (real, real, real, real) -> real, rows: seq<seq<real>>)
    requires CoarseShape(ztemp, ttemp, zc, levels, t2m)
    decreases |rows|
  {
    |rows| == 0 ||
    (CoarseRowsMatch(ztemp, ttemp, zc, levels, t2m, hyps, rows[..|rows| - 1]) &&
     CoarseRowSpec(ztemp, ttemp, zc, levels, t2m, hyps, |rows| - 1) == Ok(rows[|rows| - 1]))
  }

  lemma {:induction false} CoarseRowsMatchAll(ztemp: Grid3, ttemp: Grid3, zc: Grid2, levels: seq<real>,
                                            t2m: Grid2, hyps: (real, real, real, real) -> real, rows: seq<seq<real>>)
    requires CoarseShape(ztemp, ttemp, zc, levels, t2m)
    requires CoarseRowsMatch(ztemp, ttemp, zc, levels, t2m, hyps, rows)
    ensures forall a :: 0 <= a < |rows| ==> CoarseRowSpec(ztemp, ttemp, zc, levels, t2m, hyps, a) == Ok(rows[a])
  {
    if |rows| > 0 {
      var prefix := rows[..|rows| - 1];
      CoarseRowsMatchAll(ztemp, ttemp, zc, levels, t2m, hyps, prefix);
      forall a | 0 <= a < |rows| - 1
        ensures rows[a] == prefix[a]
      {
      }
    }
  }

  /** The grid-scale pressure loop (tscale_cci.py:753-784): dz is built and
      masked in place, then psc is written one timestep row at a time; `ok`
      is false when a row's gather fails. */
  method CoarsePressure(ztemp: Grid3, ttemp: Grid3, zc: Grid2, levels: seq<real>,
                      t2m: Grid2, hyps: (real, real, real, real) -> real)
    returns (psc: array2<real>, ok: bool)
    requires CoarseShape(ztemp, ttemp, zc, levels, t2m)
    ensures psc.Length0 == ztemp.n1 && psc.Length1 == zc.n1
    ensures ok <==> forall i :: 0 <= i < ztemp.n1 ==> CoarseRowSpec(ztemp, ttemp, zc, levels, t2m, hyps, i).Ok?
    ensures ok ==> forall i, s :: 0 <= i < ztemp.n1 && 0 <= s < zc.n1 ==>
      psc[i, s] == CoarseRowSpec(ztemp, ttemp, zc, levels, t2m, hyps, i).value[s]
  {
    var nT, nL, nS := ztemp.n1, |levels|, zc.n1;
    var dz := CoarseDifferences(ztemp, zc, nL);
    psc := new real[nT, nS];
    ghost var rows: seq<seq<real>> := [];
    var i := 0;
    while i < nT
      invariant 0 <= i <= nT && |rows| == i
      modifies psc
      invariant CoarseRowsMatch(ztemp, ttemp, zc, levels, t2m, hyps, rows)
      invariant forall l, a, c :: 0 <= l < nL && 0 <= a < nT && 0 <= c < nS ==> dz[l, a, c] == Masked(ztemp.at(l, a, c) - zc.at(a, c))
      invariant forall a :: 0 <= a < i ==> |rows[a]| == nS
      invariant forall a, s :: 0 <= a < i && 0 <= s < nS ==> psc[a, s] == rows[a][s]
    {
      var row, rowOk := CoarseRow(dz, ztemp, ttemp, zc, levels, t2m, hyps, i);
      if !rowOk {
        ok := false;
        return;
      }
      StoreRow(psc, i, row);
      assert (rows + [row])[..i] == rows;
      rows := rows + [row];
      i := i + 1;
    }
    CoarseRowsMatchAll(ztemp, ttemp, zc, levels, t2m, hyps, rows);
    ok := true;
  }
}
