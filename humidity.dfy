/** The humidity helpers of tscale_cci.py:75-163 and the relative-humidity
    cap of tscale_cci.py:831. Saturation pressure `calc_Pws` uses a power of
    ten and is an input here. Arrays that the helpers treat elementwise are
    sequences; the one whole-array decision (`np.max(RH) < 2`) is made over
    all of them. */
module Humidity {
  import opened Floats
  import opened Outcomes

  // ---------------------------------------------------------------------
  // calc_Pw (tscale_cci.py:75-92)

  /** np.max of a non-empty array. */
  function SeqMax(xs: seq<real>): (m: real)
    requires |xs| > 0
    ensures forall i :: 0 <= i < |xs| ==> xs[i] <= m
    ensures exists i :: 0 <= i < |xs| && xs[i] == m
  {
    if |xs| == 1 then xs[0]
    else
      var rest := SeqMax(xs[1..]);
      assert forall i :: 1 <= i < |xs| ==> xs[i] == xs[1..][i - 1];
      if xs[0] >= rest then xs[0] else rest
  }

  /** `np.max` of an empty array raises. */
  datatype PwError = EmptyArray

  /** `rhDividr`: 1 when the largest RH is below 2 (read as a 0-1 scale),
      100 otherwise (read as percent). */
  function Divider(rh: seq<real>): real
    requires |rh| > 0
  {
    if SeqMax(rh) < 2.0 then 1.0 else 100.0
  }

  /** `Pw = (RH/rhDividr) * Pws`, elementwise. */
  function CalcPw(pws: seq<real>, rh: seq<real>): (r: Result<seq<real>, PwError>)
    requires |pws| == |rh|
    ensures r.Ok? <==> |rh| > 0
    ensures r.Ok? ==> |r.value| == |rh|
  {
    if |rh| == 0 then Err(EmptyArray)
    else
      var d := Divider(rh);
      Ok(seq(|rh|, i requires 0 <= i < |rh| => (rh[i] / d) * pws[i]))
  }

  /** RH is read as a 0-1 field exactly when every value is below 2. */
  lemma DividerIff(rh: seq<real>)
    requires |rh| > 0
    ensures Divider(rh) == 1.0 <==> forall i :: 0 <= i < |rh| ==> rh[i] < 2.0
    ensures Divider(rh) == 1.0 || Divider(rh) == 100.0
  {
    var m := SeqMax(rh);
    if Divider(rh) == 100.0 {
      var j :| 0 <= j < |rh| && rh[j] == m;
      assert rh[j] >= 2.0;
    }
  }

  /** If every RH is below 2 each Pw is RH * Pws. */
  lemma PwFromFractions(pws: seq<real>, rh: seq<real>)
    requires |pws| == |rh| > 0
    requires forall i :: 0 <= i < |rh| ==> rh[i] < 2.0
    ensures forall i :: 0 <= i < |rh| ==> CalcPw(pws, rh).value[i] == rh[i] * pws[i]
  {
    DividerIff(rh);
  }

  /** If any RH reaches 2 each Pw is RH / 100 * Pws: one decision covers
      every element. */
  lemma PwFromPercent(pws: seq<real>, rh: seq<real>, j: nat)
    requires |pws| == |rh| && j < |rh| && rh[j] >= 2.0
    ensures forall i :: 0 <= i < |rh| ==> CalcPw(pws, rh).value[i] == (rh[i] / 100.0) * pws[i]
  {
    DividerIff(rh);
  }

  /** A humidity field in percent with some value of at least 2 % and the
      same field as fractions give the same vapour pressure. */
  lemma PwSameOnBothScales(pws: seq<real>, percent: seq<real>, fraction: seq<real>, j: nat)
    requires |pws| == |percent| == |fraction| && j < |percent| && percent[j] >= 2.0
    requires forall i :: 0 <= i < |percent| ==> percent[i] < 200.0 && fraction[i] == percent[i] / 100.0
    ensures CalcPw(pws, percent) == CalcPw(pws, fraction)
  {
    PwFromPercent(pws, percent, j);
    PwFromFractions(pws, fraction);
    SameProducts(CalcPw(pws, percent).value, CalcPw(pws, fraction).value, pws, percent, fraction);
  }

  /** Two vapour-pressure fields built from the percent and the fraction
      form of the same humidity agree. */
  lemma SameProducts(a: seq<real>, b: seq<real>, pws: seq<real>, percent: seq<real>, fraction: seq<real>)
    requires |pws| == |percent| == |fraction| == |a| == |b|
    requires forall i :: 0 <= i < |percent| ==> fraction[i] == percent[i] / 100.0
    requires forall i :: 0 <= i < |a| ==> a[i] == (percent[i] / 100.0) * pws[i]
    requires forall i :: 0 <= i < |a| ==> b[i] == fraction[i] * pws[i]
    ensures a == b
  {
    forall i | 0 <= i < |a|
      ensures a[i] == b[i]
    {
      SameScaled(fraction[i], percent[i] / 100.0, pws[i]);
    }
  }

  /** Equal factors give equal products. */
  lemma SameScaled(x: real, y: real, z: real)
    requires x == y
    ensures x * z == y * z
  {
  }

  /** A percent field that stays below 2 % everywhere is read as a 0-1
      field: Pw comes out 100 times larger than for the same field with a
      single value of 2 % or more. */
  lemma DryPercentReadAsFraction(pws: seq<real>, rh: seq<real>)
    requires |pws| == |rh| > 0
    requires forall i :: 0 <= i < |rh| ==> 0.0 <= rh[i] < 2.0
    ensures forall i :: 0 <= i < |rh| ==> CalcPw(pws, rh).value[i] == 100.0 * ((rh[i] / 100.0) * pws[i])
  {
    PwFromFractions(pws, rh);
  }

  // ---------------------------------------------------------------------
  // RH cap (tscale_cci.py:831)

  /** One element of `gtob.r[gtob.r>100]=100`. */
  function CapRh(x: real): (r: real)
    ensures r <= 100.0
    ensures x <= 100.0 ==> r == x
    ensures x > 100.0 ==> r == 100.0
  {
    if x > 100.0 then 100.0 else x
  }

  /** Capping twice is capping once. */
  lemma CapRhIdempotent(x: real)
    ensures CapRh(CapRh(x)) == CapRh(x)
  {
  }

  /** `gtob.r[gtob.r>100]=100` in place on the (station, time) array. */
  method CapRelativeHumidity(r: array2<real>)
    modifies r
    ensures forall a, b :: 0 <= a < r.Length0 && 0 <= b < r.Length1 ==> r[a, b] == CapRh(old(r[a, b]))
  {
    forall a, b | 0 <= a < r.Length0 && 0 <= b < r.Length1 && r[a, b] > 100.0 {
      r[a, b] := 100.0;
    }
  }

  // ---------------------------------------------------------------------
  // calc_AH (tscale_cci.py:94-110)

  /** C in g K / J. */
  const AhConstant: real := 2.16679

  /** Absolute humidity (g/m3) from vapour pressure pw (hPa) and temperature
      tk (K): `C * (Pw*100) / Tk`. */
  function CalcAh(pw: real, tk: real): Float
  {
    Div(Fin(AhConstant * (pw * 100.0)), Fin(tk))
  }

  /** Vapour pressure (hPa) back from absolute humidity ah and temperature tk. */
  function PwOfAh(ah: real, tk: real): real
  {
    ah * tk / (AhConstant * 100.0)
  }

  /** For a non-zero temperature the absolute humidity is finite and gives
      the vapour pressure back; at tk = 0 it is infinite or NaN. */
  lemma CalcAhRoundTrip(pw: real, tk: real)
    ensures tk != 0.0 ==> CalcAh(pw, tk).Fin? && PwOfAh(CalcAh(pw, tk).v, tk) == pw
    ensures tk == 0.0 ==> !CalcAh(pw, tk).Fin?
  {
    if tk != 0.0 {
      var ah := AhConstant * (pw * 100.0) / tk;
      assert ah * tk == AhConstant * (pw * 100.0);
    }
  }

  // ---------------------------------------------------------------------
  // ah_gm3_To_ah_kgkg (tscale_cci.py:121-139)

  /** `mass_of_m3_air = 1.204 * (P_hpa/P0) * (T0/Tk)` with the standard
      pressure P0 = 1013 hPa, the standard temperature T0 = 293.15 K and the
      density of air under them, 1.204 kg/m3. */
  function AirMass(pPa: real, tk: real): Float
  {
    Mul(Fin(1.204 * ((pPa / 100.0) / 1013.0)), Div(Fin(293.15), Fin(tk)))
  }

  /** `(ah_gm3 / mass_of_m3_air) / 1000`. */
  function AhKgPerKg(ahGm3: real, pPa: real, tk: real): Float
  {
    Div(Div(Fin(ahGm3), AirMass(pPa, tk)), Fin(1000.0))
  }

  /** With a finite non-zero air mass m the conversion is `ah / m / 1000`. */
  lemma AhKgPerKgOfMass(ahGm3: real, pPa: real, tk: real, m: real)
    requires AirMass(pPa, tk) == Fin(m) && m != 0.0
    ensures AhKgPerKg(ahGm3, pPa, tk) == Fin(ahGm3 / (m * 1000.0))
  {
    assert ahGm3 / m / 1000.0 == ahGm3 / (m * 1000.0);
  }

  /** At 1013 hPa and 293.15 K the air mass is the standard density. */
  lemma StandardAirMass()
    ensures AirMass(101300.0, 293.15) == Fin(1.204)
  {
  }

  /** For positive pressure and temperature the conversion is finite and
      undoes: kg/kg times the air mass times 1000 gives g/m3 back. */
  lemma AhKgPerKgRoundTrip(ahGm3: real, pPa: real, tk: real)
    requires pPa > 0.0 && tk > 0.0
    ensures AirMass(pPa, tk).Fin? && AirMass(pPa, tk).v > 0.0
    ensures AhKgPerKg(ahGm3, pPa, tk).Fin?
    ensures AhKgPerKg(ahGm3, pPa, tk).v * AirMass(pPa, tk).v * 1000.0 == ahGm3
  {
    var m := 1.204 * ((pPa / 100.0) / 1013.0) * (293.15 / tk);
    assert 1.204 * ((pPa / 100.0) / 1013.0) > 0.0;
    assert 293.15 / tk > 0.0;
    assert m > 0.0;
    assert AirMass(pPa, tk) == Fin(m);
    var q := (ahGm3 / m) / 1000.0;
    assert AhKgPerKg(ahGm3, pPa, tk) == Fin(q);
    assert q * m * 1000.0 == ahGm3;
  }

  // ---------------------------------------------------------------------
  // rh2sh (tscale_cci.py:142-163)

  /** Ratio of the molecular weights of water vapour and dry air. */
  const MassRatio: real := 18.01528 / 28.9634

  /** `q = k * Pw / (P - (1 - k) * Pw)` for one element. */
  function SpecificHumidity(e: real, p: real): Float
  {
    Div(Fin(MassRatio * e), Fin(p - (1.0 - MassRatio) * e))
  }

  /** Vapour pressure back from specific humidity q at pressure p. */
  function VapourPressureOf(q: real, p: real): real
    requires MassRatio + (1.0 - MassRatio) * q != 0.0
  {
    q * p / (MassRatio + (1.0 - MassRatio) * q)
  }

  /** A vapour pressure between 0 and the air pressure gives a specific
      humidity in [0, 1). */
  lemma SpecificHumidityBounds(e: real, p: real)
    requires 0.0 <= e < p
    ensures SpecificHumidity(e, p).Fin?
    ensures 0.0 <= SpecificHumidity(e, p).v < 1.0
  {
    var ke := MassRatio * e;
    var d := p - (1.0 - MassRatio) * e;
    assert d == p - e + ke;
    assert 0.0 <= ke < d;
    var q := ke / d;
    assert q * d == ke;
    assert q < 1.0 by {
      ProductBelow(q, d);
    }
  }

  /** A factor whose product with a positive d stays below d is below 1. */
  lemma ProductBelow(q: real, d: real)
    requires d > 0.0 && q * d < d
    ensures q < 1.0
  {
  }

  /** With non-zero pressure and denominator the specific humidity gives
      the vapour pressure back. */
  lemma SpecificHumidityRoundTrip(e: real, p: real)
    requires p != 0.0 && p - (1.0 - MassRatio) * e != 0.0
    ensures SpecificHumidity(e, p).Fin?
    ensures MassRatio + (1.0 - MassRatio) * SpecificHumidity(e, p).v != 0.0
    ensures VapourPressureOf(SpecificHumidity(e, p).v, p) == e
  {
    var d := p - (1.0 - MassRatio) * e;
    var q := MassRatio * e / d;
    assert q * d == MassRatio * e;
    var den := MassRatio + (1.0 - MassRatio) * q;
    assert den * d == MassRatio * p by {
      assert den * d == MassRatio * d + (1.0 - MassRatio) * (q * d);
    }
    assert den != 0.0;
    assert q * p == e * den by {
      assert q * p * d == e * den * d by {
        assert q * p * d == p * (q * d);
        assert e * den * d == e * (den * d);
      }
    }
  }

  /** `rh2sh(Pw, P)`: Pw is (station, time) and is transposed, P is (time,
      station), and the result is (time, station). */
  function Rh2Sh(pw: seq<seq<real>>, p: seq<seq<real>>): (q: seq<seq<Float>>)
    requires forall s :: 0 <= s < |pw| ==> |pw[s]| == |p|
    requires forall i :: 0 <= i < |p| ==> |p[i]| == |pw|
    ensures |q| == |p| && forall i :: 0 <= i < |p| ==> |q[i]| == |pw|
    ensures forall i, s :: 0 <= i < |p| && 0 <= s < |pw| ==> q[i][s] == SpecificHumidity(pw[s][i], p[i][s])
  {
    seq(|p|, i requires 0 <= i < |p| =>
      seq(|pw|, s requires 0 <= s < |pw| => SpecificHumidity(pw[s][i], p[i][s])))
  }
}
