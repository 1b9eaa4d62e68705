/** The longwave transfer of tscale_cci.py:549-565: the all-sky emissivity
    is diagnosed at the grid from the downwelling longwave and the 2 m
    temperature, its cloud part (all-sky minus clear-sky) is assumed equal at
    the subgrid point, and the subgrid longwave follows from the
    Stefan-Boltzmann law. The clear-sky emissivities (Konzelmann et al.
    1994, a fractional power) are inputs. */
module Longwave {
  import opened Floats
  import opened Squares

  /** `sbc * T**4` with `sbc = 5.67e-8`. */
  function BlackBody(t: real): real
  {
    0.0000000567 * (t * t * t * t)
  }

  /** The black-body emission is non-negative and vanishes only at 0 K. */
  lemma BlackBodySign(t: real)
    ensures BlackBody(t) >= 0.0
    ensures BlackBody(t) == 0.0 <==> t == 0.0
  {
    FourthPowerSign(t, t * t * t * t);
  }

  /** `aec = strd / (sbc * t2m**4)`, the all-sky emissivity at the grid. */
  function AllSkyEmissivity(strd: real, t2m: real): Float
  {
    Div(Fin(strd), Fin(BlackBody(t2m)))
  }

  /** `lwin = (cef + (aec - cec)) * sbc * t**4` for clear-sky emissivities
      cec at the grid and cef at the point, point temperature t. */
  function Lwin(strd: real, t2m: real, cec: real, cef: real, t: real): Float
  {
    Transfer(AllSkyEmissivity(strd, t2m), cec, cef, BlackBody(t))
  }

  /** `(cef + (aec - cec)) * b`: the point's all-sky emissivity times the
      point's black-body emission b. */
  function Transfer(aec: Float, cec: real, cef: real, b: real): Float
  {
    Mul(Add(Fin(cef), Sub(aec, Fin(cec))), Fin(b))
  }

  /** A non-zero grid temperature gives a finite emissivity that reproduces
      the grid longwave. */
  lemma AllSkyEmissivityRoundTrip(strd: real, t2m: real)
    requires t2m != 0.0
    ensures AllSkyEmissivity(strd, t2m).Fin?
    ensures AllSkyEmissivity(strd, t2m).v * BlackBody(t2m) == strd
  {
    BlackBodySign(t2m);
    var b := BlackBody(t2m);
    assert AllSkyEmissivity(strd, t2m) == Fin(strd / b);
    Quotient(strd, b);
  }

  /** Dividing by a non-zero value and multiplying back is the identity. */
  lemma Quotient(x: real, b: real)
    requires b != 0.0
    ensures (x / b) * b == x
    ensures (x * b) / b == x
  {
  }

  /** The cloud emissivity at the point, lwin / (sbc t^4) - cef, is the one
      diagnosed at the grid, aec - cec. */
  lemma CloudEmissivityTransferred(strd: real, t2m: real, cec: real, cef: real, t: real)
    requires t2m != 0.0 && t != 0.0
    ensures BlackBody(t) > 0.0
    ensures Lwin(strd, t2m, cec, cef, t).Fin?
    ensures Lwin(strd, t2m, cec, cef, t).v / BlackBody(t) - cef
         == AllSkyEmissivity(strd, t2m).v - cec
  {
    BlackBodySign(t2m);
    BlackBodySign(t);
    var aec := strd / BlackBody(t2m);
    var b := BlackBody(t);
    var e := cef + (aec - cec);
    assert AllSkyEmissivity(strd, t2m) == Fin(aec);
    assert Lwin(strd, t2m, cec, cef, t) == Fin(e * b);
    Quotient(e, b);
  }

  /** At the grid's own temperature and clear-sky emissivity the point
      receives the grid longwave unchanged. */
  lemma LwinAtGridConditions(strd: real, t2m: real, cec: real)
    requires t2m != 0.0
    ensures Lwin(strd, t2m, cec, cec, t2m) == Fin(strd)
  {
    BlackBodySign(t2m);
    var b := BlackBody(t2m);
    var aec := strd / b;
    assert AllSkyEmissivity(strd, t2m) == Fin(aec);
    assert cec + (aec - cec) == aec;
    Quotient(strd, b);
  }

  /** A grid temperature of 0 K leaves no finite longwave. */
  lemma LwinAtZeroGridTemperature(strd: real, cec: real, cef: real, t: real)
    ensures !Lwin(strd, 0.0, cec, cef, t).Fin?
  {
    AllSkyAtZero(strd);
    NonFiniteTransfer(AllSkyEmissivity(strd, 0.0), cec, cef, BlackBody(t));
  }

  /** At 0 K the grid emissivity is infinite or NaN. */
  lemma AllSkyAtZero(strd: real)
    ensures !AllSkyEmissivity(strd, 0.0).Fin?
  {
    assert BlackBody(0.0) == 0.0;
  }

  /** An infinite or NaN grid emissivity leaves no finite longwave. */
  lemma NonFiniteTransfer(aec: Float, cec: real, cef: real, b: real)
    requires !aec.Fin?
    ensures !Transfer(aec, cec, cef, b).Fin?
  {
  }
}

/** Sign facts about plain products, kept apart from the longwave
    definitions so that the solver sees only the arithmetic. */
module Squares {

  /** A fourth power is non-negative and zero only at 0 (stated on a plain
      product, where the solver's nonlinear reasoning applies). */
  lemma FourthPowerSign(t: real, r: real)
    requires r == t * t * t * t
    ensures r >= 0.0
    ensures r == 0.0 <==> t == 0.0
  {
    if t > 0.0 {
      PositiveFourth(t, r);
    } else if t < 0.0 {
      PositiveFourth(-t, r);
    }
  }

  /** A positive number's fourth power is positive, one factor at a time. */
  lemma PositiveFourth(t: real, r: real)
    requires t > 0.0 && r == t * t * t * t
    ensures r > 0.0
  {
    var s := t * t;
    PositiveProduct(t, t, s);
    var u := s * t;
    PositiveProduct(s, t, u);
    PositiveProduct(u, t, r);
  }

  /** A product r of two positive factors is positive. */
  lemma PositiveProduct(a: real, b: real, r: real)
    requires a > 0.0 && b > 0.0 && r == a * b
    ensures r > 0.0
  {
  }
}
