/** The grid shortwave split of tscale_cci.py:713-748: the clearness index
    `kt = SWc / SWtoa` is clamped in place, the diffuse fraction kd is
    computed from it (a regression with nested exponentials, a parameter
    here), the grid shortwave is split into its diffuse and direct parts and
    the point-scale diffuse part is the grid one with NaN (night) set to 0.
    Every array is (station, time) and every operation is elementwise. */
module Shortwave {
  import opened Floats

  /** One element of `kt[kt<0]=0` followed by `kt[kt>1]=0.8`. */
  function ClampKt(kt: Float): Float
  {
    var low := if Less(kt, 0.0) then Fin(0.0) else kt;
    if Greater(low, 1.0) then Fin(0.8) else low
  }

  /** The clamped clearness index is NaN exactly when kt was, and lies in
      [0, 1] otherwise: negative values (and -inf) become 0, values above 1
      (and +inf) become 0.8, and values in [0, 1] are kept, so values in
      (0.8, 1] survive the upper limit. */
  lemma ClampKtRange(kt: Float)
    ensures ClampKt(kt).NaN? <==> kt.NaN?
    ensures !kt.NaN? ==> ClampKt(kt).Fin? && 0.0 <= ClampKt(kt).v <= 1.0
    ensures Less(kt, 0.0) ==> ClampKt(kt) == Fin(0.0)
    ensures Greater(kt, 1.0) ==> ClampKt(kt) == Fin(0.8)
    ensures kt.Fin? && 0.0 <= kt.v <= 1.0 ==> ClampKt(kt) == kt
  {
  }

  /** Clamping a second time changes nothing. */
  lemma ClampKtIdempotent(kt: Float)
    ensures ClampKt(ClampKt(kt)) == ClampKt(kt)
  {
    ClampKtRange(kt);
  }

  /** At night SWc and SWtoa are both 0, `kt = 0/0` is NaN, and neither
      clamp touches it. */
  lemma NightClearnessIsNaN()
    ensures ClampKt(Div(Fin(0.0), Fin(0.0))).NaN?
  {
  }

  /** `kt[kt<0]=0` and then `kt[kt>1]=0.8`, in place. */
  method ClampClearness(kt: array2<Float>)
    modifies kt
    ensures forall a, b :: 0 <= a < kt.Length0 && 0 <= b < kt.Length1 ==> kt[a, b] == ClampKt(old(kt[a, b]))
  {
    forall a, b | 0 <= a < kt.Length0 && 0 <= b < kt.Length1 && Less(kt[a, b], 0.0) {
      kt[a, b] := Fin(0.0);
    }
    forall a, b | 0 <= a < kt.Length0 && 0 <= b < kt.Length1 && Greater(kt[a, b], 1.0) {
      kt[a, b] := Fin(0.8);
    }
  }

  /** The shortwave components of one element: the clamped clearness index,
      the grid diffuse `kd*SWc` and direct `(1-kd)*SWc` parts and the point
      diffuse part `nan_to_num(SWcdiff)`. */
  datatype Components = Components(kt: Float, kd: Float, cdiff: Float, cdir: Float, fdiff: Float)

  /** The components for grid shortwave swc and top-of-atmosphere shortwave
      swtoa, with the diffuse fraction given as a function of kt. */
  function Split(swc: Float, swtoa: Float, diffuseFraction: Float -> Float): (r: Components)
    ensures r.fdiff.Fin?
    ensures r.kt.NaN? <==> Div(swc, swtoa).NaN?
  {
    var kt := ClampKt(Div(swc, swtoa));
    ClampKtRange(Div(swc, swtoa));
    var kd := diffuseFraction(kt);
    var cdiff := Mul(kd, swc);
    Components(kt, kd, cdiff, Mul(Sub(Fin(1.0), kd), swc), NanToNum(cdiff))
  }

  /** For any finite diffuse fraction the two grid parts add up to the grid
      shortwave. */
  lemma PartsAddUp(swc: Float, swtoa: Float, diffuseFraction: Float -> Float)
    requires swc.Fin? && diffuseFraction(ClampKt(Div(swc, swtoa))).Fin?
    ensures Add(Split(swc, swtoa, diffuseFraction).cdiff, Split(swc, swtoa, diffuseFraction).cdir) == swc
  {
    var r := Split(swc, swtoa, diffuseFraction);
    var k := r.kd.v;
    assert r.cdiff == Fin(k * swc.v);
    assert r.cdir == Fin((1.0 - k) * swc.v);
    assert k * swc.v + (1.0 - k) * swc.v == swc.v;
  }

  /** When the grid diffuse part is defined the point diffuse part equals it. */
  lemma PointDiffuseIsGridDiffuse(swc: Float, swtoa: Float, diffuseFraction: Float -> Float)
    requires Split(swc, swtoa, diffuseFraction).cdiff.Fin?
    ensures Split(swc, swtoa, diffuseFraction).fdiff == Split(swc, swtoa, diffuseFraction).cdiff
  {
  }

  /** At night (SWc = SWtoa = 0) kt is NaN; the regression propagates it
      (exp of NaN is NaN), so the grid diffuse part is NaN and the point
      diffuse part is 0. */
  lemma NightDiffuseIsZero(diffuseFraction: Float -> Float)
    requires diffuseFraction(NaN).NaN?
    ensures Split(Fin(0.0), Fin(0.0), diffuseFraction).cdiff.NaN?
    ensures Split(Fin(0.0), Fin(0.0), diffuseFraction).fdiff == Fin(0.0)
  {
    assert ClampKt(Div(Fin(0.0), Fin(0.0))) == NaN;
  }

  /** The grid shortwave block over (station, time) arrays: kt is computed
      and clamped in place, then SWcdiff, SWcdir and SWfdiff are computed
      elementwise. */
  method ShortwaveSplit(swc: array2<Float>, swtoa: array2<Float>, diffuseFraction: Float -> Float)
    returns (kt: array2<Float>, cdiff: array2<Float>, cdir: array2<Float>, fdiff: array2<Float>)
    requires swtoa.Length0 == swc.Length0 && swtoa.Length1 == swc.Length1
    ensures fresh(kt) && fresh(cdiff) && fresh(cdir) && fresh(fdiff)
    ensures kt.Length0 == cdiff.Length0 == cdir.Length0 == fdiff.Length0 == swc.Length0
    ensures kt.Length1 == cdiff.Length1 == cdir.Length1 == fdiff.Length1 == swc.Length1
    ensures forall a, b :: 0 <= a < swc.Length0 && 0 <= b < swc.Length1 ==>
      var r := Split(swc[a, b], swtoa[a, b], diffuseFraction);
      kt[a, b] == r.kt && cdiff[a, b] == r.cdiff && cdir[a, b] == r.cdir && fdiff[a, b] == r.fdiff
  {
    var n0, n1 := swc.Length0, swc.Length1;
    kt := new Float[n0, n1];
    forall a, b | 0 <= a < n0 && 0 <= b < n1 {
      kt[a, b] := Div(swc[a, b], swtoa[a, b]);
    }
    ClampClearness(kt);
    cdiff := new Float[n0, n1];
    cdir := new Float[n0, n1];
    fdiff := new Float[n0, n1];
    forall a, b | 0 <= a < n0 && 0 <= b < n1 {
      cdiff[a, b] := Mul(diffuseFraction(kt[a, b]), swc[a, b]);
    }
    forall a, b | 0 <= a < n0 && 0 <= b < n1 {
      cdir[a, b] := Mul(Sub(Fin(1.0), diffuseFraction(kt[a, b])), swc[a, b]);
    }
    forall a, b | 0 <= a < n0 && 0 <= b < n1 {
      fdiff[a, b] := NanToNum(cdiff[a, b]);
    }
  }
}
