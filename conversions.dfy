/** The unit conversions of tscale_cci.py:443-463, one element at a time:
    ERA5 accumulations become rates, geopotential becomes height. numpy
    applies each of them elementwise to whole arrays. */
module Conversions {

  /** Gravity used to turn geopotential into height (tscale_cci.py:168). */
  function Gravity(): real { 9.81 }

  /** `pmmhr = tp * 1000`: the accumulation in metres per timestep read as
      metres per hour and turned into millimetres per hour; the division by
      the step is disabled in the source. */
  function PrecipRate(tp: real): (mmhr: real)
    ensures mmhr / 1000.0 == tp
  {
    tp * 1000.0
  }

  /** `strd/3600`, `ssrd/3600`, `tisr/3600`: an accumulation in J/m2 over
      one hour becomes a mean flux in W/m2. */
  function FluxRate(acc: real): (w: real)
    ensures w * 3600.0 == acc
    ensures acc >= 0.0 ==> w >= 0.0
  {
    acc / 3600.0
  }

  /** `gridEle = z / g`: geopotential (m2/s2) to height (m). */
  function GridElevation(z: real): (h: real)
    ensures h * Gravity() == z
  {
    z / Gravity()
  }

  /** `psum = tp * 1000 * stephr`: the precipitation sum per timestep. */
  function PrecipSum(tp: real, stephr: real): (mm: real)
    ensures tp >= 0.0 && stephr >= 0.0 ==> mm >= 0.0
  {
    tp * 1000.0 * stephr
  }

  /** The precipitation sum is the rate times the step length in hours. */
  lemma PrecipSumIsRateTimesStep(tp: real, stephr: real)
    ensures PrecipSum(tp, stephr) == PrecipRate(tp) * stephr
  {
  }

  /** For non-zero precipitation the sum equals the accumulation of the
      timestep in millimetres exactly when the step is one hour; on a
      three-hourly axis it is three times the accumulation. */
  lemma PrecipSumIsAccumulationIff(tp: real, stephr: real)
    requires tp != 0.0
    ensures PrecipSum(tp, stephr) == tp * 1000.0 <==> stephr == 1.0
  {
    if PrecipSum(tp, stephr) == tp * 1000.0 {
      assert (tp * 1000.0) * stephr == (tp * 1000.0) * 1.0;
      CancelFactor(tp * 1000.0, stephr, 1.0);
    }
  }

  /** A non-zero factor cancels. */
  lemma CancelFactor(c: real, x: real, y: real)
    requires c != 0.0 && c * x == c * y
    ensures x == y
  {
    assert c * (x - y) == 0.0;
  }

  /** The fluxes are divided by 3600 whatever the step: a three-hourly
      accumulation of a constant flux f comes out as 3 f. */
  lemma FluxRateOfLongerStep(f: real, stepSeconds: real)
    ensures FluxRate(f * stepSeconds) == f * (stepSeconds / 3600.0)
  {
  }
}
