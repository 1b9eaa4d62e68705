# TopoSCALE-CCI core, modelled in Dafny

TopoSCALE-CCI downscales ERA5 reanalysis fields from the coarse
reanalysis grid to a set of points (stations or sub-grid cells). It uses
pressure-level and surface data. `tscale_cci.py` runs this for one time
window. `tscale_cci_run.py` calls it for every 8-day period of a range of
years.

The project models the discrete logic and the rational arithmetic of that
core, one module per block of the script:

- `Vertical` (vertical.dfy): bisect_left on each point's geopotential column
  and the linear interpolation between the bracketing levels, with the
  IndexError raised above the top level.
- `Hypsometric` (hypsometric.dfy): surface pressure at the point and grid
  scales. The level differences are masked in place with the sentinel
  999999, the overlying level is selected as the column minimum, and the
  rows of `psf`/`psc` are filled per timestep. The exponential formula is a
  function parameter.
- `Layout` (layout.dfy): the Fortran-order reshapes behind the boolean
  gathers of both pressure loops.
- `Shortwave` (shortwave.dfy): the clearness-index clamp, the split into
  diffuse and direct parts, and the night NaN replacement. The diffuse-
  fraction regression is a function parameter.
- `Longwave` (longwave.dfy): transfer of the grid's cloud emissivity to the
  point. The clear-sky emissivities are inputs.
- `Humidity` (humidity.dfy): `calc_Pw` with its scale detection, `calc_AH`,
  `ah_gm3_To_ah_kgkg`, `rh2sh`, and the relative-humidity cap.
- `Conversions` (conversions.dfy): the unit conversions of accumulated
  fluxes and precipitation.
- `Window` (window.dfy): lookup of the start and end timestamps, the
  half-open time slice, the step length and the output time axis.
- `Schedule` (schedule.dfy): the driver's loop over years and 46 periods.

Floating point is modelled by `Floats.Float`, which is a real number, an
infinity or NaN. Division by zero yields an infinity or NaN as in numpy.
Rounding is not modelled. Every array operation that numpy applies
elementwise is stated for every element.

## Model

| member | source | states |
|---|---|---|
| Floats.Div | tscale_cci.py:551 | numpy's division: a finite value over 0 is a signed infinity, 0/0 and anything involving NaN are NaN |
| Floats.NanToNum | tscale_cci.py:747 | `np.nan_to_num`: NaN becomes 0, the infinities the largest finite doubles, finite values are kept |
| Vertical.FirstAtOrAbove | tscale_cci.py:350 | the first index of the column whose value is at or above the point's geopotential, or the column length when there is none |
| Vertical.BisectSorted | tscale_cci.py:350 | on an ascending column the binary search of bisect_left finds the first level at or above the point |
| Vertical.BisectLeft | tscale_cci.py:350 | the halving loop returns the binary search's result; on an ascending column that is the first level at or above the point |
| Vertical.BisectFrom | tscale_cci.py:350 | bisect_left's binary search on [lo, hi): a middle value below the point moves lo past the middle, any other moves hi to it; its result lies in [lo, hi] and is the first level at or above the point on an ascending column (BisectSorted) |
| Vertical.UpperLevel | tscale_cci.py:350-351 | the upper bracketing level n of a point: bisect_left's result, with 0 advanced to 1; the lower level is n-1 |
| Vertical.Interpolate | tscale_cci.py:357-360 | `dG = (upperT-lowT)/(upperZ-lowZ)*(e-upperZ) + upperT` in IEEE arithmetic, so that a zero layer thickness gives inf or NaN; its meaning is in the Interpolate* lemmas |
| Vertical.ResolvePoint | tscale_cci.py:350-360 | one point's value: the interpolation between levels n-1 and n, or the IndexError when n is past the top level |
| Vertical.InterpolateStep | tscale_cci.py:348-362 | `pl_obs` of one timestep: every point's value in point order, or the IndexError as soon as one point has none |
| Vertical.InterpolateLevels | tscale_cci.py:348-362 | the per-point loop of one timestep gives every point's interpolated value, or the IndexError as soon as one point lies above the top level |
| Vertical.LevelSeries | tscale_cci.py:246-368 | the timestep loop succeeds exactly when the window has a timestep and every timestep succeeds, and then stacks each timestep's values in time order; an empty window is the IndexError of `sa_vec[:,1:]` |
| Vertical.ResolveDefinedIff | tscale_cci.py:350-356 | a point's value is defined exactly when the column has at least two levels and the point is not above the top level |
| Vertical.BracketEncloses | tscale_cci.py:350-353 | within the column's range the bracketing levels n-1 and n enclose the point, with 1 <= n < L |
| Vertical.BelowLowestUsesFirstPair | tscale_cci.py:350-353 | a point at or below the lowest level has its bisect_left result 0 advanced to 1, so it is bracketed by levels 0 and 1 |
| Vertical.InterpolateIsLine | tscale_cci.py:357-360 | with distinct level heights the formula is the straight line through the two level values |
| Vertical.InterpolateAtLevels | tscale_cci.py:357-360 | the formula gives lowT at lowZ and upperT at upperZ |
| Vertical.InterpolateBetween | tscale_cci.py:357-360 | between the two level heights the value lies between the two level values |
| Vertical.InterpolateDegenerate | tscale_cci.py:357-358 | two levels at the same height give inf or NaN, never a number |
| Vertical.ResolveWithinRange | tscale_cci.py:350-360 | within the column's range the point's value lies between the values of its bracketing levels (the two lowest levels may share a height unless the point sits on them) |
| Vertical.ResolveBelowExtrapolates | tscale_cci.py:350-360 | below the lowest level the value is the linear extrapolation of the two lowest levels |
| Hypsometric.Masked | tscale_cci.py:679 | one element of `newdz[newdz<0]=999999`: a negative difference becomes 999999, any other is kept |
| Hypsometric.MaskBelowSurface | tscale_cci.py:678-679 | the in-place masking sets every negative dz to 999999 and leaves every other entry unchanged |
| Hypsometric.OverlyingMask | tscale_cci.py:692 | the mask marks exactly the levels whose dz is a lower bound of the station's column |
| Hypsometric.AtMinimumIffLowest | tscale_cci.py:692 | a level equals the column minimum exactly when it is a lower bound of the column |
| Hypsometric.ArgMin | tscale_cci.py:692 | np.argmin of a column: a level holding a value no greater than any other, and the first such level |
| Hypsometric.SeqMin | tscale_cci.py:692 | np.min of a column: the value at ArgMin |
| Hypsometric.LevelPressure | tscale_cci.py:704 | p1 of level l in Pa: 100 times entry L-1-l of the level list, i.e. level l of `levels[::-1]` |
| Hypsometric.StationPressure | tscale_cci.py:692-707 | one station's pressure at one timestep: the hypsometric formula with p1, z1 and T1 at the selected level of the masked column, or the tie error when more than one level attains the minimum |
| Hypsometric.SelectsNearestOverlying | tscale_cci.py:675-692 | when some level lies at or above the target and below the sentinel 999999, the selected levels are exactly the nearest levels at or above it |
| Hypsometric.NoOverlyingSelectsAll | tscale_cci.py:678-692 | when no level lies at or above the target, every level is masked and every level is selected |
| Hypsometric.UniqueMinimumIff | tscale_cci.py:692-701 | the gather yields one level for a station exactly when no level other than the argmin attains the minimum |
| Hypsometric.UniqueWhenDistinct | tscale_cci.py:692-701 | distinct differences with an overlying level below the sentinel 999999 give a single selected level, the nearest one at or above the target |
| Hypsometric.StationAtNearestOverlying | tscale_cci.py:689-707 | when some level lies at or above the target and below the sentinel 999999 and the level heights are distinct, the station's pressure is defined and is taken at the nearest overlying level |
| Hypsometric.CollectIff | tscale_cci.py:689-707 | filling the rows succeeds exactly when every item does, and then keeps each item's value at its index |
| Hypsometric.CollectFails | tscale_cci.py:689-707 | one failing station or timestep makes the whole collection fail |
| Hypsometric.FineRowIff | tscale_cci.py:692-707 | row i of psf is defined exactly when every station has a single selected level, and then holds each station's pressure |
| Hypsometric.FineRowSpec | tscale_cci.py:692-707 | row i of psf: the stations' pressures in station order, or the tie error when any station has one |
| Hypsometric.FineDifferences | tscale_cci.py:675-679 | dz is ztemp minus the station geopotential, masked with the sentinel, element by element |
| Hypsometric.FineSliceIsMasked | tscale_cci.py:675-692 | after the masking, the dz column of station s at timestep i is the masked difference column of that station |
| Hypsometric.FineStationOfColumn | tscale_cci.py:692-707 | the value gathered from a station's masked column is that station's pressure |
| Hypsometric.FineRow | tscale_cci.py:692-707 | one loop pass computes row i of psf, or reports the tie that makes the row assignment fail |
| Hypsometric.FineRowOfColumns | tscale_cci.py:692-707 | the row built from the stations' masked columns is row i of psf |
| Hypsometric.StoreRow | tscale_cci.py:707 | `psf[i,:] = row` overwrites row i and keeps every other row |
| Hypsometric.FineRowsMatchAll | tscale_cci.py:689-707 | the rows stored so far are the rows psf defines for those timesteps |
| Hypsometric.FinePressure | tscale_cci.py:670-707 | the point-scale loop succeeds exactly when every timestep's row is defined, and psf then holds every station's pressure at every timestep |
| Hypsometric.CoarseRowIff | tscale_cci.py:767-784 | row i of psc is defined exactly when every grid column has a single selected level, and then holds each column's pressure |
| Hypsometric.CoarseRowSpec | tscale_cci.py:767-784 | row i of psc: the grid columns' pressures in order at the corrected selected-level read, or the tie error when any column has one |
| Hypsometric.CoarseDifferences | tscale_cci.py:755-761 | dz is ztemp minus the grid geopotential of the timestep, masked with the sentinel, element by element |
| Hypsometric.CoarseSliceIsMasked | tscale_cci.py:755-768 | after the masking, the dz column of station s at timestep i is the masked difference column |
| Hypsometric.CoarseStationOfColumn | tscale_cci.py:767-784 | the value gathered from a masked column is that station's grid pressure |
| Hypsometric.CoarseRow | tscale_cci.py:767-784 | one loop pass computes row i of psc, or reports the tie that makes the row assignment fail |
| Hypsometric.CoarseRowOfColumns | tscale_cci.py:767-784 | the row built from the masked columns is row i of psc |
| Hypsometric.CoarseRowsMatchAll | tscale_cci.py:764-784 | the rows stored so far are the rows psc defines for those timesteps |
| Hypsometric.CoarsePressure | tscale_cci.py:755-784 | the grid-scale loop succeeds exactly when every timestep's row is defined, and psc then holds every pressure, read at the selected level |
| Layout.MaskPosition | tscale_cci.py:695 | the position l + L·s of (level l, station s) in `thisp.reshape(thisp.size, order='F')` |
| Layout.FineGather | tscale_cci.py:697-701 | the element of the (T, L, S) array that `reshape(T, L*S, order='F')[i, thispVec]` reads for the entry (l, s) |
| Layout.TiledLevel | tscale_cci.py:704 | `np.tile(levels[::-1], S)` read at a mask position |
| Layout.CoarseGatherAsWritten | tscale_cci.py:773-779 | the element of the (L, T, S) array that the same (T, L·S) Fortran reshape and gather read, as written, for the entry (l, s) at timestep i |
| Layout.CoarseGather | tscale_cci.py:773-779 | the corrected grid-scale read: the element (l, i, s) after transposing to (T, L, S) first |
| Layout.UnflatFlat | tscale_cci.py:695-697 | Fortran-order unravelling of a flat position gives the (first, second, third) index back |
| Layout.StationsInOrder | tscale_cci.py:695 | in the flattened mask every entry of a station precedes every entry of a later station, so the gathered values come out in station order |
| Layout.TiledLevelOfEntry | tscale_cci.py:704 | `np.tile(levels[::-1], S)` gives the mask entry of level l the pressure of level L-1-l |
| Layout.FineGatherReadsSelected | tscale_cci.py:695-701 | at the point scale the reshaped gather reads Ttemp/ztemp at (timestep i, selected level, station) |
| Layout.CoarseGatherMisreads | tscale_cci.py:773-779 | with two levels and two timesteps, level 1 selected at timestep 0 is read as level 0 of timestep 1 |
| Layout.CoarseGatherWrongWhenLayered | tscale_cci.py:773-779 | with at least two levels and two timesteps the grid-scale gather misses level 1 of the first station at timestep 0 |
| Layout.CoarseGatherCorrectIff | tscale_cci.py:773-779 | the grid-scale gather reads the selected element (level l, timestep i) exactly when i (L - 1) == l (T - 1) |
| Layout.CoarseGatherAgreesWhenFlat | tscale_cci.py:773-779 | with one timestep or one level the grid-scale gather reads the selected element |
| Layout.CoarseGatherReadsSelected | tscale_cci.py:773-779 | the corrected grid-scale gather reads (selected level, timestep i, station) |
| Shortwave.ClampKt | tscale_cci.py:727-728 | one element of `kt[kt<0]=0` followed by `kt[kt>1]=0.8`, with NaN failing both comparisons |
| Shortwave.ClampKtRange | tscale_cci.py:727-728 | the clamp sends negatives to 0 and values above 1 to 0.8, keeps [0, 1], so the result is in [0, 1], and keeps NaN |
| Shortwave.ClampKtIdempotent | tscale_cci.py:727-728 | clamping a second time changes nothing |
| Shortwave.NightClearnessIsNaN | tscale_cci.py:723-728 | at night kt = 0/0 is NaN and neither clamp touches it |
| Shortwave.ClampClearness | tscale_cci.py:727-728 | the in-place clamps set every element to the clamp of its old value |
| Shortwave.Split | tscale_cci.py:723-748 | the `Components` of one element: clamped kt, kd = diffuseFraction(kt), grid diffuse `kd*SWc`, grid direct `(1-kd)*SWc` and point diffuse `nan_to_num(kd*SWc)`; the point diffuse part is always a number, and kt is NaN exactly when SWc/SWtoa is |
| Shortwave.PartsAddUp | tscale_cci.py:740-741 | for any finite diffuse fraction, diffuse plus direct is the grid shortwave |
| Shortwave.PointDiffuseIsGridDiffuse | tscale_cci.py:747-748 | where the grid diffuse part is a number, the point diffuse part equals it |
| Shortwave.NightDiffuseIsZero | tscale_cci.py:736-748 | at night the grid diffuse part is NaN and the point diffuse part is 0 |
| Shortwave.ShortwaveSplit | tscale_cci.py:723-748 | the block computes kt, SWcdiff, SWcdir and SWfdiff element by element as Split does |
| Longwave.BlackBody | tscale_cci.py:550-551 | `sbc * T**4` with sbc = 5.67e-8 |
| Longwave.AllSkyEmissivity | tscale_cci.py:551 | `aec = strd / (sbc * t2m**4)` in IEEE division |
| Longwave.Transfer | tscale_cci.py:558-565 | `(cef + (aec - cec)) * b` for the point's black-body emission b |
| Longwave.Lwin | tscale_cci.py:549-565 | the point's longwave: the grid's all-sky emissivity transferred to the point's clear-sky emissivity and temperature |
| Longwave.BlackBodySign | tscale_cci.py:550-551 | sbc T^4 is non-negative and zero only at 0 K |
| Longwave.AllSkyEmissivityRoundTrip | tscale_cci.py:550-551 | for a non-zero grid temperature the all-sky emissivity is finite and times sbc t2m^4 gives strd back |
| Longwave.CloudEmissivityTransferred | tscale_cci.py:558-565 | the point's cloud emissivity, lwin/(sbc t^4) - cef, is the grid's aec - cec |
| Longwave.LwinAtGridConditions | tscale_cci.py:551-565 | at the grid's own temperature and clear-sky emissivity the point gets the grid longwave |
| Longwave.LwinAtZeroGridTemperature | tscale_cci.py:551-565 | a grid temperature of 0 K leaves no finite longwave |
| Humidity.SeqMax | tscale_cci.py:88 | np.max is an element of the array and bounds every element |
| Humidity.Divider | tscale_cci.py:87-89 | `rhDividr`: 1 when the largest RH is below 2, 100 otherwise |
| Humidity.CalcPw | tscale_cci.py:75-92 | Pw is defined exactly for a non-empty array, with one value per element |
| Humidity.DividerIff | tscale_cci.py:87-89 | RH is read as a 0-1 field (divider 1) exactly when every value is below 2, else as percent (divider 100) |
| Humidity.PwFromFractions | tscale_cci.py:87-91 | when every RH is below 2, each Pw is RH * Pws |
| Humidity.PwFromPercent | tscale_cci.py:87-91 | when some RH reaches 2, each Pw is RH/100 * Pws: one decision covers every element |
| Humidity.PwSameOnBothScales | tscale_cci.py:87-91 | a percent field with some value of at least 2 % and the same field as fractions give the same Pw |
| Humidity.DryPercentReadAsFraction | tscale_cci.py:87-91 | a percent field below 2 % everywhere is read as fractions, so its Pw is 100 times too large |
| Humidity.CapRh | tscale_cci.py:831 | the capped RH is at most 100 and equals the input at or below 100 |
| Humidity.CapRhIdempotent | tscale_cci.py:831 | capping twice is capping once |
| Humidity.CapRelativeHumidity | tscale_cci.py:831 | the in-place cap sets every element to the cap of its old value |
| Humidity.CalcAh | tscale_cci.py:94-110 | `C * (Pw*100) / Tk` with C = 2.16679, in IEEE division |
| Humidity.CalcAhRoundTrip | tscale_cci.py:94-110 | for a non-zero temperature AH is finite and gives Pw back; at 0 K it is inf or NaN |
| Humidity.AirMass | tscale_cci.py:121-132 | `1.204 * (P_hpa/1013) * (293.15/Tk)`, the air mass of one cubic metre |
| Humidity.AhKgPerKg | tscale_cci.py:121-139 | `(ah_gm3 / mass_of_m3_air) / 1000` |
| Humidity.AhKgPerKgOfMass | tscale_cci.py:121-139 | with a finite non-zero air mass m the conversion is ah / (m * 1000) |
| Humidity.StandardAirMass | tscale_cci.py:126-132 | at 1013 hPa and 293.15 K the air mass is 1.204 kg/m3 |
| Humidity.AhKgPerKgRoundTrip | tscale_cci.py:121-139 | for positive pressure and temperature the conversion is finite and times the air mass and 1000 gives g/m3 back |
| Humidity.SpecificHumidity | tscale_cci.py:159-162 | `k * Pw / (P - (1-k) * Pw)` with k = 18.01528/28.9634, for one element |
| Humidity.SpecificHumidityBounds | tscale_cci.py:159-162 | a vapour pressure in [0, P) gives a specific humidity in [0, 1) |
| Humidity.SpecificHumidityRoundTrip | tscale_cci.py:159-162 | the specific humidity gives the vapour pressure back whenever the denominator is non-zero |
| Humidity.Rh2Sh | tscale_cci.py:142-163 | the (time, station) result pairs the transposed Pw with P element by element |
| Conversions.PrecipRate | tscale_cci.py:443-444 | the rate in mm/h is the accumulation in m times 1000 |
| Conversions.FluxRate | tscale_cci.py:457-459 | the flux times 3600 s is the accumulation, and is non-negative for a non-negative accumulation |
| Conversions.GridElevation | tscale_cci.py:461 | the grid height times g is the geopotential |
| Conversions.PrecipSum | tscale_cci.py:463 | the precipitation sum is non-negative for non-negative precipitation and step |
| Conversions.PrecipSumIsRateTimesStep | tscale_cci.py:462-463 | the sum per timestep is the rate times the step in hours |
| Conversions.PrecipSumIsAccumulationIff | tscale_cci.py:443-463 | for non-zero precipitation the sum equals the timestep's accumulation in mm exactly when the step is one hour |
| Conversions.FluxRateOfLongerStep | tscale_cci.py:457-459 | the fluxes are divided by 3600 whatever the step, so a 3-hourly accumulation gives three times the mean flux |
| Window.Where | tscale_cci.py:205-213 | np.where lists exactly the indices holding the timestamp, in increasing order |
| Window.Locate | tscale_cci.py:205-213 | the index of a timestamp on the axis, the missing-date exit when it does not occur, or the ValueError of `.item()` when it occurs more than once |
| Window.Slice | tscale_cci.py:221 | Python's slice `dtime[starti:endi]`, empty when the end index does not come after the start index |
| Window.LocateIff | tscale_cci.py:205-213 | a lookup succeeds exactly when the timestamp occurs once and then finds it; it reports a missing timestamp exactly when none occurs |
| Window.SelectWindow | tscale_cci.py:205-221 | on success the indices hold the start and end timestamps, the window is the slice between them, and the step in hours times 3600 is the difference of the second and third timestamps (equal to the as-written step below one day) |
| Window.SelectWindowIff | tscale_cci.py:205-221 | the run goes ahead exactly when both timestamps occur once on an axis of at least three entries, and stops on the missing one otherwise |
| Window.WindowIsHalfOpen | tscale_cci.py:221 | on an increasing axis the window holds exactly the timestamps t with start <= t < end, in order |
| Window.EmptyUnlessEndAfterStart | tscale_cci.py:221 | on an increasing axis the window is empty exactly when the end is not after the start |
| Window.OutputTimes | tscale_cci.py:821-823 | `rtime = range(n)*stephr`, one entry per timestep of the window; what it measures is stated by OutputTimesAreHoursSinceStart |
| Window.OutputTimesUniform | tscale_cci.py:823 | the output times start at 0 and advance by stephr |
| Window.OutputTimesAreHoursSinceStart | tscale_cci.py:821-823 | on an evenly spaced axis, entry k of the output time axis is the time in hours from the window's first timestamp to its k-th, the `hours since` of the written time units |
| Window.DailyOutputTimesAsWrittenAreZero | tscale_cci.py:217-223 | as written, a daily axis gives an output time axis of 0 at every timestep; with the whole step, entry k is 24k hours |
| Window.StepHoursAsWritten | tscale_cci.py:217-219 | `stephr = a.seconds/(60*60)`: the step in hours from the seconds part of the step only |
| Window.StepHours | tscale_cci.py:217-219 | the corrected step in hours, from the whole difference of the second and third timestamps |
| Window.TimedeltaSeconds | tscale_cci.py:218 | `timedelta.seconds` lies in [0, 86400) |
| Window.DailyStepAsWrittenIsZero | tscale_cci.py:217-219 | as written, a one-day step gives stephr 0 instead of 24 |
| Window.StepAgreesBelowOneDay | tscale_cci.py:217-219 | below one day the as-written step and the whole step agree |
| Window.StepHoursAsWrittenLosesDays | tscale_cci.py:217-219 | as written, a step of one day or more converts back to less than the step |
| Window.StepHoursRoundTrip | tscale_cci.py:217-219 | the corrected step in hours converts back to the step in seconds |
| Schedule.GeneratedStart | tscale_cci_run.py:40 | `pd.date_range(year-01-01, periods=46, freq='8d')[k]`: 1 January plus 8k days |
| Schedule.PeriodCall | tscale_cci_run.py:45-59 | the call of period k: the generated start and 9 days on, or for period 45, 23 December and 8 days on |
| Schedule.Calls | tscale_cci_run.py:36-59 | the calls of a range of years, year by year, each year's 46 calls in period order |
| Schedule.YearCalls | tscale_cci_run.py:40-59 | a year yields 46 calls, and call k is period k |
| Schedule.Run | tscale_cci_run.py:35-59 | the nested loops record exactly the calls of the years startYear..endYear in order |
| Schedule.CallsLayout | tscale_cci_run.py:36-42 | the schedule has 46 calls per year, and call 46 j + k is period k of year first + j |
| Schedule.RunCallsEveryPeriod | tscale_cci_run.py:36-59 | every period of every year startYear..endYear is called, with its start, end and index in that order |
| Schedule.NoYearsNoCalls | tscale_cci_run.py:36 | an empty range of years makes no call |
| Schedule.OrdinaryPeriod | tscale_cci_run.py:40-55 | an ordinary period starts 8 k days after 1 January and ends 9 days later |
| Schedule.ConsecutiveOverlap | tscale_cci_run.py:40-55 | consecutive ordinary periods overlap by one day |
| Schedule.December23 | tscale_cci_run.py:48-51 | 23 December is 9 days before the end of the year, and 31 December is its last day |
| Schedule.LastPeriodIsDecember | tscale_cci_run.py:48-51 | the last period runs from 23 December to 31 December and replaces the generated start |
| Schedule.YearCoverage | tscale_cci_run.py:40-59 | a day is processed by some period exactly when it is before 31 December |

## Left out

- NetCDF and pandas I/O are not modelled. This covers opening datasets, decoding the time units, reading the coordinates CSV, creating directories and the writer loop (tscale_cci.py:192-203, 865-926).
- The horizontal interpolation with `RegularGridInterpolator` (tscale_cci.py:332-338, 413-415, 614-619) is a library call. The model takes its results, the level columns at each point, as inputs.
- Level columns are real numbers, that is, every point lies inside the reanalysis grid. With `bounds_error=False` (tscale_cci.py:333, 335, 615, 617) a point outside the grid gets all-NaN columns. bisect_left then returns 0, bumped to 1, and every interpolated value is NaN instead of an error. In the pressure loops `np.min` is NaN, no level is selected, and the gather comes out short. None of this is modelled.
- The second interpolation block for surface variables (tscale_cci.py:372-424) repeats the same timestep loop without the vertical search. It is not modelled separately.
- `solarGeom`, `helper` and the direct-beam shortwave (tscale_cci.py:789-815) call modules that are not part of this model.
- `calc_Pws` (a power of ten), the Magnus inversion and the Konzelmann clear-sky emissivities (fractional powers), the exponential of the hypsometric equation, the Ruiz-Arias regression and the wind-speed square root are not modelled. They are transcendental, so they enter as inputs or as function parameters (`hyps`, `diffuseFraction`).
- Floats: rounding, single-precision casts (`np.single`, tscale_cci.py:830-834), signed zero and overflow are not modelled. Values are exact reals with explicit infinities and NaN.
- Humidity.CalcPw: NaN inside the RH array is not modelled. With a NaN, `np.max` is NaN and the field is read as percent.
- Schedule.Run: the three paths passed to every call, the string form of the start date and `tqdm` are left out. The calls are recorded as values instead of being made.
- Window.SelectWindow: the date strings are taken as timestamps in seconds. Parsing them is not modelled.
- Window.SelectWindow: the step is the corrected whole step `StepHours`, not the as-written `a.seconds/(60*60)`. The two agree on steps below one day (Window.StepAgreesBelowOneDay); from one day on the source's step is wrong (see Findings).
- Vertical.LevelSeries: the initial zero column of `sa_vec`, dropped by `sa_vec[:,1:]` after the loop, is not carried along. The result is the stack of per-timestep vectors, and an empty window is reported as the error that drop raises.
- Hypsometric.FinePressure and the Coarse* members of Hypsometric (CoarseRow, CoarseRowIff, CoarseStationOfColumn, CoarseRowOfColumns, CoarseRowsMatchAll, CoarsePressure): they read the selected level directly, as the corrected gathers of `Layout` do. The as-written grid-scale gather is modelled in `Layout` only (see Findings).
- The dead code after `return` in `calc_AH` (tscale_cci.py:113-119) and the commented-out precipitation lapse rate (tscale_cci.py:481-504) are never run, so they are not modelled.
- The clearness index is not confined to [0, 0.8]: the code keeps values in (0.8, 1] and NaN. The model follows the code.

## Findings

| source | as written | input that shows it | evidently intended | confidence | as-written member | corrected member |
|---|---|---|---|---|---|---|
| tscale_cci.py:773-779 | The grid-scale arrays are (level, time, station). They are reshaped to (time, level*station) in Fortran order as at the point scale, where the arrays are (time, level, station). The gather `TtempVec[i, thispVec]` therefore reads the wrong element. | 2 levels, 2 timesteps, 1 station, level 1 selected at timestep 0: the gather reads level 0 of timestep 1 | read T and z at the selected level of timestep i, as the point-scale gather does | not executed | Layout.CoarseGatherAsWritten (Layout.CoarseGatherMisreads, Layout.CoarseGatherWrongWhenLayered, Layout.CoarseGatherCorrectIff) | Layout.CoarseGather (Layout.CoarseGatherReadsSelected) |
| tscale_cci.py:217-219, 822 | `stephr = a.seconds/(60*60)` uses the seconds part of the timedelta, which drops whole days | a daily time axis, step 86400 s: stephr is 0 instead of 24 | the whole step in hours, `a.total_seconds()/3600` | not executed | Window.StepHoursAsWritten (Window.DailyStepAsWrittenIsZero, Window.StepHoursAsWrittenLosesDays) | Window.StepHours (Window.StepHoursRoundTrip) |
