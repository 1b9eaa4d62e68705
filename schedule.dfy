/** The multi-year driver of tscale_cci_run.py:35-59. For every year from
    startYear to endYear it calls the downscaling run 46 times: period k
    (startIndex k) starts on 1 January plus 8 k days and covers 9 days, so
    consecutive periods overlap by one day, except the last period, which
    starts on 23 December and covers 8 days, up to 31 December. The runs
    themselves are recorded as a list of calls. Dates are days counted from
    1 January of their year on the Gregorian calendar pandas uses. */
module Schedule {

  /** The day `offset` days after 1 January of `year`. */
  datatype Date = Date(year: int, offset: int)

  /** One call `tscale_cci.main(coords, eraDir, outDir, str(start), str(end),
      startIndex)`; the three paths are the same in every call and are left
      out. */
  datatype Call = Call(start: Date, end: Date, startIndex: nat)

  /** The number of periods per year (`periods=46`). */
  const PeriodsPerYear: nat := 46

  /** The index of the last period, which is moved to 23 December. */
  const LastPeriod: nat := 45

  predicate IsLeap(year: int)
  {
    year % 4 == 0 && (year % 100 != 0 || year % 400 == 0)
  }

  function DaysInYear(year: int): nat
  {
    if IsLeap(year) then 366 else 365
  }

  /** Days from 1 January to the first day of each month (1-based) of a
      common year; a leap year adds 29 February before March. */
  function DaysBeforeMonth(year: int, month: nat): nat
    requires 1 <= month <= 12
  {
    [0, 31, 59, 90, 120, 151, 181, 212, 243, 273, 304, 334][month - 1] +
    (if IsLeap(year) && month > 2 then 1 else 0)
  }

  /** The date for day `day` (1-based) of month `month` (1-based). */
  function CalendarDate(year: int, month: nat, day: nat): Date
    requires 1 <= month <= 12 && 1 <= day
  {
    Date(year, DaysBeforeMonth(year, month) + day - 1)
  }

  function AddDays(d: Date, n: int): Date
  {
    Date(d.year, d.offset + n)
  }

  /** `pd.date_range(str(year)+'-01-01', periods=46, freq='8d')[k]`. */
  function GeneratedStart(year: int, k: nat): Date
  {
    Date(year, 8 * k)
  }

  /** The call for period k of a year: the generated start and 9 days, or,
      for the last period, 23 December and 8 days. */
  function PeriodCall(year: int, k: nat): Call
  {
    if k == LastPeriod then
      var start := CalendarDate(year, 12, 23);
      Call(start, AddDays(start, 8), k)
    else
      var start := GeneratedStart(year, k);
      Call(start, AddDays(start, 9), k)
  }

  /** The calls of one year, in period order. */
  function YearCalls(year: int): (calls: seq<Call>)
    ensures |calls| == PeriodsPerYear
    ensures forall k :: 0 <= k < PeriodsPerYear ==> calls[k] == PeriodCall(year, k)
  {
    seq(PeriodsPerYear, k requires 0 <= k < PeriodsPerYear => PeriodCall(year, k))
  }

  /** The calls of the years from `first` up to, not including, `stop`. */
  function Calls(first: int, stop: int): seq<Call>
    decreases stop - first
  {
    if stop <= first then [] else Calls(first, stop - 1) + YearCalls(stop - 1)
  }

  /** `main(coords, eraDir, outDir, startYear, endYear)`: the year loop and
      the period loop, recording each call in order. */
  method Run(startYear: int, endYear: int) returns (calls: seq<Call>)
    ensures calls == Calls(startYear, endYear + 1)
  {
    calls := [];
    var year := startYear;
    while year <= endYear
      invariant startYear <= year || endYear < startYear
      invariant year <= endYear + 1 || endYear < startYear
      invariant calls == (if endYear < startYear then [] else Calls(startYear, year))
      decreases endYear + 1 - year
    {
      var startIndex := 0;
      var yearCalls: seq<Call> := [];
      while startIndex < PeriodsPerYear
        invariant 0 <= startIndex <= PeriodsPerYear
        invariant yearCalls == YearCalls(year)[..startIndex]
      {
        var start := GeneratedStart(year, startIndex);
        var end := start;
        if startIndex == LastPeriod {
          start := CalendarDate(year, 12, 23);
          end := AddDays(start, 8);
        }
        if startIndex < LastPeriod {
          end := AddDays(start, 9);
        }
        yearCalls := yearCalls + [Call(start, end, startIndex)];
        startIndex := startIndex + 1;
      }
      calls := calls + yearCalls;
      year := year + 1;
    }
  }

  // ---------------------------------------------------------------------
  // Properties

  /** The schedule has 46 calls per year, and call 46 j + k is period k of
      year first + j: the years in ascending order, each with its periods
      0..45 in order. */
  lemma {:induction false} CallsLayout(first: int, stop: int)
    ensures |Calls(first, stop)| == PeriodsPerYear * (if stop <= first then 0 else stop - first)
    ensures forall y, k :: first <= y < stop && 0 <= k < PeriodsPerYear ==>
      PeriodsPerYear * (y - first) + k < |Calls(first, stop)| &&
      Calls(first, stop)[PeriodsPerYear * (y - first) + k] == PeriodCall(y, k)
    decreases stop - first
  {
    if first < stop {
      CallsLayout(first, stop - 1);
      var prefix := Calls(first, stop - 1);
      var last := YearCalls(stop - 1);
      assert |prefix| == PeriodsPerYear * (stop - 1 - first);
      forall y, k | first <= y < stop && 0 <= k < PeriodsPerYear
        ensures PeriodsPerYear * (y - first) + k < |Calls(first, stop)|
        ensures Calls(first, stop)[PeriodsPerYear * (y - first) + k] == PeriodCall(y, k)
      {
        var j := y - first;
        if y < stop - 1 {
          assert PeriodsPerYear * j + k < |prefix| by {
            assert PeriodsPerYear * j + k < PeriodsPerYear * (j + 1);
            MulMonotone(j + 1, stop - 1 - first);
          }
        } else {
          assert PeriodsPerYear * j == |prefix|;
          assert Calls(first, stop)[PeriodsPerYear * j + k] == last[k];
        }
      }
    }
  }

  /** 46 a <= 46 b when a <= b. */
  lemma MulMonotone(a: int, b: int)
    requires a <= b
    ensures PeriodsPerYear * a <= PeriodsPerYear * b
  {
  }

  /** Every call passes its period's start, end and index, in that order,
      and the years run are exactly startYear..endYear. */
  lemma RunCallsEveryPeriod(startYear: int, endYear: int, year: int, k: nat)
    requires startYear <= year <= endYear && k < PeriodsPerYear
    ensures var calls := Calls(startYear, endYear + 1);
      |calls| == PeriodsPerYear * (endYear - startYear + 1) &&
      calls[PeriodsPerYear * (year - startYear) + k] == PeriodCall(year, k)
  {
    CallsLayout(startYear, endYear + 1);
  }

  /** An empty range of years makes no call. */
  lemma NoYearsNoCalls(startYear: int, endYear: int)
    requires endYear < startYear
    ensures Calls(startYear, endYear + 1) == []
  {
  }

  /** An ordinary period starts 8 k days after 1 January and covers 9 days. */
  lemma OrdinaryPeriod(year: int, k: nat)
    requires k < LastPeriod
    ensures PeriodCall(year, k).start == Date(year, 8 * k)
    ensures PeriodCall(year, k).end.offset - PeriodCall(year, k).start.offset == 9
    ensures PeriodCall(year, k).end.year == year && PeriodCall(year, k).startIndex == k
  {
  }

  /** Consecutive ordinary periods overlap by one day: the end of period k
      is one day after the start of period k + 1. */
  lemma ConsecutiveOverlap(year: int, k: nat)
    requires k + 1 < LastPeriod
    ensures PeriodCall(year, k).end.offset == PeriodCall(year, k + 1).start.offset + 1
  {
  }

  /** 23 December is the ninth day from the end of the year. */
  lemma December23(year: int)
    ensures CalendarDate(year, 12, 23).offset == DaysInYear(year) - 9
    ensures CalendarDate(year, 12, 31).offset == DaysInYear(year) - 1
  {
  }

  /** The last period starts on 23 December, ends 8 days later on 31
      December, and replaces the generated date (1 January + 360 days). */
  lemma LastPeriodIsDecember(year: int)
    ensures PeriodCall(year, LastPeriod).start == CalendarDate(year, 12, 23)
    ensures PeriodCall(year, LastPeriod).end == CalendarDate(year, 12, 31)
    ensures PeriodCall(year, LastPeriod).start != GeneratedStart(year, LastPeriod)
  {
    December23(year);
  }

  /** A run processes the half-open window [start, end): day d of the year
      is processed by period k exactly when start <= d < end. */
  predicate Covers(c: Call, d: int)
  {
    c.start.offset <= d < c.end.offset
  }

  /** Every day of the year up to 30 December is processed by some period,
      but 31 December by none: each window stops before its end date, and
      the last one ends on 31 December. */
  lemma YearCoverage(year: int, d: int)
    requires 0 <= d < DaysInYear(year)
    ensures (exists k :: 0 <= k < PeriodsPerYear && Covers(PeriodCall(year, k), d)) <==>
      d < DaysInYear(year) - 1
  {
    December23(year);
    if d < DaysInYear(year) - 1 {
      if d < 8 * LastPeriod {
        var k := d / 8;
        assert Covers(PeriodCall(year, k), d);
      } else {
        assert Covers(PeriodCall(year, LastPeriod), d);
      }
    } else {
      forall k | 0 <= k < PeriodsPerYear
        ensures !Covers(PeriodCall(year, k), d)
      {
      }
    }
  }
}
