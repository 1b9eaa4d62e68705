/** The time window of one run (tscale_cci.py:199-221 and 821-823). The
    dataset's time axis is a sequence of timestamps, counted in seconds; the
    requested start and end timestamps must each occur in it exactly once,
    the step length is read from the second and third entries, and the
    window processed is the half-open slice from the start index to the end
    index. Parsing the date strings and decoding the netCDF time units are
    not part of this model. */
module Window {
  import opened Outcomes

  /** Why a run stops before any downscaling: `sys.exit` when a timestamp
      is missing, the ValueError of `.item()` when it occurs more than once,
      or the IndexError of `dtime[2]` on an axis with fewer than three
      entries. */
  datatype WindowError = StartMissing | StartRepeated | EndMissing | EndRepeated | AxisTooShort

  /** `np.where(dtime == t)[0]`: the indices holding t, in increasing order. */
  function Where(axis: seq<int>, t: int): (idx: seq<nat>)
    ensures forall k :: 0 <= k < |idx| ==> idx[k] < |axis| && axis[idx[k]] == t
    ensures forall i :: 0 <= i < |axis| && axis[i] == t ==> i in idx
    ensures forall j, k :: 0 <= j < k < |idx| ==> idx[j] < idx[k]
    decreases |axis|
  {
    if |axis| == 0 then []
    else
      var prefix := Where(axis[..|axis| - 1], t);
      if axis[|axis| - 1] == t then prefix + [|axis| - 1] else prefix
  }

  /** The index of t on the axis, or the error raised when it occurs zero
      times or more than once. */
  function Locate(axis: seq<int>, t: int, missing: WindowError, repeated: WindowError): Result<nat, WindowError>
  {
    var idx := Where(axis, t);
    if |idx| == 0 then Err(missing)
    else if |idx| > 1 then Err(repeated)
    else Ok(idx[0])
  }

  /** `datetime.timedelta.seconds`: the seconds part of a difference, what
      is left after whole days are taken out (Python normalises a negative
      difference to negative days plus a non-negative seconds part). */
  function TimedeltaSeconds(d: int): (s: int)
    ensures 0 <= s < 86400
  {
    d % 86400
  }

  /** `stephr = a.seconds/(60*60)` as written: the step in hours, from the
      seconds part of the step only. */
  function StepHoursAsWritten(d: int): real
  {
    TimedeltaSeconds(d) as real / 3600.0
  }

  /** The step in hours from the whole difference (`a.total_seconds()/3600`). */
  function StepHours(d: int): real
  {
    d as real / 3600.0
  }

  /** `dtime[starti:endi]`: Python's slice, empty when the end index does not
      come after the start index. */
  function Slice(axis: seq<int>, lo: nat, hi: nat): (w: seq<int>)
    requires lo <= |axis| && hi <= |axis|
    ensures |w| == if lo <= hi then hi - lo else 0
    ensures forall k :: 0 <= k < |w| ==> w[k] == axis[lo + k]
  {
    if lo <= hi then axis[lo..hi] else []
  }

  /** What the run works on: the start and end indices, the timestamps of
      the window and the step length in hours. */
  datatype Span = Span(starti: nat, endi: nat, times: seq<int>, stephr: real)

  /** The lookups and the slice of tscale_cci.py:205-221, in their order.
      The step is the corrected whole step in hours (`StepHours`): it
      converts back to the difference of the second and third timestamps,
      and it equals the as-written `a.seconds/(60*60)` whenever that
      difference is below one day, as on hourly and three-hourly axes. */
  function SelectWindow(axis: seq<int>, startDT: int, endDT: int): (r: Result<Span, WindowError>)
    ensures r.Ok? ==> r.value.starti < |axis| && r.value.endi < |axis|
    ensures r.Ok? ==> axis[r.value.starti] == startDT && axis[r.value.endi] == endDT
    ensures r.Ok? ==> r.value.times == Slice(axis, r.value.starti, r.value.endi)
    ensures r.Ok? ==> |axis| >= 3 && r.value.stephr * 3600.0 == (axis[2] - axis[1]) as real
    ensures r.Ok? && |axis| >= 3 && 0 <= axis[2] - axis[1] < 86400 ==>
      r.value.stephr == StepHoursAsWritten(axis[2] - axis[1])
  {
    match Locate(axis, startDT, StartMissing, StartRepeated)
    case Err(e) => Err(e)
    case Ok(starti) =>
      match Locate(axis, endDT, EndMissing, EndRepeated)
      case Err(e) => Err(e)
      case Ok(endi) =>
        if |axis| < 3 then Err(AxisTooShort)
        else Ok(Span(starti, endi, Slice(axis, starti, endi), StepHours(axis[2] - axis[1])))
  }

  /** `rtime = np.array(list(range(len(gsob.dtime))))*stephr`: the output
      time axis, hours since the first timestep of the window on an evenly
      spaced axis (`OutputTimesAreHoursSinceStart`). */
  function OutputTimes(n: nat, stephr: real): (rtime: seq<real>)
    ensures |rtime| == n
    ensures forall k :: 0 <= k < n ==> rtime[k] == k as real * stephr
  {
    seq(n, k requires 0 <= k < n => k as real * stephr)
  }

  // ---------------------------------------------------------------------
  // Properties

  /** The axis holds t exactly once. */
  predicate OccursOnce(axis: seq<int>, t: int)
  {
    exists i :: 0 <= i < |axis| && axis[i] == t &&
      forall j :: 0 <= j < |axis| && axis[j] == t ==> j == i
  }

  /** A lookup succeeds exactly when t occurs once, and then finds it. */
  lemma LocateIff(axis: seq<int>, t: int, missing: WindowError, repeated: WindowError)
    requires missing != repeated
    ensures Locate(axis, t, missing, repeated).Ok? <==> OccursOnce(axis, t)
    ensures Locate(axis, t, missing, repeated) == Err(missing) <==> forall i :: 0 <= i < |axis| ==> axis[i] != t
    ensures Locate(axis, t, missing, repeated).Ok? ==> axis[Locate(axis, t, missing, repeated).value] == t
  {
    var idx := Where(axis, t);
    if |idx| == 1 {
      forall j | 0 <= j < |axis| && axis[j] == t
        ensures j == idx[0]
      {
        assert j in idx;
      }
    }
    if |idx| > 1 {
      var a, b := idx[0], idx[1];
      assert axis[a] == t && axis[b] == t && a != b;
    }
  }

  /** The run goes ahead exactly when both timestamps occur once on an axis
      of at least three entries. */
  lemma SelectWindowIff(axis: seq<int>, startDT: int, endDT: int)
    ensures SelectWindow(axis, startDT, endDT).Ok? <==>
      OccursOnce(axis, startDT) && OccursOnce(axis, endDT) && |axis| >= 3
    ensures (forall i :: 0 <= i < |axis| ==> axis[i] != startDT) ==>
      SelectWindow(axis, startDT, endDT) == Err(StartMissing)
    ensures OccursOnce(axis, startDT) && (forall i :: 0 <= i < |axis| ==> axis[i] != endDT) ==>
      SelectWindow(axis, startDT, endDT) == Err(EndMissing)
  {
    LocateIff(axis, startDT, StartMissing, StartRepeated);
    LocateIff(axis, endDT, EndMissing, EndRepeated);
  }

  predicate StrictlyIncreasing(axis: seq<int>)
  {
    forall i, j :: 0 <= i < j < |axis| ==> axis[i] < axis[j]
  }

  /** On a strictly increasing axis the window holds exactly the timestamps
      t of the axis with startDT <= t < endDT, in axis order: the end
      timestamp itself is not processed. */
  lemma WindowIsHalfOpen(axis: seq<int>, startDT: int, endDT: int)
    requires StrictlyIncreasing(axis)
    requires SelectWindow(axis, startDT, endDT).Ok?
    ensures var w := SelectWindow(axis, startDT, endDT).value.times;
      (forall k :: 0 <= k < |w| ==> startDT <= w[k] < endDT) &&
      (forall i :: 0 <= i < |axis| && startDT <= axis[i] < endDT ==> axis[i] in w) &&
      StrictlyIncreasing(w)
  {
    var s := SelectWindow(axis, startDT, endDT).value;
    var w := s.times;
    forall i | 0 <= i < |axis| && startDT <= axis[i] < endDT
      ensures axis[i] in w
    {
      IndexOrder(axis, s.starti, i);
      IndexOrder(axis, i, s.endi);
      assert w[i - s.starti] == axis[i];
    }
  }

  /** On a strictly increasing axis the order of two values is the order
      of their indices. */
  lemma IndexOrder(axis: seq<int>, i: nat, j: nat)
    requires StrictlyIncreasing(axis) && i < |axis| && j < |axis|
    ensures axis[i] < axis[j] <==> i < j
    ensures axis[i] <= axis[j] <==> i <= j
  {
  }

  /** A window whose end comes first on the axis is empty, and so is one that
      starts and ends on the same timestamp. */
  lemma EmptyUnlessEndAfterStart(axis: seq<int>, startDT: int, endDT: int)
    requires StrictlyIncreasing(axis)
    requires SelectWindow(axis, startDT, endDT).Ok?
    ensures SelectWindow(axis, startDT, endDT).value.times == [] <==> endDT <= startDT
  {
    var s := SelectWindow(axis, startDT, endDT).value;
    IndexOrder(axis, s.starti, s.endi);
  }

  /** The output time axis starts at 0 and advances by one step per
      timestep of the window. */
  lemma OutputTimesUniform(n: nat, stephr: real, k: nat)
    requires k + 1 < n
    ensures OutputTimes(n, stephr)[0] == 0.0
    ensures OutputTimes(n, stephr)[k + 1] - OutputTimes(n, stephr)[k] == stephr
  {
  }

  /** Consecutive timestamps of the axis are d seconds apart. */
  predicate EvenlySpaced(axis: seq<int>, d: int)
  {
    forall j :: 0 <= j < |axis| - 1 ==> axis[j + 1] - axis[j] == d
  }

  /** On an evenly spaced axis, k steps after index lo lie k·d seconds on. */
  lemma {:induction false} EvenOffset(axis: seq<int>, d: int, lo: nat, k: nat)
    requires EvenlySpaced(axis, d) && lo + k < |axis|
    ensures axis[lo + k] - axis[lo] == k * d
    decreases k
  {
    if k > 0 {
      EvenOffset(axis, d, lo, k - 1);
      assert axis[lo + k] - axis[lo + k - 1] == d;
    }
  }

  lemma CastProduct(k: int, d: int)
    ensures (k * d) as real == k as real * d as real
  {
  }

  /** The output time axis is the one the writer labels `hours since` the
      window's first timestamp (tscale_cci.py:925): on an evenly spaced
      axis, entry k times 3600 is the number of seconds from the first
      timestamp of the window to its k-th. */
  lemma OutputTimesAreHoursSinceStart(axis: seq<int>, startDT: int, endDT: int, k: nat)
    requires |axis| >= 3 && EvenlySpaced(axis, axis[2] - axis[1])
    requires SelectWindow(axis, startDT, endDT).Ok?
    requires k < |SelectWindow(axis, startDT, endDT).value.times|
    ensures var w := SelectWindow(axis, startDT, endDT).value;
      OutputTimes(|w.times|, w.stephr)[k] * 3600.0 == (w.times[k] - w.times[0]) as real
  {
    var w := SelectWindow(axis, startDT, endDT).value;
    var d := axis[2] - axis[1];
    EvenOffset(axis, d, w.starti, k);
    CastProduct(k, d);
    calc {
      OutputTimes(|w.times|, w.stephr)[k] * 3600.0;
      (k as real * w.stephr) * 3600.0;
      k as real * (w.stephr * 3600.0);
      k as real * d as real;
      (k * d) as real;
      (w.times[k] - w.times[0]) as real;
    }
  }

  /** As written, a daily axis gives an output time axis that is 0 at every
      timestep, while the corrected one advances by 24 hours a day. */
  lemma DailyOutputTimesAsWrittenAreZero(n: nat, k: nat)
    requires k < n
    ensures OutputTimes(n, StepHoursAsWritten(86400))[k] == 0.0
    ensures OutputTimes(n, StepHours(86400))[k] == 24.0 * k as real
  {
    DailyStepAsWrittenIsZero();
  }

  // ---------------------------------------------------------------------
  // The step length

  /** As written, a daily axis gets a step of 0 hours: `a.seconds` is the
      seconds part of one day and zero whole days, i.e. 0. */
  lemma DailyStepAsWrittenIsZero()
    ensures StepHoursAsWritten(86400) == 0.0
    ensures StepHours(86400) == 24.0
  {
  }

  /** Below a day both readings agree, so the hourly and three-hourly axes
      the model is fed with get the same step either way. */
  lemma StepAgreesBelowOneDay(d: int)
    requires 0 <= d < 86400
    ensures StepHoursAsWritten(d) == StepHours(d)
  {
  }

  /** The step in hours converts back to the difference in seconds, for
      any step length. */
  lemma StepHoursRoundTrip(d: int)
    ensures StepHours(d) * 3600.0 == d as real
  {
  }

  /** As written, the step converts back only for steps below a day: from
      one day on, the whole days are lost. */
  lemma StepHoursAsWrittenLosesDays(d: int)
    requires d >= 86400
    ensures StepHoursAsWritten(d) * 3600.0 < d as real
  {
  }
}
