/** `julian_to_datetime`: an ARGO JULD value is a count of days (possibly
    fractional) since the reference date 1950-01-01T00:00:00; a value of at
    least 999999 is the fill value and decodes to "missing" (None). */
module Julian {
  import opened Wrappers
  import opened Floats
  import Calendar

  const MicrosPerDay: int := 86400000000

  /** Day numbers of 0001-01-01 (`datetime.min`) and of 10000-01-01, the day
      after `datetime.max`: a datetime lies in [FirstDay, EndDay) days. */
  const FirstDay: int := -711857
  const EndDay: int := 2940202

  /** A `datetime.datetime`, as microseconds since 1950-01-01T00:00:00. */
  datatype Instant = Instant(micros: int)

  /** The range of `datetime.datetime`, in microseconds. */
  predicate InDatetimeRange(m: int) {
    FirstDay * MicrosPerDay <= m < EndDay * MicrosPerDay
  }

  /** `t.date()`, as a day number (floor division: the day that contains t). */
  function Day(t: Instant): (d: int)
    ensures d * MicrosPerDay <= t.micros < (d + 1) * MicrosPerDay
  {
    t.micros / MicrosPerDay
  }

  /** The input shapes the function distinguishes: what `np.isscalar` accepts
      (a Python or NumPy scalar), a 0-d NumPy array, and a 1-d array. */
  datatype JuldInput = Scalar(x: Double) | ZeroDim(x: Double) | OneDim(xs: seq<Double>)

  /** A single value for a scalar input, an array of values otherwise. */
  datatype Decoded = Single(t: Option<Instant>) | Many(ts: seq<Option<Instant>>)

  /** Python's rounding of fractional microseconds in `timedelta`: to the
      nearest integer, ties to the even one. */
  function RoundHalfEven(x: real): (n: int)
    ensures -1.0 / 2.0 <= n as real - x <= 1.0 / 2.0
    ensures (n as real - x == 1.0 / 2.0 || x - n as real == 1.0 / 2.0) ==> n % 2 == 0
  {
    var f := x.Floor;
    var frac := x - f as real;
    if frac < 1.0 / 2.0 then f
    else if frac > 1.0 / 2.0 then f + 1
    else if f % 2 == 0 then f else f + 1
  }

  /** Changing the input never moves the rounded value the other way. */
  lemma {:induction false} RoundHalfEvenMonotone(x: real, y: real)
    requires x <= y
    ensures RoundHalfEven(x) <= RoundHalfEven(y)
  {
    var fx, fy := x.Floor, y.Floor;
    assert fx <= fy;
    if fx == fy {
      assert x - fx as real <= y - fy as real;
    }
  }

  /** Integers round to themselves. */
  lemma RoundHalfEvenOfInt(n: int)
    ensures RoundHalfEven(n as real) == n
  {
    assert (n as real).Floor == n;
  }

  /** Line 46 on one element: a fill value (>= 999999, +inf included)
      becomes NaN; every other value is kept. */
  function MaskFill(x: Double): (y: Double)
    ensures y.NaN? <==> x.NaN? || AtLeast(x, JuldFillValue)
    ensures !AtLeast(x, JuldFillValue) ==> y == x
  {
    if AtLeast(x, JuldFillValue) then NaN else x
  }

  /** The fill replacement applied to every element. */
  function MaskFillAll(xs: seq<Double>): (ys: seq<Double>)
    ensures |ys| == |xs|
  {
    seq(|xs|, i requires 0 <= i < |xs| => MaskFill(xs[i]))
  }

  /** `juld_array[juld_array >= 999999] = np.nan`, in place. */
  method MaskFillValues(a: array<Double>)
    modifies a
    ensures a[..] == MaskFillAll(old(a[..]))
  {
    var i := 0;
    while i < a.Length
      invariant 0 <= i <= a.Length
      invariant forall k :: 0 <= k < i ==> a[k] == MaskFill(old(a[k]))
      invariant forall k :: i <= k < a.Length ==> a[k] == old(a[k])
    {
      if AtLeast(a[i], JuldFillValue) {
        a[i] := NaN;
      }
      i := i + 1;
    }
  }

  /** One element of the comprehension at line 51: None for NaN, otherwise
      `ref_date + timedelta(days=j)`, which overflows for an infinity and for
      a result outside the datetime range. */
  function ToDatetime(j: Double): (r: Result<Option<Instant>>)
    ensures r == Ok(None) <==> j.NaN?
    ensures r.Err? ==> r.error == OverflowError
    ensures r.Ok? && r.value.Some? ==>
      j.Finite? && InDatetimeRange(r.value.value.micros) &&
      -1.0 / 2.0 <= r.value.value.micros as real - j.v * MicrosPerDay as real <= 1.0 / 2.0
  {
    match j
    case NaN => Ok(None)
    case Finite(v) =>
      var m := RoundHalfEven(v * MicrosPerDay as real);
      if InDatetimeRange(m) then Ok(Some(Instant(m))) else Err(OverflowError)
    case _ => Err(OverflowError)
  }

  /** The comprehension at lines 49-54: element i of the result is the
      conversion of element i; the first failing conversion raises. */
  function ToDatetimes(js: seq<Double>): (r: Result<seq<Option<Instant>>>)
    ensures r.Ok? <==> forall i :: 0 <= i < |js| ==> ToDatetime(js[i]).Ok?
    ensures r.Ok? ==> |r.value| == |js| && forall i :: 0 <= i < |js| ==> r.value[i] == ToDatetime(js[i]).value
    ensures r.Err? ==> exists i :: 0 <= i < |js| && ToDatetime(js[i]) == Err(r.error)
  {
    if |js| == 0 then Ok([])
    else
      match ToDatetime(js[0])
      case Err(e) => Err(e)
      case Ok(t) =>
        match ToDatetimes(js[1..])
        case Err(e) => Err(e)
        case Ok(ts) => Ok([t] + ts)
  }

  /** Mask and convert one array of values (lines 46-54). */
  function DecodeArray(xs: seq<Double>): (r: Result<seq<Option<Instant>>>)
    ensures r.Ok? ==> |r.value| == |xs|
    ensures r.Err? ==> r.error == OverflowError
  {
    ToDatetimes(MaskFillAll(xs))
  }

  /** What the function returns for a one-element array when the input was
      scalar: the sole element (lines 57-58). */
  function SoleElement(r: Result<seq<Option<Instant>>>): Result<Decoded>
    requires r.Ok? ==> |r.value| == 1
  {
    match r
    case Err(e) => Err(e)
    case Ok(ts) => Ok(Single(ts[0]))
  }

  /** `julian_to_datetime` as written, given JULD as stored (float days, no
      CF time decoding). A 0-d array is not a scalar for `np.isscalar`, so it
      takes the array branch, and iterating a 0-d array in the comprehension
      raises TypeError. */
  function DecodeAsWritten(input: JuldInput): (r: Result<Decoded>)
    ensures r == Err(TypeError) <==> input.ZeroDim?
  {
    match input
    case Scalar(x) => SoleElement(DecodeArray([x]))
    case ZeroDim(x) => Err(TypeError)
    case OneDim(xs) =>
      match DecodeArray(xs)
      case Err(e) => Err(e)
      case Ok(ts) => Ok(Many(ts))
  }

  /** `julian_to_datetime` as its documentation describes it: a 0-d array is
      handled like the scalar it holds. */
  function Decode(input: JuldInput): (r: Result<Decoded>)
    ensures r.Err? ==> r.error == OverflowError
    ensures r.Ok? ==> (r.value.Many? <==> input.OneDim?)
    ensures r.Ok? && input.OneDim? ==> |r.value.ts| == |input.xs|
  {
    match input
    case Scalar(x) => SoleElement(DecodeArray([x]))
    case ZeroDim(x) => SoleElement(DecodeArray([x]))
    case OneDim(xs) =>
      match DecodeArray(xs)
      case Err(e) => Err(e)
      case Ok(ts) => Ok(Many(ts))
  }

  /** `julian_to_datetime`, step by step: build the array, mask the fill
      values in place, convert, and unwrap a scalar's single result. */
  method JulianToDatetime(input: JuldInput) returns (r: Result<Decoded>)
    ensures r == Decode(input)
  {
    var values: seq<Double>;
    if input.OneDim? {
      values := input.xs;
    } else {
      values := [input.x];
    }
    var a := new Double[|values|](i requires 0 <= i < |values| => values[i]);
    assert a[..] == values;
    MaskFillValues(a);
    var converted := ToDatetimes(a[..]);
    match converted {
      case Err(e) =>
        r := Err(e);
      case Ok(ts) =>
        if input.OneDim? {
          r := Ok(Many(ts));
        } else {
          r := Ok(Single(ts[0]));
        }
    }
  }

  /** The per-offset decoding the function applies to every element. */
  function DecodeOffset(x: Double): (r: Result<Option<Instant>>)
    ensures r == Ok(None) <==> x.NaN? || AtLeast(x, JuldFillValue)
    ensures r.Ok? && r.value.Some? <==>
      x.Finite? && x.v < JuldFillValue && InDatetimeRange(RoundHalfEven(x.v * MicrosPerDay as real))
    ensures r.Ok? && r.value.Some? ==> r.value.value.micros == RoundHalfEven(x.v * MicrosPerDay as real)
    ensures r.Err? ==> r.error == OverflowError
  {
    ToDatetime(MaskFill(x))
  }

  /** The datetime range in calendar terms: FirstDay is 0001-01-01, EndDay
      is 10000-01-01, and the last day of the range is 9999-12-31. */
  lemma DatetimeRangeDates()
    ensures Calendar.DaysFromCivil(Calendar.Date(1, 1, 1)) == FirstDay
    ensures Calendar.DaysFromCivil(Calendar.Date(10000, 1, 1)) == EndDay
    ensures Calendar.CivilFromDays(EndDay - 1) == Calendar.Date(9999, 12, 31)
  {
    FirstDayDate();
    EndDayDate();
    LastDayDate();
  }

  lemma FirstDayDate()
    ensures Calendar.DaysFromCivil(Calendar.Date(1, 1, 1)) == FirstDay
  {
    Calendar.DivModOf400(-1, 399);
  }

  lemma EndDayDate()
    ensures Calendar.DaysFromCivil(Calendar.Date(10000, 1, 1)) == EndDay
  {
    Calendar.DivModOf400(24, 399);
  }

  lemma LastDayDate()
    ensures Calendar.CivilFromDays(EndDay - 1) == Calendar.Date(9999, 12, 31)
  {
    assert Calendar.PositionOf(EndDay - 1 + Calendar.EpochShift) == Calendar.Position(24, 3, 24, 3, 305);
  }

  /** A whole number of days d inside the datetime range and below the fill
      value decodes to exactly 1950-01-01 plus d days. */
  lemma WholeDayOffset(d: int)
    requires FirstDay <= d < 999999
    ensures DecodeOffset(Finite(d as real)) == Ok(Some(Instant(d * MicrosPerDay)))
    ensures Day(Instant(d * MicrosPerDay)) == d
  {
    RoundHalfEvenOfInt(d * MicrosPerDay);
    assert d as real * MicrosPerDay as real == (d * MicrosPerDay) as real;
  }

  /** Offset 0 is the reference date itself, midnight 1950-01-01; offset
      25854 is 2020-10-14, and 2020-11-01 is offset 25872. */
  lemma ReferenceDates()
    ensures DecodeOffset(Finite(0.0)) == Ok(Some(Instant(0)))
    ensures Calendar.CivilFromDays(Day(Instant(0))) == Calendar.Date(1950, 1, 1)
    ensures DecodeOffset(Finite(25854.0)) == Ok(Some(Instant(25854 * MicrosPerDay)))
    ensures Calendar.CivilFromDays(Day(Instant(25854 * MicrosPerDay))) == Calendar.Date(2020, 10, 14)
    ensures Calendar.DaysFromCivil(Calendar.Date(2020, 11, 1)) == 25872
  {
    WholeDayOffset(0);
    WholeDayOffset(25854);
    Calendar.CalendarExamples();
  }

  /** A later offset never decodes to an earlier timestamp or date, and an
      offset later by more than a microsecond decodes to a later timestamp. */
  lemma {:induction false} DecodeMonotone(x: real, y: real)
    requires x <= y
    requires DecodeOffset(Finite(x)).Ok? && DecodeOffset(Finite(x)).value.Some?
    requires DecodeOffset(Finite(y)).Ok? && DecodeOffset(Finite(y)).value.Some?
    ensures var t, u := DecodeOffset(Finite(x)).value.value, DecodeOffset(Finite(y)).value.value;
      t.micros <= u.micros && Day(t) <= Day(u) &&
      (x * MicrosPerDay as real + 1.0 < y * MicrosPerDay as real ==> t.micros < u.micros)
  {
    var t, u := DecodeOffset(Finite(x)).value.value, DecodeOffset(Finite(y)).value.value;
    RoundHalfEvenMonotone(x * MicrosPerDay as real, y * MicrosPerDay as real);
    DayMonotone(t, u);
  }

  /** `.date()` is monotone. */
  lemma DayMonotone(t: Instant, u: Instant)
    requires t.micros <= u.micros
    ensures Day(t) <= Day(u)
  {
  }

  /** Decoding an array keeps its shape and works element by element: it
      succeeds exactly when every element decodes, and then element i of
      the result is the decoding of element i alone. */
  lemma {:induction false} DecodeArrayElementwise(xs: seq<Double>)
    ensures Decode(OneDim(xs)).Ok? <==> forall i :: 0 <= i < |xs| ==> DecodeOffset(xs[i]).Ok?
    ensures Decode(OneDim(xs)).Ok? ==>
      Decode(OneDim(xs)).value.Many? &&
      |Decode(OneDim(xs)).value.ts| == |xs| &&
      forall i :: 0 <= i < |xs| ==> Decode(OneDim(xs)).value.ts[i] == DecodeOffset(xs[i]).value
    ensures Decode(OneDim(xs)).Err? ==> Decode(OneDim(xs)).error == OverflowError
  {
    var ms := MaskFillAll(xs);
    assert forall i :: 0 <= i < |xs| ==> ToDatetime(ms[i]) == DecodeOffset(xs[i]);
    if DecodeArray(xs).Err? {
      var i :| 0 <= i < |ms| && ToDatetime(ms[i]) == Err(DecodeArray(xs).error);
    }
  }

  /** A scalar decodes to the sole element of the one-element array's
      result; a scalar fill value decodes to None. */
  lemma {:induction false} ScalarIsSoleElement(x: Double)
    ensures Decode(Scalar(x)).Ok? <==> Decode(OneDim([x])).Ok?
    ensures Decode(Scalar(x)).Ok? ==> Decode(OneDim([x])) == Ok(Many([Decode(Scalar(x)).value.t]))
    ensures Decode(Scalar(x)).Ok? ==> Decode(Scalar(x)).value == Single(DecodeOffset(x).value)
    ensures Decode(Scalar(x)).Err? ==> Decode(Scalar(x)) == Decode(OneDim([x])) && DecodeOffset(x).Err?
  {
    DecodeArrayElementwise([x]);
    if Decode(Scalar(x)).Ok? {
      var ts := Decode(OneDim([x])).value.ts;
      assert ts == [ts[0]];
    }
  }

  /** The code as written rejects every 0-d array, although a 0-d array
      holding the reference offset 0 denotes a valid date; the corrected
      decoder treats it like the scalar it holds and agrees with the code on
      every other shape. */
  lemma ZeroDimRejectedAsWritten(x: Double)
    ensures DecodeAsWritten(ZeroDim(x)) == Err(TypeError)
    ensures Decode(ZeroDim(x)) == Decode(Scalar(x))
    ensures Decode(ZeroDim(Finite(0.0))) == Ok(Single(Some(Instant(0))))
    ensures forall y :: DecodeAsWritten(Scalar(y)) == Decode(Scalar(y))
    ensures forall ys :: DecodeAsWritten(OneDim(ys)) == Decode(OneDim(ys))
  {
    ScalarIsSoleElement(Finite(0.0));
    WholeDayOffset(0);
  }
}
