/** The proleptic Gregorian calendar of Python's `datetime.date`, over day
    numbers counted from the ARGO reference date 1950-01-01 (day 0).
    A Python date compares as its ordinal does, so the rest of the model
    represents a date by its day number and uses `CivilFromDays` for the
    (year, month, day) view. */
module Calendar {

  datatype Date = Date(year: int, month: int, day: int)

  predicate IsLeapYear(y: int) {
    y % 4 == 0 && (y % 100 != 0 || y % 400 == 0)
  }

  function DaysInMonth(y: int, m: int): int
    requires 1 <= m <= 12
  {
    if m == 2 then (if IsLeapYear(y) then 29 else 28)
    else if m == 4 || m == 6 || m == 9 || m == 11 then 30
    else 31
  }

  predicate ValidDate(d: Date) {
    1 <= d.month <= 12 && 1 <= d.day <= DaysInMonth(d.year, d.month)
  }

  /** Days from 0000-03-01 to 1950-01-01. Years are split at March 1 so
      that the leap day is the last day of a (March-based) year. */
  const EpochShift: int := 712163

  /** Days in one 400-year era, one ordinary century, one 4-year cycle. */
  const DaysPerEra: int := 146097
  const DaysPerCentury: int := 36524
  const DaysPerQuad: int := 1461

  /** First day of month m, counted from March 1 of its March-based year. */
  function MarchMonthStart(m: int): int
    requires 1 <= m <= 12
  {
    if m == 3 then 0 else if m == 4 then 31 else if m == 5 then 61
    else if m == 6 then 92 else if m == 7 then 122 else if m == 8 then 153
    else if m == 9 then 184 else if m == 10 then 214 else if m == 11 then 245
    else if m == 12 then 275 else if m == 1 then 306 else 337
  }

  /** Month and day of the doy-th day (from 0) after March 1. */
  function MarchMonthDay(doy: int): (md: (int, int))
    requires 0 <= doy <= 365
    ensures 1 <= md.0 <= 12 && 1 <= md.1
    ensures MarchMonthStart(md.0) + md.1 - 1 == doy
    ensures md.0 != 2 ==> md.1 <= DaysInMonth(0, md.0)
    ensures md.0 == 2 ==> md.1 <= 28 || doy == 365
  {
    if doy < 31 then (3, doy + 1)
    else if doy < 61 then (4, doy - 30)
    else if doy < 92 then (5, doy - 60)
    else if doy < 122 then (6, doy - 91)
    else if doy < 153 then (7, doy - 121)
    else if doy < 184 then (8, doy - 152)
    else if doy < 214 then (9, doy - 183)
    else if doy < 245 then (10, doy - 213)
    else if doy < 275 then (11, doy - 244)
    else if doy < 306 then (12, doy - 274)
    else if doy < 337 then (1, doy - 305)
    else (2, doy - 336)
  }

  /** Where a day lies in the 400-year cycle of March-based years: its era,
      the century of the era, the 4-year cycle of the century, the year of
      the cycle and the day of that year (0 is March 1). */
  datatype Position = Position(era: int, century: int, quad: int, year: int, dayOfYear: int)

  /** The parts are in range, and only the last year of a 4-year cycle has
      a 366th day, except in the last cycle of a century other than the
      era's last. */
  predicate ValidPosition(p: Position) {
    && 0 <= p.century <= 3 && 0 <= p.quad <= 24 && 0 <= p.year <= 3 && 0 <= p.dayOfYear <= 365
    && (p.dayOfYear == 365 ==> p.year == 3 && (p.quad < 24 || p.century == 3))
  }

  /** The days from 0000-03-01 to the day at position p. */
  function Offset(p: Position): int {
    p.era * DaysPerEra + DaysPerCentury * p.century + DaysPerQuad * p.quad + 365 * p.year + p.dayOfYear
  }

  /** The year of the era, counting March-based years. */
  function YearOfEra(p: Position): int {
    100 * p.century + 4 * p.quad + p.year
  }

  /** The position of the day n days after 0000-03-01. */
  function PositionOf(n: int): (p: Position)
    ensures ValidPosition(p) && Offset(p) == n
  {
    var era := n / DaysPerEra;
    var doe := n % DaysPerEra;
    var c := if doe / DaysPerCentury < 3 then doe / DaysPerCentury else 3;
    var doc := doe - DaysPerCentury * c;
    var q := doc / DaysPerQuad;
    var doq := doc % DaysPerQuad;
    var yr := if doq / 365 < 3 then doq / 365 else 3;
    Position(era, c, q, yr, doq - 365 * yr)
  }

  /** The civil date of day number z (z == 0 is 1950-01-01): always a real
      date, with February 29 only in leap years. */
  function CivilFromDays(z: int): (d: Date)
    ensures ValidDate(d)
  {
    var p := PositionOf(z + EpochShift);
    var md := MarchMonthDay(p.dayOfYear);
    var d := Date(400 * p.era + YearOfEra(p) + (if md.0 <= 2 then 1 else 0), md.0, md.1);
    if md == (2, 29) then
      LeapYearOfParts(p.era, p.century, p.quad);
      d
    else d
  }

  /** The day number of a civil date (the inverse of CivilFromDays).
      The month must be a real month; the day is taken arithmetically. */
  function DaysFromCivil(d: Date): int
    requires 1 <= d.month <= 12
  {
    var y := if d.month <= 2 then d.year - 1 else d.year;
    var era := y / 400;
    var yoe := y % 400;
    var doy := MarchMonthStart(d.month) + d.day - 1;
    var doe := 365 * yoe + yoe / 4 - yoe / 100 + doy;
    era * DaysPerEra + doe - EpochShift
  }

  lemma DivModOf4(a: int, r: int)
    requires 0 <= r < 4
    ensures (4 * a + r) / 4 == a && (4 * a + r) % 4 == r
  {
  }

  lemma DivModOf100(a: int, r: int)
    requires 0 <= r < 100
    ensures (100 * a + r) / 100 == a && (100 * a + r) % 100 == r
  {
  }

  lemma DivModOf400(a: int, r: int)
    requires 0 <= r < 400
    ensures (400 * a + r) / 400 == a && (400 * a + r) % 400 == r
  {
  }

  /** The (January-based) year that ends a 4-year cycle is a leap year,
      unless it ends a century other than the era's last. */
  lemma {:induction false} LeapYearOfParts(era: int, c: int, q: int)
    requires 0 <= c <= 3 && 0 <= q <= 24 && (q < 24 || c == 3)
    ensures IsLeapYear(400 * era + 100 * c + 4 * q + 4)
  {
    DivModOf4(100 * era + 25 * c + q + 1, 0);
    if q < 24 {
      DivModOf100(4 * era + c, 4 * q + 4);
    } else {
      DivModOf400(era + 1, 0);
    }
  }

  /** The year of the era is in [0, 400), and its quarter and hundredth are
      the cycles and the centuries before it. */
  lemma {:induction false} YearOfEraParts(p: Position)
    requires ValidPosition(p)
    ensures 0 <= YearOfEra(p) < 400
    ensures YearOfEra(p) / 4 == 25 * p.century + p.quad && YearOfEra(p) / 100 == p.century
  {
    DivModOf4(25 * p.century + p.quad, p.year);
    DivModOf100(p.century, 4 * p.quad + p.year);
  }

  /** The day number of a date whose March-based year and day of year are
      known. */
  lemma {:induction false} DaysFromCivilOfParts(d: Date, era: int, yoe: int, doy: int)
    requires 1 <= d.month <= 12 && 0 <= yoe < 400
    requires (if d.month <= 2 then d.year - 1 else d.year) == 400 * era + yoe
    requires MarchMonthStart(d.month) + d.day - 1 == doy
    ensures DaysFromCivil(d) == era * DaysPerEra + 365 * yoe + yoe / 4 - yoe / 100 + doy - EpochShift
  {
    DivModOf400(era, yoe);
  }

  /** DaysFromCivil undoes CivilFromDays: no two day numbers share a date. */
  lemma {:induction false} DaysFromCivilInverse(z: int)
    ensures var d := CivilFromDays(z); 1 <= d.month <= 12 && DaysFromCivil(d) == z
  {
    var p := PositionOf(z + EpochShift);
    var d := CivilFromDays(z);
    YearOfEraParts(p);
    DaysFromCivilOfParts(d, p.era, YearOfEra(p), p.dayOfYear);
  }

  /** CivilFromDays undoes DaysFromCivil on real dates, so together with
      DaysFromCivilInverse the day numbers and the valid dates correspond
      one to one. */
  lemma {:induction false} CivilFromDaysInverse(d: Date)
    requires ValidDate(d)
    ensures CivilFromDays(DaysFromCivil(d)) == d
  {
    var y := if d.month <= 2 then d.year - 1 else d.year;
    var era, yoe := y / 400, y % 400;
    var doy := MarchMonthStart(d.month) + d.day - 1;
    var p := Position(era, yoe / 100, yoe % 100 / 4, yoe % 4, doy);
    YearOfEraSplit(yoe);
    MarchMonthDayOfDate(d);
    if doy == 365 {
      LeapDayPosition(d, era, yoe);
    }
    assert ValidPosition(p);
    DaysFromCivilOfParts(d, era, yoe, doy);
    assert Offset(p) == DaysFromCivil(d) + EpochShift;
    OffsetInjective(p, PositionOf(DaysFromCivil(d) + EpochShift));
    assert YearOfEra(p) == yoe && 400 * era + yoe == y;
  }

  /** A year of the era is its centuries, cycles and years. */
  lemma YearOfEraSplit(yoe: int)
    requires 0 <= yoe < 400
    ensures 0 <= yoe / 100 <= 3 && 0 <= yoe % 100 / 4 <= 24 && 0 <= yoe % 4 <= 3
    ensures 100 * (yoe / 100) + 4 * (yoe % 100 / 4) + yoe % 4 == yoe
    ensures 365 * yoe + yoe / 4 - yoe / 100 ==
      DaysPerCentury * (yoe / 100) + DaysPerQuad * (yoe % 100 / 4) + 365 * (yoe % 4)
  {
    var c, q, r := yoe / 100, yoe % 100 / 4, yoe % 4;
    assert yoe % 100 == 4 * q + r;
    DivModOf4(25 * c + q, r);
  }

  /** The day of the (March-based) year of a real date names that date. */
  lemma MarchMonthDayOfDate(d: Date)
    requires ValidDate(d)
    ensures 0 <= MarchMonthStart(d.month) + d.day - 1 <= 365
    ensures MarchMonthDay(MarchMonthStart(d.month) + d.day - 1) == (d.month, d.day)
    ensures MarchMonthStart(d.month) + d.day - 1 == 365 ==> d.month == 2 && d.day == 29 && IsLeapYear(d.year)
  {
  }

  /** February 29 ends the last year of a 4-year cycle, and of the last
      cycle of a century only in the era's last century. */
  lemma LeapDayPosition(d: Date, era: int, yoe: int)
    requires d.month == 2 && IsLeapYear(d.year) && 0 <= yoe < 400 && d.year - 1 == 400 * era + yoe
    ensures yoe % 4 == 3 && (yoe % 100 / 4 < 24 || yoe / 100 == 3)
  {
    var r := yoe % 4;
    if r < 3 {
      DivModOf4(100 * era + yoe / 4, r + 1);
      assert false;
    }
    var c, m := yoe / 100, yoe % 100;
    if m / 4 == 24 && c < 3 {
      DivModOf4(25 * c + 24, m % 4);
      assert m == 99;
      DivModOf100(4 * era + c + 1, 0);
      DivModOf400(era, 100 * c + 100);
      assert false;
    }
  }

  /** Two valid positions with the same offset are the same position. */
  lemma OffsetInjective(p: Position, p': Position)
    requires ValidPosition(p) && ValidPosition(p') && Offset(p) == Offset(p')
    ensures p == p'
  {
    var w := DaysPerCentury * p.century + DaysPerQuad * p.quad + 365 * p.year + p.dayOfYear;
    var w' := DaysPerCentury * p'.century + DaysPerQuad * p'.quad + 365 * p'.year + p'.dayOfYear;
    DaysOfEraBound(p);
    DaysOfEraBound(p');
    DivModOfEra(p.era, w);
    DivModOfEra(p'.era, w');
    CenturyOfDays(p, p');
  }

  /** The days of a valid position within its era are fewer than an era's. */
  lemma DaysOfEraBound(p: Position)
    requires ValidPosition(p)
    ensures 0 <= DaysPerCentury * p.century + DaysPerQuad * p.quad + 365 * p.year + p.dayOfYear < DaysPerEra
  {
  }

  lemma DivModOfEra(a: int, r: int)
    requires 0 <= r < DaysPerEra
    ensures (a * DaysPerEra + r) / DaysPerEra == a
  {
  }

  /** Within one era, the days since its start determine the century, the
      4-year cycle, the year and the day of the year. */
  lemma CenturyOfDays(p: Position, p': Position)
    requires ValidPosition(p) && ValidPosition(p') && p.era == p'.era
    requires DaysPerCentury * p.century + DaysPerQuad * p.quad + 365 * p.year + p.dayOfYear ==
             DaysPerCentury * p'.century + DaysPerQuad * p'.quad + 365 * p'.year + p'.dayOfYear
    ensures p == p'
  {
    assert p.century == p'.century;
    assert p.quad == p'.quad;
    assert p.year == p'.year;
  }

  /** Reference points: day 0 is 1950-01-01, day 25854 is 2020-10-14 and
      2020-11-01 is day 25872. */
  lemma CalendarExamples()
    ensures CivilFromDays(0) == Date(1950, 1, 1)
    ensures CivilFromDays(25854) == Date(2020, 10, 14)
    ensures DaysFromCivil(Date(2020, 11, 1)) == 25872
  {
    assert PositionOf(0 + EpochShift) == Position(4, 3, 12, 1, 306);
    assert PositionOf(25854 + EpochShift) == Position(5, 0, 5, 0, 227);
  }
}
