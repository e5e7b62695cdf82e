/** The parts of `java.time.LocalDate`, `DayOfWeek` and `ChronoUnit` that the
    recurrence rules use. A date is its epoch day (0 is 1970-01-01) in the
    proleptic Gregorian calendar. */
module Calendar {

  /** A `LocalDate`, as the number of days since 1970-01-01. */
  type Date = int

  /** `java.time.DayOfWeek`, in its declaration order (Monday first). */
  datatype Weekday = MONDAY | TUESDAY | WEDNESDAY | THURSDAY | FRIDAY | SATURDAY | SUNDAY

  /** `DayOfWeek.name()`, which is also its `toString()`. */
  function WeekdayName(w: Weekday): string
  {
    match w
    case MONDAY => "MONDAY"
    case TUESDAY => "TUESDAY"
    case WEDNESDAY => "WEDNESDAY"
    case THURSDAY => "THURSDAY"
    case FRIDAY => "FRIDAY"
    case SATURDAY => "SATURDAY"
    case SUNDAY => "SUNDAY"
  }

  /** `DayOfWeek.getValue() - 1`: Monday is 0, Sunday is 6. */
  function WeekdayIndex(w: Weekday): int
  {
    match w
    case MONDAY => 0
    case TUESDAY => 1
    case WEDNESDAY => 2
    case THURSDAY => 3
    case FRIDAY => 4
    case SATURDAY => 5
    case SUNDAY => 6
  }

  function WeekdayOfIndex(i: int): (w: Weekday)
    requires 0 <= i < 7
    ensures WeekdayIndex(w) == i
  {
    if i == 0 then MONDAY
    else if i == 1 then TUESDAY
    else if i == 2 then WEDNESDAY
    else if i == 3 then THURSDAY
    else if i == 4 then FRIDAY
    else if i == 5 then SATURDAY
    else SUNDAY
  }

  /** `LocalDate.getDayOfWeek()`. 1970-01-01 was a Thursday. */
  function DayOfWeek(d: Date): Weekday
  {
    WeekdayOfIndex((d + 3) % 7)
  }

  /** The weekday of a date is periodic with period 7, and 1970-01-01 is a Thursday. */
  lemma DayOfWeekPeriodic(d: Date, k: int)
    ensures DayOfWeek(d + 7 * k) == DayOfWeek(d)
    ensures DayOfWeek(0) == THURSDAY
  {
    assert (d + 7 * k + 3) % 7 == (d + 3) % 7;
  }

  /** Consecutive dates have consecutive weekdays, wrapping after Sunday. */
  lemma DayOfWeekNext(d: Date)
    ensures WeekdayIndex(DayOfWeek(d + 1)) == (WeekdayIndex(DayOfWeek(d)) + 1) % 7
  {
  }

  /** Two dates fall on the same weekday exactly when they are a whole number of weeks apart. */
  lemma SameWeekdayIff(a: Date, b: Date)
    ensures DayOfWeek(a) == DayOfWeek(b) <==> (b - a) % 7 == 0
  {
    assert DayOfWeek(a) == DayOfWeek(b) <==> WeekdayIndex(DayOfWeek(a)) == WeekdayIndex(DayOfWeek(b));
  }

  // ---------------------------------------------------------------------------
  // Civil (year, month, day) fields
  // ---------------------------------------------------------------------------

  datatype CivilDate = CivilDate(year: int, month: int, day: int)

  /** `IsoChronology.isLeapYear`. */
  predicate IsLeapYear(y: int)
  {
    y % 4 == 0 && (y % 100 != 0 || y % 400 == 0)
  }

  /** `Month.length(leapYear)` for month numbers 1..12. */
  function DaysInMonth(y: int, m: int): int
    requires 1 <= m <= 12
  {
    if m == 2 then (if IsLeapYear(y) then 29 else 28)
    else if m == 4 || m == 6 || m == 9 || m == 11 then 30
    else 31
  }

  predicate IsCivilDate(c: CivilDate)
  {
    1 <= c.month <= 12 && 1 <= c.day <= DaysInMonth(c.year, c.month)
  }

  /** Days from 0000-03-01 to 1970-01-01. */
  const EpochShift: int := 719468
  const DaysPer400Years: int := 146097
  const DaysPer100Years: int := 36524
  const DaysPer4Years: int := 1461

  /** The position of a date inside its 400-year cycle, counted in years
      that start on the 1st of March (so that the leap day is the last day). */
  datatype CycleSplit = CycleSplit(n400: int, n100: int, n4: int, n1: int, dayOfYear: int)

  function Split(d: Date): (s: CycleSplit)
    ensures 0 <= s.n100 <= 3 && 0 <= s.n4 <= 24 && 0 <= s.n1 <= 3 && 0 <= s.dayOfYear <= 365
    ensures s.n1 < 3 ==> s.dayOfYear < 365
    ensures s.n4 == 24 ==> s.n100 == 3 || s.n1 < 3 || s.dayOfYear < 365
    ensures d + EpochShift == DaysPer400Years * s.n400 + DaysPer100Years * s.n100
                              + DaysPer4Years * s.n4 + 365 * s.n1 + s.dayOfYear
  {
    var z := d + EpochShift;
    var n400 := z / DaysPer400Years;
    var r400 := z % DaysPer400Years;
    var n100 := if r400 / DaysPer100Years < 3 then r400 / DaysPer100Years else 3;
    var r100 := r400 - DaysPer100Years * n100;
    var n4 := r100 / DaysPer4Years;
    var r4 := r100 % DaysPer4Years;
    var n1 := if r4 / 365 < 3 then r4 / 365 else 3;
    CycleSplit(n400, n100, n4, n1, r4 - 365 * n1)
  }

  /** The month index counted from March (0) to February (11) for a day of a March-based year. */
  function MarchMonth(dayOfYear: int): (mp: int)
    requires 0 <= dayOfYear <= 365
    ensures 0 <= mp <= 11
  {
    (5 * dayOfYear + 2) / 153
  }

  /** Days of a March-based year before the first of March-based month `mp`. */
  function DaysBeforeMarchMonth(mp: int): int
  {
    (153 * mp + 2) / 5
  }

  /** `LocalDate.ofEpochDay(d)` split into its year, month and day of month. */
  function ToCivil(d: Date): CivilDate
  {
    var s := Split(d);
    var mp := MarchMonth(s.dayOfYear);
    var day := s.dayOfYear - DaysBeforeMarchMonth(mp) + 1;
    var month := if mp < 10 then mp + 3 else mp - 9;
    var marchYear := 400 * s.n400 + 100 * s.n100 + 4 * s.n4 + s.n1;
    CivilDate(if month <= 2 then marchYear + 1 else marchYear, month, day)
  }

  /** `LocalDate.of(y, m, day).toEpochDay()`. */
  function FromCivil(c: CivilDate): Date
    requires 1 <= c.month <= 12
  {
    var marchYear := if c.month <= 2 then c.year - 1 else c.year;
    var era := marchYear / 400;
    var yearOfEra := marchYear - era * 400;
    var mp := if c.month > 2 then c.month - 3 else c.month + 9;
    var dayOfYear := DaysBeforeMarchMonth(mp) + c.day - 1;
    var dayOfEra := yearOfEra * 365 + yearOfEra / 4 - yearOfEra / 100 + dayOfYear;
    era * DaysPer400Years + dayOfEra - EpochShift
  }

  /** The day of a March-based year fixes the month and the day of month, and
      the day of month lies within the first 31 days of that month. */
  lemma MarchMonthBounds(dayOfYear: int)
    requires 0 <= dayOfYear <= 365
    ensures var mp := MarchMonth(dayOfYear);
            DaysBeforeMarchMonth(mp) <= dayOfYear < DaysBeforeMarchMonth(mp + 1)
  {
  }

  /** Within a March-based year the day of month never exceeds the month's
      length; February has a 29th only on the last day of the year. */
  lemma MarchMonthDay(dayOfYear: int)
    requires 0 <= dayOfYear <= 365
    ensures var mp := MarchMonth(dayOfYear);
            var day := dayOfYear - DaysBeforeMarchMonth(mp) + 1;
            var month := if mp < 10 then mp + 3 else mp - 9;
            && 1 <= day
            && (month != 2 ==> day <= DaysInMonth(0, month))
            && (month == 2 ==> day <= 28 || dayOfYear == 365)
            && (month == 2 <==> mp == 11)
  {
    MarchMonthBounds(dayOfYear);
  }

  /** `(m * q + r) % m == r`, for a positive literal modulus `m`. */
  lemma MulAddMod4(q: int)
    ensures (4 * q) % 4 == 0
  {
  }

  lemma MulAddMod100(q: int, r: int)
    requires 0 <= r < 100
    ensures (100 * q + r) % 100 == r
  {
  }

  lemma MulAddMod400(q: int)
    ensures (400 * q) % 400 == 0
  {
  }

  /** The leap day closes a March-based year of the form `4k + 3`, and the
      calendar year it belongs to is a leap year. */
  lemma LeapDayYear(s: CycleSplit)
    requires 0 <= s.n100 <= 3 && 0 <= s.n4 <= 24 && s.n1 == 3
    requires s.n4 == 24 ==> s.n100 == 3
    ensures IsLeapYear(400 * s.n400 + 100 * s.n100 + 4 * s.n4 + 4)
  {
    var y := 400 * s.n400 + 100 * s.n100 + 4 * s.n4 + 4;
    MulAddMod4(100 * s.n400 + 25 * s.n100 + s.n4 + 1);
    assert y == 4 * (100 * s.n400 + 25 * s.n100 + s.n4 + 1);
    if s.n4 < 24 {
      MulAddMod100(4 * s.n400 + s.n100, 4 * s.n4 + 4);
      assert y == 100 * (4 * s.n400 + s.n100) + (4 * s.n4 + 4);
    } else {
      MulAddMod400(s.n400 + 1);
      assert y == 400 * (s.n400 + 1);
    }
  }

  /** Every epoch day has a valid year, month and day of month: months run
      1..12 and no day exceeds the length of its month (February 29 only in
      leap years). */
  lemma {:induction false} ToCivilIsCivil(d: Date)
    ensures IsCivilDate(ToCivil(d))
  {
    var s := Split(d);
    var c := ToCivil(d);
    MarchMonthDay(s.dayOfYear);
    if c.month == 2 && c.day == 29 {
      assert s.dayOfYear == 365 && s.n1 == 3;
      LeapDayYear(s);
    }
  }

  /** Reading the fields of a date and building the date back from them gives the same date. */
  lemma {:induction false} FromCivilToCivil(d: Date)
    ensures 1 <= ToCivil(d).month <= 12 && FromCivil(ToCivil(d)) == d
  {
    var s := Split(d);
    var mp := MarchMonth(s.dayOfYear);
    var c := ToCivil(d);
    var marchYear := 400 * s.n400 + 100 * s.n100 + 4 * s.n4 + s.n1;
    var yearOfEra := 100 * s.n100 + 4 * s.n4 + s.n1;
    assert 0 <= yearOfEra < 400;
    assert marchYear / 400 == s.n400;
    assert yearOfEra / 4 == 25 * s.n100 + s.n4;
    assert yearOfEra / 100 == s.n100;
    assert (if c.month > 2 then c.month - 3 else c.month + 9) == mp;
    assert DaysBeforeMarchMonth(mp) + c.day - 1 == s.dayOfYear;
  }

  function Year(d: Date): int { ToCivil(d).year }

  /** `LocalDate.getMonthValue()`, 1..12. */
  function Month(d: Date): int { ToCivil(d).month }

  /** `LocalDate.getDayOfMonth()`, 1..31. */
  function DayOfMonth(d: Date): int { ToCivil(d).day }

  // ---------------------------------------------------------------------------
  // ChronoUnit.between
  // ---------------------------------------------------------------------------

  /** Java's `long` division, which truncates toward zero (the divisor is positive). */
  function JavaDiv(a: int, b: int): (q: int)
    requires b > 0
    ensures a >= 0 ==> q == a / b
    ensures a < 0 ==> q == -((-a) / b)
  {
    if a >= 0 then a / b else -((-a) / b)
  }

  /** `ChronoUnit.DAYS.between(a, b)`. */
  function DaysBetween(a: Date, b: Date): int { b - a }

  /** `ChronoUnit.WEEKS.between(a, b)`: whole days divided by 7, truncated toward zero. */
  function WeeksBetween(a: Date, b: Date): int { JavaDiv(b - a, 7) }

  /** `LocalDate.getProlepticMonth()`: months since January of year 0. */
  function ProlepticMonth(d: Date): int { Year(d) * 12 + Month(d) - 1 }

  /** `ChronoUnit.MONTHS.between(a.withDayOfMonth(1), b.withDayOfMonth(1))`: both
      operands are firsts of months, so no day-of-month adjustment applies. */
  function MonthsBetweenFirstsOfMonth(a: Date, b: Date): int { ProlepticMonth(b) - ProlepticMonth(a) }

  /** `ChronoUnit.YEARS.between(a.withDayOfYear(1), b.withDayOfYear(1))`. */
  function YearsBetweenFirstsOfYear(a: Date, b: Date): int { Year(b) - Year(a) }

  /** Truncated week counting: whole weeks from `a` is zero for the six days
      before `a` as well as for the six after, and otherwise agrees with
      floor division on and after `a`. */
  lemma WeeksBetweenTruncates(a: Date, b: Date)
    ensures -6 <= b - a <= 6 <==> WeeksBetween(a, b) == 0
    ensures WeeksBetween(a, b) >= 0 <==> b - a > -7
    ensures b >= a ==> WeeksBetween(a, b) == (b - a) / 7
  {
  }

  /** Adding whole weeks to a date on or after `a` adds as many to the week count. */
  lemma WeeksBetweenShift(a: Date, b: Date, k: nat)
    requires b >= a
    ensures WeeksBetween(a, b + 7 * k) == WeeksBetween(a, b) + k
  {
    assert (b - a + 7 * k) / 7 == (b - a) / 7 + k;
  }
}
