/** `YearlyRule`: repeats every `interval` calendar years, filtered by month
    of the year, day of the month and day of the week, with years counted
    from the evaluation date `today`. */
module YearlyRule {
  import opened Wrappers
  import opened Calendar
  import opened RuleFields
  import JavaStrings
  import Arith

  /** `YearlyRule.isValid()`: the month list is mandatory (possibly empty),
      the weekday list is absent or non-empty, the day list is absent or in range. */
  predicate IsValid(interval: int, monthsOfYear: Option<seq<int>>, daysOfWeek: Option<seq<Weekday>>,
                    daysOfMonth: Option<seq<int>>)
  {
    && interval > 0
    && monthsOfYear.Some? && AllInRange(monthsOfYear.value, 1, 12)
    && (daysOfWeek.None? || |daysOfWeek.value| > 0)
    && (daysOfMonth.None? || AllInRange(daysOfMonth.value, 1, 31))
  }

  /** The text `getDescription()` builds: "Every N year(s)", then " in [..]",
      " on [..]" and " on days [..]" for each non-empty list. */
  function Description(interval: int, monthsOfYear: Option<seq<int>>, daysOfWeek: Option<seq<Weekday>>,
                       daysOfMonth: Option<seq<int>>): string
  {
    Every + JavaStrings.IntToString(interval) + " year(s)"
    + Section(" in ", IsPresent(monthsOfYear), IntsToString(monthsOfYear))
    + Section(" on ", IsPresent(daysOfWeek), WeekdaysToString(daysOfWeek))
    + Section(" on days ", IsPresent(daysOfMonth), IntsToString(daysOfMonth))
  }

  /** `YearlyRule.getDescription()`, appending to a builder step by step. */
  method Describe(interval: int, monthsOfYear: Option<seq<int>>, daysOfWeek: Option<seq<Weekday>>,
                  daysOfMonth: Option<seq<int>>)
    returns (description: string)
    ensures description == Description(interval, monthsOfYear, daysOfWeek, daysOfMonth)
  {
    description := Every + JavaStrings.IntToString(interval) + " year(s)";
    ghost var head := description;
    if monthsOfYear.Some? && |monthsOfYear.value| > 0 {
      ConcatAssoc(description, " in ", IntsToString(monthsOfYear));
      description := description + " in " + IntsToString(monthsOfYear);
    }
    assert description == head + Section(" in ", IsPresent(monthsOfYear), IntsToString(monthsOfYear));
    head := description;
    if daysOfWeek.Some? && |daysOfWeek.value| > 0 {
      ConcatAssoc(description, " on ", WeekdaysToString(daysOfWeek));
      description := description + " on " + WeekdaysToString(daysOfWeek);
    }
    assert description == head + Section(" on ", IsPresent(daysOfWeek), WeekdaysToString(daysOfWeek));
    head := description;
    if daysOfMonth.Some? && |daysOfMonth.value| > 0 {
      ConcatAssoc(description, " on days ", IntsToString(daysOfMonth));
      description := description + " on days " + IntsToString(daysOfMonth);
    }
    assert description == head + Section(" on days ", IsPresent(daysOfMonth), IntsToString(daysOfMonth));
  }

  /** The description names the interval: it reads back from the text. */
  lemma DescriptionNamesInterval(interval: int, monthsOfYear: Option<seq<int>>, daysOfWeek: Option<seq<Weekday>>,
                                 daysOfMonth: Option<seq<int>>)
    ensures IntervalOfDescription(Description(interval, monthsOfYear, daysOfWeek, daysOfMonth)) == Some(interval)
  {
    var n := JavaStrings.IntToString(interval);
    var a := Section(" in ", IsPresent(monthsOfYear), IntsToString(monthsOfYear));
    var b := Section(" on ", IsPresent(daysOfWeek), WeekdaysToString(daysOfWeek));
    var c := Section(" on days ", IsPresent(daysOfMonth), IntsToString(daysOfMonth));
    ConcatAssoc(Every + n, " year(s)" + a + b, c);
    ConcatAssoc(Every + n, " year(s)" + a, b);
    ConcatAssoc(Every + n, " year(s)", a);
    IntervalOfDescriptionReads(interval, " year(s)" + a + b + c);
  }

  /** A filter that is null lets every value through. */
  predicate Admits<T(==)>(filter: Option<seq<T>>, x: T)
  {
    filter.None? || x in filter.value
  }

  /** `YearlyRule.isOccurrence(date)`, with the clock reading `today` as the anchor. */
  predicate IsOccurrence(interval: int, monthsOfYear: Option<seq<int>>, daysOfWeek: Option<seq<Weekday>>,
                         daysOfMonth: Option<seq<int>>, date: Option<Date>, today: Date)
  {
    if !IsValid(interval, monthsOfYear, daysOfWeek, daysOfMonth) || date.None? then false
    else
      var d := date.value;
      var yearsBetween := YearsBetweenFirstsOfYear(today, d);
      && yearsBetween >= 0
      && yearsBetween % interval == 0
      && Admits(monthsOfYear, Month(d))
      && Admits(daysOfMonth, DayOfMonth(d))
      && Admits(daysOfWeek, DayOfWeek(d))
  }

  /** An invalid rule or a null date is never an occurrence (no exception). */
  lemma NullOrInvalidNever(interval: int, monthsOfYear: Option<seq<int>>, daysOfWeek: Option<seq<Weekday>>,
                           daysOfMonth: Option<seq<int>>, date: Option<Date>, today: Date)
    requires !IsValid(interval, monthsOfYear, daysOfWeek, daysOfMonth) || date.None?
    ensures !IsOccurrence(interval, monthsOfYear, daysOfWeek, daysOfMonth, date, today)
  {
  }

  /** A date occurs exactly when its year offset from `today` is a
      non-negative multiple of the interval, its month is listed, and each
      of the two optional filters is null or lists its day. */
  lemma OccurrenceIff(interval: int, monthsOfYear: seq<int>, daysOfWeek: Option<seq<Weekday>>,
                      daysOfMonth: Option<seq<int>>, d: Date, today: Date)
    requires IsValid(interval, Some(monthsOfYear), daysOfWeek, daysOfMonth)
    ensures IsOccurrence(interval, Some(monthsOfYear), daysOfWeek, daysOfMonth, Some(d), today)
            <==> && Year(d) >= Year(today)
                 && (Year(d) - Year(today)) % interval == 0
                 && Month(d) in monthsOfYear
                 && (daysOfMonth.None? || DayOfMonth(d) in daysOfMonth.value)
                 && (daysOfWeek.None? || DayOfWeek(d) in daysOfWeek.value)
  {
  }

  /** A valid rule whose month list or day list is empty never fires. */
  lemma EmptyListNeverOccurs(interval: int, monthsOfYear: Option<seq<int>>, daysOfWeek: Option<seq<Weekday>>,
                             daysOfMonth: Option<seq<int>>, date: Option<Date>, today: Date)
    requires monthsOfYear == Some([]) || daysOfMonth == Some([])
    ensures !IsOccurrence(interval, monthsOfYear, daysOfWeek, daysOfMonth, date, today)
  {
  }

  /** Nothing fires in a year before the evaluation date's year. */
  lemma NothingInEarlierYears(interval: int, monthsOfYear: Option<seq<int>>, daysOfWeek: Option<seq<Weekday>>,
                              daysOfMonth: Option<seq<int>>, d: Date, today: Date)
    requires Year(d) < Year(today)
    ensures !IsOccurrence(interval, monthsOfYear, daysOfWeek, daysOfMonth, Some(d), today)
  {
  }

  /** The year count compares calendar years: the evaluation date's whole
      year counts, also the days before `today` in it. */
  lemma SameYearIsYearZero(interval: int, monthsOfYear: Option<seq<int>>, daysOfWeek: Option<seq<Weekday>>,
                           daysOfMonth: Option<seq<int>>, d: Date, today: Date)
    requires Year(d) == Year(today)
    ensures IsOccurrence(interval, monthsOfYear, daysOfWeek, daysOfMonth, Some(d), today)
            <==> && IsValid(interval, monthsOfYear, daysOfWeek, daysOfMonth)
                 && Admits(monthsOfYear, Month(d))
                 && Admits(daysOfMonth, DayOfMonth(d))
                 && Admits(daysOfWeek, DayOfWeek(d))
  {
    assert YearsBetweenFirstsOfYear(today, d) == 0;
  }

  /** Whether a date fires depends only on its year, its month, its day of
      month and its weekday: two dates that agree on those agree. */
  lemma {:induction false} YearPeriodicity(interval: int, monthsOfYear: Option<seq<int>>,
                                           daysOfWeek: Option<seq<Weekday>>, daysOfMonth: Option<seq<int>>,
                                           d1: Date, d2: Date, today: Date, k: nat)
    requires Year(d2) == Year(d1) + k * interval
    requires Month(d1) == Month(d2) && DayOfMonth(d1) == DayOfMonth(d2) && DayOfWeek(d1) == DayOfWeek(d2)
    requires interval > 0 && Year(d1) >= Year(today)
    ensures IsOccurrence(interval, monthsOfYear, daysOfWeek, daysOfMonth, Some(d1), today)
            ==> IsOccurrence(interval, monthsOfYear, daysOfWeek, daysOfMonth, Some(d2), today)
  {
    Arith.ModAddMultiple(Year(d1) - Year(today), k, interval);
    assert Year(d2) - Year(today) == (Year(d1) - Year(today)) + k * interval;
  }
}
