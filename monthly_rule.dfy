/** `MonthlyRule`: repeats every `interval` calendar months on the listed days
    of the month, with months counted from the evaluation date `today`. */
module MonthlyRule {
  import opened Wrappers
  import opened Calendar
  import opened RuleFields
  import JavaStrings

  /** `MonthlyRule.isValid()`. */
  predicate IsValid(interval: int, daysOfWeek: Option<seq<Weekday>>, daysOfMonth: Option<seq<int>>)
  {
    && interval > 0
    && (daysOfWeek.None? || |daysOfWeek.value| > 0)
    && (daysOfMonth.None? || AllInRange(daysOfMonth.value, 1, 31))
  }

  /** The text `getDescription()` builds: "Every N month(s)", then " on [..]"
      when the weekday list is non-empty, then " on days [..]" when the
      day-of-month list is non-empty. */
  function Description(interval: int, daysOfWeek: Option<seq<Weekday>>, daysOfMonth: Option<seq<int>>): string
  {
    Every + JavaStrings.IntToString(interval) + " month(s)"
    + Section(" on ", IsPresent(daysOfWeek), WeekdaysToString(daysOfWeek))
    + Section(" on days ", IsPresent(daysOfMonth), IntsToString(daysOfMonth))
  }

  /** `MonthlyRule.getDescription()`, appending to a builder step by step. */
  method Describe(interval: int, daysOfWeek: Option<seq<Weekday>>, daysOfMonth: Option<seq<int>>)
    returns (description: string)
    ensures description == Description(interval, daysOfWeek, daysOfMonth)
  {
    description := Every + JavaStrings.IntToString(interval) + " month(s)";
    ghost var head := description;
    if daysOfWeek.Some? && |daysOfWeek.value| > 0 {
      ConcatAssoc(description, " on ", WeekdaysToString(daysOfWeek));
      description := description + " on " + WeekdaysToString(daysOfWeek);
    }
    assert description == head + Section(" on ", IsPresent(daysOfWeek), WeekdaysToString(daysOfWeek));
    head := description;
    if daysOfMonth.Some? && |daysOfMonth.value| > 0 {
      ConcatAssoc(description, " on days ", IntsToString(daysOfMonth));
      description := description + " on days " + IntsToString(daysOfMonth);
    }
    assert description == head + Section(" on days ", IsPresent(daysOfMonth), IntsToString(daysOfMonth));
  }

  /** The description names the interval: it reads back from the text. */
  lemma DescriptionNamesInterval(interval: int, daysOfWeek: Option<seq<Weekday>>, daysOfMonth: Option<seq<int>>)
    ensures IntervalOfDescription(Description(interval, daysOfWeek, daysOfMonth)) == Some(interval)
  {
    var n := JavaStrings.IntToString(interval);
    var a := Section(" on ", IsPresent(daysOfWeek), WeekdaysToString(daysOfWeek));
    var b := Section(" on days ", IsPresent(daysOfMonth), IntsToString(daysOfMonth));
    ConcatAssoc(Every + n, " month(s)" + a, b);
    ConcatAssoc(Every + n, " month(s)", a);
    IntervalOfDescriptionReads(interval, " month(s)" + a + b);
  }

  /** `MonthlyRule.isOccurrence(date)`, with the clock reading `today` as the
      anchor. A valid rule without a day-of-month list throws a
      NullPointerException once the month offset matches: `daysOfMonth.contains`
      is then called on null. The weekday list is never consulted. */
  function IsOccurrence(interval: int, daysOfWeek: Option<seq<Weekday>>, daysOfMonth: Option<seq<int>>,
                        date: Option<Date>, today: Date): Result<bool>
  {
    if !IsValid(interval, daysOfWeek, daysOfMonth) || date.None? then Success(false)
    else
      var monthsBetween := MonthsBetweenFirstsOfMonth(today, date.value);
      if !(monthsBetween >= 0 && monthsBetween % interval == 0) then Success(false)
      else if daysOfMonth.None? then Failure(NullPointer)
      else Success(DayOfMonth(date.value) in daysOfMonth.value)
  }

  /** An invalid rule or a null date answers `false`. */
  lemma NullOrInvalidFalse(interval: int, daysOfWeek: Option<seq<Weekday>>, daysOfMonth: Option<seq<int>>,
                           date: Option<Date>, today: Date)
    requires !IsValid(interval, daysOfWeek, daysOfMonth) || date.None?
    ensures IsOccurrence(interval, daysOfWeek, daysOfMonth, date, today) == Success(false)
  {
  }

  /** The test throws exactly for a valid rule with a null day-of-month list,
      on a date whose month offset from `today` is a non-negative multiple of
      the interval, and what it throws is a NullPointerException. */
  lemma ThrowsIff(interval: int, daysOfWeek: Option<seq<Weekday>>, daysOfMonth: Option<seq<int>>,
                  d: Date, today: Date)
    ensures var r := IsOccurrence(interval, daysOfWeek, daysOfMonth, Some(d), today);
            var m := MonthsBetweenFirstsOfMonth(today, d);
            && (r.Failure? <==> IsValid(interval, daysOfWeek, daysOfMonth) && daysOfMonth.None?
                                && m >= 0 && m % interval == 0)
            && (r.Failure? ==> r.error == NullPointer)
  {
  }

  /** `isValid` admits a null day-of-month list, yet such a rule throws when
      asked about the evaluation date itself. */
  lemma ValidRuleWithoutDaysOfMonthThrows(interval: int, daysOfWeek: Option<seq<Weekday>>, today: Date)
    requires IsValid(interval, daysOfWeek, None)
    ensures IsOccurrence(interval, daysOfWeek, None, Some(today), today) == Failure(NullPointer)
  {
  }

  /** With a day-of-month list, a date occurs exactly when its month offset
      from `today` is a non-negative multiple of the interval and its day of
      month is listed. */
  lemma OccurrenceIff(interval: int, daysOfWeek: Option<seq<Weekday>>, daysOfMonth: seq<int>, d: Date, today: Date)
    requires IsValid(interval, daysOfWeek, Some(daysOfMonth))
    ensures var m := MonthsBetweenFirstsOfMonth(today, d);
            IsOccurrence(interval, daysOfWeek, Some(daysOfMonth), Some(d), today)
            == Success(m >= 0 && m % interval == 0 && DayOfMonth(d) in daysOfMonth)
  {
  }

  /** The weekday list only affects validity: two valid rules that differ only
      in their weekday lists agree on every date. */
  lemma DaysOfWeekIgnored(interval: int, dow1: Option<seq<Weekday>>, dow2: Option<seq<Weekday>>,
                          daysOfMonth: Option<seq<int>>, date: Option<Date>, today: Date)
    requires IsValid(interval, dow1, daysOfMonth) && IsValid(interval, dow2, daysOfMonth)
    ensures IsOccurrence(interval, dow1, daysOfMonth, date, today)
            == IsOccurrence(interval, dow2, daysOfMonth, date, today)
  {
  }

  /** No clamping: in a month shorter than every listed day, no date fires. */
  lemma {:induction false} NoClamping(interval: int, daysOfWeek: Option<seq<Weekday>>, daysOfMonth: seq<int>,
                                      d: Date, today: Date)
    requires forall i :: 0 <= i < |daysOfMonth| ==> daysOfMonth[i] > DaysInMonth(Year(d), Month(d))
    ensures IsOccurrence(interval, daysOfWeek, Some(daysOfMonth), Some(d), today) != Success(true)
  {
    ToCivilIsCivil(d);
    assert DayOfMonth(d) <= DaysInMonth(Year(d), Month(d));
  }
}
