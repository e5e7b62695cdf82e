/** `WeeklyRule`: repeats every `interval` weeks on the listed weekdays, with
    weeks counted by `ChronoUnit.WEEKS` from the evaluation date `today`. */
module WeeklyRule {
  import opened Wrappers
  import opened Calendar
  import opened RuleFields
  import JavaStrings
  import Arith

  /** `WeeklyRule.isValid()`. */
  predicate IsValid(interval: int, daysOfWeek: Option<seq<Weekday>>)
  {
    interval > 0 && daysOfWeek.Some? && |daysOfWeek.value| > 0
  }

  /** `WeeklyRule.getDescription()`: the list is printed even when null or empty. */
  function Description(interval: int, daysOfWeek: Option<seq<Weekday>>): string
  {
    Every + JavaStrings.IntToString(interval) + " week(s) on " + WeekdaysToString(daysOfWeek)
  }

  /** The description names the interval: it reads back from the text. */
  lemma DescriptionNamesInterval(interval: int, daysOfWeek: Option<seq<Weekday>>)
    ensures IntervalOfDescription(Description(interval, daysOfWeek)) == Some(interval)
  {
    var rest := " week(s) on " + WeekdaysToString(daysOfWeek);
    assert Description(interval, daysOfWeek) == Every + JavaStrings.IntToString(interval) + rest;
    IntervalOfDescriptionReads(interval, rest);
  }

  /** `WeeklyRule.isOccurrence(date)`, with the clock reading `today` as the anchor. */
  predicate IsOccurrence(interval: int, daysOfWeek: Option<seq<Weekday>>, date: Option<Date>, today: Date)
  {
    if !IsValid(interval, daysOfWeek) || date.None? then false
    else
      var weeksBetween := WeeksBetween(today, date.value);
      weeksBetween >= 0 && weeksBetween % interval == 0 && DayOfWeek(date.value) in daysOfWeek.value
  }

  /** An invalid rule or a null date is never an occurrence (no exception). */
  lemma NullOrInvalidNever(interval: int, daysOfWeek: Option<seq<Weekday>>, date: Option<Date>, today: Date)
    requires !IsValid(interval, daysOfWeek) || date.None?
    ensures !IsOccurrence(interval, daysOfWeek, date, today)
  {
  }

  /** On and after the evaluation date, a date occurs exactly when its whole
      number of weeks from `today` is a multiple of the interval and its
      weekday is listed. */
  lemma OccurrenceOnOrAfterToday(interval: int, daysOfWeek: Option<seq<Weekday>>, d: Date, today: Date)
    requires IsValid(interval, daysOfWeek) && d >= today
    ensures IsOccurrence(interval, daysOfWeek, Some(d), today)
            <==> ((d - today) / 7) % interval == 0 && DayOfWeek(d) in daysOfWeek.value
  {
  }

  /** Because the week count truncates toward zero, the six days before the
      evaluation date count as week 0: each of them on a listed weekday is an
      occurrence although it lies before `today`. */
  lemma TruncationAdmitsEarlierDays(interval: int, daysOfWeek: Option<seq<Weekday>>, d: Date, today: Date)
    requires IsValid(interval, daysOfWeek)
    requires today - 6 <= d < today && DayOfWeek(d) in daysOfWeek.value
    ensures IsOccurrence(interval, daysOfWeek, Some(d), today)
  {
    WeeksBetweenTruncates(today, d);
  }

  /** A date seven or more days before the evaluation date never occurs. */
  lemma NothingAWeekBefore(interval: int, daysOfWeek: Option<seq<Weekday>>, d: Date, today: Date)
    requires d <= today - 7
    ensures !IsOccurrence(interval, daysOfWeek, Some(d), today)
  {
    WeeksBetweenTruncates(today, d);
  }

  /** An earlier date that occurs: evaluated on Monday 2024-01-01, a weekly
      Sunday rule fires on Sunday 2023-12-31. */
  lemma EarlierDateOccursExample()
    ensures DayOfWeek(19722) == SUNDAY
    ensures IsOccurrence(1, Some([SUNDAY]), Some(19722), 19723)
  {
  }

  /** Periodicity on and after the evaluation date: an occurrence recurs
      `7 * interval` days later. */
  lemma Periodic(interval: int, daysOfWeek: Option<seq<Weekday>>, d: Date, today: Date)
    requires d >= today && IsOccurrence(interval, daysOfWeek, Some(d), today)
    ensures IsOccurrence(interval, daysOfWeek, Some(d + 7 * interval), today)
  {
    WeeksBetweenShift(today, d, interval);
    Arith.ModAddMultiple(WeeksBetween(today, d), 1, interval);
    DayOfWeekPeriodic(d, interval);
  }
}
