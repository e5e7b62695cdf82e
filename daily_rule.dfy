/** `DailyRule`: repeats every `interval` days, counted from the evaluation
    date `today` (the `LocalDate.now()` reading taken by `isOccurrence`). */
module DailyRule {
  import opened Wrappers
  import opened Calendar
  import opened JavaStrings
  import Arith
  import RuleFields

  /** `DailyRule.isValid()`. */
  predicate IsValid(interval: int)
  {
    interval > 0
  }

  /** `DailyRule.getDescription()`. */
  function Description(interval: int): string
  {
    RuleFields.Every + IntToString(interval) + " day(s)"
  }

  /** `DailyRule.isOccurrence(date)`, with the clock reading `today` as the anchor. */
  predicate IsOccurrence(interval: int, date: Option<Date>, today: Date)
  {
    if date.None? || !IsValid(interval) then false
    else
      var daysBetween := DaysBetween(today, date.value);
      daysBetween >= 0 && daysBetween % interval == 0
  }

  /** A null date or an invalid rule is never an occurrence (no exception). */
  lemma NullOrInvalidNever(interval: int, date: Option<Date>, today: Date)
    requires date.None? || interval <= 0
    ensures !IsOccurrence(interval, date, today)
  {
  }

  /** The occurrences of a valid daily rule are exactly `today + k * interval`
      for `k >= 0`: this direction says each of them occurs. */
  lemma {:induction false} OccursAtEveryMultiple(interval: int, today: Date, k: nat)
    requires IsValid(interval)
    ensures IsOccurrence(interval, Some(today + k * interval), today)
  {
    Arith.ModAddMultiple(0, k, interval);
  }

  /** ... and this direction says nothing else occurs. */
  lemma OccurrenceIsMultiple(interval: int, d: Date, today: Date)
    requires IsOccurrence(interval, Some(d), today)
    ensures d >= today && d == today + ((d - today) / interval) * interval
  {
    Arith.DivisibleIsMultiple(d - today, interval);
  }

  /** The evaluation date itself always occurs, and no earlier date does. */
  lemma AnchorOccursAndNothingBefore(interval: int, d: Date, today: Date)
    requires IsValid(interval)
    ensures IsOccurrence(interval, Some(today), today)
    ensures d < today ==> !IsOccurrence(interval, Some(d), today)
  {
  }

  /** Periodicity: an occurrence is followed by another `interval` days later. */
  lemma Periodic(interval: int, d: Date, today: Date)
    requires IsOccurrence(interval, Some(d), today)
    ensures IsOccurrence(interval, Some(d + interval), today)
  {
    Arith.ModAddMultiple(d - today, 1, interval);
  }

  /** No double counting: two distinct occurrences are at least `interval` days apart. */
  lemma {:induction false} OccurrencesSpaced(interval: int, d1: Date, d2: Date, today: Date)
    requires IsOccurrence(interval, Some(d1), today) && IsOccurrence(interval, Some(d2), today)
    requires d1 < d2
    ensures d2 - d1 >= interval
  {
    var q1 := (d1 - today) / interval;
    var q2 := (d2 - today) / interval;
    OccurrenceIsMultiple(interval, d1, today);
    OccurrenceIsMultiple(interval, d2, today);
    assert d2 - d1 == q2 * interval - q1 * interval == (q2 - q1) * interval;
    Arith.PositiveFactor(q2 - q1, interval);
    Arith.MulAtLeast(q2 - q1, interval);
  }

  /** The description names the interval: it reads back from the text. */
  lemma DescriptionNamesInterval(interval: int)
    ensures RuleFields.IntervalOfDescription(Description(interval)) == Some(interval)
  {
    RuleFields.IntervalOfDescriptionReads(interval, " day(s)");
  }

  /** With interval 1, every date from the evaluation date on occurs. */
  lemma IntervalOneEveryDay(d: Date, today: Date)
    requires d >= today
    ensures IsOccurrence(1, Some(d), today)
  {
  }
}
