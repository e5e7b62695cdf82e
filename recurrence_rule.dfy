/** `RecurrenceRule`: the closed family of the four rule variants, the
    interval guard of their common constructor, and the dispatch of
    `isValid()`, `getDescription()` and `isOccurrence(date)` to the variant. */
module RecurrenceRule {
  import opened Wrappers
  import opened Calendar
  import opened RuleFields
  import DailyRule
  import WeeklyRule
  import MonthlyRule
  import YearlyRule

  /** A rule as its fields hold it. The interval is set once, by the
      constructor, and nothing reassigns it. */
  datatype Rule =
    | Daily(interval: int)
    | Weekly(interval: int, daysOfWeek: Option<seq<Weekday>>)
    | Monthly(interval: int, daysOfWeek: Option<seq<Weekday>>, daysOfMonth: Option<seq<int>>)
    | Yearly(interval: int, monthsOfYear: Option<seq<int>>, daysOfWeek: Option<seq<Weekday>>,
             daysOfMonth: Option<seq<int>>)

  const IntervalMessage: string := "Interval must be greater than 0."

  /** The protected constructor `RecurrenceRule(int interval)`, run by every
      variant's constructor before it stores its own fields. */
  function New(r: Rule): (result: Result<Rule>)
    ensures result.Success? <==> r.interval > 0
    ensures result.Success? ==> result.value == r && result.value.interval >= 1
    ensures result.Failure? ==> result.error == IllegalArgument(IntervalMessage)
  {
    if r.interval <= 0 then Failure(IllegalArgument(IntervalMessage)) else Success(r)
  }

  /** `isValid()` of the variant. */
  predicate IsValid(r: Rule)
  {
    match r
    case Daily(i) => DailyRule.IsValid(i)
    case Weekly(i, dow) => WeeklyRule.IsValid(i, dow)
    case Monthly(i, dow, dom) => MonthlyRule.IsValid(i, dow, dom)
    case Yearly(i, moy, dow, dom) => YearlyRule.IsValid(i, moy, dow, dom)
  }

  /** `getDescription()` of the variant. */
  function Description(r: Rule): string
  {
    match r
    case Daily(i) => DailyRule.Description(i)
    case Weekly(i, dow) => WeeklyRule.Description(i, dow)
    case Monthly(i, dow, dom) => MonthlyRule.Description(i, dow, dom)
    case Yearly(i, moy, dow, dom) => YearlyRule.Description(i, moy, dow, dom)
  }

  /** `isOccurrence(date)` of the variant, with the clock reading `today`;
      only the monthly variant can throw. */
  function IsOccurrence(r: Rule, date: Option<Date>, today: Date): Result<bool>
  {
    match r
    case Daily(i) => Success(DailyRule.IsOccurrence(i, date, today))
    case Weekly(i, dow) => Success(WeeklyRule.IsOccurrence(i, dow, date, today))
    case Monthly(i, dow, dom) => MonthlyRule.IsOccurrence(i, dow, dom, date, today)
    case Yearly(i, moy, dow, dom) => Success(YearlyRule.IsOccurrence(i, moy, dow, dom, date, today))
  }

  /** Every variant's validity includes a positive interval, so a valid rule
      is one the constructor accepts. */
  lemma ValidHasPositiveInterval(r: Rule)
    requires IsValid(r)
    ensures r.interval >= 1 && New(r) == Success(r)
  {
  }

  /** A constructed daily rule is always valid; the other variants' validity
      also depends on their lists. */
  lemma ConstructedDailyIsValid(interval: int)
    requires New(Daily(interval)).Success?
    ensures IsValid(New(Daily(interval)).value)
  {
  }

  /** Only a monthly rule with a null day-of-month list can throw, and what
      it throws is a NullPointerException. */
  lemma OnlyMonthlyThrows(r: Rule, date: Option<Date>, today: Date)
    ensures IsOccurrence(r, date, today).Failure? ==>
              r.Monthly? && r.daysOfMonth.None? && IsOccurrence(r, date, today).error == NullPointer
  {
  }

  /** An invalid rule or a null date answers `false` without throwing. */
  lemma NullOrInvalidFalse(r: Rule, date: Option<Date>, today: Date)
    requires !IsValid(r) || date.None?
    ensures IsOccurrence(r, date, today) == Success(false)
  {
    match r
    case Daily(i) =>
    case Weekly(i, dow) =>
    case Monthly(i, dow, dom) => MonthlyRule.NullOrInvalidFalse(i, dow, dom, date, today);
    case Yearly(i, moy, dow, dom) =>
  }

  /** Every description starts with "Every " and the interval, followed by a
      space: the interval can be read back from the text. */
  lemma DescriptionNamesInterval(r: Rule)
    ensures IntervalOfDescription(Description(r)) == Some(r.interval)
  {
    match r
    case Daily(i) => DailyRule.DescriptionNamesInterval(i);
    case Weekly(i, dow) => WeeklyRule.DescriptionNamesInterval(i, dow);
    case Monthly(i, dow, dom) => MonthlyRule.DescriptionNamesInterval(i, dow, dom);
    case Yearly(i, moy, dow, dom) => YearlyRule.DescriptionNamesInterval(i, moy, dow, dom);
  }
}
