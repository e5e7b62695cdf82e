/** `RecurrenceRuleService`: construction-time checks in front of the
    factory. They are not the variants' own `isValid()`: the lemmas at the
    end state where the two agree and where they part. */
module RecurrenceRuleService {
  import opened Wrappers
  import opened Calendar
  import opened RuleFields
  import opened RecurrenceRule
  import RecurrenceRuleFactory
  import MonthlyRule

  const DaysOfWeekMessage: string := "At least one day of the week must be specified."
  const EitherDaysMessage: string := "Either days of the week or days of the month must be specified."
  const DaysOfMonthMessage: string := "At least one day of the month must be specified."
  const DayRangeMessage: string := "Days of the month must be between 1 and 31."
  const MonthRangeMessage: string := "Months of the year must be between 1 and 12."

  /** A check followed by the rest of a `create*`: a check that throws ends it. */
  function Then(check: Outcome, next: Result<Rule>): Result<Rule>
  {
    if check.Fail? then Failure(check.error) else next
  }

  /** `validateInterval`. */
  function ValidateInterval(interval: int): (o: Outcome)
    ensures o.Pass? <==> interval > 0
  {
    if interval <= 0 then Fail(IllegalArgument(IntervalMessage)) else Pass
  }

  /** `validateDaysOfWeek`. */
  function ValidateDaysOfWeek(daysOfWeek: Option<seq<Weekday>>): (o: Outcome)
    ensures o.Pass? <==> IsPresent(daysOfWeek)
  {
    if daysOfWeek.None? || |daysOfWeek.value| == 0 then Fail(IllegalArgument(DaysOfWeekMessage)) else Pass
  }

  /** `validateDaysOfMonth`: non-empty, and no entry outside 1..31. */
  function ValidateDaysOfMonth(daysOfMonth: Option<seq<int>>): (o: Outcome)
    ensures o.Pass? <==> IsPresent(daysOfMonth) && AllInRange(daysOfMonth.value, 1, 31)
  {
    if daysOfMonth.None? || |daysOfMonth.value| == 0 then Fail(IllegalArgument(DaysOfMonthMessage))
    else if exists i :: 0 <= i < |daysOfMonth.value| && (daysOfMonth.value[i] <= 0 || daysOfMonth.value[i] > 31)
    then Fail(IllegalArgument(DayRangeMessage))
    else Pass
  }

  /** `validateDaysOfWeekOrDaysOfMonth`: one of the lists must be non-empty,
      and a non-empty day list must be in range. */
  function ValidateDaysOfWeekOrDaysOfMonth(daysOfWeek: Option<seq<Weekday>>, daysOfMonth: Option<seq<int>>)
    : (o: Outcome)
    ensures o.Pass? <==> && (IsPresent(daysOfWeek) || IsPresent(daysOfMonth))
                         && (IsPresent(daysOfMonth) ==> AllInRange(daysOfMonth.value, 1, 31))
  {
    if !IsPresent(daysOfWeek) && !IsPresent(daysOfMonth) then Fail(IllegalArgument(EitherDaysMessage))
    else if IsPresent(daysOfWeek) && ValidateDaysOfWeek(daysOfWeek).Fail? then ValidateDaysOfWeek(daysOfWeek)
    else if IsPresent(daysOfMonth) && ValidateDaysOfMonth(daysOfMonth).Fail? then ValidateDaysOfMonth(daysOfMonth)
    else Pass
  }

  /** `validateMonthsOfYear`: a null or empty list passes. */
  function ValidateMonthsOfYear(monthsOfYear: Option<seq<int>>): (o: Outcome)
    ensures o.Pass? <==> !IsPresent(monthsOfYear) || AllInRange(monthsOfYear.value, 1, 12)
  {
    if IsPresent(monthsOfYear)
       && exists i :: 0 <= i < |monthsOfYear.value| && (monthsOfYear.value[i] <= 0 || monthsOfYear.value[i] > 12)
    then Fail(IllegalArgument(MonthRangeMessage))
    else Pass
  }

  function CreateDailyRule(interval: int): Result<Rule>
  {
    Then(ValidateInterval(interval), RecurrenceRuleFactory.CreateDailyRule(interval))
  }

  function CreateWeeklyRule(interval: int, daysOfWeek: Option<seq<Weekday>>): Result<Rule>
  {
    Then(ValidateInterval(interval),
    Then(ValidateDaysOfWeek(daysOfWeek),
         RecurrenceRuleFactory.CreateWeeklyRule(interval, daysOfWeek)))
  }

  function CreateMonthlyRule(interval: int, daysOfWeek: Option<seq<Weekday>>, daysOfMonth: Option<seq<int>>)
    : Result<Rule>
  {
    Then(ValidateInterval(interval),
    Then(ValidateDaysOfWeekOrDaysOfMonth(daysOfWeek, daysOfMonth),
         RecurrenceRuleFactory.CreateMonthlyRule(interval, daysOfWeek, daysOfMonth)))
  }

  function CreateYearlyRule(interval: int, monthsOfYear: Option<seq<int>>, daysOfWeek: Option<seq<Weekday>>,
                            daysOfMonth: Option<seq<int>>): Result<Rule>
  {
    Then(ValidateInterval(interval),
    Then(ValidateMonthsOfYear(monthsOfYear),
    Then(ValidateDaysOfWeekOrDaysOfMonth(daysOfWeek, daysOfMonth),
         RecurrenceRuleFactory.CreateYearlyRule(interval, monthsOfYear, daysOfWeek, daysOfMonth))))
  }

  // ---------------------------------------------------------------------------
  // What each create* accepts, and what it builds
  // ---------------------------------------------------------------------------

  /** The interval is checked first: a non-positive one is rejected by every
      `create*` with the interval message, whatever the lists. */
  lemma IntervalCheckedFirst(interval: int, monthsOfYear: Option<seq<int>>, daysOfWeek: Option<seq<Weekday>>,
                             daysOfMonth: Option<seq<int>>)
    requires interval <= 0
    ensures CreateDailyRule(interval) == Failure(IllegalArgument(IntervalMessage))
    ensures CreateWeeklyRule(interval, daysOfWeek) == Failure(IllegalArgument(IntervalMessage))
    ensures CreateMonthlyRule(interval, daysOfWeek, daysOfMonth) == Failure(IllegalArgument(IntervalMessage))
    ensures CreateYearlyRule(interval, monthsOfYear, daysOfWeek, daysOfMonth)
            == Failure(IllegalArgument(IntervalMessage))
  {
  }

  /** Weekly creation succeeds exactly for a positive interval and a non-empty
      weekday list, builds that rule, and the rule is valid. */
  lemma WeeklyAccepts(interval: int, daysOfWeek: Option<seq<Weekday>>)
    ensures var r := CreateWeeklyRule(interval, daysOfWeek);
            && (r.Success? <==> interval > 0 && IsPresent(daysOfWeek))
            && (r.Success? ==> r.value == Weekly(interval, daysOfWeek) && IsValid(r.value))
            && (interval > 0 && !IsPresent(daysOfWeek) ==> r == Failure(IllegalArgument(DaysOfWeekMessage)))
  {
  }

  /** Daily creation succeeds exactly for a positive interval, and the rule is valid. */
  lemma DailyAccepts(interval: int)
    ensures var r := CreateDailyRule(interval);
            && (r.Success? <==> interval > 0)
            && (r.Success? ==> r.value == Daily(interval) && IsValid(r.value))
  {
  }

  /** Monthly creation succeeds exactly when the interval is positive, one of
      the two lists is non-empty, and a non-empty day list is within 1..31. */
  lemma MonthlyAccepts(interval: int, daysOfWeek: Option<seq<Weekday>>, daysOfMonth: Option<seq<int>>)
    ensures var r := CreateMonthlyRule(interval, daysOfWeek, daysOfMonth);
            && (r.Success? <==> && interval > 0
                                && (IsPresent(daysOfWeek) || IsPresent(daysOfMonth))
                                && (IsPresent(daysOfMonth) ==> AllInRange(daysOfMonth.value, 1, 31)))
            && (r.Success? ==> r.value == Monthly(interval, daysOfWeek, daysOfMonth))
  {
  }

  /** Yearly creation succeeds exactly when the interval is positive, a
      non-empty month list is within 1..12, one of the two day lists is
      non-empty, and a non-empty day list is within 1..31. */
  lemma YearlyAccepts(interval: int, monthsOfYear: Option<seq<int>>, daysOfWeek: Option<seq<Weekday>>,
                      daysOfMonth: Option<seq<int>>)
    ensures var r := CreateYearlyRule(interval, monthsOfYear, daysOfWeek, daysOfMonth);
            && (r.Success? <==> && interval > 0
                                && (IsPresent(monthsOfYear) ==> AllInRange(monthsOfYear.value, 1, 12))
                                && (IsPresent(daysOfWeek) || IsPresent(daysOfMonth))
                                && (IsPresent(daysOfMonth) ==> AllInRange(daysOfMonth.value, 1, 31)))
            && (r.Success? ==> r.value == Yearly(interval, monthsOfYear, daysOfWeek, daysOfMonth))
  {
  }

  /** Both day lists null or empty: monthly and yearly creation reject it
      with that message (once the earlier checks pass). */
  lemma NoDaysRejected(interval: int, monthsOfYear: Option<seq<int>>, daysOfWeek: Option<seq<Weekday>>,
                       daysOfMonth: Option<seq<int>>)
    requires interval > 0 && !IsPresent(daysOfWeek) && !IsPresent(daysOfMonth)
    requires !IsPresent(monthsOfYear) || AllInRange(monthsOfYear.value, 1, 12)
    ensures CreateMonthlyRule(interval, daysOfWeek, daysOfMonth) == Failure(IllegalArgument(EitherDaysMessage))
    ensures CreateYearlyRule(interval, monthsOfYear, daysOfWeek, daysOfMonth)
            == Failure(IllegalArgument(EitherDaysMessage))
  {
  }

  /** A supplied day of the month outside 1..31 is rejected with the range message. */
  lemma OutOfRangeDayRejected(interval: int, monthsOfYear: Option<seq<int>>, daysOfWeek: Option<seq<Weekday>>,
                              daysOfMonth: seq<int>, k: int)
    requires interval > 0 && 0 <= k < |daysOfMonth| && !(1 <= daysOfMonth[k] <= 31)
    requires !IsPresent(monthsOfYear) || AllInRange(monthsOfYear.value, 1, 12)
    ensures CreateMonthlyRule(interval, daysOfWeek, Some(daysOfMonth)) == Failure(IllegalArgument(DayRangeMessage))
    ensures CreateYearlyRule(interval, monthsOfYear, daysOfWeek, Some(daysOfMonth))
            == Failure(IllegalArgument(DayRangeMessage))
  {
  }

  /** Yearly checks the months before the days: a bad month wins over
      missing or bad days. */
  lemma MonthsCheckedBeforeDays(interval: int, monthsOfYear: seq<int>, daysOfWeek: Option<seq<Weekday>>,
                                daysOfMonth: Option<seq<int>>, k: int)
    requires interval > 0 && 0 <= k < |monthsOfYear| && !(1 <= monthsOfYear[k] <= 12)
    ensures CreateYearlyRule(interval, Some(monthsOfYear), daysOfWeek, daysOfMonth)
            == Failure(IllegalArgument(MonthRangeMessage))
  {
  }

  // ---------------------------------------------------------------------------
  // The gap between the service's checks and the variants' isValid()
  // ---------------------------------------------------------------------------

  /** A rule the service builds for monthly recurrence is valid exactly when
      its weekday list is not the empty list. */
  lemma MonthlyCreatedValidIff(interval: int, daysOfWeek: Option<seq<Weekday>>, daysOfMonth: Option<seq<int>>)
    requires CreateMonthlyRule(interval, daysOfWeek, daysOfMonth).Success?
    ensures IsValid(CreateMonthlyRule(interval, daysOfWeek, daysOfMonth).value) <==> daysOfWeek != Some([])
  {
    MonthlyAccepts(interval, daysOfWeek, daysOfMonth);
  }

  /** A rule the service builds for yearly recurrence is valid exactly when
      its month list is non-null and its weekday list is not the empty list. */
  lemma YearlyCreatedValidIff(interval: int, monthsOfYear: Option<seq<int>>, daysOfWeek: Option<seq<Weekday>>,
                              daysOfMonth: Option<seq<int>>)
    requires CreateYearlyRule(interval, monthsOfYear, daysOfWeek, daysOfMonth).Success?
    ensures IsValid(CreateYearlyRule(interval, monthsOfYear, daysOfWeek, daysOfMonth).value)
            <==> monthsOfYear.Some? && daysOfWeek != Some([])
  {
    YearlyAccepts(interval, monthsOfYear, daysOfWeek, daysOfMonth);
  }

  /** Accepted by the service yet invalid: an empty weekday list beside a
      day list (monthly), and a null month list (yearly). */
  lemma AcceptedButInvalid()
    ensures CreateMonthlyRule(1, Some([]), Some([15])) == Success(Monthly(1, Some([]), Some([15])))
    ensures !IsValid(Monthly(1, Some([]), Some([15])))
    ensures CreateYearlyRule(1, None, Some([Weekday.MONDAY]), None)
            == Success(Yearly(1, None, Some([Weekday.MONDAY]), None))
    ensures !IsValid(Yearly(1, None, Some([Weekday.MONDAY]), None))
  {
    MonthlyAccepts(1, Some([]), Some([15]));
    YearlyAccepts(1, None, Some([Weekday.MONDAY]), None);
  }

  /** Accepted by the service, valid, and still throwing: a monthly rule with
      only a weekday list throws a NullPointerException for the evaluation date. */
  lemma AcceptedValidButThrows(today: Date)
    ensures CreateMonthlyRule(1, Some([Weekday.MONDAY]), None) == Success(Monthly(1, Some([Weekday.MONDAY]), None))
    ensures IsValid(Monthly(1, Some([Weekday.MONDAY]), None))
    ensures IsOccurrence(Monthly(1, Some([Weekday.MONDAY]), None), Some(today), today) == Failure(NullPointer)
  {
    MonthlyAccepts(1, Some([Weekday.MONDAY]), None);
    MonthlyRule.ValidRuleWithoutDaysOfMonthThrows(1, Some([Weekday.MONDAY]), today);
  }
}
