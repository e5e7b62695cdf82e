/** `RecurrenceRuleFactory`: one constructor call per variant, with no checks
    of its own beyond the interval guard every constructor runs. */
module RecurrenceRuleFactory {
  import opened Wrappers
  import opened Calendar
  import opened RecurrenceRule

  /** `createDailyRule(interval)`. */
  function CreateDailyRule(interval: int): (r: Result<Rule>)
    ensures r.Success? <==> interval > 0
    ensures r.Success? ==> r.value == Daily(interval)
  {
    New(Daily(interval))
  }

  /** `createWeeklyRule(interval, daysOfWeek)`: the list is stored as given. */
  function CreateWeeklyRule(interval: int, daysOfWeek: Option<seq<Weekday>>): (r: Result<Rule>)
    ensures r.Success? <==> interval > 0
    ensures r.Success? ==> r.value.Weekly? && r.value.interval == interval && r.value.daysOfWeek == daysOfWeek
  {
    New(Weekly(interval, daysOfWeek))
  }

  /** `createMonthlyRule(interval, daysOfWeek, daysOfMonth)`: both lists are stored as given. */
  function CreateMonthlyRule(interval: int, daysOfWeek: Option<seq<Weekday>>, daysOfMonth: Option<seq<int>>)
    : (r: Result<Rule>)
    ensures r.Success? <==> interval > 0
    ensures r.Success? ==> && r.value.Monthly? && r.value.interval == interval
                           && r.value.daysOfWeek == daysOfWeek && r.value.daysOfMonth == daysOfMonth
  {
    New(Monthly(interval, daysOfWeek, daysOfMonth))
  }

  /** `createYearlyRule(interval, monthsOfYear, daysOfWeek, daysOfMonth)`: the
      three lists are passed through in that order. */
  function CreateYearlyRule(interval: int, monthsOfYear: Option<seq<int>>, daysOfWeek: Option<seq<Weekday>>,
                            daysOfMonth: Option<seq<int>>): (r: Result<Rule>)
    ensures r.Success? <==> interval > 0
    ensures r.Success? ==> && r.value.Yearly? && r.value.interval == interval
                           && r.value.monthsOfYear == monthsOfYear
                           && r.value.daysOfWeek == daysOfWeek && r.value.daysOfMonth == daysOfMonth
  {
    New(Yearly(interval, monthsOfYear, daysOfWeek, daysOfMonth))
  }

  /** The only failure any factory method raises is the interval rejection,
      and a rule it does build keeps the argument's interval, which is positive. */
  lemma OnlyIntervalFails(r: Rule)
    ensures var built := match r
              case Daily(i) => CreateDailyRule(i)
              case Weekly(i, dow) => CreateWeeklyRule(i, dow)
              case Monthly(i, dow, dom) => CreateMonthlyRule(i, dow, dom)
              case Yearly(i, moy, dow, dom) => CreateYearlyRule(i, moy, dow, dom);
            && (built.Failure? ==> r.interval <= 0 && built.error == IllegalArgument(IntervalMessage))
            && (built.Success? ==> built.value == r && built.value.interval >= 1)
  {
  }
}
