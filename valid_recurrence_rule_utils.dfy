/** `ValidRecurrenceRuleUtils`: the date-range check used for plans, and the
    rule-type name check. */
module ValidRecurrenceRuleUtils {
  import opened Wrappers
  import opened Calendar
  import RecurrenceRuleType

  const DateRangeMessage: string := "Invalid date range"

  /** `isValid(ruleType)`: delegates to `RecurrenceRuleType.isValid`. */
  predicate IsValid(ruleType: Option<string>)
  {
    RecurrenceRuleType.IsValid(ruleType)
  }

  /** `isValidDateRange(startDate, endDate)`: both absent is a "someday" plan
      and valid; exactly one absent is invalid; otherwise the start must not
      be after the end. */
  predicate IsValidDateRange(startDate: Option<Date>, endDate: Option<Date>)
  {
    if startDate.None? && endDate.None? then true
    else if startDate.None? || endDate.None? then false
    else !(startDate.value > endDate.value)
  }

  /** `validateDateRange(startDate, endDate)`. */
  function ValidateDateRange(startDate: Option<Date>, endDate: Option<Date>): Outcome
  {
    if !IsValidDateRange(startDate, endDate) then Fail(IllegalArgument(DateRangeMessage)) else Pass
  }

  /** The three cases of a date range, as one characterisation: a range is
      valid exactly when both ends are absent, or both are present in order.
      Equal dates form a valid one-day range. */
  lemma DateRangeCases(startDate: Option<Date>, endDate: Option<Date>)
    ensures IsValidDateRange(startDate, endDate)
            <==> (startDate.None? && endDate.None?)
                 || (startDate.Some? && endDate.Some? && startDate.value <= endDate.value)
    ensures startDate.None? != endDate.None? ==> !IsValidDateRange(startDate, endDate)
    ensures startDate.Some? && startDate == endDate ==> IsValidDateRange(startDate, endDate)
  {
  }

  /** `validateDateRange` throws exactly when the range is invalid, with the
      range message, and otherwise does nothing. */
  lemma ValidateDateRangeIff(startDate: Option<Date>, endDate: Option<Date>)
    ensures ValidateDateRange(startDate, endDate).Pass? <==> IsValidDateRange(startDate, endDate)
    ensures ValidateDateRange(startDate, endDate).Fail? ==>
              ValidateDateRange(startDate, endDate).error == IllegalArgument(DateRangeMessage)
  {
  }

  /** `isValid(ruleType)` accepts exactly the four kind names in any case. */
  lemma IsValidRuleType(ruleType: Option<string>)
    ensures IsValid(ruleType) <==> exists t: RecurrenceRuleType.RuleType :: RecurrenceRuleType.NameMatches(t, ruleType)
  {
    RecurrenceRuleType.IsValidIff(ruleType);
  }
}
