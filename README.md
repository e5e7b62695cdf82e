# Treat-well planner: recurrence rules and plan domain in Dafny

This project models the domain core of the treat-well planner, a personal
planning service. It covers these parts:

- **Recurrence rules.** The four variants (daily, weekly, monthly, yearly),
  with their validity checks, descriptions and occurrence tests, and the
  factory and service that build them.
- **Rule kind names.** The kind enumeration and its case-insensitive lookup.
- **Plans and tags.** The plan aggregate, with its date guard, its optional
  rule and its two-sided tag links.
- **Plan queries.** The day-by-day enumeration of a plan's occurrence dates
  within a search window, and the check of whether a plan is active on a date.
- **Categories.** Soft deletion and restoring.
- **Members.** Members and their social-login accounts.
- **Refresh tokens.** Parsing of `Bearer` headers and token expiry.

How each form in the source is modelled:

- **Values** are datatypes and functions: rules, tokens and the
  validators.
- **Objects the source updates in place** are classes with `modifies`
  clauses: `Plan`, `Tag`, `Category`, `Member` and `SocialAccount`.
- **The occurrence loop** is a `while` method (`PlanDomainService.Walk`). It
  is proved against a recursive specification function (`Enumerate`), and
  the lemmas about that function state what the enumeration promises.
  The loop takes the day test as a function value, because
  `rule.isOccurrence` is a virtual call that the loop knows nothing about.
  `CalculateOccurrencesBasedOnRule` passes it the rule's test.
- **A Java `null`** is `None` of an option type.
- **A thrown exception** is the `Failure`/`Fail` value of a result type. It
  carries the source's message.

`LocalDate.now()` and `LocalDateTime.now()` are explicit parameters (`today`,
`now`). So are the JWT library calls (`getExpiration`, `generate`).

**Behaviour of the code worth knowing:**

- **The anchor.** Every occurrence test counts from the evaluation date
  `today`. The rule stores no start date of its own.
- **The weekly count.** The weekly week count truncates toward zero. So the
  six days before `today` count as week 0
  (`WeeklyRule.TruncationAdmitsEarlierDays`).
- **Monthly weekday list.** A monthly rule ignores its weekday list when it
  tests a date (`MonthlyRule.DaysOfWeekIgnored`).
- **Monthly without day list.** A monthly rule without a day-of-month list
  throws a NullPointerException (`MonthlyRule.ThrowsIff`).
- **Yearly empty lists.** An empty month list or day list in a yearly rule
  matches nothing. Only a null list matches everything
  (`YearlyRule.EmptyListNeverOccurs`).
- **Someday plans.** A plan without dates may still be given a rule. Nothing
  in `Plan` forbids it.

Dates are epoch days in the proleptic Gregorian calendar. The `java.time`
fields the rules read are derived from them. `Calendar.FromCivilToCivil`
and `Calendar.ToCivilIsCivil` prove this conversion correct.

## Model

All source paths are relative to the repository root.

| member | source | states |
|---|---|---|
| Calendar.DayOfWeekPeriodic | src/main/java/com/world/planner/plan/domain/recurrence/WeeklyRule.java:56 | the weekday of a date repeats every 7 days, and 1970-01-01 is a Thursday |
| Calendar.SameWeekdayIff | src/main/java/com/world/planner/plan/domain/recurrence/WeeklyRule.java:56 | two dates share a weekday exactly when they are a whole number of weeks apart |
| Calendar.ToCivilIsCivil | src/main/java/com/world/planner/plan/domain/recurrence/MonthlyRule.java:73 | every date has a month in 1..12 and a day of month within that month's length, February 29 only in leap years |
| Calendar.FromCivilToCivil | src/main/java/com/world/planner/plan/domain/recurrence/YearlyRule.java:84-86 | the year, month and day read from a date build back exactly that date |
| Calendar.WeeksBetweenTruncates | src/main/java/com/world/planner/plan/domain/recurrence/WeeklyRule.java:52 | `WEEKS.between` is 0 for the six days on either side, non-negative exactly when fewer than 7 days back, and floor division going forward |
| Calendar.WeeksBetweenShift | src/main/java/com/world/planner/plan/domain/recurrence/WeeklyRule.java:52 | adding k weeks to a later date adds k to the week count |
| JavaStrings.Trim | src/main/java/com/world/planner/auth/domain/token/RefreshToken.java:39 | `trim()` never lengthens, and leaves no character up to U+0020 at either end |
| JavaStrings.TrimEmptyIff | src/main/java/com/world/planner/auth/domain/token/RefreshToken.java:39-43 | trimming gives the empty text exactly when every character is at most U+0020 |
| JavaStrings.TrimOfTrimmed | src/main/java/com/world/planner/auth/domain/token/RefreshToken.java:39 | a text with nothing to trim at its ends is unchanged by `trim()` |
| JavaStrings.ParseIntToString | src/main/java/com/world/planner/plan/domain/recurrence/DailyRule.java:20 | the decimal text of an integer reads back as that integer |
| DailyRule.NullOrInvalidNever | src/main/java/com/world/planner/plan/domain/recurrence/DailyRule.java:34-36 | a null date or a non-positive interval is never an occurrence, without throwing |
| DailyRule.OccursAtEveryMultiple | src/main/java/com/world/planner/plan/domain/recurrence/DailyRule.java:38-41 | every date `today + k * interval`, for k >= 0, occurs |
| DailyRule.OccurrenceIsMultiple | src/main/java/com/world/planner/plan/domain/recurrence/DailyRule.java:39-41 | every occurrence is on or after `today` and a whole number of intervals from it |
| DailyRule.AnchorOccursAndNothingBefore | src/main/java/com/world/planner/plan/domain/recurrence/DailyRule.java:38-41 | the evaluation date occurs and no earlier date does |
| DailyRule.Periodic | src/main/java/com/world/planner/plan/domain/recurrence/DailyRule.java:41 | an occurrence is followed by another one interval later |
| DailyRule.OccurrencesSpaced | src/main/java/com/world/planner/plan/domain/recurrence/DailyRule.java:41 | distinct occurrences are at least one interval apart |
| DailyRule.DescriptionNamesInterval | src/main/java/com/world/planner/plan/domain/recurrence/DailyRule.java:19-21 | the interval can be read back from the description |
| DailyRule.IntervalOneEveryDay | src/main/java/com/world/planner/plan/domain/recurrence/DailyRule.java:41 | with interval 1, every date from `today` on occurs |
| WeeklyRule.DescriptionNamesInterval | src/main/java/com/world/planner/plan/domain/recurrence/WeeklyRule.java:37-39 | the interval can be read back from the description |
| WeeklyRule.NullOrInvalidNever | src/main/java/com/world/planner/plan/domain/recurrence/WeeklyRule.java:48-50 | an invalid rule or a null date is never an occurrence |
| WeeklyRule.OccurrenceOnOrAfterToday | src/main/java/com/world/planner/plan/domain/recurrence/WeeklyRule.java:51-56 | from `today` on, a date occurs iff its whole weeks from `today` are a multiple of the interval and its weekday is listed |
| WeeklyRule.TruncationAdmitsEarlierDays | src/main/java/com/world/planner/plan/domain/recurrence/WeeklyRule.java:52-56 | a listed weekday among the six days before `today` occurs |
| WeeklyRule.NothingAWeekBefore | src/main/java/com/world/planner/plan/domain/recurrence/WeeklyRule.java:52-54 | no date seven or more days before `today` occurs |
| WeeklyRule.EarlierDateOccursExample | src/main/java/com/world/planner/plan/domain/recurrence/WeeklyRule.java:51-56 | evaluated on Monday 2024-01-01, a weekly Sunday rule fires on Sunday 2023-12-31 |
| WeeklyRule.Periodic | src/main/java/com/world/planner/plan/domain/recurrence/WeeklyRule.java:52-56 | an occurrence on or after `today` recurs `7 * interval` days later |
| MonthlyRule.Describe | src/main/java/com/world/planner/plan/domain/recurrence/MonthlyRule.java:43-54 | the builder yields "Every N month(s)", then " on [..]" for a non-empty weekday list, then " on days [..]" for a non-empty day list |
| MonthlyRule.DescriptionNamesInterval | src/main/java/com/world/planner/plan/domain/recurrence/MonthlyRule.java:44-46 | the interval can be read back from the description |
| MonthlyRule.NullOrInvalidFalse | src/main/java/com/world/planner/plan/domain/recurrence/MonthlyRule.java:65-67 | an invalid rule or a null date answers false |
| MonthlyRule.ThrowsIff | src/main/java/com/world/planner/plan/domain/recurrence/MonthlyRule.java:69-73 | the test throws NullPointerException exactly for a valid rule with a null day list on a matching month |
| MonthlyRule.ValidRuleWithoutDaysOfMonthThrows | src/main/java/com/world/planner/plan/domain/recurrence/MonthlyRule.java:57-73 | a rule `isValid` accepts with a null day list throws when asked about `today` |
| MonthlyRule.OccurrenceIff | src/main/java/com/world/planner/plan/domain/recurrence/MonthlyRule.java:68-73 | with a day list, a date occurs iff its month offset is a non-negative multiple of the interval and its day is listed |
| MonthlyRule.DaysOfWeekIgnored | src/main/java/com/world/planner/plan/domain/recurrence/MonthlyRule.java:64-74 | valid rules differing only in the weekday list answer alike on every date |
| MonthlyRule.NoClamping | src/main/java/com/world/planner/plan/domain/recurrence/MonthlyRule.java:73 | in a month shorter than every listed day, nothing fires |
| YearlyRule.Describe | src/main/java/com/world/planner/plan/domain/recurrence/YearlyRule.java:50-64 | the builder yields "Every N year(s)" then " in ", " on " and " on days " sections for each non-empty list |
| YearlyRule.DescriptionNamesInterval | src/main/java/com/world/planner/plan/domain/recurrence/YearlyRule.java:51-53 | the interval can be read back from the description |
| YearlyRule.NullOrInvalidNever | src/main/java/com/world/planner/plan/domain/recurrence/YearlyRule.java:76-78 | an invalid rule or a null date is never an occurrence |
| YearlyRule.OccurrenceIff | src/main/java/com/world/planner/plan/domain/recurrence/YearlyRule.java:79-86 | a date occurs iff its year offset is a non-negative multiple of the interval, its month is listed, and each optional filter is null or lists its day |
| YearlyRule.EmptyListNeverOccurs | src/main/java/com/world/planner/plan/domain/recurrence/YearlyRule.java:84-85 | an empty month list or day list never fires |
| YearlyRule.NothingInEarlierYears | src/main/java/com/world/planner/plan/domain/recurrence/YearlyRule.java:80-82 | nothing fires in a year before `today`'s |
| YearlyRule.SameYearIsYearZero | src/main/java/com/world/planner/plan/domain/recurrence/YearlyRule.java:80-86 | in `today`'s year every date, also before `today`, is decided by the filters alone |
| YearlyRule.YearPeriodicity | src/main/java/com/world/planner/plan/domain/recurrence/YearlyRule.java:80-86 | a date with the same month, day and weekday a multiple of intervals of years later fires if the earlier one does |
| RecurrenceRule.New | src/main/java/com/world/planner/plan/domain/recurrence/RecurrenceRule.java:35-40 | construction succeeds exactly for a positive interval, keeping the fields; otherwise the interval message |
| RecurrenceRule.ValidHasPositiveInterval | src/main/java/com/world/planner/plan/domain/recurrence/RecurrenceRule.java:35-44 | every valid rule has a positive interval and is one the constructor accepts |
| RecurrenceRule.ConstructedDailyIsValid | src/main/java/com/world/planner/plan/domain/recurrence/DailyRule.java:24-26 | a constructed daily rule is valid |
| RecurrenceRule.OnlyMonthlyThrows | src/main/java/com/world/planner/plan/domain/recurrence/MonthlyRule.java:71-73 | only a monthly rule with a null day list can throw, and it throws NullPointerException |
| RecurrenceRule.NullOrInvalidFalse | src/main/java/com/world/planner/plan/domain/recurrence/RecurrenceRule.java:52 | an invalid rule or a null date answers false without throwing, for every variant |
| RecurrenceRule.DescriptionNamesInterval | src/main/java/com/world/planner/plan/domain/recurrence/RecurrenceRule.java:42 | every variant's description reads back its interval |
| RecurrenceRuleFactory.CreateDailyRule | src/main/java/com/world/planner/plan/domain/recurrence/RecurrenceRuleFactory.java:14-16 | succeeds iff the interval is positive, building that daily rule |
| RecurrenceRuleFactory.CreateWeeklyRule | src/main/java/com/world/planner/plan/domain/recurrence/RecurrenceRuleFactory.java:25-27 | succeeds iff the interval is positive; the weekday list is stored as given |
| RecurrenceRuleFactory.CreateMonthlyRule | src/main/java/com/world/planner/plan/domain/recurrence/RecurrenceRuleFactory.java:37-39 | succeeds iff the interval is positive; both lists are stored as given |
| RecurrenceRuleFactory.CreateYearlyRule | src/main/java/com/world/planner/plan/domain/recurrence/RecurrenceRuleFactory.java:50-57 | succeeds iff the interval is positive; the three lists are stored in order |
| RecurrenceRuleFactory.OnlyIntervalFails | src/main/java/com/world/planner/plan/domain/recurrence/RecurrenceRuleFactory.java:14-57 | the interval rejection is the only failure, and a built rule equals its arguments |
| RecurrenceRuleService.ValidateInterval | src/main/java/com/world/planner/plan/application/RecurrenceRuleService.java:78-82 | passes iff the interval is positive |
| RecurrenceRuleService.ValidateDaysOfWeek | src/main/java/com/world/planner/plan/application/RecurrenceRuleService.java:89-93 | passes iff the weekday list is non-null and non-empty |
| RecurrenceRuleService.ValidateDaysOfMonth | src/main/java/com/world/planner/plan/application/RecurrenceRuleService.java:118-125 | passes iff the day list is non-empty and within 1..31 |
| RecurrenceRuleService.ValidateDaysOfWeekOrDaysOfMonth | src/main/java/com/world/planner/plan/application/RecurrenceRuleService.java:101-111 | passes iff one list is non-empty and a non-empty day list is within 1..31 |
| RecurrenceRuleService.ValidateMonthsOfYear | src/main/java/com/world/planner/plan/application/RecurrenceRuleService.java:132-138 | passes iff the month list is null, empty or within 1..12 |
| RecurrenceRuleService.IntervalCheckedFirst | src/main/java/com/world/planner/plan/application/RecurrenceRuleService.java:20-71 | a non-positive interval is rejected first by every `create*`, whatever the lists |
| RecurrenceRuleService.DailyAccepts | src/main/java/com/world/planner/plan/application/RecurrenceRuleService.java:20-23 | daily creation succeeds iff the interval is positive, and the rule is valid |
| RecurrenceRuleService.WeeklyAccepts | src/main/java/com/world/planner/plan/application/RecurrenceRuleService.java:32-36 | weekly creation succeeds iff interval positive and weekdays non-empty, yielding a valid rule; otherwise the weekday message |
| RecurrenceRuleService.MonthlyAccepts | src/main/java/com/world/planner/plan/application/RecurrenceRuleService.java:46-50 | monthly creation succeeds iff interval positive, some list non-empty and non-empty days in range |
| RecurrenceRuleService.YearlyAccepts | src/main/java/com/world/planner/plan/application/RecurrenceRuleService.java:61-71 | yearly creation succeeds iff additionally non-empty months lie in 1..12 |
| RecurrenceRuleService.NoDaysRejected | src/main/java/com/world/planner/plan/application/RecurrenceRuleService.java:101-104 | with both day lists null or empty, monthly and yearly creation fail with the either-days message |
| RecurrenceRuleService.OutOfRangeDayRejected | src/main/java/com/world/planner/plan/application/RecurrenceRuleService.java:118-125 | a supplied day outside 1..31 fails with the range message |
| RecurrenceRuleService.MonthsCheckedBeforeDays | src/main/java/com/world/planner/plan/application/RecurrenceRuleService.java:67-69 | a bad month wins over missing or bad days |
| RecurrenceRuleService.MonthlyCreatedValidIff | src/main/java/com/world/planner/plan/application/RecurrenceRuleService.java:46-50 | a service-built monthly rule is valid iff its weekday list is not empty-but-present |
| RecurrenceRuleService.YearlyCreatedValidIff | src/main/java/com/world/planner/plan/application/RecurrenceRuleService.java:61-71 | a service-built yearly rule is valid iff its month list is non-null and its weekday list is not empty-but-present |
| RecurrenceRuleService.AcceptedButInvalid | src/main/java/com/world/planner/plan/application/RecurrenceRuleService.java:46-71 | the service accepts rules that `isValid` rejects, one monthly and one yearly example |
| RecurrenceRuleService.AcceptedValidButThrows | src/main/java/com/world/planner/plan/application/RecurrenceRuleService.java:46-50 | the service builds a valid monthly rule that throws on its evaluation date |
| RecurrenceRuleType.AnyMatch | src/main/java/com/world/planner/plan/domain/recurrence/RecurrenceRuleType.java:25-26 | true iff some listed kind's name equals the text ignoring case |
| RecurrenceRuleType.FindFirst | src/main/java/com/world/planner/plan/domain/recurrence/RecurrenceRuleType.java:37-39 | none found iff no kind matches; a found kind is listed and matches |
| RecurrenceRuleType.ExactlyFourValues | src/main/java/com/world/planner/plan/domain/recurrence/RecurrenceRuleType.java:8-11 | the four kinds, each listed once |
| RecurrenceRuleType.MatchIsUnique | src/main/java/com/world/planner/plan/domain/recurrence/RecurrenceRuleType.java:38 | at most one kind matches any text |
| RecurrenceRuleType.IsValidIff | src/main/java/com/world/planner/plan/domain/recurrence/RecurrenceRuleType.java:24-27 | valid iff some kind's name matches ignoring case; null is never valid |
| RecurrenceRuleType.FromStringIff | src/main/java/com/world/planner/plan/domain/recurrence/RecurrenceRuleType.java:36-41 | returns exactly the matching kind, and throws iff `isValid` is false |
| RecurrenceRuleType.FromStringNull | src/main/java/com/world/planner/plan/domain/recurrence/RecurrenceRuleType.java:40 | null throws "Invalid RecurrenceRuleType: null" |
| RecurrenceRuleType.FromStringName | src/main/java/com/world/planner/plan/domain/recurrence/RecurrenceRuleType.java:36-41 | each kind is found from its name, and from its name in lower case |
| ValidRecurrenceRuleUtils.DateRangeCases | src/main/java/com/world/planner/global/utility/ValidRecurrenceRuleUtils.java:26-39 | a range is valid iff both ends are null or both present in order; exactly one null is invalid |
| ValidRecurrenceRuleUtils.ValidateDateRangeIff | src/main/java/com/world/planner/global/utility/ValidRecurrenceRuleUtils.java:15-19 | throws "Invalid date range" exactly for an invalid range |
| ValidRecurrenceRuleUtils.IsValidRuleType | src/main/java/com/world/planner/global/utility/ValidRecurrenceRuleUtils.java:8-10 | accepts exactly the four kind names in any case |
| PlanDomain.CheckDatesIff | src/main/java/com/world/planner/plan/domain/Plan.java:50-52 | the date guard passes iff there is no end or the start is on or before it; NPE for an end without a start |
| PlanDomain.CheckDatesWeakerThanValidRange | src/main/java/com/world/planner/plan/domain/Plan.java:68-70 | every valid range passes the plan's guard, and a start without end passes too |
| PlanDomain.ValidateTagNameIff | src/main/java/com/world/planner/plan/domain/Tag.java:51-58 | a tag name passes iff present, not blank and at most 50 characters, with each message |
| PlanDomain.Plan.constructor | src/main/java/com/world/planner/plan/domain/Plan.java:49-57 | a new plan holds the given fields, no tags and no rule |
| PlanDomain.Plan.Create | src/main/java/com/world/planner/plan/domain/Plan.java:59-61 | fails with the guard's exception, or returns a fresh plan with the given fields |
| PlanDomain.Plan.UpdateDetails | src/main/java/com/world/planner/plan/domain/Plan.java:67-75 | a rejected update changes nothing; an accepted one sets the four fields and keeps tags and rule |
| PlanDomain.Plan.AddRecurrenceRule | src/main/java/com/world/planner/plan/domain/Plan.java:77-82 | a null or invalid rule is rejected leaving the plan unchanged; a valid one replaces the rule |
| PlanDomain.Plan.RemoveRecurrenceRule | src/main/java/com/world/planner/plan/domain/Plan.java:88-90 | afterwards there is no rule and nothing else changed |
| PlanDomain.Plan.AddTag | src/main/java/com/world/planner/plan/domain/Plan.java:92-97 | null is ignored; otherwise both sides of the link gain the other |
| PlanDomain.Plan.RemoveTag | src/main/java/com/world/planner/plan/domain/Plan.java:99-104 | null is ignored; otherwise both sides of the link lose the other |
| PlanDomain.Tag.constructor | src/main/java/com/world/planner/plan/domain/Tag.java:27-29 | a new tag holds the name and no plans |
| PlanDomain.Tag.Create | src/main/java/com/world/planner/plan/domain/Tag.java:31-34 | fails with the name check's message, or returns a fresh tag without plans |
| PlanDomain.Tag.AddPlan | src/main/java/com/world/planner/plan/domain/Tag.java:36-41 | null is ignored; otherwise both sides of the link gain the other |
| PlanDomain.Tag.RemovePlan | src/main/java/com/world/planner/plan/domain/Tag.java:43-48 | null is ignored; otherwise both sides of the link lose the other |
| PlanDomain.LinkThenUnlinkRestores | src/main/java/com/world/planner/plan/domain/Plan.java:92-104 | linking an unlinked pair and unlinking it again, from either side, restores both sets |
| PlanDomain.AddTagIsIdempotent | src/main/java/com/world/planner/plan/domain/Plan.java:92-97 | adding a tag twice links as adding it once |
| PlanDomainService.Walk | src/main/java/com/world/planner/plan/domain/PlanDomainService.java:43-53 | the day-by-day loop over `[startDate, endDate]` returns the walk's enumeration of the dates its test accepts, or the first exception a test throws |
| PlanDomainService.CalculateOccurrencesBasedOnRule | src/main/java/com/world/planner/plan/domain/PlanDomainService.java:42-54 | returns the enumeration of the dates of `[startDate, endDate]` the rule fires on, or the first exception its `isOccurrence` throws |
| PlanDomainService.EnumerationFailurePersists | src/main/java/com/world/planner/plan/domain/PlanDomainService.java:46-51 | once a test has thrown, walking further throws the same |
| PlanDomainService.EnumerationSortedInWindow | src/main/java/com/world/planner/plan/domain/PlanDomainService.java:44-51 | the dates are strictly ascending and within the window |
| PlanDomainService.EnumerationSound | src/main/java/com/world/planner/plan/domain/PlanDomainService.java:47-48 | every listed date is one the test accepts |
| PlanDomainService.EnumerationComplete | src/main/java/com/world/planner/plan/domain/PlanDomainService.java:46-50 | every date of the window the test accepts is listed |
| PlanDomainService.EnumerationSucceedsIff | src/main/java/com/world/planner/plan/domain/PlanDomainService.java:46-51 | the walk succeeds iff no test in the window throws, and then lists at most one date per day |
| PlanDomainService.EnumerationUnique | src/main/java/com/world/planner/plan/domain/PlanDomainService.java:43-53 | the strictly ascending list of exactly the window's accepted dates is what the walk returns, when no test throws |
| PlanDomainService.EnumerationConcat | src/main/java/com/world/planner/plan/domain/PlanDomainService.java:46-51 | walks over adjacent windows concatenate to the walk over the joined window |
| PlanDomainService.OccurrencesFailureIsNullPointer | src/main/java/com/world/planner/plan/domain/PlanDomainService.java:47 | a failing enumeration throws NullPointerException, for a monthly rule without day list only |
| PlanDomainService.WindowIsIntersection | src/main/java/com/world/planner/plan/domain/PlanDomainService.java:31-32 | the calculation window is the intersection of the plan's range and the search range |
| PlanDomainService.CalculateOccurrences | src/main/java/com/world/planner/plan/domain/PlanDomainService.java:20-40 | null plan and missing or invalid rule rejected with their messages; a null date throws NPE; an empty window gives []; otherwise the window's enumeration |
| PlanDomainService.IsPlanActiveIff | src/main/java/com/world/planner/plan/domain/PlanDomainService.java:63-77 | with both dates, active iff within the range and no rule or the rule fires; outside the range false |
| PlanDomainService.BeforeStartIgnoresEnd | src/main/java/com/world/planner/plan/domain/PlanDomainService.java:69 | a date before the start is inactive even without an end date |
| PlanDomainService.OccurrencesAreActiveDays | src/main/java/com/world/planner/plan/domain/PlanDomainService.java:20-77 | a search-range date is a calculated occurrence exactly when the plan is active on it |
| PlanDomainService.FortnightlyFires | src/main/java/com/world/planner/plan/domain/recurrence/WeeklyRule.java:51-56 | evaluated on 2024-01-01, the fortnightly Monday/Thursday rule fires up to 2024-01-20 exactly on 01-01, 01-04, 01-15 and 01-18 |
| PlanDomainService.FortnightlyScenario | src/main/java/com/world/planner/plan/domain/PlanDomainService.java:42-54 | every second week on Mondays and Thursdays from 2024-01-01, searched to 2024-01-20, gives 01-01, 01-04, 01-15, 01-18 |
| PlanDomainService.EndOfJanuary2024 | src/main/java/com/world/planner/plan/domain/recurrence/MonthlyRule.java:69 | epoch day 19753 is 2024-01-31 |
| PlanDomainService.February2024 | src/main/java/com/world/planner/plan/domain/recurrence/MonthlyRule.java:73 | epoch days 19754..19782 are the 29 days of February 2024 |
| PlanDomainService.March2024 | src/main/java/com/world/planner/plan/domain/recurrence/MonthlyRule.java:73 | epoch days 19783..19813 are March 2024 |
| PlanDomainService.MonthEndFiresOnlyOnMarch31 | src/main/java/com/world/planner/plan/domain/recurrence/MonthlyRule.java:64-74 | evaluated on 2024-01-31, the rule for the 31st fires in February–March 2024 only on 03-31 |
| PlanDomainService.MonthEndScenario | src/main/java/com/world/planner/plan/domain/PlanDomainService.java:42-54 | that rule enumerates nothing in February 2024, and only 2024-03-31 through March |
| CategoryDomain.ValidateNameIff | src/main/java/com/world/planner/plan/domain/Category.java:49-56 | a category name passes iff present, not blank and at most 50 characters, with each message |
| CategoryDomain.ValidateNameBoundaries | src/main/java/com/world/planner/plan/domain/Category.java:50-55 | a whitespace-only name is rejected as blank; 50 characters pass, 51 do not |
| CategoryDomain.Category.constructor | src/main/java/com/world/planner/plan/domain/Category.java:30-34 | a new category holds the name and is not deleted |
| CategoryDomain.Category.Create | src/main/java/com/world/planner/plan/domain/Category.java:36-39 | fails with the name check's message, or returns a fresh, non-deleted category |
| CategoryDomain.Category.Delete | src/main/java/com/world/planner/plan/domain/Category.java:41-43 | afterwards deleted, name unchanged |
| CategoryDomain.Category.Restore | src/main/java/com/world/planner/plan/domain/Category.java:45-47 | afterwards not deleted, name unchanged |
| CategoryDomain.DeleteIsIdempotent | src/main/java/com/world/planner/plan/domain/Category.java:41-43 | deleting twice is deleting once |
| CategoryDomain.DeleteThenRestore | src/main/java/com/world/planner/plan/domain/Category.java:41-47 | delete then restore gives a live category with the same name |
| MemberDomain.ValidateEmailIff | src/main/java/com/world/planner/member/domain/Member.java:69-73 | an email passes iff present and containing '@'; the message ends with the email, or "null" |
| MemberDomain.ValidateEmailIsLoose | src/main/java/com/world/planner/member/domain/Member.java:70 | "@" alone passes; text without '@' is rejected with its own text in the message |
| MemberDomain.ValidateNameIff | src/main/java/com/world/planner/member/domain/Member.java:76-80 | a member name passes iff present with a non-whitespace character; the same holds for a social id, each with its message |
| MemberDomain.Member.Empty | src/main/java/com/world/planner/member/domain/Member.java:22-36 | the no-argument member has no email, name or accounts |
| MemberDomain.Member.constructor | src/main/java/com/world/planner/member/domain/Member.java:53-56 | a new member holds the email and name and no accounts |
| MemberDomain.Member.CreateEmpty | src/main/java/com/world/planner/member/domain/Member.java:58-60 | `create()` validates nothing and returns an empty member |
| MemberDomain.Member.Create | src/main/java/com/world/planner/member/domain/Member.java:62-66 | the email is checked before the name; on success a fresh member with both |
| MemberDomain.Member.UpdateMemberEmail | src/main/java/com/world/planner/member/domain/Member.java:43-46 | an invalid email throws and changes nothing; a valid one replaces only the email |
| MemberDomain.Member.UpdateMemberName | src/main/java/com/world/planner/member/domain/Member.java:48-51 | an invalid name throws and changes nothing; a valid one replaces only the name |
| MemberDomain.Member.AddSocialAccount | src/main/java/com/world/planner/member/domain/Member.java:38-41 | the account is appended; null then throws NPE, otherwise its back-pointer is set |
| MemberDomain.SocialAccount.constructor | src/main/java/com/world/planner/member/domain/SocialAccount.java:32-35 | a new account holds the id and provider and no member |
| MemberDomain.SocialAccount.Create | src/main/java/com/world/planner/member/domain/SocialAccount.java:37-42 | a null or blank social id is rejected; otherwise id and provider are stored unchanged |
| MemberDomain.SocialAccount.SetMember | src/main/java/com/world/planner/member/domain/SocialAccount.java:27-30 | sets the member and nothing else |
| MemberDomain.AddKeepsLinked | src/main/java/com/world/planner/member/domain/Member.java:38-41 | adding accounts keeps every listed account pointing back to its member |
| MemberDomain.AddNullBreaksLinked | src/main/java/com/world/planner/member/domain/Member.java:39-40 | adding null leaves a null entry in the list before throwing |
| MemberDomain.MoveLeavesStaleEntry | src/main/java/com/world/planner/member/domain/Member.java:38-41 | an account added to a second member stays listed by the first, which no longer owns it |
| BaseToken.New | src/main/java/com/world/planner/auth/domain/token/BaseToken.java:13-19 | a null or empty value is rejected with the class-named message; otherwise both fields are stored as given |
| BaseToken.ToStringOfNew | src/main/java/com/world/planner/auth/domain/token/BaseToken.java:30-32 | `BaseToken.toString` returns the stored value of a built token |
| BaseToken.WhitespaceValueAccepted | src/main/java/com/world/planner/auth/domain/token/BaseToken.java:14 | a whitespace-only value is accepted; empty and null are not |
| RefreshToken.Create | src/main/java/com/world/planner/auth/domain/token/RefreshToken.java:18-20 | succeeds iff the value is non-empty, holding exactly value and expiration; otherwise "RefreshToken cannot be null or empty" |
| RefreshToken.CreateFromValue | src/main/java/com/world/planner/auth/domain/token/BaseToken.java:25-27 | the parser's failure comes first; otherwise the token built with the parsed expiration |
| RefreshToken.CreateForMember | src/main/java/com/world/planner/auth/domain/token/RefreshToken.java:26-32 | the expiration is now + 2,592,000,000 ms and the value is what `generate` signs for the member; a null id throws NPE |
| RefreshToken.CreateForMemberIff | src/main/java/com/world/planner/auth/domain/token/RefreshToken.java:26-32 | issuing succeeds iff the id is present and `generate` gives a non-empty text |
| RefreshToken.IssuedTokenLifetime | src/main/java/com/world/planner/auth/domain/token/RefreshToken.java:48-50 | an issued token is unexpired up to and including now + 30 days, expired from the next millisecond |
| RefreshToken.FromBearerCases | src/main/java/com/world/planner/auth/domain/token/RefreshToken.java:34-46 | format error without the exact prefix, empty-token error for a blank remainder, success iff the trimmed remainder is non-empty and parses, giving that token |
| RefreshToken.FromBearerRoundTrip | src/main/java/com/world/planner/auth/domain/token/RefreshToken.java:34-46 | "Bearer " + a trimmed non-empty value gives back that value; the token still prints as "RefreshToken()" |
| RefreshToken.ToStringHidesToken | src/main/java/com/world/planner/auth/domain/token/RefreshToken.java:9-10 | the `@Value`-generated `toString` prints "RefreshToken()" for every token, never its value |
| RefreshToken.FromBearerNeedsExactPrefix | src/main/java/com/world/planner/auth/domain/token/RefreshToken.java:35-37 | "bearer abc", "Bearerabc" and "Bearer" are format errors: the prefix is case-sensitive and needs its space |
| RefreshToken.FromBearerBlankRemainder | src/main/java/com/world/planner/auth/domain/token/RefreshToken.java:39-43 | "Bearer" followed only by spaces is an empty-token error |
| RefreshToken.FromBearerValueIsTrimmed | src/main/java/com/world/planner/auth/domain/token/RefreshToken.java:39 | a header's token value never starts or ends with a trimmable character |

## Left out

- **The clock.** `LocalDate.now()` and `LocalDateTime.now()` are parameters (`today`, `now`). The model reads the clock once per call. The source reads it once per `isOccurrence`, so an enumeration that runs across midnight can mix two anchors; the model does not capture that.
- **The JWT library.** `JwtProvider.getExpiration` and `JwtProvider.generate` are function parameters returning results. Their cryptography is a foreign call. `JwtProvider` is not part of this model.
- **RefreshToken.getMemberId** is left out: it only parses the JWT subject into a UUID.
- **AccessToken** is not part of this model. It is the other `BaseToken` subclass.
- **Member ids.** `RefreshToken.create(UUID)` takes the id's text.
- **BaseToken.Create** is the creator call itself. Its row is `RefreshToken.Create`, which instantiates it with the `RefreshToken` constructor.
- **Token expiration.** A null `expiration` is not modelled. Expirations are millisecond counts rather than nanosecond-precision `LocalDateTime` values.
- **SocialProvider.java** is not part of this model. The provider is a datatype wrapping its name and may be null, since `create` never checks it.
- **Persistence.** JPA identity, ids and cascades are left out. `Category.plans` is never updated by `Category` itself, so it is omitted.
- **Plan equality.** `Plan` inherits Lombok's `@Data` `equals`/`hashCode` from `BaseEntity` (BaseEntity.java:16), computed from the four audit fields only. In the source's `HashSet<Plan>` (Tag.java:25) two plans with equal audit fields, such as any two unsaved plans, are the same element: `addPlan(p2)` after `addPlan(p1)` keeps only `p1`, and `removePlan(p2)` removes `p1`. The model's sets are sets of object references, so it does not capture this.
- Tag.AddPlan, Tag.RemovePlan: state the result on reference sets (`plans == old(plans) + {plan}`); with the source's audit-field equality the set can instead keep, or lose, another plan equal to `plan`.
- Plan.AddTag, Plan.RemoveTag: state `tag.plans` on reference sets too. `Tag` has no `equals` of its own, so the plan's `tags` set is exact, but `tag.plans` is a `HashSet<Plan>` with the audit-field equality above.
- **The date range.** `LocalDate` spans -999999999-01-01 to +999999999-12-31; dates here are unbounded day numbers. At `LocalDate.MAX`, `currentDate.plusDays(1)` (PlanDomainService.java:50) throws a `DateTimeException`, which the model does not capture: `Walk` and `CalculateOccurrencesBasedOnRule` return `Success` for an end date at that limit.
- **Integer width.** Java `int` and `long` are unbounded integers here: the intervals, the list entries, the day counts and the 30-day millisecond constant. No value the domain produces comes near the limits.
- **Null list elements.** A null element inside a weekday, day or month list throws in the source's stream predicates. This is not modelled: list elements are never null here.
- **Text handling.**
  - `isBlank`, `trim` and `equalsIgnoreCase` are modelled on ASCII, and `length()` counts Dafny characters rather than UTF-16 units.
  - `DayOfWeek` lists print by their enum names, as `List.toString` does.
- **Titles and descriptions.** A null plan title or description is not distinguished from a text: the source does not check them.
- **The rule interval.** It is final by construction: the `Rule` datatype has no update, and the constructor guard is `RecurrenceRule.New`.
- **MonthlyRule.IsOccurrence** keeps the source's NullPointerException for a valid rule without a day-of-month list rather than treating it as a bug fixed in the model: that is what the code does.
