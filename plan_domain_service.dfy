/** `PlanDomainService`: the occurrence dates of a plan within a search
    window, and whether a plan is active on a date. The clock reading
    `today` is the anchor of every rule test, taken once for a whole call. */
module PlanDomainService {
  import opened Wrappers
  import opened Calendar
  import opened RecurrenceRule
  import opened PlanDomain
  import MonthlyRule

  const NullPlanMessage: string := "Plan 객체는 null일 수 없습니다."
  const NoValidRuleMessage: string := "Plan에 유효한 RecurrenceRule이 없습니다."

  // ---------------------------------------------------------------------------
  // The day-by-day enumeration
  // ---------------------------------------------------------------------------

  /** The dates of `[start, stop)` that `test` accepts, in ascending order,
      as a day-by-day walk collects them: each date is tested after every
      earlier one, and the first test that throws ends the walk. */
  function Enumerate(test: Date -> Result<bool>, start: Date, stop: Date): Result<seq<Date>>
    decreases stop - start
  {
    if stop <= start then Success([])
    else
      match Enumerate(test, start, stop - 1)
      case Failure(e) => Failure(e)
      case Success(earlier) =>
        match test(stop - 1)
        case Failure(e) => Failure(e)
        case Success(fires) => Success(if fires then earlier + [stop - 1] else earlier)
  }

  /** `rule.isOccurrence`, with the clock reading `today`, as the test the
      walk calls on each date. */
  function OccurrenceTest(rule: Rule, today: Date): Date -> Result<bool>
  {
    d => IsOccurrence(rule, Some(d), today)
  }

  /** The dates of `[start, stop)` the rule fires on, as the walk collects them. */
  function OccurrencesBetween(rule: Rule, start: Date, stop: Date, today: Date): Result<seq<Date>>
  {
    Enumerate(OccurrenceTest(rule, today), start, stop)
  }

  /** The loop of `calculateOccurrencesBasedOnRule`: walks from `startDate` to
      `endDate` one day at a time, collecting the dates `test` accepts. The
      test is the rule's `isOccurrence`, a virtual call the loop knows
      nothing about. */
  method Walk(test: Date -> Result<bool>, startDate: Date, endDate: Date) returns (r: Result<seq<Date>>)
    ensures r == Enumerate(test, startDate, endDate + 1)
  {
    var occurrences: seq<Date> := [];
    var currentDate := startDate;
    while !(currentDate > endDate)
      invariant currentDate == startDate || startDate < currentDate <= endDate + 1
      invariant Enumerate(test, startDate, currentDate) == Success(occurrences)
      decreases endDate - currentDate
    {
      var fires := test(currentDate);
      if fires.Failure? {
        EnumerationFailurePersists(test, startDate, currentDate + 1, endDate + 1);
        return Failure(fires.error);
      }
      if fires.value {
        occurrences := occurrences + [currentDate];
      }
      currentDate := currentDate + 1;
    }
    r := Success(occurrences);
  }

  /** `calculateOccurrencesBasedOnRule(rule, startDate, endDate)`: the walk over
      `[startDate, endDate]` with the rule's occurrence test. */
  method CalculateOccurrencesBasedOnRule(rule: Rule, startDate: Date, endDate: Date, today: Date)
    returns (r: Result<seq<Date>>)
    ensures r == OccurrencesBetween(rule, startDate, endDate + 1, today)
  {
    r := Walk(OccurrenceTest(rule, today), startDate, endDate);
  }

  /** Once the walk has thrown, walking further throws the same. */
  lemma {:induction false} EnumerationFailurePersists(test: Date -> Result<bool>, start: Date, mid: Date, stop: Date)
    requires mid <= stop && Enumerate(test, start, mid).Failure?
    ensures Enumerate(test, start, stop) == Enumerate(test, start, mid)
    decreases stop - mid
  {
    if mid < stop {
      EnumerationFailurePersists(test, start, mid, stop - 1);
    }
  }

  /** The walk's dates are strictly ascending and lie within `[start, stop)`. */
  lemma {:induction false} EnumerationSortedInWindow(test: Date -> Result<bool>, start: Date, stop: Date)
    requires Enumerate(test, start, stop).Success?
    ensures var s := Enumerate(test, start, stop).value;
            && (forall i :: 0 <= i < |s| ==> start <= s[i] < stop)
            && (forall i, j :: 0 <= i < j < |s| ==> s[i] < s[j])
    decreases stop - start
  {
    if start < stop {
      EnumerationSortedInWindow(test, start, stop - 1);
    }
  }

  /** Soundness: every listed date is one the test accepts. */
  lemma {:induction false} EnumerationSound(test: Date -> Result<bool>, start: Date, stop: Date)
    requires Enumerate(test, start, stop).Success?
    ensures var s := Enumerate(test, start, stop).value;
            forall i :: 0 <= i < |s| ==> test(s[i]) == Success(true)
    decreases stop - start
  {
    if start < stop {
      EnumerationSound(test, start, stop - 1);
    }
  }

  /** Completeness: every date of the window the test accepts is listed. */
  lemma {:induction false} EnumerationComplete(test: Date -> Result<bool>, start: Date, stop: Date, d: Date)
    requires Enumerate(test, start, stop).Success?
    requires start <= d < stop && test(d) == Success(true)
    ensures d in Enumerate(test, start, stop).value
    decreases stop - start
  {
    if d < stop - 1 {
      EnumerationComplete(test, start, stop - 1, d);
    }
  }

  /** The walk succeeds exactly when no test within the window throws, and
      then lists at most one date per day of the window. */
  lemma {:induction false} EnumerationSucceedsIff(test: Date -> Result<bool>, start: Date, stop: Date)
    ensures Enumerate(test, start, stop).Success? <==> forall d :: start <= d < stop ==> test(d).Success?
    ensures Enumerate(test, start, stop).Success? && start <= stop ==>
              |Enumerate(test, start, stop).value| <= stop - start
    decreases stop - start
  {
    if start < stop {
      EnumerationSucceedsIff(test, start, stop - 1);
    }
  }

  /** The walk is the one ascending list of the window's accepted dates: a
      strictly ascending list of dates of `[start, stop)` that holds exactly
      the dates the test accepts, in a window where no test throws, is what
      the walk returns. */
  lemma {:induction false} EnumerationUnique(test: Date -> Result<bool>, start: Date, stop: Date, s: seq<Date>)
    requires start <= stop
    requires forall d :: start <= d < stop ==> test(d).Success?
    requires forall i, j :: 0 <= i < j < |s| ==> s[i] < s[j]
    requires forall i :: 0 <= i < |s| ==> start <= s[i] < stop
    requires forall d :: start <= d < stop ==> (test(d) == Success(true) <==> d in s)
    ensures Enumerate(test, start, stop) == Success(s)
    decreases stop - start
  {
    if start < stop {
      var last := stop - 1;
      if test(last) == Success(true) {
        var earlier := DropLast(s, start, last);
        forall d | start <= d < last ensures test(d) == Success(true) <==> d in earlier {
          assert d in s <==> d in earlier;
        }
        EnumerationUnique(test, start, last, earlier);
      } else {
        assert forall i :: 0 <= i < |s| ==> s[i] != last;
        EnumerationUnique(test, start, last, s);
      }
    } else {
      InhabitedWindow(s, start, stop);
    }
  }

  /** A list of dates of `[start, stop)` can only be non-empty when the
      window is. */
  lemma InhabitedWindow(s: seq<Date>, start: Date, stop: Date)
    requires forall i :: 0 <= i < |s| ==> start <= s[i] < stop
    ensures |s| == 0 || start < stop
  {
    if |s| > 0 {
      assert start <= s[0] < stop;
    }
  }

  /** An ascending list of dates of `[start, last]` holding `last` ends with
      it, and the rest is an ascending list of dates of `[start, last)`. */
  lemma DropLast(s: seq<Date>, start: Date, last: Date) returns (earlier: seq<Date>)
    requires forall i, j :: 0 <= i < j < |s| ==> s[i] < s[j]
    requires forall i :: 0 <= i < |s| ==> start <= s[i] <= last
    requires last in s
    ensures s == earlier + [last]
    ensures forall i, j :: 0 <= i < j < |earlier| ==> earlier[i] < earlier[j]
    ensures forall i :: 0 <= i < |earlier| ==> start <= earlier[i] < last
  {
    var k :| 0 <= k < |s| && s[k] == last;
    assert s[|s| - 1] == last;
    earlier := s[..|s| - 1];
    assert s == earlier + [last];
    assert forall i :: 0 <= i < |earlier| ==> earlier[i] == s[i] && s[i] < s[|s| - 1];
  }

  /** A throwing enumeration throws a NullPointerException, and only for a
      monthly rule without a day-of-month list. */
  lemma {:induction false} OccurrencesFailureIsNullPointer(rule: Rule, start: Date, stop: Date, today: Date)
    requires OccurrencesBetween(rule, start, stop, today).Failure?
    ensures OccurrencesBetween(rule, start, stop, today).error == NullPointer
    ensures rule.Monthly? && rule.daysOfMonth.None?
    decreases stop - start
  {
    if OccurrencesBetween(rule, start, stop - 1, today).Failure? {
      OccurrencesFailureIsNullPointer(rule, start, stop - 1, today);
    } else {
      OnlyMonthlyThrows(rule, Some(stop - 1), today);
    }
  }

  // ---------------------------------------------------------------------------
  // calculateOccurrences
  // ---------------------------------------------------------------------------

  /** The calculation window: the later of the two starts and the earlier of
      the two ends. */
  function Window(planStart: Date, planEnd: Date, filterStart: Date, filterEnd: Date): (Date, Date)
  {
    (if planStart > filterStart then planStart else filterStart,
     if planEnd < filterEnd then planEnd else filterEnd)
  }

  /** The window is the intersection of the plan's range and the search range. */
  lemma WindowIsIntersection(planStart: Date, planEnd: Date, filterStart: Date, filterEnd: Date, d: Date)
    ensures var w := Window(planStart, planEnd, filterStart, filterEnd);
            w.0 <= d <= w.1 <==> planStart <= d <= planEnd && filterStart <= d <= filterEnd
  {
  }

  /** `calculateOccurrences(plan, filterStartDate, filterEndDate)`. */
  method CalculateOccurrences(plan: Plan?, filterStartDate: Option<Date>, filterEndDate: Option<Date>, today: Date)
    returns (r: Result<seq<Date>>)
    ensures plan == null ==> r == Failure(IllegalArgument(NullPlanMessage))
    ensures plan != null && (plan.recurrenceRule.None? || !IsValid(plan.recurrenceRule.value)) ==>
              r == Failure(IllegalArgument(NoValidRuleMessage))
    ensures plan != null && plan.recurrenceRule.Some? && IsValid(plan.recurrenceRule.value) ==>
              if plan.startDate.None? || filterStartDate.None? || plan.endDate.None? || filterEndDate.None?
              then r == Failure(NullPointer)
              else
                var w := Window(plan.startDate.value, plan.endDate.value, filterStartDate.value, filterEndDate.value);
                if w.0 > w.1 then r == Success([])
                else r == OccurrencesBetween(plan.recurrenceRule.value, w.0, w.1 + 1, today)
  {
    if plan == null {
      return Failure(IllegalArgument(NullPlanMessage));
    }
    var recurrenceRule := plan.recurrenceRule;
    if !plan.HasRecurrenceRule() || !IsValid(recurrenceRule.value) {
      return Failure(IllegalArgument(NoValidRuleMessage));
    }
    if plan.startDate.None? || filterStartDate.None? || plan.endDate.None? || filterEndDate.None? {
      return Failure(NullPointer);
    }
    var w := Window(plan.startDate.value, plan.endDate.value, filterStartDate.value, filterEndDate.value);
    var calculationStartDate, calculationEndDate := w.0, w.1;
    if calculationStartDate > calculationEndDate {
      return Success([]);
    }
    r := CalculateOccurrencesBasedOnRule(recurrenceRule.value, calculationStartDate, calculationEndDate, today);
  }

  // ---------------------------------------------------------------------------
  // isPlanActive
  // ---------------------------------------------------------------------------

  /** `isPlanActive(plan, checkDate)`: outside the plan's range it is `false`,
      inside it a plan without a rule is active and otherwise the rule
      decides. The comparisons throw NullPointerException on a null date, and
      the end date is only read once the start comparison has passed. */
  function IsPlanActive(plan: Plan?, checkDate: Option<Date>, today: Date): Result<bool>
    reads plan
  {
    if plan == null then Failure(IllegalArgument(NullPlanMessage))
    else if checkDate.None? || plan.startDate.None? then Failure(NullPointer)
    else if checkDate.value < plan.startDate.value then Success(false)
    else if plan.endDate.None? then Failure(NullPointer)
    else if checkDate.value > plan.endDate.value then Success(false)
    else if plan.recurrenceRule.None? then Success(true)
    else IsOccurrence(plan.recurrenceRule.value, checkDate, today)
  }

  /** For a plan with both dates, activity on a date means: within the plan's
      range, and either no rule or a rule that fires then. */
  lemma IsPlanActiveIff(plan: Plan, d: Date, today: Date)
    requires plan.startDate.Some? && plan.endDate.Some?
    ensures IsPlanActive(plan, Some(d), today) == Success(true)
            <==> && plan.startDate.value <= d <= plan.endDate.value
                 && (plan.recurrenceRule.None? || IsOccurrence(plan.recurrenceRule.value, Some(d), today) == Success(true))
    ensures !(plan.startDate.value <= d <= plan.endDate.value) ==> IsPlanActive(plan, Some(d), today) == Success(false)
  {
  }

  /** A date before the start is inactive even when the plan has no end date:
      the end is never looked at. */
  lemma BeforeStartIgnoresEnd(plan: Plan, d: Date, today: Date)
    requires plan.startDate.Some? && d < plan.startDate.value
    ensures IsPlanActive(plan, Some(d), today) == Success(false)
  {
  }

  /** The two services agree: for a plan with a valid rule, a date of the
      search range is among the calculated occurrences exactly when the plan
      is active on it. */
  lemma {:induction false} OccurrencesAreActiveDays(plan: Plan, filterStart: Date, filterEnd: Date, today: Date, d: Date)
    requires plan.startDate.Some? && plan.endDate.Some? && plan.recurrenceRule.Some?
    requires filterStart <= d <= filterEnd
    requires var w := Window(plan.startDate.value, plan.endDate.value, filterStart, filterEnd);
             OccurrencesBetween(plan.recurrenceRule.value, w.0, w.1 + 1, today).Success?
    ensures var w := Window(plan.startDate.value, plan.endDate.value, filterStart, filterEnd);
            d in OccurrencesBetween(plan.recurrenceRule.value, w.0, w.1 + 1, today).value
            <==> IsPlanActive(plan, Some(d), today) == Success(true)
  {
    var rule := plan.recurrenceRule.value;
    var w := Window(plan.startDate.value, plan.endDate.value, filterStart, filterEnd);
    WindowIsIntersection(plan.startDate.value, plan.endDate.value, filterStart, filterEnd, d);
    var test := OccurrenceTest(rule, today);
    EnumerationSortedInWindow(test, w.0, w.1 + 1);
    EnumerationSound(test, w.0, w.1 + 1);
    var s := OccurrencesBetween(rule, w.0, w.1 + 1, today).value;
    if d in s {
      var i :| 0 <= i < |s| && s[i] == d;
    } else if IsPlanActive(plan, Some(d), today) == Success(true) {
      EnumerationComplete(test, w.0, w.1 + 1, d);
    }
  }

  /** Two walks over adjacent windows that both succeed add up to the walk
      over the joined window. */
  lemma {:induction false} EnumerationConcat(test: Date -> Result<bool>, start: Date, mid: Date, stop: Date)
    requires start <= mid <= stop
    requires Enumerate(test, start, mid).Success? && Enumerate(test, mid, stop).Success?
    ensures Enumerate(test, start, stop) == Success(Enumerate(test, start, mid).value + Enumerate(test, mid, stop).value)
    decreases stop - mid
  {
    var a := Enumerate(test, start, mid).value;
    if mid == stop {
      assert a + [] == a;
    } else {
      EnumerationConcat(test, start, mid, stop - 1);
      var b := Enumerate(test, mid, stop - 1).value;
      assert a + (b + [stop - 1]) == (a + b) + [stop - 1];
    }
  }

  /** Every second week on Mondays and Thursdays. */
  const Fortnightly: Rule := Weekly(2, Some([Weekday.MONDAY, Weekday.THURSDAY]))

  /** Evaluated on Monday 2024-01-01 (epoch day 19723), the fortnightly rule
      fires on a day up to 2024-01-20 exactly when that day is 01-01, 01-04,
      01-15 or 01-18. */
  lemma FortnightlyFires(d: Date)
    requires 19723 <= d < 19743
    ensures IsOccurrence(Fortnightly, Some(d), 19723) == Success(d in [19723, 19726, 19737, 19740])
  {
    var k := d - 19723;
    assert (d + 3) % 7 == k % 7;
    assert WeeksBetween(19723, d) == k / 7;
  }

  /** The fortnightly rule evaluated on Monday 2024-01-01 and searched from
      2024-01-01 to 2024-01-20 fires on 01-01, 01-04, 01-15 and 01-18. */
  lemma FortnightlyScenario()
    ensures OccurrencesBetween(Fortnightly, 19723, 19743, 19723) == Success([19723, 19726, 19737, 19740])
  {
    var test := OccurrenceTest(Fortnightly, 19723);
    forall d | 19723 <= d < 19743 ensures test(d) == Success(d in [19723, 19726, 19737, 19740]) {
      FortnightlyFires(d);
    }
    EnumerationUnique(test, 19723, 19743, [19723, 19726, 19737, 19740]);
  }

  /** A rule for the 31st of every month. */
  const MonthEnd: Rule := Monthly(1, None, Some([31]))

  /** Epoch day 19753 is 2024-01-31. */
  lemma EndOfJanuary2024()
    ensures Year(19753) == 2024 && Month(19753) == 1 && DayOfMonth(19753) == 31
  {
    var s := Split(19753);
    assert s.n400 == 5 && s.n100 == 0 && s.n4 == 5 && s.n1 == 3 && s.dayOfYear == 336;
    assert MarchMonth(336) == 10;
  }

  /** Epoch days 19754 to 19782 are February 2024, a 29-day month. */
  lemma February2024(d: Date)
    requires 19754 <= d < 19783
    ensures Year(d) == 2024 && Month(d) == 2 && DayOfMonth(d) == d - 19753
  {
    var s := Split(d);
    assert s.n400 == 5 && s.n100 == 0 && s.n4 == 5 && s.n1 == 3;
    assert 337 <= s.dayOfYear <= 365;
    assert MarchMonth(s.dayOfYear) == 11;
  }

  /** Epoch days 19783 to 19813 are March 2024. */
  lemma March2024(d: Date)
    requires 19783 <= d < 19814
    ensures Year(d) == 2024 && Month(d) == 3 && DayOfMonth(d) == d - 19782
  {
    var s := Split(d);
    assert s.n400 == 5 && s.n100 == 0 && s.n4 == 6 && s.n1 == 0;
    assert 0 <= s.dayOfYear <= 30;
    assert MarchMonth(s.dayOfYear) == 0;
  }

  /** Evaluated on 2024-01-31, the rule for the 31st fires on a day of
      February or March 2024 exactly when that day is 2024-03-31. */
  lemma MonthEndFiresOnlyOnMarch31(d: Date)
    requires 19754 <= d < 19814
    ensures IsOccurrence(MonthEnd, Some(d), 19753) == Success(d == 19813)
  {
    EndOfJanuary2024();
    if d < 19783 {
      February2024(d);
    } else {
      March2024(d);
    }
  }

  /** The rule for the 31st, evaluated on 2024-01-31: nothing in February
      2024 (the rule is not clamped to the month's last day), and through
      the end of March the only occurrence is 2024-03-31. */
  lemma MonthEndScenario()
    ensures OccurrencesBetween(MonthEnd, 19754, 19783, 19753) == Success([])
    ensures OccurrencesBetween(MonthEnd, 19754, 19814, 19753) == Success([19813])
  {
    var test := OccurrenceTest(MonthEnd, 19753);
    forall d | 19754 <= d < 19814 ensures test(d) == Success(d in [19813]) {
      MonthEndFiresOnlyOnMarch31(d);
    }
    EnumerationUnique(test, 19754, 19783, []);
    EnumerationUnique(test, 19754, 19814, [19813]);
  }
}
