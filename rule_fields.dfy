/** What the four rule variants share: the printing of their list fields for
    `getDescription()`, and the range checks on day and month numbers. */
module RuleFields {
  import opened Wrappers
  import opened Calendar
  import opened JavaStrings

  /** `String.valueOf(List<DayOfWeek>)`: "[MONDAY, THURSDAY]", or "null". */
  function WeekdaysToString(days: Option<seq<Weekday>>): string
  {
    match days
    case None => NullString
    case Some(ds) => ListToString(seq(|ds|, i requires 0 <= i < |ds| => WeekdayName(ds[i])))
  }

  /** `String.valueOf(List<Integer>)`: "[1, 15]", or "null". */
  function IntsToString(xs: Option<seq<int>>): string
  {
    match xs
    case None => NullString
    case Some(ns) => ListToString(seq(|ns|, i requires 0 <= i < |ns| => IntToString(ns[i])))
  }

  /** Every entry lies in `lo..hi`: the `allMatch(x -> x > 0 && x <= hi)` checks of `isValid`. */
  predicate AllInRange(xs: seq<int>, lo: int, hi: int)
  {
    forall i :: 0 <= i < |xs| ==> lo <= xs[i] <= hi
  }

  /** A list that string building treats as present: non-null and non-empty. */
  predicate IsPresent<T>(xs: Option<seq<T>>)
  {
    xs.Some? && |xs.value| > 0
  }

  /** One optional part of a description: `heading` and the list's text when
      the list is present, nothing otherwise. */
  function Section(heading: string, present: bool, text: string): string
  {
    if present then heading + text else ""
  }

  /** Regrouping a concatenation. */
  lemma ConcatAssoc<T>(a: seq<T>, b: seq<T>, c: seq<T>)
    ensures a + (b + c) == (a + b) + c
  {
  }

  /** The leading words every description starts with. */
  const Every: string := "Every "

  /** The interval a description names: the number after "Every ", up to
      the next space; `None` for a text that does not start with "Every ". */
  function IntervalOfDescription(text: string): Option<int>
  {
    if StartsWith(text, Every) then Some(ParseInt(TakeUntilSpace(text[|Every|..])))
    else None
  }

  /** Any text that starts with "Every N" followed by a space names interval N. */
  lemma IntervalOfDescriptionReads(interval: int, rest: string)
    requires |rest| > 0 && rest[0] == ' '
    ensures IntervalOfDescription(Every + IntToString(interval) + rest) == Some(interval)
  {
    var text := Every + IntToString(interval) + rest;
    assert text[|Every|..] == IntToString(interval) + rest;
    TakeUntilSpaceAppend(IntToString(interval), rest);
    ParseIntToString(interval);
  }
}
