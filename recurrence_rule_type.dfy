/** `RecurrenceRuleType`: the four rule kinds by name, with the
    case-insensitive lookup the request layer uses. */
module RecurrenceRuleType {
  import opened Wrappers
  import opened JavaStrings

  datatype RuleType = DAILY | WEEKLY | MONTHLY | YEARLY

  /** `RecurrenceRuleType.values()`, in declaration order. */
  const Values: seq<RuleType> := [DAILY, WEEKLY, MONTHLY, YEARLY]

  /** `name()`. */
  function Name(t: RuleType): string
  {
    match t
    case DAILY => "DAILY"
    case WEEKLY => "WEEKLY"
    case MONTHLY => "MONTHLY"
    case YEARLY => "YEARLY"
  }

  /** `getDescription()`. */
  function Description(t: RuleType): string
  {
    match t
    case DAILY => "매일 반복"
    case WEEKLY => "매주 반복"
    case MONTHLY => "매월 반복"
    case YEARLY => "매년 반복"
  }

  /** `type.name().equalsIgnoreCase(value)`; a null value matches nothing. */
  predicate NameMatches(t: RuleType, value: Option<string>)
  {
    value.Some? && EqualsIgnoreCase(Name(t), value.value)
  }

  /** `stream.anyMatch(type -> type.name().equalsIgnoreCase(value))`. */
  function AnyMatch(ts: seq<RuleType>, value: Option<string>): (b: bool)
    ensures b <==> exists i :: 0 <= i < |ts| && NameMatches(ts[i], value)
  {
    if |ts| == 0 then false
    else if NameMatches(ts[0], value) then true
    else
      var b := AnyMatch(ts[1..], value);
      assert forall i :: 1 <= i < |ts| ==> ts[i] == ts[1..][i - 1];
      b
  }

  /** `stream.filter(type -> type.name().equalsIgnoreCase(value)).findFirst()`. */
  function FindFirst(ts: seq<RuleType>, value: Option<string>): (r: Option<RuleType>)
    ensures r.None? <==> forall i :: 0 <= i < |ts| ==> !NameMatches(ts[i], value)
    ensures r.Some? ==> r.value in ts && NameMatches(r.value, value)
  {
    if |ts| == 0 then None
    else if NameMatches(ts[0], value) then Some(ts[0])
    else
      var r := FindFirst(ts[1..], value);
      assert forall i :: 1 <= i < |ts| ==> ts[i] == ts[1..][i - 1];
      r
  }

  /** `RecurrenceRuleType.isValid(value)`. */
  predicate IsValid(value: Option<string>)
  {
    AnyMatch(Values, value)
  }

  /** `RecurrenceRuleType.fromString(value)`. */
  function FromString(value: Option<string>): Result<RuleType>
  {
    match FindFirst(Values, value)
    case Some(t) => Success(t)
    case None =>
      Failure(IllegalArgument("Invalid RecurrenceRuleType: " + (if value.None? then NullString else value.value)))
  }

  /** There are exactly four kinds, each listed once. */
  lemma ExactlyFourValues(t: RuleType)
    ensures |Values| == 4 && t in Values
    ensures forall i, j :: 0 <= i < j < |Values| ==> Values[i] != Values[j]
  {
  }

  /** A character matching an upper-case ASCII letter ignoring case folds to that letter. */
  lemma MatchFoldsToUpper(n: char, c: char)
    requires 'A' <= n <= 'Z' && CharEqualsIgnoreCase(n, c)
    ensures ToUpper(c) == n
  {
  }

  /** At most one kind matches any given text. */
  lemma {:induction false} MatchIsUnique(t1: RuleType, t2: RuleType, value: Option<string>)
    requires NameMatches(t1, value) && NameMatches(t2, value)
    ensures t1 == t2
  {
    var n1, n2, v := Name(t1), Name(t2), value.value;
    forall i | 0 <= i < |n1| ensures n1[i] == n2[i] {
      assert 'A' <= n1[i] <= 'Z' && 'A' <= n2[i] <= 'Z' by {
        match t1 case DAILY => case WEEKLY => case MONTHLY => case YEARLY =>
        match t2 case DAILY => case WEEKLY => case MONTHLY => case YEARLY =>
      }
      MatchFoldsToUpper(n1[i], v[i]);
      MatchFoldsToUpper(n2[i], v[i]);
    }
    assert n1 == n2;
  }

  /** `isValid(value)` holds exactly when some kind's name equals the value
      ignoring case; a null value is never valid. */
  lemma IsValidIff(value: Option<string>)
    ensures IsValid(value) <==> exists t: RuleType :: NameMatches(t, value)
    ensures value.None? ==> !IsValid(value)
  {
    if exists t: RuleType :: NameMatches(t, value) {
      var t: RuleType :| NameMatches(t, value);
      ExactlyFourValues(t);
      var i :| 0 <= i < |Values| && Values[i] == t;
      assert NameMatches(Values[i], value);
    }
  }

  /** `fromString(value)` returns exactly the kind whose name matches
      ignoring case, and throws exactly when `isValid(value)` is false. */
  lemma FromStringIff(value: Option<string>, t: RuleType)
    ensures FromString(value) == Success(t) <==> NameMatches(t, value)
    ensures FromString(value).Failure? <==> !IsValid(value)
  {
    if NameMatches(t, value) {
      ExactlyFourValues(t);
      var r := FindFirst(Values, value);
      var k :| 0 <= k < |Values| && Values[k] == t;
      assert r.Some?;
      MatchIsUnique(r.value, t, value);
    }
  }

  /** What `fromString` throws for a null value. */
  lemma FromStringNull()
    ensures FromString(None) == Failure(IllegalArgument("Invalid RecurrenceRuleType: null"))
  {
    assert FindFirst(Values, None).None?;
    assert "Invalid RecurrenceRuleType: " + NullString == "Invalid RecurrenceRuleType: null";
  }

  /** Round trip: every kind is found again from its own name, in any case. */
  lemma FromStringName(t: RuleType)
    ensures FromString(Some(Name(t))) == Success(t)
    ensures FromString(Some(LowerCase(Name(t)))) == Success(t)
  {
    assert EqualsIgnoreCase(Name(t), Name(t));
    FromStringIff(Some(Name(t)), t);
    LowerCaseMatches(Name(t));
    FromStringIff(Some(LowerCase(Name(t))), t);
  }

  /** The text in lower case. */
  function LowerCase(s: string): (r: string)
    ensures |r| == |s| && forall i :: 0 <= i < |s| ==> r[i] == ToLower(s[i])
  {
    seq(|s|, i requires 0 <= i < |s| => ToLower(s[i]))
  }

  lemma LowerCaseMatches(s: string)
    ensures EqualsIgnoreCase(s, LowerCase(s))
  {
  }
}
