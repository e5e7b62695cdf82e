/** The plan aggregate: `Plan` with its dates, its optional recurrence rule
    and its tags, and `Tag` with the plans it labels. The two sides of the
    plan–tag link are updated together, in place. */
module PlanDomain {
  import opened Wrappers
  import opened Calendar
  import opened JavaStrings
  import opened RecurrenceRule
  import ValidRecurrenceRuleUtils

  const DateOrderMessage: string := "Start date must be before or equal to the end date."
  const InvalidRuleMessage: string := "Invalid recurrence rule"
  const TagNameEmptyMessage: string := "Tag name cannot be null or empty."
  const TagNameLengthMessage: string := "Tag name cannot exceed 50 characters."
  const MaxTagNameLength: int := 50

  /** The date guard of the constructor and of `updateDetails`:
      `endDate != null && startDate.isAfter(endDate)` throws, and with an end
      date but no start date the call `startDate.isAfter` throws
      NullPointerException. */
  function CheckDates(startDate: Option<Date>, endDate: Option<Date>): Outcome
  {
    if endDate.None? then Pass
    else if startDate.None? then Fail(NullPointer)
    else if startDate.value > endDate.value then Fail(IllegalArgument(DateOrderMessage))
    else Pass
  }

  /** What the guard accepts: no end date, or a start on or before the end;
      what it throws otherwise. */
  lemma CheckDatesIff(startDate: Option<Date>, endDate: Option<Date>)
    ensures CheckDates(startDate, endDate).Pass?
            <==> endDate.None? || (startDate.Some? && startDate.value <= endDate.value)
    ensures startDate.None? && endDate.Some? ==> CheckDates(startDate, endDate) == Fail(NullPointer)
    ensures startDate.Some? && endDate.Some? && startDate.value > endDate.value ==>
              CheckDates(startDate, endDate) == Fail(IllegalArgument(DateOrderMessage))
  {
  }

  /** The guard is weaker than `isValidDateRange`: every valid range passes,
      and so does a start date without an end date, which is not a valid range. */
  lemma CheckDatesWeakerThanValidRange(startDate: Option<Date>, endDate: Option<Date>, d: Date)
    ensures ValidRecurrenceRuleUtils.IsValidDateRange(startDate, endDate) ==> CheckDates(startDate, endDate).Pass?
    ensures CheckDates(Some(d), None).Pass? && !ValidRecurrenceRuleUtils.IsValidDateRange(Some(d), None)
  {
  }

  /** `Tag.validateName`: null or blank first, then the length limit. */
  function ValidateTagName(name: Option<string>): Outcome
  {
    if name.None? || IsBlank(name.value) then Fail(IllegalArgument(TagNameEmptyMessage))
    else if |name.value| > MaxTagNameLength then Fail(IllegalArgument(TagNameLengthMessage))
    else Pass
  }

  /** A tag name is accepted exactly when it is non-null, not blank and at
      most 50 characters; a blank name of any length gets the blank message. */
  lemma ValidateTagNameIff(name: Option<string>)
    ensures ValidateTagName(name).Pass? <==> name.Some? && !IsBlank(name.value) && |name.value| <= MaxTagNameLength
    ensures name.None? || IsBlank(name.value) ==> ValidateTagName(name) == Fail(IllegalArgument(TagNameEmptyMessage))
    ensures name.Some? && !IsBlank(name.value) && |name.value| > MaxTagNameLength ==>
              ValidateTagName(name) == Fail(IllegalArgument(TagNameLengthMessage))
  {
  }

  class Plan {
    var title: string
    var description: string
    var tags: set<Tag>
    var startDate: Option<Date>
    var endDate: Option<Date>
    var recurrenceRule: Option<Rule>

    /** The private constructor, after its date guard has passed. */
    constructor (title: string, description: string, startDate: Option<Date>, endDate: Option<Date>)
      requires CheckDates(startDate, endDate).Pass?
      ensures this.title == title && this.description == description
      ensures this.startDate == startDate && this.endDate == endDate
      ensures tags == {} && recurrenceRule.None?
    {
      this.title := title;
      this.description := description;
      this.startDate := startDate;
      this.endDate := endDate;
      tags := {};
      recurrenceRule := None;
    }

    /** `Plan.create`: the date guard, then a plan without tags or rule. */
    static method Create(title: string, description: string, startDate: Option<Date>, endDate: Option<Date>)
      returns (r: Result<Plan>)
      ensures CheckDates(startDate, endDate).Fail? ==> r == Failure(CheckDates(startDate, endDate).error)
      ensures CheckDates(startDate, endDate).Pass? ==>
                && r.Success? && fresh(r.value)
                && r.value.title == title && r.value.description == description
                && r.value.startDate == startDate && r.value.endDate == endDate
                && r.value.tags == {} && r.value.recurrenceRule.None?
    {
      var check := CheckDates(startDate, endDate);
      if check.Fail? {
        return Failure(check.error);
      }
      var plan := new Plan(title, description, startDate, endDate);
      r := Success(plan);
    }

    /** `hasRecurrenceRule()`. */
    predicate HasRecurrenceRule()
      reads this
    {
      recurrenceRule.Some?
    }

    /** `isSomeday()`: a plan without dates. */
    predicate IsSomeday()
      reads this
    {
      startDate.None? && endDate.None?
    }

    /** `updateDetails`: the same guard as the constructor; a rejected update
        changes nothing, an accepted one sets the four fields and keeps the
        tags and the rule. */
    method UpdateDetails(title: string, description: string, startDate: Option<Date>, endDate: Option<Date>)
      returns (o: Outcome)
      modifies this
      ensures o == CheckDates(startDate, endDate)
      ensures o.Fail? ==> unchanged(this)
      ensures o.Pass? ==> && this.title == title && this.description == description
                          && this.startDate == startDate && this.endDate == endDate
                          && tags == old(tags) && recurrenceRule == old(recurrenceRule)
    {
      o := CheckDates(startDate, endDate);
      if o.Fail? {
        return;
      }
      this.title := title;
      this.description := description;
      this.startDate := startDate;
      this.endDate := endDate;
    }

    /** `addRecurrenceRule`: a null or invalid rule is rejected and the old
        rule stays; a valid one replaces any existing rule. */
    method AddRecurrenceRule(rule: Option<Rule>) returns (o: Outcome)
      modifies this
      ensures rule.None? || !IsValid(rule.value) ==> o == Fail(IllegalArgument(InvalidRuleMessage)) && unchanged(this)
      ensures rule.Some? && IsValid(rule.value) ==>
                && o.Pass? && recurrenceRule == rule && HasRecurrenceRule()
                && title == old(title) && description == old(description) && tags == old(tags)
                && startDate == old(startDate) && endDate == old(endDate)
    {
      if rule.None? || !IsValid(rule.value) {
        return Fail(IllegalArgument(InvalidRuleMessage));
      }
      recurrenceRule := rule;
      o := Pass;
    }

    /** `removeRecurrenceRule`: afterwards the plan has no rule; calling it
        again changes nothing further. */
    method RemoveRecurrenceRule()
      modifies this
      ensures recurrenceRule.None? && !HasRecurrenceRule()
      ensures title == old(title) && description == old(description) && tags == old(tags)
      ensures startDate == old(startDate) && endDate == old(endDate)
      ensures old(recurrenceRule).None? ==> unchanged(this)
    {
      recurrenceRule := None;
    }

    /** `addTag`: null is ignored; otherwise both sides of the link are
        added, with set semantics. */
    method AddTag(tag: Tag?)
      modifies this, tag
      ensures tag == null ==> unchanged(this)
      ensures tag != null ==> tags == old(tags) + {tag} && tag.plans == old(tag.plans) + {this}
      ensures tag != null ==> tag.name == old(tag.name)
      ensures title == old(title) && description == old(description) && recurrenceRule == old(recurrenceRule)
      ensures startDate == old(startDate) && endDate == old(endDate)
    {
      if tag != null {
        tags := tags + {tag};
        tag.plans := tag.plans + {this};
      }
    }

    /** `removeTag`: null is ignored; otherwise both sides of the link are removed. */
    method RemoveTag(tag: Tag?)
      modifies this, tag
      ensures tag == null ==> unchanged(this)
      ensures tag != null ==> tags == old(tags) - {tag} && tag.plans == old(tag.plans) - {this}
      ensures tag != null ==> tag.name == old(tag.name)
      ensures title == old(title) && description == old(description) && recurrenceRule == old(recurrenceRule)
      ensures startDate == old(startDate) && endDate == old(endDate)
    {
      if tag != null {
        tags := tags - {tag};
        tag.plans := tag.plans - {this};
      }
    }
  }

  class Tag {
    var name: string
    var plans: set<Plan>

    /** The private constructor, after the name check has passed. */
    constructor (name: string)
      requires ValidateTagName(Some(name)).Pass?
      ensures this.name == name && plans == {}
    {
      this.name := name;
      plans := {};
    }

    /** `Tag.create`: the name check, then a tag with no plans. */
    static method Create(name: Option<string>) returns (r: Result<Tag>)
      ensures ValidateTagName(name).Fail? ==> r == Failure(ValidateTagName(name).error)
      ensures ValidateTagName(name).Pass? ==> r.Success? && fresh(r.value) && r.value.name == name.value
                                              && r.value.plans == {}
    {
      var check := ValidateTagName(name);
      if check.Fail? {
        return Failure(check.error);
      }
      var tag := new Tag(name.value);
      r := Success(tag);
    }

    /** `addPlan`: null is ignored; otherwise both sides of the link are added. */
    method AddPlan(plan: Plan?)
      modifies this, plan
      ensures plan == null ==> unchanged(this)
      ensures plan != null ==> plans == old(plans) + {plan} && plan.tags == old(plan.tags) + {this}
      ensures plan != null ==> plan.title == old(plan.title) && plan.recurrenceRule == old(plan.recurrenceRule)
                               && plan.startDate == old(plan.startDate) && plan.endDate == old(plan.endDate)
                               && plan.description == old(plan.description)
      ensures name == old(name)
    {
      if plan != null {
        plans := plans + {plan};
        plan.tags := plan.tags + {this};
      }
    }

    /** `removePlan`: null is ignored; otherwise both sides of the link are removed. */
    method RemovePlan(plan: Plan?)
      modifies this, plan
      ensures plan == null ==> unchanged(this)
      ensures plan != null ==> plans == old(plans) - {plan} && plan.tags == old(plan.tags) - {this}
      ensures plan != null ==> plan.title == old(plan.title) && plan.recurrenceRule == old(plan.recurrenceRule)
                               && plan.startDate == old(plan.startDate) && plan.endDate == old(plan.endDate)
                               && plan.description == old(plan.description)
      ensures name == old(name)
    {
      if plan != null {
        plans := plans - {plan};
        plan.tags := plan.tags - {this};
      }
    }
  }

  /** Linking a plan and a tag that were not linked, from either side, and
      unlinking them again restores both sets. */
  method LinkThenUnlinkRestores(plan: Plan, tag: Tag, fromTagSide: bool)
    requires tag !in plan.tags && plan !in tag.plans
    modifies plan, tag
    ensures plan.tags == old(plan.tags) && tag.plans == old(tag.plans)
  {
    if fromTagSide {
      tag.AddPlan(plan);
      assert tag in plan.tags && plan in tag.plans;
      tag.RemovePlan(plan);
    } else {
      plan.AddTag(tag);
      assert tag in plan.tags && plan in tag.plans;
      plan.RemoveTag(tag);
    }
  }

  /** Adding a tag twice leaves the same links as adding it once. */
  method AddTagIsIdempotent(plan: Plan, tag: Tag)
    modifies plan, tag
    ensures plan.tags == old(plan.tags) + {tag} && tag.plans == old(tag.plans) + {plan}
  {
    plan.AddTag(tag);
    plan.AddTag(tag);
  }
}
