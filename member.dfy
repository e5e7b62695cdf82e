/** `Member` and `SocialAccount`: a planner user and the social-login
    accounts linked to it. The list of accounts and each account's
    back-pointer to its member are updated in place. */
module MemberDomain {
  import opened Wrappers
  import opened JavaStrings

  const EmailMessagePrefix: string := "Invalid email: "
  const NameMessage: string := "Name cannot be blank or null."
  const SocialIdMessage: string := "Social ID cannot be blank or null."

  /** A social login provider (Kakao, Google, ...), identified by its enum name. */
  datatype SocialProvider = SocialProvider(name: string)

  /** `Member.validateEmail`: an email must be non-null and contain `'@'`;
      the message shows the rejected text, `"null"` for null. */
  function ValidateEmail(email: Option<string>): Outcome
  {
    if email.None? then Fail(IllegalArgument(EmailMessagePrefix + NullString))
    else if '@' !in email.value then Fail(IllegalArgument(EmailMessagePrefix + email.value))
    else Pass
  }

  /** `Member.validateName`: a name must be non-null and not blank. */
  function ValidateName(name: Option<string>): Outcome
  {
    if name.None? || IsBlank(name.value) then Fail(IllegalArgument(NameMessage)) else Pass
  }

  /** The guard of `SocialAccount.create`: a social id must be non-null and not blank. */
  function ValidateSocialId(socialId: Option<string>): Outcome
  {
    if socialId.None? || IsBlank(socialId.value) then Fail(IllegalArgument(SocialIdMessage)) else Pass
  }

  /** An email is accepted exactly when it is present and contains `'@'`
      somewhere (nothing else about its shape is checked), and the
      rejection message ends with the rejected text. */
  lemma ValidateEmailIff(email: Option<string>)
    ensures ValidateEmail(email).Pass? <==> email.Some? && exists i :: 0 <= i < |email.value| && email.value[i] == '@'
    ensures email.Some? && ValidateEmail(email).Fail? ==>
              ValidateEmail(email) == Fail(IllegalArgument(EmailMessagePrefix + email.value))
    ensures email.None? ==> ValidateEmail(email) == Fail(IllegalArgument("Invalid email: null"))
  {
    assert EmailMessagePrefix + NullString == "Invalid email: null";
  }

  /** Only the presence of `'@'` is checked: a bare `"@"` passes. */
  lemma ValidateEmailIsLoose()
    ensures ValidateEmail(Some("@")).Pass?
    ensures ValidateEmail(Some("user.example.com")) == Fail(IllegalArgument("Invalid email: user.example.com"))
  {
    assert "@"[0] == '@';
    var bad := "user.example.com";
    assert forall i :: 0 <= i < |bad| ==> bad[i] != '@';
    assert EmailMessagePrefix + bad == "Invalid email: user.example.com";
  }

  /** A member name or a social id is accepted exactly when it is present
      and has a character that is not whitespace. */
  lemma ValidateNameIff(name: Option<string>)
    ensures ValidateName(name).Pass? <==> name.Some? && exists i :: 0 <= i < |name.value| && !IsWhitespace(name.value[i])
    ensures ValidateSocialId(name).Pass? <==> ValidateName(name).Pass?
    ensures ValidateName(name).Fail? ==> ValidateName(name).error == IllegalArgument(NameMessage)
    ensures ValidateSocialId(name).Fail? ==> ValidateSocialId(name).error == IllegalArgument(SocialIdMessage)
  {
  }

  class Member {
    var email: Option<string>
    var name: Option<string>
    var socialAccounts: seq<SocialAccount?>

    /** The protected no-argument constructor: no email, no name, no accounts. */
    constructor Empty()
      ensures email.None? && name.None? && socialAccounts == []
    {
      email := None;
      name := None;
      socialAccounts := [];
    }

    /** The private constructor, after both checks have passed. */
    constructor (email: string, name: string)
      requires ValidateEmail(Some(email)).Pass? && ValidateName(Some(name)).Pass?
      ensures this.email == Some(email) && this.name == Some(name) && socialAccounts == []
    {
      this.email := Some(email);
      this.name := Some(name);
      socialAccounts := [];
    }

    /** `Member.create()`: an empty member, with no validation at all. */
    static method CreateEmpty() returns (m: Member)
      ensures fresh(m) && m.email.None? && m.name.None? && m.socialAccounts == []
    {
      m := new Member.Empty();
    }

    /** `Member.create(email, name)`: the email is checked first, so an
        invalid email is reported even when the name is invalid too. */
    static method Create(email: Option<string>, name: Option<string>) returns (r: Result<Member>)
      ensures ValidateEmail(email).Fail? ==> r == Failure(ValidateEmail(email).error)
      ensures ValidateEmail(email).Pass? && ValidateName(name).Fail? ==> r == Failure(ValidateName(name).error)
      ensures ValidateEmail(email).Pass? && ValidateName(name).Pass? ==>
                && r.Success? && fresh(r.value)
                && r.value.email == email && r.value.name == name && r.value.socialAccounts == []
    {
      var emailCheck := ValidateEmail(email);
      if emailCheck.Fail? {
        return Failure(emailCheck.error);
      }
      var nameCheck := ValidateName(name);
      if nameCheck.Fail? {
        return Failure(nameCheck.error);
      }
      var member := new Member(email.value, name.value);
      r := Success(member);
    }

    /** `updateMemberEmail`: a rejected email leaves the member as it was;
        an accepted one replaces the email and nothing else. */
    method UpdateMemberEmail(email: Option<string>) returns (o: Outcome)
      modifies this
      ensures o == ValidateEmail(email)
      ensures o.Fail? ==> unchanged(this)
      ensures o.Pass? ==> this.email == email && name == old(name) && socialAccounts == old(socialAccounts)
    {
      o := ValidateEmail(email);
      if o.Fail? {
        return;
      }
      this.email := email;
    }

    /** `updateMemberName`: a rejected name leaves the member as it was;
        an accepted one replaces the name and nothing else. */
    method UpdateMemberName(name: Option<string>) returns (o: Outcome)
      modifies this
      ensures o == ValidateName(name)
      ensures o.Fail? ==> unchanged(this)
      ensures o.Pass? ==> this.name == name && email == old(email) && socialAccounts == old(socialAccounts)
    {
      o := ValidateName(name);
      if o.Fail? {
        return;
      }
      this.name := name;
    }

    /** `addSocialAccount`: the account is appended first, so a null account
        is appended and then `setMember` throws; otherwise the account's
        back-pointer is set to this member. */
    method AddSocialAccount(account: SocialAccount?) returns (o: Outcome)
      modifies this, account
      ensures socialAccounts == old(socialAccounts) + [account]
      ensures email == old(email) && name == old(name)
      ensures account == null ==> o == Fail(NullPointer)
      ensures account != null ==> && o.Pass? && account.member == this
                                  && account.socialId == old(account.socialId)
                                  && account.provider == old(account.provider)
    {
      socialAccounts := socialAccounts + [account];
      if account == null {
        return Fail(NullPointer);
      }
      account.SetMember(this);
      o := Pass;
    }

    /** Every listed account is non-null and points back to this member. */
    predicate Linked()
      reads this, socialAccounts
    {
      forall i :: 0 <= i < |socialAccounts| ==> socialAccounts[i] != null && socialAccounts[i].member == this
    }
  }

  class SocialAccount {
    var socialId: string
    var provider: Option<SocialProvider>
    var member: Member?

    /** The private constructor, after the social id check has passed; the
        provider is not checked. */
    constructor (socialId: string, provider: Option<SocialProvider>)
      requires ValidateSocialId(Some(socialId)).Pass?
      ensures this.socialId == socialId && this.provider == provider && member == null
    {
      this.socialId := socialId;
      this.provider := provider;
      member := null;
    }

    /** `SocialAccount.create`: the social id check, then an account that
        stores the id and the provider unchanged and belongs to no member yet. */
    static method Create(socialId: Option<string>, provider: Option<SocialProvider>) returns (r: Result<SocialAccount>)
      ensures ValidateSocialId(socialId).Fail? ==> r == Failure(IllegalArgument(SocialIdMessage))
      ensures ValidateSocialId(socialId).Pass? ==>
                && r.Success? && fresh(r.value)
                && r.value.socialId == socialId.value && r.value.provider == provider && r.value.member == null
    {
      var check := ValidateSocialId(socialId);
      if check.Fail? {
        return Failure(check.error);
      }
      var account := new SocialAccount(socialId.value, provider);
      r := Success(account);
    }

    /** The generated `setMember`: the only write to `member`. */
    method SetMember(member: Member?)
      modifies this
      ensures this.member == member && socialId == old(socialId) && provider == old(provider)
    {
      this.member := member;
    }
  }

  /** Adding a non-null account to a member whose accounts all point back to
      it keeps that so. */
  method AddKeepsLinked(member: Member, account: SocialAccount)
    requires member.Linked()
    modifies member, account
    ensures member.Linked() && member.socialAccounts == old(member.socialAccounts) + [account]
  {
    var o := member.AddSocialAccount(account);
    assert forall i :: 0 <= i < |old(member.socialAccounts)| ==> member.socialAccounts[i] == old(member.socialAccounts)[i];
  }

  /** Adding a null account leaves the null in the list before throwing, so
      the member's accounts no longer all point back to it. */
  method AddNullBreaksLinked(member: Member) returns (o: Outcome)
    modifies member
    ensures o == Fail(NullPointer) && !member.Linked()
    ensures member.socialAccounts == old(member.socialAccounts) + [null]
  {
    o := member.AddSocialAccount(null);
    assert member.socialAccounts[|member.socialAccounts| - 1] == null;
  }

  /** `addSocialAccount` does not remove the account from a previous
      member: after moving an account to a second member, the first member
      still lists it while it points to the second. */
  method MoveLeavesStaleEntry(first: Member, second: Member, account: SocialAccount)
    requires first != second
    modifies first, second, account
    ensures account in first.socialAccounts && account in second.socialAccounts
    ensures account.member == second && !first.Linked()
  {
    var o1 := first.AddSocialAccount(account);
    assert first.socialAccounts[|first.socialAccounts| - 1] == account;
    var o2 := second.AddSocialAccount(account);
    assert first.socialAccounts[|first.socialAccounts| - 1] == account;
    assert second.socialAccounts[|second.socialAccounts| - 1] == account;
  }
}
