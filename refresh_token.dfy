/** `RefreshToken`: the long-lived token, built from a JWT text, read from
    an `Authorization: Bearer ...` header, or issued for a member for thirty
    days. The clock and the JWT library are parameters. */
module RefreshToken {
  import opened Wrappers
  import opened JavaStrings
  import opened BaseToken

  const SimpleName: string := "RefreshToken"

  /** `REFRESH_TOKEN_VALIDITY_IN_MILLISECONDS`: thirty days. */
  const ValidityMillis: int := 2592000000

  const BearerPrefix: string := "Bearer "
  const BearerFormatMessage: string := "Invalid Bearer Token format"
  const EmptyTokenMessage: string := "Token value cannot be empty"

  /** `toString()` as the class's `@Value` annotation generates it: the class
      name and its own fields, of which there are none. It replaces
      `BaseToken.toString`, so the value is never printed. */
  function ToString(t: Token): string
  {
    SimpleName + "()"
  }

  /** Two refresh tokens print alike whatever their values and expirations. */
  lemma ToStringHidesToken(a: Token, b: Token)
    ensures ToString(a) == ToString(b) == "RefreshToken()"
  {
  }

  /** The private constructor `RefreshToken::new`. */
  function New(value: Option<string>, expiration: DateTime): Result<Token>
  {
    BaseToken.New(SimpleName, value, expiration)
  }

  /** `RefreshToken.create(value, expiration)`: a token with exactly these
      fields, unless the value is null or empty. */
  function Create(value: Option<string>, expiration: DateTime): (r: Result<Token>)
    ensures r.Success? <==> value.Some? && |value.value| > 0
    ensures r.Success? ==> r.value == Token(value.value, expiration)
    ensures r.Failure? ==> r.error == IllegalArgument("RefreshToken cannot be null or empty")
  {
    assert EmptyValueMessage(SimpleName) == "RefreshToken cannot be null or empty";
    BaseToken.Create(value, expiration, New)
  }

  /** `RefreshToken.create(value)`: the expiration comes from the token text;
      the call fails with the parser's error before the value is checked,
      and otherwise fails only on a null or empty value. */
  function CreateFromValue(value: Option<string>, getExpiration: Option<string> -> Result<DateTime>): (r: Result<Token>)
    ensures getExpiration(value).Failure? ==> r == Failure(getExpiration(value).error)
    ensures getExpiration(value).Success? ==> r == Create(value, getExpiration(value).value)
  {
    BaseToken.CreateFromValue(value, New, getExpiration)
  }

  /** `RefreshToken.create(memberId)`: the expiration is `now` plus thirty
      days, and the value is the JWT `generate` signs for the member id's
      text and that expiration; a null member id throws before anything
      else. */
  function CreateForMember(memberId: Option<string>, now: DateTime,
                           generate: (string, DateTime) -> Result<string>): (r: Result<Token>)
    ensures memberId.None? ==> r == Failure(NullPointer)
    ensures memberId.Some? && generate(memberId.value, now + ValidityMillis).Failure? ==>
              r == Failure(generate(memberId.value, now + ValidityMillis).error)
    ensures r.Success? ==> && memberId.Some?
                           && generate(memberId.value, now + ValidityMillis) == Success(r.value.value)
                           && r.value.expiration == now + ValidityMillis
  {
    if memberId.None? then Failure(NullPointer)
    else
      var expirationTime := now + ValidityMillis;
      match generate(memberId.value, expirationTime)
      case Failure(e) => Failure(e)
      case Success(tokenValue) => Create(Some(tokenValue), expirationTime)
  }

  /** The text `fromBearer` extracts: everything after the seven-character
      prefix, trimmed. */
  function BearerValue(header: string): string
    requires StartsWith(header, BearerPrefix)
  {
    Trim(header[|BearerPrefix|..])
  }

  /** `RefreshToken.fromBearer(header)`: the header must start with exactly
      `"Bearer "`; the rest, trimmed, must not be empty; the token is then
      built from that text. */
  function FromBearer(header: Option<string>, getExpiration: Option<string> -> Result<DateTime>): Result<Token>
  {
    if header.None? || !StartsWith(header.value, BearerPrefix) then Failure(IllegalArgument(BearerFormatMessage))
    else
      var tokenValue := BearerValue(header.value);
      if |tokenValue| == 0 then Failure(IllegalArgument(EmptyTokenMessage))
      else CreateFromValue(Some(tokenValue), getExpiration)
  }

  /** `isExpired()`: strictly after the expiration; the expiration instant
      itself still counts as valid. */
  predicate IsExpired(t: Token, now: DateTime)
  {
    now > t.expiration
  }

  /** What `fromBearer` does with each header: a missing header or one
      without the prefix is a format error, a prefix followed only by
      characters `trim` removes is an empty-token error, and any other
      header yields the token of its trimmed remainder exactly when the
      JWT parser can read that text. */
  lemma FromBearerCases(header: Option<string>, getExpiration: Option<string> -> Result<DateTime>)
    ensures header.None? || !StartsWith(header.value, BearerPrefix) ==>
              FromBearer(header, getExpiration) == Failure(IllegalArgument(BearerFormatMessage))
    ensures header.Some? && StartsWith(header.value, BearerPrefix)
            && (forall i :: |BearerPrefix| <= i < |header.value| ==> IsTrimmable(header.value[i])) ==>
              FromBearer(header, getExpiration) == Failure(IllegalArgument(EmptyTokenMessage))
    ensures FromBearer(header, getExpiration).Success? <==>
              && header.Some? && StartsWith(header.value, BearerPrefix)
              && |BearerValue(header.value)| > 0
              && getExpiration(Some(BearerValue(header.value))).Success?
    ensures FromBearer(header, getExpiration).Success? ==>
              FromBearer(header, getExpiration).value
              == Token(BearerValue(header.value), getExpiration(Some(BearerValue(header.value))).value)
  {
    if header.Some? && StartsWith(header.value, BearerPrefix) {
      var rest := header.value[|BearerPrefix|..];
      TrimEmptyIff(rest);
      if forall i :: |BearerPrefix| <= i < |header.value| ==> IsTrimmable(header.value[i]) {
        forall i | 0 <= i < |rest| ensures IsTrimmable(rest[i]) {
          assert rest[i] == header.value[i + |BearerPrefix|];
        }
      }
    }
  }

  /** Round trip: a header made of the prefix and a token text with nothing
      to trim at its ends gives back that text as the token value; the token
      still prints without it. */
  lemma FromBearerRoundTrip(value: string, getExpiration: Option<string> -> Result<DateTime>)
    requires |value| > 0 && !IsTrimmable(value[0]) && !IsTrimmable(value[|value| - 1])
    requires getExpiration(Some(value)).Success?
    ensures FromBearer(Some(BearerPrefix + value), getExpiration)
            == Success(Token(value, getExpiration(Some(value)).value))
    ensures ToString(FromBearer(Some(BearerPrefix + value), getExpiration).value) == SimpleName + "()"
  {
    var header := BearerPrefix + value;
    assert header[..|BearerPrefix|] == BearerPrefix;
    assert header[|BearerPrefix|..] == value;
    TrimOfTrimmed(value);
    assert BearerValue(header) == value;
  }

  /** The prefix test is case-sensitive and needs the space. */
  lemma FromBearerNeedsExactPrefix(getExpiration: Option<string> -> Result<DateTime>)
    ensures FromBearer(Some("bearer abc"), getExpiration) == Failure(IllegalArgument(BearerFormatMessage))
    ensures FromBearer(Some("Bearerabc"), getExpiration) == Failure(IllegalArgument(BearerFormatMessage))
    ensures FromBearer(Some("Bearer"), getExpiration) == Failure(IllegalArgument(BearerFormatMessage))
  {
    var lower, joined := "bearer abc", "Bearerabc";
    assert lower[0] != BearerPrefix[0] && lower[..|BearerPrefix|][0] == lower[0];
    assert joined[6] != BearerPrefix[6] && joined[..|BearerPrefix|][6] == joined[6];
  }

  /** The prefix followed only by spaces is a header without a token. */
  lemma FromBearerBlankRemainder(getExpiration: Option<string> -> Result<DateTime>)
    ensures FromBearer(Some("Bearer    "), getExpiration) == Failure(IllegalArgument(EmptyTokenMessage))
  {
    var blank := "Bearer    ";
    assert blank[..|BearerPrefix|] == BearerPrefix;
    FromBearerCases(Some(blank), getExpiration);
  }

  /** A token value obtained from a header never starts or ends with a
      character `trim` removes, unlike one given to `create` directly. */
  lemma FromBearerValueIsTrimmed(header: Option<string>, getExpiration: Option<string> -> Result<DateTime>)
    requires FromBearer(header, getExpiration).Success?
    ensures var v := FromBearer(header, getExpiration).value.value;
            |v| > 0 && !IsTrimmable(v[0]) && !IsTrimmable(v[|v| - 1])
  {
    FromBearerCases(header, getExpiration);
  }

  /** A token issued for a member at `now` stays valid for exactly thirty
      days: it is not expired up to and including `now + ValidityMillis`,
      and expired from the next millisecond on. */
  lemma IssuedTokenLifetime(memberId: Option<string>, now: DateTime, later: DateTime,
                            generate: (string, DateTime) -> Result<string>)
    requires CreateForMember(memberId, now, generate).Success?
    ensures var t := CreateForMember(memberId, now, generate).value;
            !IsExpired(t, later) <==> later <= now + ValidityMillis
    ensures var t := CreateForMember(memberId, now, generate).value;
            !IsExpired(t, now) && IsExpired(t, now + ValidityMillis + 1)
  {
  }

  /** Issuing succeeds exactly when the member id is present and `generate`
      produces a non-empty text. */
  lemma CreateForMemberIff(memberId: Option<string>, now: DateTime, generate: (string, DateTime) -> Result<string>)
    ensures CreateForMember(memberId, now, generate).Success? <==>
              && memberId.Some?
              && generate(memberId.value, now + ValidityMillis).Success?
              && |generate(memberId.value, now + ValidityMillis).value| > 0
  {
  }
}
