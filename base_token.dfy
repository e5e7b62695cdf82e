/** `BaseToken`: an authentication token holding a value and an
    expiration time, both fixed when the token is built. */
module BaseToken {
  import opened Wrappers

  /** A `LocalDateTime`, as milliseconds on a local time line. */
  type DateTime = int

  /** The two final fields of a token. */
  datatype Token = Token(value: string, expiration: DateTime)

  /** The message of the constructor's guard, which names the concrete token
      class (`getClass().getSimpleName()`). */
  function EmptyValueMessage(simpleName: string): string
  {
    simpleName + " cannot be null or empty"
  }

  /** The protected constructor of a token class called `simpleName`: a null
      or empty value is rejected, anything else (whitespace included) is
      stored as given, and the expiration is not checked. */
  function New(simpleName: string, value: Option<string>, expiration: DateTime): (r: Result<Token>)
    ensures r.Success? <==> value.Some? && |value.value| > 0
    ensures r.Success? ==> r.value.value == value.value && r.value.expiration == expiration
    ensures r.Failure? ==> r.error == IllegalArgument(EmptyValueMessage(simpleName))
  {
    if value.None? || |value.value| == 0 then Failure(IllegalArgument(EmptyValueMessage(simpleName)))
    else Success(Token(value.value, expiration))
  }

  /** `BaseToken.create(value, expiration, creator)`: hands both arguments to the creator. */
  function Create<T>(value: Option<string>, expiration: DateTime, creator: (Option<string>, DateTime) -> Result<T>): Result<T>
  {
    creator(value, expiration)
  }

  /** `BaseToken.create(value, creator)`: the expiration is read from the
      token text first (`getExpiration` stands for the JWT parser, which
      throws on a text it cannot read), and only then is the creator called. */
  function CreateFromValue<T>(value: Option<string>, creator: (Option<string>, DateTime) -> Result<T>,
                              getExpiration: Option<string> -> Result<DateTime>): Result<T>
  {
    match getExpiration(value)
    case Failure(e) => Failure(e)
    case Success(expiration) => creator(value, expiration)
  }

  /** `BaseToken.toString()`: the stored value. */
  function ToString(t: Token): string
  {
    t.value
  }

  /** `BaseToken.toString` returns exactly the value a built token was given
      (both subclasses replace it with a generated one). */
  lemma ToStringOfNew(simpleName: string, value: string, expiration: DateTime)
    requires |value| > 0
    ensures New(simpleName, Some(value), expiration).Success?
    ensures ToString(New(simpleName, Some(value), expiration).value) == value
  {
  }

  /** A whitespace-only value is not empty, so the guard accepts it. */
  lemma WhitespaceValueAccepted(simpleName: string, expiration: DateTime)
    ensures New(simpleName, Some(" "), expiration) == Success(Token(" ", expiration))
    ensures New(simpleName, Some(""), expiration).Failure?
    ensures New(simpleName, None, expiration).Failure?
  {
  }
}
