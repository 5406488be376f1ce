/**
 * Validation of the arguments of the `register` mutation: the e-mail must
 * contain `@` and be longer than 6 characters, the password longer than 4.
 * The first rule that fails gives the one error returned; `null` means valid.
 */
module Registration {
  import opened JsCore

  /** The fields a client sends to register. */
  datatype RegisterOptions = RegisterOptions(
    email: string,
    firstName: string,
    lastName: string,
    password: string,
    nationality: Option<string>)

  /** A validation error attached to the name of the offending field. */
  datatype FieldError = FieldError(field: string, message: string)

  const MinEmailLength: nat := 6
  const MinPasswordLength: nat := 4

  /** The template `length must be greater than ${n}`. */
  function LengthMessage(n: nat): string {
    "length must be greater than " + IntToString(n)
  }

  predicate EmailValid(email: string) {
    '@' in email && |email| > MinEmailLength
  }

  predicate PasswordValid(password: string) {
    |password| > MinPasswordLength
  }

  /** `validateRegister(options)`: `None` stands for the `null` of a valid registration. */
  function ValidateRegister(options: RegisterOptions): (r: Option<seq<FieldError>>)
    ensures r.None? <==> EmailValid(options.email) && PasswordValid(options.password)
    ensures r.Some? ==> |r.value| == 1
    ensures r.Some? ==> (r.value[0].field == "email" <==> !EmailValid(options.email))
    ensures r.Some? ==> (r.value[0].field == "password" <==> EmailValid(options.email))
  {
    if '@' !in options.email then
      Some([FieldError("email", "invalid email")])
    else if |options.email| <= MinEmailLength then
      Some([FieldError("email", LengthMessage(MinEmailLength))])
    else if |options.password| <= MinPasswordLength then
      Some([FieldError("password", LengthMessage(MinPasswordLength))])
    else
      None
  }

  /** The two messages the length rules produce, written out. */
  lemma LengthMessages()
    ensures LengthMessage(MinEmailLength) == "length must be greater than 6"
    ensures LengthMessage(MinPasswordLength) == "length must be greater than 4"
  {
    assert IntToString(6) == [DigitChar(6)] == "6";
    assert IntToString(4) == [DigitChar(4)] == "4";
  }

  /** An e-mail without `@` is rejected as invalid, whatever its length and the password. */
  lemma MissingAtSign(options: RegisterOptions)
    requires '@' !in options.email
    ensures ValidateRegister(options) == Some([FieldError("email", "invalid email")])
  {
  }

  /** An e-mail with `@` of at most 6 characters is rejected for its length. */
  lemma ShortEmail(options: RegisterOptions)
    requires '@' in options.email && |options.email| <= MinEmailLength
    ensures ValidateRegister(options) == Some([FieldError("email", "length must be greater than 6")])
  {
    LengthMessages();
  }

  /** With a valid e-mail, a password of at most 4 characters is rejected for its length. */
  lemma ShortPassword(options: RegisterOptions)
    requires EmailValid(options.email) && |options.password| <= MinPasswordLength
    ensures ValidateRegister(options) == Some([FieldError("password", "length must be greater than 4")])
  {
    LengthMessages();
  }

  /** Only the e-mail and the password are looked at: names and nationality never matter. */
  lemma OnlyEmailAndPasswordMatter(a: RegisterOptions, b: RegisterOptions)
    requires a.email == b.email && a.password == b.password
    ensures ValidateRegister(a) == ValidateRegister(b)
  {
  }
}
