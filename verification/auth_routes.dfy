/**
 * The validator chains of routes/auth.js for `POST /log-in` and
 * `POST /sign-up`. The validation library (version 5, reached through
 * `express-validator/check`) applies a chain's sanitizers to the field
 * before its validators run and writes the sanitized value back into the
 * request, so every check and the controller see the normalized email and
 * the trimmed passwords. Errors are collected chain by chain in declaration
 * order: email, password, confirmPassword.
 */
module AuthRoutes {
  import opened JsText
  import opened UserModel

  /** The library's email syntax test and `normalizeEmail` sanitizer, left uninterpreted. */
  datatype EmailRules = EmailRules(isEmail: string -> bool, normalize: string -> string)

  const InvalidEmailMsg: string := "Please enter a valid email address."
  const InvalidPasswordMsg: string := "Invalid password."
  const EmailInUseMsg: string := "This email is already in use."
  const ShortPasswordMsg: string := "The password must be at least 3 characters long."
  const MismatchMsg: string := "Passwords have to match."

  const MinPasswordLength: nat := 3

  datatype Field = Email | Password | ConfirmPassword

  datatype FieldError = FieldError(field: Field, msg: string)

  /** Only one error per failed check; an empty sequence means the request passed validation. */
  function Check(passes: bool, field: Field, msg: string): seq<FieldError> {
    if passes then [] else [FieldError(field, msg)]
  }

  /** The login chains: a syntactically valid email, and a password of at least 3 characters after trimming. */
  function ValidateLogIn(rules: EmailRules, email: string, password: string): (errors: seq<FieldError>)
    ensures errors == [] <==> rules.isEmail(rules.normalize(email)) && |Trim(password)| >= MinPasswordLength
    ensures !rules.isEmail(rules.normalize(email)) ==> errors[0] == FieldError(Email, InvalidEmailMsg)
    ensures rules.isEmail(rules.normalize(email)) && |Trim(password)| < MinPasswordLength ==>
              errors[0] == FieldError(Password, InvalidPasswordMsg)
    ensures FieldError(Password, InvalidPasswordMsg) in errors <==> |Trim(password)| < MinPasswordLength
  {
    Check(rules.isEmail(rules.normalize(email)), Email, InvalidEmailMsg)
    + Check(|Trim(password)| >= MinPasswordLength, Password, InvalidPasswordMsg)
  }

  /**
   * The signup chains: a syntactically valid email that no stored user holds,
   * a password of at least 3 characters, and a confirmation equal to it (both
   * after trimming).
   */
  function ValidateSignUp(rules: EmailRules, users: Users, email: string, password: string, confirmPassword: string): (errors: seq<FieldError>)
    ensures errors == [] <==>
              && rules.isEmail(rules.normalize(email))
              && !EmailInUse(users, rules.normalize(email))
              && |Trim(password)| >= MinPasswordLength
              && Trim(confirmPassword) == Trim(password)
    ensures !rules.isEmail(rules.normalize(email)) ==> errors[0] == FieldError(Email, InvalidEmailMsg)
    ensures rules.isEmail(rules.normalize(email)) && EmailInUse(users, rules.normalize(email)) ==>
              errors[0] == FieldError(Email, EmailInUseMsg)
    ensures rules.isEmail(rules.normalize(email)) && !EmailInUse(users, rules.normalize(email))
            && |Trim(password)| < MinPasswordLength ==>
              errors[0] == FieldError(Password, ShortPasswordMsg)
    ensures rules.isEmail(rules.normalize(email)) && !EmailInUse(users, rules.normalize(email))
            && |Trim(password)| >= MinPasswordLength && Trim(confirmPassword) != Trim(password) ==>
              errors == [FieldError(ConfirmPassword, MismatchMsg)]
    ensures FieldError(Email, EmailInUseMsg) in errors <==> EmailInUse(users, rules.normalize(email))
  {
    var e := rules.normalize(email);
    Check(rules.isEmail(e), Email, InvalidEmailMsg)
    + Check(!EmailInUse(users, e), Email, EmailInUseMsg)
    + Check(|Trim(password)| >= MinPasswordLength, Password, ShortPasswordMsg)
    + Check(Trim(confirmPassword) == Trim(password), ConfirmPassword, MismatchMsg)
  }

  /** Credentials that pass signup validation also pass login validation. */
  lemma SignUpValidImpliesLogInValid(rules: EmailRules, users: Users, email: string, password: string, confirmPassword: string)
    requires ValidateSignUp(rules, users, email, password, confirmPassword) == []
    ensures ValidateLogIn(rules, email, password) == []
  {
  }
}
