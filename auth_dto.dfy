/**
 * The request bodies of registration and login, as validation predicates
 * and parsers that either build the body or name the fields that fail.
 */
module AuthDto {
  import opened Wrappers
  import opened Strings

  datatype RegistrationDTO = RegistrationDTO(username: string, email: string, password: string)

  /** Login takes any two strings: no length or format constraint. */
  datatype LoginDTO = LoginDTO(username: string, password: string)

  const MinUsernameLength := 3
  const MaxUsernameLength := 50
  const MinPasswordLength := 8

  predicate UsernameOk(u: string) {
    MinUsernameLength <= |u| <= MaxUsernameLength
  }

  predicate PasswordOk(p: string) {
    |p| >= MinPasswordLength
  }

  /**
   * The shape of an address the email type accepts: no whitespace, exactly
   * one '@' with a non-empty local part before it, and a domain after it of
   * at least two non-empty dot-separated labels.
   */
  predicate EmailOk(e: string)
    ensures EmailOk(e) ==> Count(e, '@') == 1 && e != [] && e[0] != '@'
  {
    var parts := Split(e, '@');
    && (forall i :: 0 <= i < |e| ==> !IsSpace(e[i]))
    && |parts| == 2
    && |parts[0]| >= 1
    && DomainOk(parts[1])
  }

  predicate DomainOk(d: string) {
    var labels := Split(d, '.');
    |labels| >= 2 && forall i :: 0 <= i < |labels| ==> |labels[i]| >= 1
  }

  /** The names of the failing fields, in declaration order. */
  function FailingFields(usernameOk: bool, emailOk: bool, passwordOk: bool): (fields: seq<string>)
    ensures |fields| <= 3
    ensures fields == [] <==> usernameOk && emailOk && passwordOk
    ensures "username" in fields <==> !usernameOk
    ensures "email" in fields <==> !emailOk
    ensures "password" in fields <==> !passwordOk
    ensures forall i, j :: 0 <= i < j < |fields| ==> FieldRank(fields[i]) < FieldRank(fields[j])
  {
    (if usernameOk then [] else ["username"]) +
    (if emailOk then [] else ["email"]) +
    (if passwordOk then [] else ["password"])
  }

  /** The position of a field in the registration body. */
  function FieldRank(field: string): nat {
    if field == "username" then 0 else if field == "email" then 1 else 2
  }

  /** Validation of a registration body: the body itself, or the failing fields in declaration order. */
  function ParseRegistration(username: string, email: string, password: string): (r: Result<RegistrationDTO, seq<string>>)
    ensures r.Success? <==> UsernameOk(username) && EmailOk(email) && PasswordOk(password)
    ensures r.Success? ==> r.value == RegistrationDTO(username, email, password)
    ensures r.Failure? ==> r.error == FailingFields(UsernameOk(username), EmailOk(email), PasswordOk(password))
  {
    var errors := FailingFields(UsernameOk(username), EmailOk(email), PasswordOk(password));
    if errors == [] then Success(RegistrationDTO(username, email, password)) else Failure(errors)
  }

  /** Every pair of strings is a login body. */
  function ParseLogin(username: string, password: string): (r: Result<LoginDTO, seq<string>>)
    ensures r.Success? && r.value.username == username && r.value.password == password
  {
    Success(LoginDTO(username, password))
  }
}
