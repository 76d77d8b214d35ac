/** The local checks of the login and sign-up page, made before anything is sent to the
    identity service, and the table that turns the service's error codes into messages.
    Each check yields the message shown to the user, or `Proceed` when the request may go
    to the service. Form values are taken as typed (these checks do not trim). */
module Auth {

  datatype Verdict = Proceed | Reject(message: string)

  const FillAllFields: string := "Please fill in all fields"
  const PasswordsDiffer: string := "Passwords do not match"
  const PasswordTooShort: string := "Password must be at least 6 characters"
  const InvalidPhone: string := "Please enter a valid Zimbabwean number starting with 263"

  const MinPasswordLength: nat := 6
  const CountryCode: string := "263"
  const PhoneLength: nat := 12

  /** A phone number starts with the country code and has exactly twelve characters. */
  predicate IsValidPhone(phone: string)
  {
    CountryCode <= phone && |phone| == PhoneLength
  }

  /** Which panel of the login form is showing. */
  datatype LoginPanel = Standard | Ussd

  /** The login button: with the standard panel, e-mail and password must both be filled
      in; with the USSD panel, the phone number must be valid. */
  function LoginCheck(panel: LoginPanel, email: string, password: string, phone: string): (v: Verdict)
    ensures panel == Standard ==> (v == Proceed <==> email != [] && password != [])
    ensures panel == Ussd ==> (v == Proceed <==> IsValidPhone(phone))
    ensures v != Proceed ==> v == Reject(if panel == Standard then FillAllFields else InvalidPhone)
  {
    match panel
    case Standard =>
      if email == [] || password == [] then Reject(FillAllFields) else Proceed
    case Ussd =>
      if phone == [] || !(CountryCode <= phone) || |phone| != PhoneLength then Reject(InvalidPhone)
      else Proceed
  }

  /** The sign-up button: all five fields filled in, then the two passwords equal, then the
      password long enough, then the phone number valid, each failure with its own message. */
  function SignupCheck(name: string, email: string, phone: string, password: string,
                       confirmPassword: string): (v: Verdict)
    ensures v == Reject(FillAllFields) <==>
      name == [] || email == [] || phone == [] || password == [] || confirmPassword == []
    ensures v == Reject(PasswordsDiffer) <==>
      name != [] && email != [] && phone != [] && password != [] && confirmPassword != [] &&
      password != confirmPassword
    ensures v == Reject(PasswordTooShort) <==>
      name != [] && email != [] && phone != [] && password != [] &&
      password == confirmPassword && |password| < MinPasswordLength
    ensures v == Reject(InvalidPhone) <==>
      name != [] && email != [] && phone != [] && password != [] && password == confirmPassword &&
      |password| >= MinPasswordLength && !IsValidPhone(phone)
    ensures v == Proceed <==>
      name != [] && email != [] && password == confirmPassword &&
      |password| >= MinPasswordLength && IsValidPhone(phone)
  {
    if name == [] || email == [] || phone == [] || password == [] || confirmPassword == [] then
      Reject(FillAllFields)
    else if password != confirmPassword then
      Reject(PasswordsDiffer)
    else if |password| < MinPasswordLength then
      Reject(PasswordTooShort)
    else if !(CountryCode <= phone) || |phone| != PhoneLength then
      Reject(InvalidPhone)
    else
      Proceed
  }

  /** Once the other fields pass, sign-up and the USSD login accept the same phone numbers,
      and reject a non-empty one with the same message (an empty one fails sign-up's first
      check instead). */
  lemma SamePhoneRule(name: string, email: string, phone: string, password: string)
    requires name != [] && email != [] && |password| >= MinPasswordLength
    ensures (SignupCheck(name, email, phone, password, password) == Proceed) ==
            (LoginCheck(Ussd, email, password, phone) == Proceed)
    ensures phone != [] ==>
            SignupCheck(name, email, phone, password, password) == LoginCheck(Ussd, email, password, phone)
  {
  }

  /** A password of exactly the minimum length is accepted by the length check, one
      character shorter is not. */
  lemma PasswordLengthBoundary(name: string, email: string, phone: string, password: string)
    requires name != [] && email != [] && IsValidPhone(phone)
    ensures |password| == MinPasswordLength ==> SignupCheck(name, email, phone, password, password) == Proceed
    ensures |password| == MinPasswordLength - 1 ==>
            SignupCheck(name, email, phone, password, password) == Reject(PasswordTooShort)
  {
  }

  /** The messages of the identity service's known error codes. */
  const KnownErrors: map<string, string> := map[
    "auth/email-already-in-use" := "Email is already registered",
    "auth/invalid-email" := "Invalid email address",
    "auth/weak-password" := "Password is too weak",
    "auth/user-not-found" := "User not found",
    "auth/wrong-password" := "Incorrect password"
  ]

  const GenericError: string := "Login failed. Please try again."

  /** The message shown for a failed sign-in or sign-up with error code `code`. */
  function AuthErrorMessage(code: string): (m: string)
    ensures code in KnownErrors ==> m == KnownErrors[code]
    ensures code !in KnownErrors ==> m == GenericError
  {
    match code
    case "auth/email-already-in-use" => "Email is already registered"
    case "auth/invalid-email" => "Invalid email address"
    case "auth/weak-password" => "Password is too weak"
    case "auth/user-not-found" => "User not found"
    case "auth/wrong-password" => "Incorrect password"
    case _ => GenericError
  }

  /** The generic message is never one of the specific ones, and no two codes share a
      message, so the message tells which case occurred. */
  lemma ErrorMessagesDistinguishCodes(c1: string, c2: string)
    ensures AuthErrorMessage(c1) == GenericError <==> c1 !in KnownErrors
    ensures c1 in KnownErrors && c2 in KnownErrors && AuthErrorMessage(c1) == AuthErrorMessage(c2) ==> c1 == c2
  {
  }
}
