/** The rules the sign-up and sign-in screens both apply to the e-mail and the
    password (the two screens spell them out identically), and the handling of
    the authentication service's reply after a submitted form. */
module AuthRules {
  import opened Wrappers
  import Text
  import EmailPattern

  const EmailRequired: string := "Email is required"
  const EmailInvalid: string := "Please enter a valid email"
  const PasswordRequired: string := "Password is required"
  const PasswordTooShort: string := "Password must be at least 6 characters"
  const MinPasswordLength: nat := 6
  const UnexpectedError: string := "An unexpected error occurred. Please try again."
  const HomeRoute: string := "/notes"

  /** The e-mail rule: an empty address is missing; a non-empty one is
      rejected exactly when the unanchored pattern finds no match. Whitespace
      alone is not "empty" here: the address is not trimmed. */
  function EmailError(email: string): (r: Option<string>)
    ensures email == [] ==> r == Some(EmailRequired)
    ensures email != [] ==> (r == Some(EmailInvalid) <==> !EmailPattern.RegexMatches(email))
    ensures r.None? <==> EmailPattern.RegexMatches(email)
  {
    EmailPattern.LooksLikeEmailIffRegex(email);
    if email == [] then Some(EmailRequired)
    else if !EmailPattern.LooksLikeEmail(email) then Some(EmailInvalid)
    else None
  }

  /** The password rule counts JavaScript's `length` of the raw text:
      UTF-16 code units, spaces included. Without astral characters that is
      the character count. */
  function PasswordError(password: string): (r: Option<string>)
    ensures r == Some(PasswordRequired) <==> |password| == 0
    ensures r == Some(PasswordTooShort) <==> |password| > 0 && Text.Utf16Length(password) < MinPasswordLength
    ensures r.None? <==> Text.Utf16Length(password) >= MinPasswordLength
    ensures !Text.HasAstral(password) ==> (r.None? <==> |password| >= MinPasswordLength)
  {
    if password == [] then Some(PasswordRequired)
    else if Text.Utf16Length(password) < MinPasswordLength then Some(PasswordTooShort)
    else None
  }

  /** Three emoji are six code units, so they pass the length rule; three
      letters do not. */
  lemma PasswordCountsCodeUnits()
    ensures PasswordError("\U{1F600}\U{1F600}\U{1F600}").None?
    ensures PasswordError("abc") == Some(PasswordTooShort)
  {
    var p := "\U{1F600}\U{1F600}\U{1F600}";
    assert Text.Astral(p[0]) && Text.Astral(p[1]) && Text.Astral(p[2]);
    assert p[1..][1..] == [p[2]];
    assert Text.Utf16Length(p) == 6;
  }

  /** What the authentication service answered to a submitted form. */
  datatype AuthReply =
    | Refused(message: string)   // the service returned an error
    | Answered(hasUser: bool)    // no error; whether the reply carries a user
    | Threw                      // the call threw

  /** After a submission the screen shows either the service's message or a
      generic one, navigates home only when a user came back, and always
      leaves the loading state. */
  datatype AfterSubmit = AfterSubmit(general: Option<string>, route: Option<string>)

  function AfterAuth(reply: AuthReply): (r: AfterSubmit)
    ensures r.route.Some? <==> reply == Answered(true)
    ensures r.route.Some? ==> r.route.value == HomeRoute
    ensures r.general.Some? <==> reply.Refused? || reply.Threw?
    ensures reply.Refused? ==> r.general == Some(reply.message)
    ensures reply.Threw? ==> r.general == Some(UnexpectedError)
  {
    match reply
    case Refused(m) => AfterSubmit(Some(m), None)
    case Answered(hasUser) => AfterSubmit(None, if hasUser then Some(HomeRoute) else None)
    case Threw => AfterSubmit(Some(UnexpectedError), None)
  }
}
