/** The sign-in screen: the two-field validation and the submit handler, whose
    validation gate keeps the service from being called. */
module SignIn {
  import opened Wrappers
  import EmailPattern
  import Text
  import opened AuthRules
  import SignUp

  datatype Field = Email | Password

  /** The e-mail and password rules are the very ones the sign-up screen
      applies (`AuthRules.EmailError`, `AuthRules.PasswordError`), so both
      screens give the same verdict on every address and password. */
  function FieldError(email: string, password: string, f: Field): Option<string> {
    match f
    case Email => EmailError(email)
    case Password => PasswordError(password)
  }

  /** `validateForm`: a key for each failing field; valid exactly when the
      address matches the pattern and the password has six characters. */
  function Validate(email: string, password: string): (errs: map<Field, string>)
    ensures forall f :: f in errs <==> FieldError(email, password, f).Some?
    ensures forall f :: f in errs ==> Some(errs[f]) == FieldError(email, password, f)
    ensures |errs| == 0 <==> EmailPattern.RegexMatches(email) && Text.Utf16Length(password) >= MinPasswordLength
  {
    var errs := map f | f in {Email, Password} && FieldError(email, password, f).Some?
      :: FieldError(email, password, f).value;
    assert |errs| == 0 <==> errs.Keys == {} by {
      if |errs| == 0 { assert |errs.Keys| == 0; }
    }
    assert Email in errs <==> !EmailPattern.RegexMatches(email);
    assert Password in errs <==> Text.Utf16Length(password) < MinPasswordLength;
    errs
  }

  predicate IsValid(email: string, password: string) {
    |Validate(email, password)| == 0
  }

  /** On any sign-up form holding the same address and password, the two
      screens flag the same of these fields with the same messages. */
  lemma SameVerdictsAsSignUp(email: string, password: string, form: SignUp.Form)
    requires form.email == email && form.password == password
    ensures (Email in Validate(email, password)) <==> (SignUp.Email in SignUp.Validate(form))
    ensures (Password in Validate(email, password)) <==> (SignUp.Password in SignUp.Validate(form))
    ensures Email in Validate(email, password) ==>
      Validate(email, password)[Email] == SignUp.Validate(form)[SignUp.Email]
    ensures Password in Validate(email, password) ==>
      Validate(email, password)[Password] == SignUp.Validate(form)[SignUp.Password]
  {
  }

  datatype ErrorKey = FieldKey(field: Field) | General

  datatype Screen = Screen(email: string, password: string, errors: map<ErrorKey, string>, isLoading: bool)

  /** `signIn` was called with these credentials. */
  datatype Credentials = Credentials(email: string, password: string)

  datatype Submitted = Submitted(screen: Screen, request: Option<Credentials>, route: Option<string>)

  /** `handleSignIn`: when validation fails the errors are the field errors,
      `signIn` is never called and the loading flag is not touched; otherwise
      the typed credentials are sent and the reply decides the rest. */
  function HandleSignIn(s: Screen, reply: AuthReply): (r: Submitted)
    ensures !IsValid(s.email, s.password) ==>
      && r.request.None? && r.route.None?
      && r.screen.isLoading == s.isLoading
      && (forall f :: FieldKey(f) in r.screen.errors <==> FieldError(s.email, s.password, f).Some?)
      && (forall f :: FieldKey(f) in r.screen.errors ==>
            Some(r.screen.errors[FieldKey(f)]) == FieldError(s.email, s.password, f))
      && General !in r.screen.errors
    ensures IsValid(s.email, s.password) ==>
      && r.request == Some(Credentials(s.email, s.password))
      && !r.screen.isLoading
      && (r.route.Some? <==> reply == Answered(true))
      && (r.screen.errors == map[] <==> reply.Answered?)
    ensures r.screen.email == s.email && r.screen.password == s.password
  {
    var errs := Validate(s.email, s.password);
    if |errs| != 0 then
      var fieldErrors := map k | k in (set f | f in errs :: FieldKey(f)) :: errs[k.field];
      Submitted(s.(errors := fieldErrors), None, None)
    else
      var after := AfterAuth(reply);
      var errors := if after.general.Some? then map[General := after.general.value] else map[];
      Submitted(Screen(s.email, s.password, errors, false), Some(Credentials(s.email, s.password)), after.route)
  }
}
