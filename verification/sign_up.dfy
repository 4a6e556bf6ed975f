/** The sign-up screen: per-field validation with "required" checked before
    the format rule, the edit handler that clears one field's error, the
    semester choices, and the submit handler. */
module SignUp {
  import opened Wrappers
  import Text
  import EmailPattern
  import opened AuthRules

  const NameRequired: string := "Name is required"
  const NameTooShort: string := "Name must be at least 2 characters"
  const CollegeRequired: string := "College name is required"
  const SemesterRequired: string := "Semester is required"

  datatype Field = Name | Email | Password | CollegeName | Semester

  const AllFields: set<Field> := {Name, Email, Password, CollegeName, Semester}

  datatype Form = Form(name: string, email: string, password: string, collegeName: string, semester: string)
  {
    function Get(f: Field): string {
      match f
      case Name => name
      case Email => email
      case Password => password
      case CollegeName => collegeName
      case Semester => semester
    }

    function With(f: Field, v: string): (r: Form)
      ensures r.Get(f) == v
      ensures forall g :: g != f ==> r.Get(g) == Get(g)
    {
      match f
      case Name => this.(name := v)
      case Email => this.(email := v)
      case Password => this.(password := v)
      case CollegeName => this.(collegeName := v)
      case Semester => this.(semester := v)
    }
  }

  /** Keys of the screen's error object: one per field, and `general` for
      the service's messages. */
  datatype ErrorKey = FieldKey(field: Field) | General

  /** The name rule, judged on the trimmed name's `length` in UTF-16 code
      units: blank is missing, one unit is too short. A single astral
      character is two units and passes. */
  function NameError(name: string): (r: Option<string>)
    ensures r == Some(NameRequired) <==> Text.AllSpace(name)
    ensures r == Some(NameTooShort) <==> Text.OneNonSpace(name) && !Text.HasAstral(name)
    ensures r.None? <==> Text.TwoNonSpace(name) || Text.HasAstral(name)
  {
    Text.BlankIffAllSpace(name);
    Text.TrimUnitsAtLeastTwo(name);
    Text.TrimUnitsShort(name);
    if Text.Blank(name) then Some(NameRequired)
    else if Text.Utf16Length(Text.Trim(name)) < 2 then Some(NameTooShort)
    else None
  }

  /** The college name is required once trimmed. */
  function CollegeError(collegeName: string): (r: Option<string>)
    ensures r.Some? <==> Text.AllSpace(collegeName)
    ensures r.Some? ==> r.value == CollegeRequired
  {
    if Text.Blank(collegeName) then Some(CollegeRequired) else None
  }

  /** The semester is only tested for emptiness: it is NOT trimmed. */
  function SemesterError(semester: string): (r: Option<string>)
    ensures r.Some? <==> |semester| == 0
    ensures r.Some? ==> r.value == SemesterRequired
  {
    if semester == [] then Some(SemesterRequired) else None
  }

  function FieldError(form: Form, f: Field): Option<string> {
    match f
    case Name => NameError(form.name)
    case Email => EmailError(form.email)
    case Password => PasswordError(form.password)
    case CollegeName => CollegeError(form.collegeName)
    case Semester => SemesterError(form.semester)
  }

  /** The form a submission accepts, stated without the rule table: a name
      with two non-blank characters (or an astral one), an address the
      pattern matches, six password code units, a non-blank college and a
      non-empty semester. */
  ghost predicate Acceptable(form: Form) {
    && (Text.TwoNonSpace(form.name) || Text.HasAstral(form.name))
    && EmailPattern.RegexMatches(form.email)
    && Text.Utf16Length(form.password) >= MinPasswordLength
    && !Text.AllSpace(form.collegeName)
    && |form.semester| > 0
  }

  /** `validateForm`'s error object: a key for every failing field, carrying
      that field's one message; the form is valid exactly when it has no key
      (`Object.keys(newErrors).length === 0`). */
  function Validate(form: Form): (errs: map<Field, string>)
    ensures forall f :: f in errs <==> FieldError(form, f).Some?
    ensures forall f :: f in errs ==> Some(errs[f]) == FieldError(form, f)
    ensures |errs| == 0 <==> Acceptable(form)
  {
    var errs := map f | f in AllFields && FieldError(form, f).Some? :: FieldError(form, f).value;
    assert |errs| == 0 <==> errs.Keys == {} by {
      if |errs| == 0 { assert |errs.Keys| == 0; }
    }
    AcceptableIffNoFieldError(form);
    errs
  }

  lemma AcceptableIffNoFieldError(form: Form)
    ensures Acceptable(form) <==> forall f :: FieldError(form, f).None?
  {
    assert FieldError(form, Name).None? <==> Text.TwoNonSpace(form.name) || Text.HasAstral(form.name);
    assert FieldError(form, Email).None? <==> EmailPattern.RegexMatches(form.email);
    assert FieldError(form, Password).None? <==> Text.Utf16Length(form.password) >= MinPasswordLength;
    assert FieldError(form, CollegeName).None? <==> !Text.AllSpace(form.collegeName);
    assert FieldError(form, Semester).None? <==> |form.semester| > 0;
    if Acceptable(form) {
      forall f ensures FieldError(form, f).None? {
        match f
        case Name =>
        case Email =>
        case Password =>
        case CollegeName =>
        case Semester =>
      }
    }
  }

  predicate IsValid(form: Form) {
    |Validate(form)| == 0
  }

  /** The screen's state as the handlers below touch it. */
  datatype Screen = Screen(form: Form, errors: map<ErrorKey, string>, isLoading: bool)

  /** `updateFormData`: only the edited field changes, and only that field's
      error is cleared; the other errors, `general` included, stay. */
  function UpdateFormData(s: Screen, f: Field, v: string): (r: Screen)
    ensures r.form.Get(f) == v
    ensures forall g :: g != f ==> r.form.Get(g) == s.form.Get(g)
    ensures FieldKey(f) !in r.errors
    ensures forall k :: k != FieldKey(f) ==> (k in r.errors <==> k in s.errors)
    ensures forall k :: k != FieldKey(f) && k in s.errors ==> r.errors[k] == s.errors[k]
    ensures r.isLoading == s.isLoading
  {
    var errors := if FieldKey(f) in s.errors then s.errors - {FieldKey(f)} else s.errors;
    Screen(s.form.With(f, v), errors, s.isLoading)
  }

  /** Editing a field leaves the verdict on every other field unchanged. */
  lemma UpdateKeepsOtherVerdicts(s: Screen, f: Field, v: string, g: Field)
    requires g != f
    ensures FieldError(UpdateFormData(s, f, v).form, g) == FieldError(s.form, g)
  {
    assert UpdateFormData(s, f, v).form.Get(g) == s.form.Get(g);
    match g
    case Name =>
    case Email =>
    case Password =>
    case CollegeName =>
    case Semester =>
  }

  datatype SemesterOption = SemesterOption(value: string, labelText: string)

  function Ordinal(n: nat): string
    requires 1 <= n <= 8
  {
    if n == 1 then "1st" else if n == 2 then "2nd" else if n == 3 then "3rd"
    else Text.NatToString(n) + "th"
  }

  /** The semester choices: values "1" to "8" in order, each labelled with
      its ordinal. */
  function SemesterOptions(): (opts: seq<SemesterOption>)
    ensures |opts| == 8
    ensures forall i :: 0 <= i < 8 ==> opts[i].value == Text.NatToString(i + 1)
    ensures forall i :: 0 <= i < 8 ==> opts[i].labelText == Ordinal(i + 1) + " Semester"
    ensures forall i, j :: 0 <= i < j < 8 ==> opts[i].value != opts[j].value
  {
    var opts := seq(8, i requires 0 <= i < 8 =>
      SemesterOption(Text.NatToString(i + 1), Ordinal(i + 1) + " Semester"));
    forall i, j | 0 <= i < j < 8
      ensures opts[i].value != opts[j].value
    {
      if opts[i].value == opts[j].value {
        Text.NatToStringInjective(i + 1, j + 1);
      }
    }
    opts
  }

  /** What `signUp` is called with: the raw, untrimmed form values. */
  datatype SignUpRequest = SignUpRequest(email: string, password: string,
                                         name: string, collegeName: string, semester: string)

  datatype Submitted = Submitted(screen: Screen, request: Option<SignUpRequest>, route: Option<string>)

  function FieldErrors(errs: map<Field, string>): (r: map<ErrorKey, string>)
    ensures forall f :: FieldKey(f) in r <==> f in errs
    ensures forall f :: f in errs ==> r[FieldKey(f)] == errs[f]
    ensures General !in r
  {
    map k | k in (set f | f in errs :: FieldKey(f)) :: errs[k.field]
  }

  /** `handleSignUp`: an invalid form only replaces the errors with the field
      errors and calls nothing; a valid one sends the raw form values, and
      the service's reply decides the general error and the navigation. */
  function HandleSignUp(s: Screen, reply: AuthReply): (r: Submitted)
    ensures !IsValid(s.form) ==> r.request.None? && r.route.None?
    ensures !IsValid(s.form) ==> r.screen == s.(errors := FieldErrors(Validate(s.form)))
    ensures IsValid(s.form) ==> r.request == Some(SignUpRequest(s.form.email, s.form.password,
                                  s.form.name, s.form.collegeName, s.form.semester))
    ensures IsValid(s.form) ==> !r.screen.isLoading && r.screen.form == s.form
    ensures IsValid(s.form) ==> (r.route.Some? <==> reply == Answered(true))
    ensures IsValid(s.form) ==> (r.screen.errors == map[] <==> reply.Answered?)
  {
    if !IsValid(s.form) then
      Submitted(s.(errors := FieldErrors(Validate(s.form))), None, None)
    else
      var request := SignUpRequest(s.form.email, s.form.password, s.form.name, s.form.collegeName, s.form.semester);
      var after := AfterAuth(reply);
      var errors := if after.general.Some? then map[General := after.general.value] else map[];
      Submitted(Screen(s.form, errors, false), Some(request), after.route)
  }
}
