/** The profile drawer: loading the stored profile into the form, the save
    guard that refuses blank fields and sends trimmed values, and the edit
    handler. */
module ProfileDrawer {
  import opened Wrappers
  import Text

  const LoadFailed: string := "Failed to load user information"
  const FillAllFields: string := "Please fill in all fields"
  const SaveFailed: string := "Failed to update user information"
  const Unexpected: string := "An unexpected error occurred"

  datatype Field = Name | CollegeName | Semester

  datatype Form = Form(name: string, collegeName: string, semester: string)
  {
    function Get(f: Field): string {
      match f
      case Name => name
      case CollegeName => collegeName
      case Semester => semester
    }
  }

  /** A stored profile; each field may be missing (`null`/`undefined`). */
  datatype UserInfo = UserInfo(name: Option<string>, collegeName: Option<string>, semester: Option<string>)

  datatype Drawer = Drawer(form: Form, userInfo: Option<UserInfo>, error: Option<string>,
                           loading: bool, saving: bool, open: bool)

  /** What `fetchUserInfo` / `updateUserInfo` gave back. */
  datatype Reply =
    | Failed                       // an error was returned
    | Threw                        // the call threw
    | Returned(data: Option<UserInfo>)

  /** `value || ''`: a missing or empty value becomes the empty string. */
  function OrEmpty(v: Option<string>): (r: string)
    ensures v.None? ==> r == ""
    ensures v.Some? ==> r == v.value
  {
    match v
    case None => ""
    case Some(x) => x
  }

  /** `loadUserInfo`: an error or a throw sets its message and keeps the
      form; a profile fills the form with missing fields as ""; the loading
      flag is off afterwards in every case. */
  function LoadUserInfo(d: Drawer, reply: Reply): (r: Drawer)
    ensures !r.loading
    ensures reply.Failed? ==> r.error == Some(LoadFailed) && r.form == d.form
    ensures reply.Threw? ==> r.error == Some(Unexpected) && r.form == d.form
    ensures reply.Returned? ==> r.error.None?
    ensures reply == Returned(None) ==> r.form == d.form && r.userInfo == d.userInfo
    ensures reply.Returned? && reply.data.Some? ==>
      var u := reply.data.value;
      && r.userInfo == Some(u)
      && r.form == Form(OrEmpty(u.name), OrEmpty(u.collegeName), OrEmpty(u.semester))
    ensures r.saving == d.saving && r.open == d.open
  {
    match reply
    case Failed => d.(error := Some(LoadFailed), loading := false)
    case Threw => d.(error := Some(Unexpected), loading := false)
    case Returned(None) => d.(error := None, loading := false)
    case Returned(Some(u)) =>
      d.(userInfo := Some(u),
         form := Form(OrEmpty(u.name), OrEmpty(u.collegeName), OrEmpty(u.semester)),
         error := None, loading := false)
  }

  /** The values `updateUserInfo` receives, if the guard lets the save
      through: refused exactly when some field is blank, and otherwise the
      trimmed values, which are non-empty and carry no outer whitespace. */
  function SavePayload(form: Form): (r: Option<Form>)
    ensures r.None? <==> exists f :: Text.AllSpace(form.Get(f))
    ensures r.Some? ==> r.value == Form(Text.Trim(form.name), Text.Trim(form.collegeName), Text.Trim(form.semester))
    ensures r.Some? ==> forall f :: r.value.Get(f) != [] && Text.Trim(r.value.Get(f)) == r.value.Get(f)
  {
    if Text.Blank(form.name) || Text.Blank(form.collegeName) || Text.Blank(form.semester) then
      assert Text.AllSpace(form.Get(Name)) || Text.AllSpace(form.Get(CollegeName)) || Text.AllSpace(form.Get(Semester));
      None
    else
      var p := Form(Text.Trim(form.name), Text.Trim(form.collegeName), Text.Trim(form.semester));
      TrimmedFields(form, p);
      Some(p)
  }

  lemma TrimmedFields(form: Form, p: Form)
    requires !Text.Blank(form.name) && !Text.Blank(form.collegeName) && !Text.Blank(form.semester)
    requires p == Form(Text.Trim(form.name), Text.Trim(form.collegeName), Text.Trim(form.semester))
    ensures forall f :: !Text.AllSpace(form.Get(f))
    ensures forall f :: p.Get(f) != [] && Text.Trim(p.Get(f)) == p.Get(f)
  {
    Text.TrimIdempotent(form.name);
    Text.TrimIdempotent(form.collegeName);
    Text.TrimIdempotent(form.semester);
    forall f ensures !Text.AllSpace(form.Get(f)) && p.Get(f) != [] && Text.Trim(p.Get(f)) == p.Get(f) {
      match f
      case Name =>
      case CollegeName =>
      case Semester =>
    }
  }

  datatype Saved = Saved(drawer: Drawer, sent: Option<Form>)

  /** `handleSave`: a refused save only shows "Please fill in all fields" and
      sends nothing; otherwise the trimmed values are sent, an error keeps the
      drawer open with its message, and only a reply carrying the profile
      closes it. The saving flag is off afterwards. */
  function HandleSave(d: Drawer, reply: Reply): (r: Saved)
    ensures r.sent == SavePayload(d.form)
    ensures r.sent.None? ==> r.drawer == d.(error := Some(FillAllFields))
    ensures r.sent.Some? ==> !r.drawer.saving && r.drawer.form == d.form
    ensures r.sent.Some? ==> (r.drawer.open <==> d.open && !(reply.Returned? && reply.data.Some?))
    ensures r.sent.Some? && reply.Failed? ==> r.drawer.error == Some(SaveFailed)
    ensures r.sent.Some? && reply.Threw? ==> r.drawer.error == Some(Unexpected)
    ensures r.sent.Some? && reply.Returned? ==> r.drawer.error.None?
  {
    match SavePayload(d.form)
    case None => Saved(d.(error := Some(FillAllFields)), None)
    case Some(p) =>
      var after := match reply
        case Failed => d.(error := Some(SaveFailed))
        case Threw => d.(error := Some(Unexpected))
        case Returned(None) => d.(error := None)
        case Returned(Some(u)) => d.(error := None, userInfo := Some(u), open := false);
      Saved(after.(saving := false), Some(p))
  }

  /** `handleInputChange`: the edited field takes the value, the others keep
      theirs, and any shown error is cleared. */
  function HandleInputChange(d: Drawer, f: Field, v: string): (r: Drawer)
    ensures r.form.Get(f) == v
    ensures forall g :: g != f ==> r.form.Get(g) == d.form.Get(g)
    ensures r.error.None?
    ensures r.userInfo == d.userInfo && r.open == d.open && r.saving == d.saving && r.loading == d.loading
  {
    var form := match f
      case Name => d.form.(name := v)
      case CollegeName => d.form.(collegeName := v)
      case Semester => d.form.(semester := v);
    d.(form := form, error := None)
  }
}
