/** The app's entry screen: it asks for the current session once and sends
    the user on, to the notes tab when signed in and to sign-in otherwise. */
module Startup {
  import opened Wrappers

  const SignInRoute: string := "/auth/sign-in"
  const NotesTabRoute: string := "/(tabs)/notes"

  datatype Session = Session(user: Option<string>)

  /** What the session lookup did. */
  datatype SessionReply = SessionError | SessionData(session: Option<Session>) | LookupThrew

  /** Every `replace` issued, in order, and the spinner flag afterwards. */
  datatype Outcome = Outcome(replacements: seq<string>, isLoading: bool)

  predicate SignedIn(reply: SessionReply) {
    reply.SessionData? && reply.session.Some? && reply.session.value.user.Some?
  }

  /** `checkAuthStatus`: exactly one navigation, to the notes tab exactly
      when a session with a user came back, to sign-in in every other case
      (an error, no session, a session without a user, a throw); the spinner
      stops in all of them. */
  function CheckAuthStatus(reply: SessionReply): (r: Outcome)
    ensures |r.replacements| == 1 && !r.isLoading
    ensures r.replacements[0] == NotesTabRoute <==> SignedIn(reply)
    ensures r.replacements[0] in {NotesTabRoute, SignInRoute}
  {
    var route := match reply
      case SessionError => SignInRoute
      case LookupThrew => SignInRoute
      case SessionData(session) =>
        if session.Some? && session.value.user.Some? then NotesTabRoute else SignInRoute;
    assert SignInRoute[1] != NotesTabRoute[1];
    Outcome([route], false)
  }

  /** Whatever goes wrong, the user lands on sign-in. */
  lemma FailuresGoToSignIn()
    ensures CheckAuthStatus(SessionError).replacements == [SignInRoute]
    ensures CheckAuthStatus(LookupThrew).replacements == [SignInRoute]
    ensures CheckAuthStatus(SessionData(None)).replacements == [SignInRoute]
    ensures CheckAuthStatus(SessionData(Some(Session(None)))).replacements == [SignInRoute]
  {
  }
}
