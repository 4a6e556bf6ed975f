/** The PYQs and question-bank screens: the load run on mount and again by
    the retry button. Both screens show a fixed message of their own for a
    fetch error, never the backend's text. */
module CatalogScreen {
  import opened Wrappers
  import opened Backend
  import Catalog

  datatype Kind = Pyqs | QuestionBanks

  const Unexpected: string := "An unexpected error occurred."

  function LoadFailed(kind: Kind): string {
    match kind
    case Pyqs => "Failed to load PYQs. Please try again."
    case QuestionBanks => "Failed to load question banks. Please try again."
  }

  datatype State = State(items: seq<Catalog.Item>, loading: bool, error: Option<string>)

  /** What the awaited fetch did: resolved with a response, or threw. */
  datatype Outcome<E> = Fetched(response: Response<seq<Catalog.Item>, E>) | FetchThrew

  /** The load (and the identical retry): a fetch error shows the screen's
      fixed message, a throw the generic one, and in both cases the list is
      kept; otherwise the error is cleared and the list is the fetched one,
      or empty. Loading ends whatever happened. */
  function Load<E>(kind: Kind, s: State, outcome: Outcome<E>): (r: State)
    ensures !r.loading
    ensures r.error.Some? <==> outcome.FetchThrew? || outcome.response.error.Some?
    ensures r.error.Some? ==> r.items == s.items
    ensures r.error.Some? ==> r.error.value == (if outcome.FetchThrew? then Unexpected else LoadFailed(kind))
    ensures r.error.None? ==> r.items == outcome.response.data.GetOr([])
  {
    var cleared := s.(loading := true, error := None);
    var loaded := match outcome
      case FetchThrew => cleared.(error := Some(Unexpected))
      case Fetched(response) =>
        if response.error.Some? then cleared.(error := Some(LoadFailed(kind)))
        else cleared.(items := response.data.GetOr([]));
    loaded.(loading := false)
  }

  /** The catalogue services catch their own failures, so on these screens
      every backend failure, thrown or returned, shows the screen's fixed
      message, and the generic message is never reached through them. */
  lemma ServiceFailuresShowFixedMessage<E>(kind: Kind, s: State, reply: Reply<seq<Catalog.Item>, E>)
    ensures var r := Load(kind, s, Fetched(Catalog.FetchAll(reply)));
      && (r.error.Some? <==> !reply.Data?)
      && (r.error.Some? ==> r.error.value == LoadFailed(kind))
      && (reply.Data? ==> r.items == reply.payload.GetOr([]))
  {
  }

  /** The two screens' messages are distinct from each other and from the
      generic one. */
  lemma MessagesDistinct()
    ensures LoadFailed(Pyqs) != LoadFailed(QuestionBanks)
    ensures LoadFailed(Pyqs) != Unexpected && LoadFailed(QuestionBanks) != Unexpected
  {
    assert LoadFailed(Pyqs)[15] != LoadFailed(QuestionBanks)[15];
    assert LoadFailed(Pyqs)[0] != Unexpected[0];
    assert LoadFailed(QuestionBanks)[0] != Unexpected[0];
  }

  /** A retry after a failure, with a successful fetch, recovers fully: the
      error is gone and the list is the fetched one. */
  lemma RetryRecovers<E>(kind: Kind, s: State, failed: Outcome<E>, items: seq<Catalog.Item>)
    ensures var r := Load<E>(kind, Load(kind, s, failed), Fetched(Response(Some(items), None)));
      r.error.None? && r.items == items && !r.loading
  {
  }
}
