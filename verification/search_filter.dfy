/** The search box of the four list screens. A blank query shows the list as
    it is; otherwise the query goes to the fuzzy searcher, which is built over
    the current list on the keys name, subject, branch and year,
    case-insensitive and sorted. The searcher itself is outside the model and
    is a parameter here. The screens differ in two details: the notes and
    purchases screens trim the query they forward and key their empty-state
    text on the raw query, the catalogue screens do the opposite. */
module SearchFilter {
  import Text

  datatype Screen = Notes | Purchases | Pyqs | QuestionBanks

  /** The searcher's configuration, the same on every screen. */
  datatype SearchConfig = SearchConfig(keys: seq<string>, caseSensitive: bool, sort: bool)

  const Config: SearchConfig := SearchConfig(["name", "subject", "branch", "year"], false, true)

  predicate TrimsQuery(s: Screen) {
    s == Notes || s == Purchases
  }

  /** The query the searcher receives: on the trimming screens it has no
      whitespace at either end, and on the others it is the typed text. */
  function ForwardedQuery(s: Screen, query: string): (r: string)
    ensures TrimsQuery(s) ==> r == Text.Trim(query)
    ensures TrimsQuery(s) && !Text.AllSpace(query) ==> r != [] && !Text.IsSpace(r[0]) && !Text.IsSpace(r[|r| - 1])
    ensures !TrimsQuery(s) ==> r == query
  {
    if TrimsQuery(s) then Text.Trim(query) else query
  }

  /** The list a screen shows for a query. */
  function Filter<T>(s: Screen, items: seq<T>, query: string, search: (seq<T>, SearchConfig, string) -> seq<T>)
    : (r: seq<T>)
    ensures Text.AllSpace(query) ==> r == items
    ensures !Text.AllSpace(query) ==> r == search(items, Config, ForwardedQuery(s, query))
  {
    Text.BlankIffAllSpace(query);
    if Text.Blank(query) then items else search(items, Config, ForwardedQuery(s, query))
  }

  /** On the trimming screens, whitespace around the query changes nothing. */
  lemma SurroundingSpaceIgnored<T>(s: Screen, items: seq<T>, q1: string, q2: string,
                                   search: (seq<T>, SearchConfig, string) -> seq<T>)
    requires TrimsQuery(s) && Text.Trim(q1) == Text.Trim(q2)
    ensures Filter(s, items, q1, search) == Filter(s, items, q2, search)
  {
  }

  function NoItemsMessage(s: Screen): string {
    match s
    case Notes => "No notes available"
    case Purchases => "No purchased notes yet."
    case Pyqs => "No PYQs available."
    case QuestionBanks => "No question banks available."
  }

  /** The text shown when the filtered list is empty. */
  function EmptyMessage(s: Screen, query: string): (r: string)
    ensures TrimsQuery(s) ==> (r == NoItemsMessage(s) <==> query == [])
    ensures !TrimsQuery(s) ==> (r == NoItemsMessage(s) <==> Text.AllSpace(query))
    ensures s == Notes && query != [] ==> Text.Contains(r, query)
  {
    Text.BlankIffAllSpace(query);
    match s
    case Notes =>
      if query != [] then
        var m := "No notes found matching \"" + query + "\"";
        assert m[9] != NoItemsMessage(s)[9];
        assert Text.OccursAt(m, query, 25);
        Text.ContainsIffOccurs(m, query);
        m
      else NoItemsMessage(s)
    case Purchases =>
      if query != [] then "No purchased notes found matching your search." else NoItemsMessage(s)
    case Pyqs =>
      if !Text.Blank(query) then "No PYQs found matching your search." else NoItemsMessage(s)
    case QuestionBanks =>
      if !Text.Blank(query) then "No question banks found matching your search." else NoItemsMessage(s)
  }

  /** On the notes and purchases screens a query of spaces leaves the list
      unfiltered, yet an empty list is then explained as "no match". */
  lemma SpacesQueryOnTrimmingScreens<T>(s: Screen, items: seq<T>, query: string,
                                        search: (seq<T>, SearchConfig, string) -> seq<T>)
    requires TrimsQuery(s) && query != [] && Text.AllSpace(query)
    ensures Filter(s, items, query, search) == items
    ensures EmptyMessage(s, query) != NoItemsMessage(s)
  {
  }

  /** On the catalogue screens the empty-state text and the filtering agree:
      "no match" exactly when the query was sent to the searcher. */
  lemma CatalogueScreensAgree<T>(s: Screen, items: seq<T>, query: string,
                                 search: (seq<T>, SearchConfig, string) -> seq<T>)
    requires !TrimsQuery(s)
    ensures EmptyMessage(s, query) == NoItemsMessage(s) ==> Filter(s, items, query, search) == items
    ensures EmptyMessage(s, query) != NoItemsMessage(s) ==> Filter(s, items, query, search) == search(items, Config, query)
  {
  }
}
