/** The notes service: turning a `notes` row into the app's note, the
    purchase flag from the per-user join, the whitespace-query shortcut of
    the search, and the de-duplicated subject and branch lists. Failures are
    reported as message strings. */
module NotesService {
  import opened Wrappers
  import Text
  import Dedupe
  import opened Backend
  import Catalog

  const NotAuthenticated: string := "User not authenticated"
  const Unexpected: string := "An unexpected error occurred"

  /** A `notes` row. `pdfUrl` is one link or missing; `purchaseId` is the
      row's `purchase_id` column; `purchases` holds the ids of the joined
      purchase rows when the query asked for the join. */
  datatype Row = Row(id: string, name: string, subject: string, branch: string, year: string,
                     semester: string, price: int, pdfUrl: Option<string>,
                     purchaseId: Option<string>, purchases: Option<seq<string>>,
                     createdAt: Option<string>, updatedAt: Option<string>)

  /** The app's note: the row's columns, carried over by the object spread,
      with the link list and the purchase flag set. */
  datatype Note = Note(id: string, name: string, subject: string, branch: string, year: string,
                       semester: string, price: int, pdfUrl: seq<string>, isPurchased: bool,
                       purchaseId: Option<string>, purchases: Option<seq<string>>,
                       createdAt: Option<string>, updatedAt: Option<string>)

  /** JavaScript truthiness of an optional string: present and non-empty. */
  predicate Truthy(v: Option<string>) {
    v.Some? && v.value != ""
  }

  /** Every column the spread copies is the row's own. */
  predicate SameColumns(row: Row, n: Note) {
    && n.id == row.id && n.name == row.name && n.subject == row.subject
    && n.branch == row.branch && n.year == row.year && n.semester == row.semester
    && n.price == row.price && n.purchaseId == row.purchaseId && n.purchases == row.purchases
    && n.createdAt == row.createdAt && n.updatedAt == row.updatedAt
  }

  /** `transformNote`: a truthy link becomes a one-element list, a missing or
      empty one the empty list; purchased when the row carries a purchase
      id; every other column is kept. */
  function TransformNote(row: Row): (n: Note)
    ensures SameColumns(row, n)
    ensures |n.pdfUrl| <= 1
    ensures n.pdfUrl == [] <==> !Truthy(row.pdfUrl)
    ensures n.pdfUrl != [] ==> n.pdfUrl[0] == row.pdfUrl.value
    ensures n.isPurchased <==> Truthy(row.purchaseId)
  {
    Note(row.id, row.name, row.subject, row.branch, row.year, row.semester, row.price,
         if Truthy(row.pdfUrl) then [row.pdfUrl.value] else [],
         Truthy(row.purchaseId), row.purchaseId, row.purchases, row.createdAt, row.updatedAt)
  }

  /** The row a note came from, as far as a note records it: the link list
      gives back the single link, and an empty list stands for no link. */
  function ToRow(n: Note): (row: Row)
    ensures row.pdfUrl.Some? <==> n.pdfUrl != []
  {
    Row(n.id, n.name, n.subject, n.branch, n.year, n.semester, n.price,
        if n.pdfUrl == [] then None else Some(n.pdfUrl[0]),
        n.purchaseId, n.purchases, n.createdAt, n.updatedAt)
  }

  /** The transform loses nothing but the difference between an empty and a
      missing link. */
  lemma TransformNoteRoundTrip(row: Row)
    ensures ToRow(TransformNote(row)) == row.(pdfUrl := if Truthy(row.pdfUrl) then row.pdfUrl else None)
  {
  }

  /** A fetched row's note: the purchase flag comes from the join (some
      purchase row of this user exists), overriding the row's purchase id. */
  function WithJoin(row: Row): (n: Note)
    ensures SameColumns(row, n)
    ensures n.pdfUrl == TransformNote(row).pdfUrl
    ensures n.isPurchased <==> row.purchases.Some? && |row.purchases.value| > 0
  {
    TransformNote(row).(isPurchased := row.purchases.Some? && |row.purchases.value| > 0)
  }

  /** `fetchNotes`: nothing without a signed-in user; the query's message on
      an error; the generic message on a throw; otherwise every row, in
      order, with the purchase flag from the join. */
  function FetchNotes<X>(user: UserLookup<X>, reply: Reply<seq<Row>, string>): (r: Response<seq<Note>, string>)
    ensures OneOf(r)
    ensures user.NoUser? ==> r == Response(None, Some(NotAuthenticated))
    ensures user.LookupThrew? || (user.User? && reply.Threw?) ==> r == Response(None, Some(Unexpected))
    ensures user.User? && reply.Errored? ==> r == Response(None, Some(reply.error))
    ensures user.User? && reply.Data? ==>
      var rows := reply.payload.GetOr([]);
      && r.data.Some? && |r.data.value| == |rows|
      && forall i :: 0 <= i < |rows| ==> r.data.value[i] == WithJoin(rows[i])
  {
    match user
    case NoUser => Response(None, Some(NotAuthenticated))
    case LookupThrew(_) => Response(None, Some(Unexpected))
    case User(_) =>
      match reply
      case Errored(m) => Response(None, Some(m))
      case Threw(_) => Response(None, Some(Unexpected))
      case Data(rows) =>
        var rs := rows.GetOr([]);
        Response(Some(seq(|rs|, i requires 0 <= i < |rs| => WithJoin(rs[i]))), None)
  }

  /** A row whose purchase id is set but whose join is empty is listed as
      not purchased: the join decides. */
  lemma JoinDecidesPurchase(userId: string, row: Row)
    requires Truthy(row.purchaseId) && row.purchases == Some([])
    ensures TransformNote(row).isPurchased
    ensures !FetchNotes<string>(User(userId), Data(Some([row]))).data.value[0].isPurchased
  {
  }

  /** `searchNotes`: a blank query is the plain fetch, whatever it gave;
      otherwise the search's rows through `transformNote`, with the
      purchase flag from the row's purchase id (no join here). */
  function SearchNotes(query: string, all: Response<seq<Note>, string>, reply: Reply<seq<Row>, string>)
    : (r: Response<seq<Note>, string>)
    ensures Text.AllSpace(query) ==> r == all
    ensures !Text.AllSpace(query) ==> OneOf(r)
    ensures !Text.AllSpace(query) && reply.Errored? ==> r.error == Some(reply.error)
    ensures !Text.AllSpace(query) && reply.Threw? ==> r.error == Some(Unexpected)
    ensures !Text.AllSpace(query) && reply.Data? ==>
      var rows := reply.payload.GetOr([]);
      && r.data.Some? && |r.data.value| == |rows|
      && forall i :: 0 <= i < |rows| ==> r.data.value[i] == TransformNote(rows[i])
  {
    Text.BlankIffAllSpace(query);
    if Text.Blank(query) then all
    else
      match reply
      case Errored(m) => Response(None, Some(m))
      case Threw(_) => Response(None, Some(Unexpected))
      case Data(rows) =>
        var rs := rows.GetOr([]);
        Response(Some(seq(|rs|, i requires 0 <= i < |rs| => TransformNote(rs[i]))), None)
  }

  /** `getUniqueSubjects` / `getUniqueBranches` of the notes table. Unlike
      the catalogue services, absent data is not defaulted: mapping over it
      throws, which is reported as the generic message. */
  function UniqueValues(reply: Reply<seq<string>, string>): (r: Response<seq<string>, string>)
    ensures OneOf(r)
    ensures reply.Errored? ==> r.error == Some(reply.error)
    ensures reply.Threw? || reply == Data(None) ==> r.error == Some(Unexpected)
    ensures reply.Data? && reply.payload.Some? ==>
      var vs := reply.payload.value;
      && r.data.Some?
      && Dedupe.NoDuplicates(r.data.value)
      && (forall i :: 0 <= i < |vs| ==> vs[i] in r.data.value)
      && (forall i :: 0 <= i < |r.data.value| ==> r.data.value[i] in vs)
  {
    match reply
    case Errored(m) => Response(None, Some(m))
    case Threw(_) => Response(None, Some(Unexpected))
    case Data(None) => Response(None, Some(Unexpected))
    case Data(Some(vs)) =>
      Dedupe.DistinctOrdered(vs);
      Response(Some(Dedupe.Distinct(vs)), None)
  }

  /** Given the column's values, the notes service and the catalogue
      services list the same values in the same order. */
  lemma UniqueValuesAgree(vs: seq<string>)
    ensures UniqueValues(Data(Some(vs))).data == Catalog.UniqueValues<string>(Data(Some(vs))).data
  {
  }
}
