/** The purchases service: the signed-in guard every call starts with, the
    row `createPurchase` inserts, the `[]` default of the list fetches, and
    the classification of `checkIfPurchased`'s outcome, where the "no rows"
    error of a single-row query means "not purchased", not a failure. */
module PurchasesService {
  import opened Wrappers
  import opened Backend

  const NotAuthenticatedMessage: string := "User not authenticated"

  /** PostgREST's code for a single-row query that matched no row. */
  const NoRowsCode: string := "PGRST116"

  /** An error object from the backend; only its code is inspected. */
  datatype DbError = DbError(code: string, message: string)

  /** A service error: the fixed not-signed-in message, or the backend's (or
      a thrown) error passed through. */
  datatype Error<E> = NotAuthenticated | Passed(error: E)

  datatype Purchase = Purchase(id: string, userId: string, noteId: string, purchasePrice: int, createdAt: Option<string>)

  /** The row `createPurchase` asks the backend to insert. */
  datatype Insert = Insert(userId: string, noteId: string, purchasePrice: int)

  datatype Created<E> = Created(sent: Option<Insert>, response: Response<Purchase, Error<E>>)

  /** `createPurchase`: without a signed-in user nothing is inserted and the
      fixed message is returned; otherwise exactly the user, the note and the
      price are inserted, and the backend's outcome is passed on. */
  function CreatePurchase<E>(user: UserLookup<E>, noteId: string, price: int, reply: Reply<Purchase, E>)
    : (r: Created<E>)
    ensures r.sent.Some? <==> user.User?
    ensures user.User? ==> r.sent == Some(Insert(user.id, noteId, price))
    ensures user.NoUser? ==> r.response == Response(None, Some(NotAuthenticated))
    ensures user.LookupThrew? ==> r.response == Response(None, Some(Passed(user.thrown)))
    ensures user.User? && reply.Errored? ==> r.response == Response(None, Some(Passed(reply.error)))
    ensures user.User? && reply.Threw? ==> r.response == Response(None, Some(Passed(reply.thrown)))
    ensures user.User? && reply.Data? ==> r.response == Response(reply.payload, None)
  {
    match user
    case NoUser => Created(None, Response(None, Some(NotAuthenticated)))
    case LookupThrew(e) => Created(None, Response(None, Some(Passed(e))))
    case User(id) =>
      var response := match reply
        case Errored(e) => Response(None, Some(Passed(e)))
        case Threw(e) => Response(None, Some(Passed(e)))
        case Data(p) => Response(p, None);
      Created(Some(Insert(id, noteId, price)), response)
  }

  /** `fetchUserPurchases` / `fetchUserPurchasesWithNotes`: the guard, then
      the rows, and [] (never null) when the query succeeded with none. */
  function FetchForUser<T, E>(user: UserLookup<E>, reply: Reply<seq<T>, E>): (r: Response<seq<T>, Error<E>>)
    ensures OneOf(r)
    ensures user.NoUser? ==> r.error == Some(NotAuthenticated)
    ensures user.LookupThrew? ==> r.error == Some(Passed(user.thrown))
    ensures r.data.Some? <==> user.User? && reply.Data?
    ensures r.data.Some? ==> r.data.value == reply.payload.GetOr([])
    ensures user.User? && reply.Errored? ==> r.error == Some(Passed(reply.error))
    ensures user.User? && reply.Threw? ==> r.error == Some(Passed(reply.thrown))
  {
    match user
    case NoUser => Response(None, Some(NotAuthenticated))
    case LookupThrew(e) => Response(None, Some(Passed(e)))
    case User(_) =>
      match reply
      case Errored(e) => Response(None, Some(Passed(e)))
      case Threw(e) => Response(None, Some(Passed(e)))
      case Data(rows) => Response(Some(rows.GetOr([])), None)
  }

  datatype Check = Check(purchased: bool, error: Option<Error<DbError>>)

  /** `checkIfPurchased`: purchased exactly when a row came back; no error
      when the query succeeded or failed only for want of a row; every other
      outcome reports "not purchased" together with its error. */
  function CheckIfPurchased(user: UserLookup<DbError>, reply: Reply<string, DbError>): (r: Check)
    ensures r.purchased <==> user.User? && reply.Data? && reply.payload.Some?
    ensures r.error.None? <==>
      user.User? && (reply.Data? || (reply.Errored? && reply.error.code == NoRowsCode))
    ensures user.NoUser? ==> r.error == Some(NotAuthenticated)
    ensures user.LookupThrew? ==> r.error == Some(Passed(user.thrown))
    ensures user.User? && reply.Errored? && reply.error.code != NoRowsCode ==> r.error == Some(Passed(reply.error))
    ensures user.User? && reply.Threw? ==> r.error == Some(Passed(reply.thrown))
  {
    match user
    case NoUser => Check(false, Some(NotAuthenticated))
    case LookupThrew(e) => Check(false, Some(Passed(e)))
    case User(_) =>
      match reply
      case Errored(e) =>
        // with an error the query carries no row, so `!!data` is false
        if e.code != NoRowsCode then Check(false, Some(Passed(e))) else Check(false, None)
      case Threw(e) => Check(false, Some(Passed(e)))
      case Data(row) => Check(row.Some?, None)
  }

  /** A reported purchase never comes with an error. */
  lemma PurchasedMeansNoError(user: UserLookup<DbError>, reply: Reply<string, DbError>)
    ensures CheckIfPurchased(user, reply).purchased ==> CheckIfPurchased(user, reply).error.None?
  {
  }
}
