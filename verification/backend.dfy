/** The outcomes of backend calls, as the modelled services see them. Calls
    themselves are not modelled: what they gave back is an input. */
module Backend {
  import opened Wrappers

  /** What a table query gave back: an error object, a payload that may be
      absent (`null`), or a thrown value. */
  datatype Reply<T, E> =
    | Errored(error: E)
    | Data(payload: Option<T>)
    | Threw(thrown: E)

  /** `{ data, error }` as the services return it. */
  datatype Response<T, E> = Response(data: Option<T>, error: Option<E>)

  /** Exactly one of `data` and `error` is set. */
  predicate OneOf<T, E>(r: Response<T, E>) {
    r.data.Some? != r.error.Some?
  }

  /** `supabase.auth.getUser()`: a signed-in user, no user (or a lookup
      error, which every caller treats alike), or a throw. */
  datatype UserLookup<E> =
    | User(id: string)
    | NoUser
    | LookupThrew(thrown: E)
}
