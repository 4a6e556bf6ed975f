/** The two catalogue services, previous-year papers and question banks, which
    are the same code over different tables: result normalisation of the
    list fetch and the de-duplicated subject and branch lists. The table's
    error value is passed through untouched, so it is a type parameter. */
module Catalog {
  import opened Wrappers
  import Dedupe
  import opened Backend

  /** A catalogue row: one PDF link per row. */
  datatype Item = Item(id: string, name: string, subject: string, branch: string,
                       year: string, semester: string, pdfUrl: string, createdAt: Option<string>)

  /** `fetchPYQs` / `fetchQuestionBanks`: an error, returned or thrown,
      passes through with no data; otherwise the rows, and [] for none. */
  function FetchAll<E>(reply: Reply<seq<Item>, E>): (r: Response<seq<Item>, E>)
    ensures OneOf(r)
    ensures reply.Errored? ==> r.error == Some(reply.error)
    ensures reply.Threw? ==> r.error == Some(reply.thrown)
    ensures reply.Data? && reply.payload.Some? ==> r.data == reply.payload
    ensures reply == Data(None) ==> r.data == Some([])
  {
    match reply
    case Errored(e) => Response(None, Some(e))
    case Threw(e) => Response(None, Some(e))
    case Data(rows) => Response(Some(rows.GetOr([])), None)
  }

  /** `getUniqueSubjects` / `getUniqueBranches`: the query selects one
      column, so a row is that column's value; absent data counts as no
      rows. The output lists each value of the column once, and nothing
      else. */
  function UniqueValues<E>(reply: Reply<seq<string>, E>): (r: Response<seq<string>, E>)
    ensures OneOf(r)
    ensures reply.Errored? ==> r.error == Some(reply.error)
    ensures reply.Threw? ==> r.error == Some(reply.thrown)
    ensures reply == Data(None) ==> r.data == Some([])
    ensures reply.Data? ==>
      var vs := reply.payload.GetOr([]);
      && r.data.Some?
      && Dedupe.NoDuplicates(r.data.value)
      && (forall i :: 0 <= i < |vs| ==> vs[i] in r.data.value)
      && (forall i :: 0 <= i < |r.data.value| ==> r.data.value[i] in vs)
  {
    match reply
    case Errored(e) => Response(None, Some(e))
    case Threw(e) => Response(None, Some(e))
    case Data(rows) =>
      Dedupe.DistinctOrdered(rows.GetOr([]));
      Response(Some(Dedupe.Distinct(rows.GetOr([]))), None)
  }

  /** The rows arrive ordered by the column, and the list keeps that order
      with each value once. */
  lemma UniqueValuesSorted<E>(reply: Reply<seq<string>, E>, le: (string, string) -> bool)
    requires reply.Data? && reply.payload.Some?
    requires forall i, j :: 0 <= i < j < |reply.payload.value| ==> le(reply.payload.value[i], reply.payload.value[j])
    ensures var out := UniqueValues(reply).data.value;
      forall i, j :: 0 <= i < j < |out| ==> le(out[i], out[j])
  {
    Dedupe.DistinctKeepsSorted(reply.payload.value, le);
  }

  /** The list's order is the order of the values' first rows. */
  lemma UniqueValuesFirstOccurrence<E>(reply: Reply<seq<string>, E>)
    requires reply.Data? && reply.payload.Some?
    ensures var vs := reply.payload.value;
      var out := UniqueValues(reply).data.value;
      forall i, j :: 0 <= i < j < |out| ==> Dedupe.FirstIndex(vs, out[i]) < Dedupe.FirstIndex(vs, out[j])
  {
    Dedupe.DistinctOrdered(reply.payload.value);
  }
}
