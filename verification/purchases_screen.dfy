/** The purchases screen: loading the signed-in user's purchases as cards,
    the two totals in its header, and the reader it opens. */
module PurchasesScreen {
  import opened Wrappers
  import opened Backend
  import PurchasesService
  import opened PurchasedNoteCard

  datatype State<E> = State(purchasedNotes: seq<PurchasedNote>, loading: bool,
                            error: Option<PurchasesService.Error<E>>,
                            viewerOpen: bool, selectedPdfUrls: seq<string>, selectedNoteTitle: string)

  /** The initial load: an error is shown and the list kept; otherwise every
      fetched row, in order, becomes a card (none when there was no data).
      Loading ends either way. */
  function LoadPurchasedNotes<E>(s: State<E>, fetched: Response<seq<PurchaseWithNote>, PurchasesService.Error<E>>)
    : (r: State<E>)
    ensures !r.loading
    ensures fetched.error.Some? ==> r.error == fetched.error && r.purchasedNotes == s.purchasedNotes
    ensures fetched.error.None? ==>
      var rows := fetched.data.GetOr([]);
      && r.error.None?
      && |r.purchasedNotes| == |rows|
      && forall i :: 0 <= i < |rows| ==> r.purchasedNotes[i] == TransformPurchaseToNote(rows[i])
  {
    var cleared := s.(loading := true, error := None);
    var loaded := if fetched.error.Some? then cleared.(error := fetched.error)
                  else
                    var rows := fetched.data.GetOr([]);
                    cleared.(purchasedNotes := seq(|rows|, i requires 0 <= i < |rows| => TransformPurchaseToNote(rows[i])));
    loaded.(loading := false)
  }

  /** The header's item count: every purchase, whatever the search shows. */
  function TotalItems<E>(s: State<E>): (n: nat)
    ensures n == |s.purchasedNotes|
  {
    |s.purchasedNotes|
  }

  /** Sum of the prices paid, left to right as `reduce` adds them. */
  function SumPaid(notes: seq<PurchasedNote>): int
  {
    if notes == [] then 0 else SumPaid(notes[..|notes| - 1]) + notes[|notes| - 1].purchasePrice
  }

  /** Sum of the prices paid on the fetched rows themselves. */
  function SumRows(rows: seq<PurchaseWithNote>): int
  {
    if rows == [] then 0 else SumRows(rows[..|rows| - 1]) + rows[|rows| - 1].purchasePrice
  }

  /** The header's total spent (before formatting to two decimals). */
  function TotalSpent<E>(s: State<E>): (t: int)
    ensures (forall i :: 0 <= i < |s.purchasedNotes| ==> s.purchasedNotes[i].purchasePrice >= 0) ==> t >= 0
  {
    SumNonNegative(s.purchasedNotes);
    SumPaid(s.purchasedNotes)
  }

  lemma {:induction false} SumNonNegative(notes: seq<PurchasedNote>)
    ensures (forall i :: 0 <= i < |notes| ==> notes[i].purchasePrice >= 0) ==> SumPaid(notes) >= 0
    decreases |notes|
  {
    if notes != [] {
      SumNonNegative(notes[..|notes| - 1]);
    }
  }

  /** The total splits over any division of the list. */
  lemma {:induction false} SumPaidAppend(a: seq<PurchasedNote>, b: seq<PurchasedNote>)
    ensures SumPaid(a + b) == SumPaid(a) + SumPaid(b)
    decreases |b|
  {
    if b == [] {
      assert a + b == a;
    } else {
      assert (a + b)[..|a + b| - 1] == a + b[..|b| - 1];
      SumPaidAppend(a, b[..|b| - 1]);
    }
  }

  /** After a successful load, the total spent is the sum of the prices paid
      on the fetched rows: the cards neither drop nor reprice a purchase. */
  lemma {:induction false} TotalSpentMatchesRows(rows: seq<PurchaseWithNote>, notes: seq<PurchasedNote>)
    requires |notes| == |rows|
    requires forall i :: 0 <= i < |rows| ==> notes[i] == TransformPurchaseToNote(rows[i])
    ensures SumPaid(notes) == SumRows(rows)
    decreases |rows|
  {
    if rows != [] {
      TotalSpentMatchesRows(rows[..|rows| - 1], notes[..|notes| - 1]);
    }
  }

  /** The totals after a load are those of the fetched rows. */
  lemma LoadedTotals<E>(s: State<E>, rows: seq<PurchaseWithNote>)
    ensures TotalItems(LoadPurchasedNotes(s, Response(Some(rows), None))) == |rows|
    ensures TotalSpent(LoadPurchasedNotes(s, Response(Some(rows), None))) == SumRows(rows)
  {
    var r := LoadPurchasedNotes(s, Response(Some(rows), None));
    TotalSpentMatchesRows(rows, r.purchasedNotes);
  }

  /** Reading a card opens the viewer on its links under its title; closing
      empties it again. */
  function ReadPdf<E>(s: State<E>, request: ReadRequest): (r: State<E>)
    ensures r.viewerOpen && r.selectedPdfUrls == request.pdfUrls && r.selectedNoteTitle == request.noteTitle
    ensures r.purchasedNotes == s.purchasedNotes && r.error == s.error && r.loading == s.loading
  {
    s.(viewerOpen := true, selectedPdfUrls := request.pdfUrls, selectedNoteTitle := request.noteTitle)
  }

  function ClosePdfViewer<E>(s: State<E>): (r: State<E>)
    ensures !r.viewerOpen && r.selectedPdfUrls == [] && r.selectedNoteTitle == []
    ensures r.purchasedNotes == s.purchasedNotes && r.error == s.error && r.loading == s.loading
  {
    s.(viewerOpen := false, selectedPdfUrls := [], selectedNoteTitle := "")
  }

  /** After a successful load, reading the `i`-th card opens the viewer on
      the `i`-th fetched row's note: its links under its name. */
  lemma ReadLoadedCard<E>(s: State<E>, rows: seq<PurchaseWithNote>, i: nat)
    requires i < |rows|
    ensures var loaded := LoadPurchasedNotes(s, Response(Some(rows), None));
      && i < |loaded.purchasedNotes|
      && var r := ReadPdf(loaded, ReadAction(loaded.purchasedNotes[i]));
      && r.viewerOpen
      && r.selectedPdfUrls == rows[i].notes.pdfUrl
      && r.selectedNoteTitle == rows[i].notes.name
      && r.purchasedNotes == loaded.purchasedNotes
  {
  }

  /** Opening a card's reader and closing it returns to a closed viewer. */
  lemma CloseAfterRead<E>(s: State<E>, n: PurchasedNote)
    requires !s.viewerOpen && s.selectedPdfUrls == [] && s.selectedNoteTitle == []
    ensures ClosePdfViewer(ReadPdf(s, ReadAction(n))) == s
  {
  }
}
