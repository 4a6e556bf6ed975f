/** The notes screen: its initial load, the purchase flow started from a
    card, and the link drawer. Fetch results arrive as parameters. */
module NotesScreen {
  import opened Wrappers
  import opened Backend
  import NotesService
  import PurchasesService
  import NoteCard

  type Note = NotesService.Note

  datatype State = State(notes: seq<Note>, loading: bool, error: Option<string>,
                         purchasingNoteId: Option<string>, purchaseSuccess: Option<string>,
                         drawerOpen: bool, selectedPdfUrls: seq<string>)

  /** The initial load: a (truthy) fetch error is shown and the list kept;
      otherwise the error is cleared and the list is the fetched one, or
      empty. Loading ends either way. */
  function LoadNotes(s: State, fetched: Response<seq<Note>, string>): (r: State)
    ensures !r.loading
    ensures NotesService.Truthy(fetched.error) ==> r.error == fetched.error && r.notes == s.notes
    ensures !NotesService.Truthy(fetched.error) ==> r.error.None? && r.notes == fetched.data.GetOr([])
    ensures r.purchasingNoteId == s.purchasingNoteId && r.purchaseSuccess == s.purchaseSuccess
  {
    var cleared := s.(loading := true, error := None);
    var loaded := if NotesService.Truthy(fetched.error) then cleared.(error := fetched.error)
                  else cleared.(notes := fetched.data.GetOr([]));
    loaded.(loading := false)
  }

  /** The first note with the given id, as `Array.prototype.find` gives it. */
  function FindById(notes: seq<Note>, id: string): (r: Option<nat>)
    ensures r.Some? <==> exists i :: 0 <= i < |notes| && notes[i].id == id
    ensures r.Some? ==> r.value < |notes| && notes[r.value].id == id
    ensures r.Some? ==> forall i :: 0 <= i < r.value ==> notes[i].id != id
  {
    if notes == [] then None
    else if notes[0].id == id then Some(0)
    else
      var rest := FindById(notes[1..], id);
      assert forall i :: 1 <= i < |notes| ==> notes[i] == notes[1..][i - 1];
      if rest.Some? then Some(rest.value + 1) else None
  }

  /** A purchase request the screen makes: the note and the price to pay. */
  datatype PurchaseCall = PurchaseCall(noteId: string, price: int)

  datatype Attempt = Attempt(state: State, call: Option<PurchaseCall>, refetched: bool)

  /** `handlePurchase`: a missing note makes no call; otherwise the found
      note's own price is paid; on success the success marker is set and the
      list is replaced by the refetched one when the refetch returned data.
      Whatever happened, no note is marked as being purchased afterwards. */
  function HandlePurchase<E>(s: State, noteId: string,
                             created: Response<PurchasesService.Purchase, PurchasesService.Error<E>>,
                             refetch: Response<seq<Note>, string>): (r: Attempt)
    ensures r.state.purchasingNoteId.None?
    ensures r.call.Some? <==> exists i :: 0 <= i < |s.notes| && s.notes[i].id == noteId
    ensures r.call.Some? ==>
      && r.call.value.noteId == noteId
      && r.call.value.price == s.notes[FindById(s.notes, noteId).value].price
    ensures r.refetched <==> r.call.Some? && created.error.None?
    ensures r.state.purchaseSuccess == (if r.refetched then Some(noteId) else None)
    ensures r.state.notes == (if r.refetched && refetch.data.Some? then refetch.data.value else s.notes)
    ensures r.state.loading == s.loading && r.state.error == s.error
    ensures r.state.drawerOpen == s.drawerOpen && r.state.selectedPdfUrls == s.selectedPdfUrls
  {
    var started := s.(purchasingNoteId := Some(noteId), purchaseSuccess := None);
    var found := FindById(s.notes, noteId);
    if found.None? then
      Attempt(started.(purchasingNoteId := None), None, false)
    else
      var call := PurchaseCall(noteId, s.notes[found.value].price);
      if created.error.Some? then
        Attempt(started.(purchasingNoteId := None), Some(call), false)
      else
        var succeeded := started.(purchaseSuccess := Some(noteId));
        var refreshed := if refetch.data.Some? then succeeded.(notes := refetch.data.value) else succeeded;
        Attempt(refreshed.(purchasingNoteId := None), Some(call), true)
  }

  /** A failed purchase leaves the screen as it was, apart from the success
      marker, which is cleared. */
  lemma FailedPurchaseChangesNothing<E>(s: State, noteId: string,
                                        created: Response<PurchasesService.Purchase, PurchasesService.Error<E>>,
                                        refetch: Response<seq<Note>, string>)
    requires s.purchasingNoteId.None? && created.error.Some?
    ensures HandlePurchase(s, noteId, created, refetch).state == s.(purchaseSuccess := None)
  {
  }

  /** The price paid is the listed price of the first note with that id, so
      two lists that agree on that note charge the same. */
  lemma PriceComesFromList<E>(s: State, t: State, noteId: string,
                              created: Response<PurchasesService.Purchase, PurchasesService.Error<E>>,
                              refetch: Response<seq<Note>, string>, i: nat)
    requires i < |s.notes| && s.notes[i].id == noteId
    requires forall k :: 0 <= k < i ==> s.notes[k].id != noteId
    requires t.notes == s.notes[..i + 1]
    ensures HandlePurchase(s, noteId, created, refetch).call
         == HandlePurchase(t, noteId, created, refetch).call
         == Some(PurchaseCall(noteId, s.notes[i].price))
  {
    var a := FindById(s.notes, noteId);
    var b := FindById(t.notes, noteId);
    assert t.notes[i] == s.notes[i];
    assert a.value == i;
    assert b.value == i;
  }

  /** Opening the link drawer for a card's links, and closing it again. */
  function ShowContent(s: State, pdfUrls: seq<string>): (r: State)
    ensures r.drawerOpen && r.selectedPdfUrls == pdfUrls
    ensures r.(drawerOpen := s.drawerOpen, selectedPdfUrls := s.selectedPdfUrls) == s
  {
    s.(drawerOpen := true, selectedPdfUrls := pdfUrls)
  }

  /** The props each listed note's card is rendered with: the note itself,
      purchasing while this note's purchase is in flight, purchased as the
      note says, and the screen's purchase handler. */
  function CardProps(s: State, n: Note): (p: NoteCard.Props)
    ensures p.noteId == n.id && p.pdfUrl == n.pdfUrl && p.hasPurchaseHandler
    ensures p.Purchasing() <==> s.purchasingNoteId == Some(n.id)
    ensures p.Purchased() <==> n.isPurchased
  {
    NoteCard.Props(n.id, n.pdfUrl, Some(s.purchasingNoteId == Some(n.id)), Some(n.isPurchased), true)
  }

  /** "Show Content" on the card of a fetched row opens the drawer on the
      row's one link when the row has a truthy link, and on no link
      otherwise; the rest of the screen is untouched. */
  lemma ShowContentOfRow(s: State, row: NotesService.Row)
    ensures var r := ShowContent(s, NoteCard.ShowContent(CardProps(s, NotesService.WithJoin(row))));
      && r.drawerOpen
      && (r.selectedPdfUrls == [] <==> !NotesService.Truthy(row.pdfUrl))
      && (NotesService.Truthy(row.pdfUrl) ==> r.selectedPdfUrls == [row.pdfUrl.value])
      && r.notes == s.notes && r.purchasingNoteId == s.purchasingNoteId
  {
  }

  /** The card of a fetched row shows "Purchased", and refuses presses,
      exactly when the join found a purchase by this user; otherwise it
      offers the purchase unless that note's purchase is in flight. */
  lemma FetchedCardButton(s: State, row: NotesService.Row)
    ensures var p := CardProps(s, NotesService.WithJoin(row));
      var bought := row.purchases.Some? && |row.purchases.value| > 0;
      && (NoteCard.PurchaseButton(p).labelText == NoteCard.Purchased <==> bought)
      && (NoteCard.OnPress(p) == Some(row.id) <==> !bought && s.purchasingNoteId != Some(row.id))
      && (NoteCard.OnPress(p).None? <==> bought || s.purchasingNoteId == Some(row.id))
  {
  }

  function CloseDrawer(s: State): (r: State)
    ensures !r.drawerOpen && r.selectedPdfUrls == []
    ensures r.(drawerOpen := s.drawerOpen, selectedPdfUrls := s.selectedPdfUrls) == s
  {
    s.(drawerOpen := false, selectedPdfUrls := [])
  }

  /** Closing after opening returns to a closed, empty drawer whatever was
      shown. */
  lemma CloseAfterShow(s: State, pdfUrls: seq<string>)
    requires !s.drawerOpen && s.selectedPdfUrls == []
    ensures CloseDrawer(ShowContent(s, pdfUrls)) == s
  {
  }
}
