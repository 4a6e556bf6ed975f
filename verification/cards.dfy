/** The note card's purchase button: its label, whether it is disabled, and
    whether a press reaches the purchase handler. */
module NoteCard {
  import opened Wrappers

  const Purchased: string := "Purchased"
  const Purchasing: string := "Purchasing..."
  const Purchase: string := "Purchase"

  /** The card's inputs: both flags are optional and default to false, as is
      the purchase handler. */
  datatype Props = Props(noteId: string, pdfUrl: seq<string>, isPurchasing: Option<bool>,
                         isPurchased: Option<bool>, hasPurchaseHandler: bool)
  {
    function Purchasing(): bool { isPurchasing.GetOr(false) }
    function Purchased(): bool { isPurchased.GetOr(false) }
  }

  datatype Button = Button(labelText: string, disabled: bool)

  /** The label puts "purchased" before "purchasing"; the button is disabled
      in both states. */
  function PurchaseButton(p: Props): (b: Button)
    ensures b.disabled <==> p.Purchasing() || p.Purchased()
    ensures b.labelText == Purchased <==> p.Purchased()
    ensures b.labelText == Purchasing <==> p.Purchasing() && !p.Purchased()
    ensures b.labelText == Purchase <==> !b.disabled
  {
    var labelText := if p.Purchased() then Purchased else if p.Purchasing() then Purchasing else Purchase;
    Button(labelText, p.Purchasing() || p.Purchased())
  }

  /** The note id a press hands to the purchase handler, if any. */
  function OnPress(p: Props): (r: Option<string>)
    ensures r.Some? <==> !p.Purchasing() && !p.Purchased() && p.hasPurchaseHandler
    ensures r.Some? ==> r.value == p.noteId
  {
    if !p.Purchasing() && !p.Purchased() && p.hasPurchaseHandler then Some(p.noteId) else None
  }

  /** A press buys only through an enabled button. */
  lemma PressOnlyWhenEnabled(p: Props)
    ensures OnPress(p).Some? ==> !PurchaseButton(p).disabled
    ensures !PurchaseButton(p).disabled && p.hasPurchaseHandler ==> OnPress(p) == Some(p.noteId)
  {
  }

  /** A card given no flags offers the purchase. */
  lemma DefaultsOfferPurchase(noteId: string, pdfUrl: seq<string>)
    ensures PurchaseButton(Props(noteId, pdfUrl, None, None, true)) == Button(Purchase, false)
  {
  }

  /** "Show Content" hands over the note's own link list. */
  function ShowContent(p: Props): (urls: seq<string>)
    ensures urls == p.pdfUrl
  {
    p.pdfUrl
  }
}

/** The purchased-note card: turning a purchase row with its nested note into
    the card's note, and the card's read action. */
module PurchasedNoteCard {

  /** The note columns a purchase row carries. */
  datatype NestedNote = NestedNote(id: string, name: string, subject: string, branch: string,
                                   year: string, semester: string, price: int, pdfUrl: seq<string>)

  /** A purchase row with its note joined in. */
  datatype PurchaseWithNote = PurchaseWithNote(id: string, userId: string, noteId: string,
                                               purchasePrice: int, createdAt: string, notes: NestedNote)

  /** The card's note (the formatted purchase date is not modelled). */
  datatype PurchasedNote = PurchasedNote(id: string, name: string, subject: string, branch: string,
                                         year: string, semester: string, purchasePrice: int, pdfUrl: seq<string>)

  /** `transformPurchaseToNote`: the note's identity and description come
      from the nested note, and the price is what was paid. */
  function TransformPurchaseToNote(p: PurchaseWithNote): (n: PurchasedNote)
    ensures n.id == p.notes.id && n.name == p.notes.name && n.subject == p.notes.subject
    ensures n.branch == p.notes.branch && n.year == p.notes.year && n.semester == p.notes.semester
    ensures n.pdfUrl == p.notes.pdfUrl
    ensures n.purchasePrice == p.purchasePrice
  {
    PurchasedNote(p.notes.id, p.notes.name, p.notes.subject, p.notes.branch, p.notes.year,
                  p.notes.semester, p.purchasePrice, p.notes.pdfUrl)
  }

  /** The purchase row's own id, the note's current list price, and who
      bought it, have no influence on the card: the card shows the note and
      the price paid. */
  lemma TransformIgnoresRowAndListPrice(p: PurchaseWithNote, rowId: string, userId: string, listPrice: int)
    ensures TransformPurchaseToNote(p.(id := rowId, userId := userId, notes := p.notes.(price := listPrice)))
         == TransformPurchaseToNote(p)
  {
  }

  /** Two rows give the same card exactly when they agree on the nested
      note's fields other than its price and on the price paid. */
  lemma TransformSameCard(p: PurchaseWithNote, q: PurchaseWithNote)
    ensures TransformPurchaseToNote(p) == TransformPurchaseToNote(q) <==>
      p.notes.(price := 0) == q.notes.(price := 0) && p.purchasePrice == q.purchasePrice
  {
  }

  datatype ReadRequest = ReadRequest(pdfUrls: seq<string>, noteTitle: string)

  /** The read button opens this note's links under its name. */
  function ReadAction(n: PurchasedNote): (r: ReadRequest)
    ensures r.pdfUrls == n.pdfUrl && r.noteTitle == n.name
  {
    ReadRequest(n.pdfUrl, n.name)
  }

  /** The card of a purchase row reads the nested note's links under the
      nested note's name, whatever the row's own id, buyer or prices. */
  lemma ReadsNestedNote(p: PurchaseWithNote)
    ensures ReadAction(TransformPurchaseToNote(p)) == ReadRequest(p.notes.pdfUrl, p.notes.name)
    ensures forall q: PurchaseWithNote :: q.notes.pdfUrl == p.notes.pdfUrl && q.notes.name == p.notes.name ==>
      ReadAction(TransformPurchaseToNote(q)) == ReadAction(TransformPurchaseToNote(p))
  {
  }
}
