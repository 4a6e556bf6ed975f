# EngiPrep decision logic in Dafny

EngiPrep is a notes marketplace for engineering students, written in
React Native and Next.js on top of a Supabase backend. Users sign up and sign
in, browse notes, previous-year question papers (PYQs) and question banks,
buy notes and read the purchased PDFs. This project models the app's own
decision logic as pure Dafny functions and proves properties of them. It
covers the following:

- **Forms.** The sign-up and sign-in form validators, the profile drawer
  (load, edit, the save guard and the trimmed save), and the submit handlers'
  gate and routing.
- **PDF names.** How the notes drawer and the purchased-notes viewer derive a
  document's display name from its URL: the last path segment, then percent
  decoding as JavaScript's `decodeURIComponent` does it (section 2.1 of
  RFC 3986, with UTF-8 validation), then the `.pdf` handling.
- **Services.**
  - The notes service: `transformNote`, the purchase flag taken from the
    join, the blank-query shortcut of the search, and de-duplicated subjects
    and branches.
  - The catalogue services for PYQs and question banks: result
    normalisation and de-duplication.
  - The purchases service: the sign-in guard, the inserted row, and the
    "no rows" classification of `checkIfPurchased`.
  - The PDF service: image-URL normalisation, failure results, the cache
    key, the conversion cache and the secure-link gate.
- **Screens.** The search-box wrapper shared by the four list screens, the
  notes screen's purchase flow, the purchases screen's totals, the catalogue
  screens' load and retry, and the note card's purchase button.
- **Start-up.** Where the backend URL and key come from, and the entry
  screen's routing.

Backend calls, auth lookups and HTTP fetches are not modelled. What they
returned is an input: `Backend.Reply`, `Backend.UserLookup`, the screens'
`Response` arguments. The fuzzy-search library is also an input: a function
parameter whose results are taken as given.

Strings are sequences of Unicode scalar values. Where the source reads a
string's `length`, the model counts UTF-16 code units as JavaScript does: a
character above U+FFFF (an astral character, such as an emoji) counts as two.
Whitespace for `trim` and for
the `\S` of the e-mail pattern is the ECMAScript set: WhiteSpace and
LineTerminator.

## Model

| member | source | states |
|---|---|---|
| Text.Trim | packages/app/features/auth/sign-up-screen.tsx:48-50 | the result is empty exactly when the input is all whitespace; otherwise it starts and ends with non-space; it is the input with only whitespace cut from both ends |
| Text.TrimIdempotent | packages/app/features/user_info/user_info_drawer.tsx:68-72 | trimming a trimmed value changes nothing |
| Text.TrimAtLeastTwo | packages/app/features/auth/sign-up-screen.tsx:50 | the trimmed length is at least 2 exactly when the input has two non-space characters |
| Text.TrimExactlyOne | packages/app/features/auth/sign-up-screen.tsx:50 | the trimmed length is 1 exactly when the input has one non-space character |
| Text.Utf16Length | packages/app/features/auth/sign-in-screen.tsx:37 | `length` in UTF-16 code units lies between the character count and twice it, and equals the character count exactly when no character is astral |
| Text.TrimUnitsAtLeastTwo | packages/app/features/auth/sign-up-screen.tsx:50 | the trimmed `length` is at least 2 exactly when the input has two non-space characters or an astral one |
| Text.TrimUnitsShort | packages/app/features/auth/sign-up-screen.tsx:48-50 | a non-blank input trims to a `length` below 2 exactly when it has one non-space character and that one is not astral |
| Text.IndexOf | packages/app/features/notes/pdf-drawer.tsx:16 | the first position where the pattern occurs, and none when it never occurs |
| Text.ContainsIffOccurs | packages/app/features/notes/pdf-drawer.tsx:16 | `includes` holds exactly when the pattern occurs at some position |
| Text.ReplaceFirst | packages/app/features/notes/pdf-drawer.tsx:19 | a string pattern replaces only its first occurrence; the text around it is kept and the length changes by the difference |
| Text.RemoveFirstInverse | packages/app/features/notes/pdf-drawer.tsx:19 | re-inserting the removed pattern at the first occurrence gives back the original |
| Text.LastSegment | packages/app/features/notes/pdf-drawer.tsx:14-15 | the result is a separator-free suffix, preceded by the separator whenever it is shorter than the input |
| Text.LastSegmentAfterSeparator | packages/app/features/purchases/pdf-viewer.tsx:77 | for any prefix, the last segment of prefix + '/' + tail is the tail when the tail has no '/' |
| Text.NatToString | packages/app/features/notes/pdf-drawer.tsx:24 | the decimal digits of n, non-empty, with no leading zero |
| Text.NatToStringRoundTrip | packages/app/features/notes/pdf-drawer.tsx:24 | reading back the decimal text gives the number |
| Text.NatToStringInjective | packages/app/features/auth/sign-up-screen.tsx:123-132 | distinct numbers print differently |
| PercentDecoding.Decode | packages/app/features/notes/pdf-drawer.tsx:18 | `decodeURIComponent`: the decoded text is never longer than the input; when it fails is stated by the lemmas below |
| PercentDecoding.DecodeWithoutPercent | packages/app/features/notes/pdf-drawer.tsx:18 | text without '%' decodes to itself |
| PercentDecoding.LiteralSurvivesDecoding | packages/app/features/notes/pdf-drawer.tsx:16-19 | when decoding succeeds, a '%'-free literal starting with a non-hex character keeps its occurrence |
| PercentDecoding.LiteralContainedAfterDecoding | packages/app/features/notes/pdf-drawer.tsx:16-19 | so ".pdf" found in the raw segment is still found in the decoded one |
| PercentDecoding.Utf8Shape | packages/app/features/notes/pdf-drawer.tsx:18 | every character's UTF-8 bytes are a sequence the decoder accepts: ASCII, or a lead byte announcing the length followed by continuation bytes spelling the character in shortest form |
| PercentDecoding.Utf8Unique | packages/app/features/notes/pdf-drawer.tsx:18 | every well-formed multi-byte sequence is the UTF-8 encoding of the character it spells |
| PercentDecoding.DecodeEscapeIffUtf8 | packages/app/features/notes/pdf-drawer.tsx:18 | an escape group at the front decodes to a character exactly when its escaped bytes are that character's UTF-8 encoding, three characters per byte |
| PercentDecoding.DecodeAppend | packages/app/features/notes/pdf-drawer.tsx:18 | decoding proceeds group by group: after a decodable prefix, the whole decodes exactly when the rest does, to the two decodings joined |
| PercentDecoding.BadEscapeFails | packages/app/features/notes/pdf-drawer.tsx:18 | a '%' anywhere that is not followed by two hexadecimal digits makes decoding fail |
| PercentDecoding.DecodeFailsIff | packages/app/features/notes/pdf-drawer.tsx:18 | decoding fails exactly when, after a decodable prefix, a '%' starts no escaped UTF-8 encoding of any character: a malformed escape, a stray continuation byte, a byte no sequence starts with, a missing continuation, an overlong form, a surrogate or a value above U+10FFFF |
| PercentDecoding.EscapeBytes | packages/app/features/notes/pdf-drawer.tsx:18 | the escapes of a byte list read back as those bytes |
| PercentDecoding.DecodeEscapeAll | packages/app/features/notes/pdf-drawer.tsx:18 | decoding undoes escaping every character's UTF-8 bytes, for all of Unicode |
| EmailPattern.LooksLikeEmailIffRegex | packages/app/features/auth/sign-up-screen.tsx:56 | the position test equals the unanchored `\S+@\S+\.\S+` match |
| EmailPattern.Scan | packages/app/features/auth/sign-in-screen.tsx:31 | the one-pass scan finds a match exactly when the pattern matches |
| AuthRules.EmailError | packages/app/features/auth/sign-in-screen.tsx:29-33 | an empty address is "required"; a non-empty one is "invalid" exactly when the pattern does not match; no error exactly when it matches |
| AuthRules.PasswordError | packages/app/features/auth/sign-in-screen.tsx:35-39 | the untrimmed `length` in UTF-16 code units decides: empty is "required", 1 to 5 units is "too short", 6 or more passes; without astral characters that is the character count |
| AuthRules.PasswordCountsCodeUnits | packages/app/features/auth/sign-in-screen.tsx:37 | three emoji (six code units) pass the length rule, while three letters are too short |
| AuthRules.AfterAuth | packages/app/features/auth/sign-in-screen.tsx:50-68 | navigation to the notes route exactly when the service answered with a user; a general message on a refusal or a throw |
| SignUp.NameError | packages/app/features/auth/sign-up-screen.tsx:48-52 | "required" exactly when blank; "too short" exactly when one non-space character that is not astral; none exactly when two or more, or an astral one |
| SignUp.CollegeError | packages/app/features/auth/sign-up-screen.tsx:66-68 | "required" exactly when blank after trimming |
| SignUp.SemesterError | packages/app/features/auth/sign-up-screen.tsx:70-72 | "required" exactly when empty, with no trimming |
| SignUp.Validate | packages/app/features/auth/sign-up-screen.tsx:39-76 | one message per failing field and no other key; empty exactly when the form meets the stated acceptance rule |
| SignUp.AcceptableIffNoFieldError | packages/app/features/auth/sign-up-screen.tsx:74-75 | the acceptance rule holds exactly when no field rule fires |
| SignUp.UpdateFormData | packages/app/features/auth/sign-up-screen.tsx:115-121 | only the edited field changes and only its error is cleared; other errors, the general one included, stay |
| SignUp.UpdateKeepsOtherVerdicts | packages/app/features/auth/sign-up-screen.tsx:115-121 | editing one field never changes another field's verdict |
| SignUp.SemesterOptions | packages/app/features/auth/sign-up-screen.tsx:123-132 | eight options with values "1" to "8" in order, ordinal labels, and no value repeated |
| SignUp.FieldErrors | packages/app/features/auth/sign-up-screen.tsx:74 | the displayed error map holds exactly the field errors and no general entry |
| SignUp.HandleSignUp | packages/app/features/auth/sign-up-screen.tsx:78-108 | an invalid form sends nothing and shows its field errors; a valid one sends its data, stops loading, and routes only on a returned user |
| SignIn.Validate | packages/app/features/auth/sign-in-screen.tsx:26-43 | one message per failing field; valid exactly when the address matches and the password has six UTF-16 code units |
| SignIn.SameVerdictsAsSignUp | packages/app/features/auth/sign-in-screen.tsx:29-39 | the address and password get the same flags and messages as on the sign-up screen |
| SignIn.HandleSignIn | packages/app/features/auth/sign-in-screen.tsx:45-69 | an invalid form calls nothing, leaves loading untouched and shows exactly the failing fields with their rule messages; a valid one sends the credentials and routes only on a returned user |
| ProfileDrawer.LoadUserInfo | packages/app/features/user_info/user_info_drawer.tsx:31-56 | a failure keeps the form and sets its message; returned data fills the form, with missing fields as ""; loading ends |
| ProfileDrawer.SavePayload | packages/app/features/user_info/user_info_drawer.tsx:59-72 | refused exactly when some field is blank; otherwise the trimmed values, each non-empty and already trimmed |
| ProfileDrawer.HandleSave | packages/app/features/user_info/user_info_drawer.tsx:58-88 | a refused save sends nothing and shows "Please fill in all fields"; otherwise the trimmed form is sent, and only a save returning data closes the drawer |
| ProfileDrawer.HandleInputChange | packages/app/features/user_info/user_info_drawer.tsx:90-94 | only the edited field changes and the error is cleared |
| PdfNames.GetPdfName | packages/app/features/notes/pdf-drawer.tsx:12-25 | without ".pdf" in the raw segment, or on a decoding failure, the numbered fallback; otherwise the decoded segment minus its first ".pdf", which re-inserted gives the decoded segment |
| PdfNames.DrawerShowsStoredName | packages/app/features/notes/pdf-drawer.tsx:14-19 | a stored file name with no '/', '%' or ".pdf" comes back unchanged from its URL |
| PdfNames.DrawerNameIgnoresIndex | packages/app/features/notes/pdf-drawer.tsx:12-24 | a name derived from the link is the same at every position: the index affects only the fallback |
| PdfNames.TrailingSlashFallsBack | packages/app/features/notes/pdf-drawer.tsx:16-24 | a URL ending in '/' always gets the fallback |
| PdfNames.DrawerFallbackNumbers | packages/app/features/notes/pdf-drawer.tsx:24 | different positions get different fallback names |
| PdfNames.FileName | packages/app/features/purchases/pdf-viewer.tsx:77 | the last segment, or "PDF n" when it is empty; never empty |
| PdfNames.WithPdfSuffix | packages/app/features/purchases/pdf-viewer.tsx:80-82 | the result always contains ".pdf"; ".pdf" is appended only when missing |
| PdfNames.DisplayNameAsWritten | packages/app/features/purchases/pdf-viewer.tsx:77-82 | the viewer's name as written: it throws exactly when decoding fails, and otherwise contains ".pdf" |
| PdfNames.BarePercentBreaksViewer | packages/app/features/purchases/pdf-viewer.tsx:79 | a file named "100%.pdf" makes the viewer throw |
| PdfNames.DisplayName | packages/app/features/purchases/pdf-viewer.tsx:77-82 | the corrected name: equal to the as-written one whenever that exists; where that throws, the undecoded file name (a choice: the drawer numbers the document instead); always contains ".pdf" |
| PdfNames.CountLabelShape | packages/app/features/purchases/pdf-viewer.tsx:58 | the label starts with the count in decimal and is plural exactly when the count is not 1 |
| PdfNames.Select | packages/app/features/purchases/pdf-viewer.tsx:31-33 | selecting opens that document and disables dragging |
| PdfNames.BackUndoesSelect | packages/app/features/purchases/pdf-viewer.tsx:35-37 | going back restores the list with dragging enabled |
| Dedupe.Distinct | packages/app/lib/services/pyqs.ts:150 | `[...new Set(xs)]`: the same members as the input, none dropped, at most as long |
| Dedupe.DistinctOrdered | packages/app/lib/services/pyqs.ts:150 | no duplicates, in order of first occurrence |
| Dedupe.DistinctKeepsSorted | packages/app/lib/services/pyqs.ts:141-150 | a sorted input stays sorted |
| Dedupe.DistinctOfDistinct | packages/app/lib/services/question-banks.ts:150 | de-duplicating twice is de-duplicating once |
| Dedupe.SpreadSet | packages/app/lib/services/question-banks.ts:173 | the loop with a seen set computes the de-duplicated list |
| Catalog.FetchAll | packages/app/lib/services/pyqs.ts:24-41 | exactly one of data and error; an error or a throw passes through; data is the rows or [] |
| Catalog.UniqueValues | packages/app/lib/services/question-banks.ts:138-156 | errors pass through; absent data gives []; otherwise no duplicates and the same values |
| Catalog.UniqueValuesSorted | packages/app/lib/services/pyqs.ts:141-150 | rows ordered by the column give an ordered list |
| Catalog.UniqueValuesFirstOccurrence | packages/app/lib/services/pyqs.ts:161-177 | each value is listed in the order it first occurs |
| NotesService.TransformNote | packages/app/lib/services/notes.ts:26-32 | every other column kept; a truthy link becomes a one-element list and a missing or empty one []; purchased exactly when the purchase id is truthy |
| NotesService.TransformNoteRoundTrip | packages/app/lib/services/notes.ts:26-32 | the transform loses only the difference between an empty and a missing link |
| NotesService.WithJoin | packages/app/lib/services/notes.ts:59-62 | purchased exactly when the joined purchase list is non-empty |
| NotesService.FetchNotes | packages/app/lib/services/notes.ts:35-69 | no user gives "User not authenticated"; errors pass through and throws give the generic message; otherwise every row in order, flagged by the join |
| NotesService.JoinDecidesPurchase | packages/app/lib/services/notes.ts:59-62 | a purchase id with an empty join is listed as not purchased |
| NotesService.SearchNotes | packages/app/lib/services/notes.ts:72-95 | a blank query returns exactly the plain fetch; otherwise one note per returned row, in order, each the transform of its row |
| NotesService.UniqueValues | packages/app/lib/services/notes.ts:161-202 | no duplicates and the same values; absent data is the generic error, unlike the catalogue |
| NotesService.UniqueValuesAgree | packages/app/lib/services/notes.ts:174 | given the same values, the notes and catalogue services list the same |
| PurchasesService.CreatePurchase | packages/app/lib/services/purchases.ts:50-84 | an insert only with a signed-in user, and then exactly that user, note and price; otherwise "User not authenticated" |
| PurchasesService.FetchForUser | packages/app/lib/services/purchases.ts:89-158 | the guard first; successful fetches give [] rather than null |
| PurchasesService.CheckIfPurchased | packages/app/lib/services/purchases.ts:163-190 | purchased exactly when a row came back; no error exactly on success or "PGRST116"; other errors are returned with purchased false |
| PurchasesService.PurchasedMeansNoError | packages/app/lib/services/purchases.ts:180-185 | a reported purchase never carries an error |
| PdfService.NormalizePage | packages/app/lib/services/pdf.ts:74-79 | the image URL starts with "data:"; existing data URLs are untouched and the others get the PNG base64 prefix |
| PdfService.NormalizePageIdempotent | packages/app/lib/services/pdf.ts:74-79 | normalising twice is normalising once |
| PdfService.NormalizeKeepsPayload | packages/app/lib/services/pdf.ts:74-79 | the page number, width, height and payload are kept |
| PdfService.Failure | packages/app/lib/services/pdf.ts:87-95 | a failure has no pages, zero pages in total and an error message |
| PdfService.Convert | packages/app/lib/services/pdf.ts:39-96 | an HTTP error, a reported failure or a throw becomes a failure with its message; success carries the normalised pages |
| PdfService.ConvertedPagesAreDataUrls | packages/app/lib/services/pdf.ts:74-85 | every page of a successful conversion is a data URL |
| PdfService.CacheKeyInjective | packages/app/lib/services/pdf.ts:152 | equal cache keys mean the same URL and the same options |
| PdfService.OptionsJsonInjective | packages/app/lib/services/pdf.ts:152 | different option sets serialise differently |
| PdfService.GetCached | packages/app/lib/services/pdf.ts:148-170 | a hit returns the cached pages with their count and no conversion; a miss converts and stores only a success |
| PdfService.FailuresAreNotCached | packages/app/lib/services/pdf.ts:163-167 | a failed conversion leaves the cache as it was |
| PdfService.SuccessIsReused | packages/app/lib/services/pdf.ts:154-167 | after a successful miss, the same request is a hit with the same pages |
| PdfService.OtherRequestsKeepEntry | packages/app/lib/services/pdf.ts:152-167 | a request with other options or URL never disturbs an entry |
| PdfService.ClearCache | packages/app/lib/services/pdf.ts:175-177 | nothing is cached afterwards |
| PdfService.ClearedLookupConverts | packages/app/lib/services/pdf.ts:175-177 | after clearing, every lookup converts |
| PdfService.GetSecurePdfUrl | packages/app/lib/services/pdf.ts:101-138 | a link only for a signed-in user with a purchase row and a found note; otherwise none |
| PurchasedNoteCard.TransformPurchaseToNote | packages/app/features/purchases/purchased-note-card.tsx:18-34 | the id and description are the nested note's; the price is the price paid |
| PurchasedNoteCard.TransformIgnoresRowAndListPrice | packages/app/features/purchases/purchased-note-card.tsx:20-26 | the purchase row's id, the buyer and the note's list price do not affect the card |
| PurchasedNoteCard.TransformSameCard | packages/app/features/purchases/purchased-note-card.tsx:18-34 | two rows give the same card exactly when they agree on the note and on the price paid |
| PurchasedNoteCard.ReadsNestedNote | packages/app/features/purchases/purchased-note-card.tsx:117 | the card of a purchase row reads the nested note's links under the nested note's name, and only those two fields matter |
| NoteCard.PurchaseButton | packages/app/features/notes/note-card.tsx:105-107 | disabled exactly while purchasing or purchased; "Purchased" takes precedence over "Purchasing..." |
| NoteCard.OnPress | packages/app/features/notes/note-card.tsx:98 | a press hands over the note id exactly when neither flag is set and a handler exists |
| NoteCard.PressOnlyWhenEnabled | packages/app/features/notes/note-card.tsx:98-105 | a press buys only through an enabled button |
| NoteCard.DefaultsOfferPurchase | packages/app/features/notes/note-card.tsx:25 | with no flags given, the button offers the purchase |
| NotesScreen.ShowContentOfRow | packages/app/features/notes/note-card.tsx:115 | "Show Content" on a fetched row's card opens the drawer on the row's one link when it is truthy and on no link otherwise, leaving the list as it was |
| NotesScreen.FetchedCardButton | packages/app/features/notes/notes-screen.tsx:174-179 | a fetched row's card shows "Purchased" exactly when the join found a purchase; a press buys exactly when not purchased and not in flight |
| SearchFilter.ForwardedQuery | packages/app/features/notes/notes-screen.tsx:101 | the notes and purchases screens forward the trimmed query; the catalogue screens forward it raw |
| SearchFilter.Filter | packages/app/features/pyqs/pyqs-screen.tsx:76-81 | a blank query shows the list unchanged; otherwise the searcher's result for the forwarded query, with the fixed keys and options |
| SearchFilter.SurroundingSpaceIgnored | packages/app/features/purchases/purchases-screen.tsx:61-67 | on the trimming screens, surrounding whitespace never changes the result |
| SearchFilter.EmptyMessage | packages/app/features/notes/notes-screen.tsx:203 | the notes and purchases texts key on the raw query, the catalogue texts on the trimmed one; the notes text quotes the query |
| SearchFilter.SpacesQueryOnTrimmingScreens | packages/app/features/purchases/purchases-screen.tsx:180 | a spaces-only query leaves the list unfiltered yet selects the "no match" text |
| SearchFilter.CatalogueScreensAgree | packages/app/features/question-banks/question-banks-screen.tsx:76-80 | on the catalogue screens the "no items" text goes with the unfiltered list and the "no match" text with the searched list |
| NotesScreen.LoadNotes | packages/app/features/notes/notes-screen.tsx:22-39 | a truthy error is shown and the list kept; otherwise the list is the data or []; loading ends |
| NotesScreen.FindById | packages/app/features/notes/notes-screen.tsx:57 | the first note with that id, and none exactly when no note has it |
| NotesScreen.HandlePurchase | packages/app/features/notes/notes-screen.tsx:51-85 | no purchase for an absent id; the found note's price is paid; on success the marker is set and the refetched list replaces the old one when present; no note is left "purchasing" |
| NotesScreen.FailedPurchaseChangesNothing | packages/app/features/notes/notes-screen.tsx:66-68 | a failed purchase changes nothing but the cleared success marker |
| NotesScreen.PriceComesFromList | packages/app/features/notes/notes-screen.tsx:57-64 | the price is the listed price of the first note with that id |
| NotesScreen.CloseAfterShow | packages/app/features/notes/notes-screen.tsx:41-49 | opening and then closing the drawer returns to the closed, empty drawer |
| PurchasesScreen.LoadPurchasedNotes | packages/app/features/purchases/purchases-screen.tsx:20-38 | an error is shown and the list kept; otherwise every row, in order, through the card transform |
| PurchasesScreen.TotalSpent | packages/app/features/purchases/purchases-screen.tsx:150 | the sum of the prices paid; never negative when no price is |
| PurchasesScreen.SumPaidAppend | packages/app/features/purchases/purchases-screen.tsx:150 | the total splits over any division of the list |
| PurchasesScreen.TotalSpentMatchesRows | packages/app/features/purchases/purchases-screen.tsx:27-32 | the cards' total equals the fetched rows' total |
| PurchasesScreen.LoadedTotals | packages/app/features/purchases/purchases-screen.tsx:140-150 | after a load the item count is the number of fetched rows and the total spent is the sum of their prices paid |
| PurchasesScreen.ReadLoadedCard | packages/app/features/purchases/purchases-screen.tsx:40-44 | after a load, reading the i-th card opens the i-th row's note links under its name |
| PurchasesScreen.CloseAfterRead | packages/app/features/purchases/purchases-screen.tsx:40-51 | reading a card and closing returns to a closed viewer |
| CatalogScreen.Load | packages/app/features/pyqs/pyqs-screen.tsx:16-37 | a fetch error shows the screen's fixed message and a throw the generic one, keeping the list; otherwise the data or []; loading always ends |
| CatalogScreen.ServiceFailuresShowFixedMessage | packages/app/features/question-banks/question-banks-screen.tsx:16-37 | through the catalogue service every backend failure shows the fixed message |
| CatalogScreen.RetryRecovers | packages/app/features/question-banks/question-banks-screen.tsx:44-65 | a retry that succeeds clears the error and shows the fetched list |
| Env.GetSupabaseUrl | packages/app/lib/supabase.ts:4-14 | a non-empty Expo value wins, then the Next.js one; with neither, the "URL not found" error |
| Env.GetSupabaseAnonKey | packages/app/lib/supabase.ts:16-26 | the same precedence for the key, with its own error |
| Env.EmptyExpoFallsThrough | packages/app/lib/supabase.ts:6-12 | an empty Expo value does not hide the Next.js one |
| Env.NoProcessNoClient | packages/app/lib/supabase.ts:6-13 | without a process object both lookups fail |
| Startup.CheckAuthStatus | apps/expo/app/index.tsx:14-37 | exactly one navigation: to the notes tab exactly when a session with a user came back, to sign-in otherwise; loading ends |
| Startup.FailuresGoToSignIn | apps/expo/app/index.tsx:18-33 | an error, no session, no user or a throw all lead to sign-in |

## Findings

| source | as written | input that shows it | evidently intended | confidence | as-written member | corrected member |
|---|---|---|---|---|---|---|
| packages/app/features/purchases/pdf-viewer.tsx:79 | `decodeURIComponent` is applied to the file name with no guard, so a malformed escape throws while the list renders | `https://cdn.example/notes/100%.pdf` | guard the decoding as the notes drawer does (pdf-drawer.tsx:13-23); what to show on failure is not settled by the source, and the corrected member keeps the undecoded file name where the drawer numbers the document | not executed | PdfNames.DisplayNameAsWritten, PdfNames.BarePercentBreaksViewer | PdfNames.DisplayName |

## Left out

- The fuzzy-search library's matching and ranking are not visible here. They are a function parameter of `SearchFilter.Filter`, and nothing is assumed about their results.
- Backend calls (auth, table queries, the HTTP conversion endpoint) and their timing are not modelled. Their outcomes are inputs.
- React state machinery is left out: hooks, memoisation, `setTimeout` (the success marker's 3-second expiry), the ordering of concurrent async work, and all rendering and styling.
- Date formatting (`toLocaleDateString`) and the two-decimal price formatting (`toFixed`) are left out. Prices are integers and the total stops at the sum.
- Platform PDF rendering (web iframe and native viewer) is not modelled.
- Pure pass-through queries are not modelled: `filterNotesBySubject`, `filterNotesByBranch`, `getNoteById`, `searchPYQs`, `searchQuestionBanks`, the subject and branch filters, the by-id lookups and `getPurchaseById`. Each only forwards a query, with the same result shape as the modelled fetches.
- PdfService.CacheKeyInjective: the options are assumed to be serialised in a fixed key order, because `JSON.stringify` keeps the caller's insertion order, which the model does not track. The scale is an integer, not a float.
- PdfService.Convert: a success body that lacks its page list or page total is not modelled. The missing list would throw inside the same try block, and the missing total would be passed on as `undefined`.
- PdfService.GetCached: a hit reports the cached page count as the total, while a miss reports the backend's total. Both are modelled as written and no relation between them is claimed.
- PurchasedNoteCard.TransformPurchaseToNote: the nested note's link is taken at its declared `string[]` type. notes.ts:29 treats the same column as a single link and wraps it, while the purchases query (purchases.ts:134-142) passes it on unwrapped, so the column's real shape is not settled by the source.
- NotesService.TransformNote: extra untyped columns copied by the object spread are not modelled, only the declared ones.
- Error values that are falsy although present are not modelled, except for the notes screen's string error.
- SignUp.UpdateFormData: setting an error key to `undefined` is modelled as removing the key. Only its truthiness is ever read.
