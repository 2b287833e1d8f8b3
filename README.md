# Book catalog UI: form, delete and search rules

A Dafny model of the logic inside the React book-catalog client: the rules that
decide whether a book draft may be saved, the form state handlers of the three
book forms (the shared add/edit form `BookForm`, and the earlier `EditBook` and
`AddBooks` pages), the delete-confirmation state of the card list, and the
search filter of the list view.

Layout, one module per source file plus shared pieces:

- `js_text.dfy`: `Optional` (null/undefined/NaN as `None`) and `JsText`, the
  JavaScript string primitives the rules rest on: `trim()` with JavaScript's full
  white-space set, ASCII `toLowerCase()`, `includes()`, and `Number()`/`isNaN()` on
  strings.
- `records.dfy`: `Books` (the record, its fields, `{...form, [name]: value}`, the
  error map and its clearing) and `Http` (requests, outcomes, the effects a handler
  leaves behind: a request, a `fetchBooks` call, `navigate("/")`).
- `validation.dfy`: `Validation`, the `validateForm` rules shared by the three
  forms (with each form's messages as data) and the year input's keystroke filter.
- `book_form.dfy`, `edit_book.dfy`, `add_books.dfy`: one class per form component,
  with its `form`, `errors` and `loading` state and an `effects` log; each submit is
  specified by a function of the draft, the current year and the network outcome.
- `book_cards.dfy`: the `modalOpen`/`seletedBookId` state machine and its delete
  request.
- `home.dfy`: the `filteredBooks` filter and the loading/empty/cards choice.

The network is a parameter: every request ends in `Ok` or `Fail`, and fetching one
book ends in `Found(book)` or `NotFound`. The current year is a parameter of
validation. Each handler runs atomically, one after another.

Behaviours of the code a reader may not expect, which the model keeps:

- `deleteBook` leaves `modalOpen` and `seletedBookId` unchanged, and the DELETE goes to
  the selected id. After a successful delete the list refresh swaps the cards for the
  loading skeleton, which discards the modal; after a failed one the modal stays open.
- The year is checked only for emptiness and then with `< 0` / `> currentYear` after
  `Number()` conversion. So a year that is not a number (NaN) passes, and so does a
  year made only of white space, because `Number(" ")` is 0. There is no `[0, currentYear]`
  check on such years.
- The add page's message says "1960 - current year", but its check is `< 0`.

## Model

| member | source | states |
|---|---|---|
| JsText.Trim | client/src/components/BookForm.jsx:50-52 | `s.trim()` is empty (so `!s.trim()` holds) exactly when every character of `s` is JavaScript white space; it is never longer than `s`, and is `s` itself when `s` neither starts nor ends with white space |
| JsText.TrimBothShape | client/src/components/BookForm.jsx:50 | trimming both ends never lengthens, and leaves nothing exactly when the string is blank |
| JsText.TrimStartShape | client/src/components/BookForm.jsx:50 | trimming the start leaves a suffix starting with a non-space after a blank prefix |
| JsText.TrimEndShape | client/src/components/BookForm.jsx:50 | trimming the end leaves a prefix ending with a non-space before a blank suffix |
| JsText.ToLower | client/src/components/Home/Home.jsx:7-9 | `toLowerCase()` keeps the length and maps each character on its own |
| JsText.ToLowerIdempotent | client/src/components/Home/Home.jsx:7-9 | lower-casing twice is lower-casing once |
| JsText.PrefixOfSuffixIffOccurs | client/src/components/Home/Home.jsx:7-9 | the prefix-of-a-suffix search finds the needle exactly when it occurs at some index of the haystack |
| JsText.Includes | client/src/components/Home/Home.jsx:7-9 | `includes` holds exactly when the needle occurs at some index of the haystack |
| JsText.ToNumber | client/src/components/BookForm.jsx:56-59 | `Number()` of a blank string is 0, and of a non-empty run of digits is its decimal value |
| JsText.NumberOfDecimal | client/src/components/BookForm.jsx:56-59 | `Number()` reads back the decimal numeral of every integer, with or without a minus sign |
| JsText.IsNaN | client/src/components/BookForm.jsx:187 | `isNaN` is false for a run of digits and for blank text |
| JsText.ShortNumberRange | client/src/components/BookForm.jsx:187-190 | a string of at most four characters that the model's `Number()` reads as an optionally signed integer numeral denotes a number in [-999, 9999] |
| Books.NewDraft | client/src/components/BookForm.jsx:15-22 | a fresh draft has no id, status "Available" and every other field empty |
| Books.With | client/src/components/BookForm.jsx:80 | the change handler's update replaces the named field and keeps every other field and the id |
| Books.ClearError | client/src/components/BookForm.jsx:76-78 | an error shown for the edited field becomes "", no key is added or removed, other errors are unchanged, and nothing changes when the field shows none |
| Http.ModeOf | client/src/components/BookForm.jsx:7-10 | the form is in edit mode exactly for a non-empty route id |
| Http.SaveRequest | client/src/components/BookForm.jsx:95-106 | edit mode sends PUT to `API_URL/id` with a body without `_id`, create mode POSTs the whole form to `API_URL`, and the body carries every form field |
| Http.LoadEffects | client/src/components/BookForm.jsx:28-41 | loading a book issues a GET of `API_URL/id`, navigates to the list exactly when it fails, and never refreshes |
| Validation.FieldError | client/src/components/BookForm.jsx:50-65 | only title, author, genre, year and image can get a message, and a text field gets one exactly when it is blank |
| Validation.Validate | client/src/components/BookForm.jsx:47-66 | the error map holds only validated fields, and a text field exactly when it is blank |
| Validation.CollectErrors | client/src/components/BookForm.jsx:47-66 | the conditional insertions collect exactly the whole error map, none stopping the others |
| Validation.RuleByRuleIsValidate | client/src/components/BookForm.jsx:48-65 | applying the rules one after another gives the same map as applying all at once |
| Validation.TextFieldRule | client/src/components/BookForm.jsx:50-65 | title, author, genre and image are flagged, each with its own message, exactly when blank |
| Validation.YearRule | client/src/components/BookForm.jsx:54-61 | an empty year is "required"; a non-empty year is flagged "invalid" exactly when it is a number below 0 or above the current year; status is never flagged |
| Validation.ValidIffAcceptable | client/src/components/BookForm.jsx:67-68 | the error map is empty exactly when every rule holds, whatever the messages |
| Validation.MessagesDoNotChangeVerdict | client/src/pages/AddBooks.jsx:21-43 | the add page flags the same fields as the other forms; only its message texts differ |
| Validation.NewDraftFlagsEveryRule | client/src/pages/AddBooks.jsx:9-43 | submitting a fresh draft flags title, author, genre, year and image at once |
| Validation.BlankYearPasses | client/src/pages/EditBook.jsx:48-55 | a non-empty year of white space alone gets no year error |
| Validation.YearAfterKeystroke | client/src/components/BookForm.jsx:183-193 | the year input stores a value exactly when it is not NaN and at most four characters long, and otherwise keeps the old year |
| Validation.KeystrokesKeepYearShort | client/src/pages/AddBooks.jsx:134-144 | after any keystrokes the stored year is the starting value or a typed value that passed the filter, so it stays within four characters |
| Validation.TypedYearRange | client/src/pages/AddBooks.jsx:134-144 | a year typed into the add page's initially empty input is empty or, for the optionally signed integer numerals the model's `Number()` reads, a number in [-999, 9999] |
| BookFormPage.SubmitEffects | client/src/components/BookForm.jsx:84-120 | an invalid draft sends nothing; a valid one sends the save request first, navigates exactly on success, never refreshes and sends no second request |
| BookFormPage.BookForm.constructor | client/src/components/BookForm.jsx:7-22 | a fresh draft, no errors, and the loader on exactly in edit mode |
| BookFormPage.BookForm.LoadExisting | client/src/components/BookForm.jsx:25-44 | edit mode fetches the book, shows it on success, navigates on failure and clears the loader; create mode does nothing |
| BookFormPage.BookForm.ValidateForm | client/src/components/BookForm.jsx:47-69 | stores the whole error map and returns true exactly when it is empty, that is when the draft is acceptable |
| BookFormPage.BookForm.HandleChange | client/src/components/BookForm.jsx:72-81 | replaces the named field and clears only that field's error |
| BookFormPage.BookForm.HandleYearInput | client/src/components/BookForm.jsx:183-193 | applies the keystroke filter to the year and keeps a create-mode year within four characters |
| BookFormPage.BookForm.HandleSubmit | client/src/components/BookForm.jsx:84-120 | stores the errors, leaves the effects of the submit specification, and leaves the loader off whenever the request was made |
| EditBookPage.UpdateEffects | client/src/pages/EditBook.jsx:71-104 | an invalid draft sends nothing; a valid one PUTs the form minus `_id` to `API_URL/id`, navigates exactly on success, refreshes first exactly on success with a `fetchBooks` function, and sends no second request |
| EditBookPage.EditBook.constructor | client/src/pages/EditBook.jsx:6-12 | the form is null, the loader on and no errors |
| EditBookPage.EditBook.LoadBook | client/src/pages/EditBook.jsx:15-38 | with an id, fetches the book, shows it on success, navigates on failure and clears the loader; without an id does nothing |
| EditBookPage.EditBook.ValidateForm | client/src/pages/EditBook.jsx:41-63 | the shared rules and messages on the loaded book; true exactly when no errors |
| EditBookPage.EditBook.HandleChange | client/src/pages/EditBook.jsx:66-68 | replaces the named field and never touches the errors |
| EditBookPage.EditBook.HandleYearInput | client/src/pages/EditBook.jsx:163-173 | applies the keystroke filter to the loaded book's year |
| EditBookPage.EditBook.HandleSubmit | client/src/pages/EditBook.jsx:71-104 | stores the errors, leaves the effects of the update specification, and leaves the loader off whenever the request was made |
| AddBooksPage.CreateEffects | client/src/pages/AddBooks.jsx:56-84 | an invalid draft sends nothing; a valid one POSTs the form to `API_URL`; on success with a `fetchBooks` function it refreshes then navigates, and otherwise does neither; no second request is sent |
| AddBooksPage.AddBook.constructor | client/src/pages/AddBooks.jsx:6-19 | a fresh draft, no errors and the loader off |
| AddBooksPage.AddBook.ValidateForm | client/src/pages/AddBooks.jsx:21-43 | the shared rules with the add page's messages; true exactly when no errors |
| AddBooksPage.AddBook.HandleChange | client/src/pages/AddBooks.jsx:45-54 | replaces the named field and clears only that field's error |
| AddBooksPage.AddBook.HandleYearInput | client/src/pages/AddBooks.jsx:134-144 | applies the keystroke filter and keeps the year within four characters |
| AddBooksPage.AddBook.HandleSubmit | client/src/pages/AddBooks.jsx:56-84 | stores the errors, leaves the effects of the create specification, and leaves the loader off whenever the request was made |
| BookCardsView.DeleteTarget | client/src/components/Books/BookCards.jsx:32 | the DELETE goes to `API_URL/` followed by the selected id, or by "null" when nothing is selected |
| BookCardsView.DeleteEffects | client/src/components/Books/BookCards.jsx:30-44 | a confirm sends one DELETE for the selection, then calls `fetchBooks` once on success and never on failure, and never navigates |
| BookCardsView.BookCards.constructor | client/src/components/Books/BookCards.jsx:13-15 | the modal starts closed with nothing selected |
| BookCardsView.BookCards.OpenDeleteModal | client/src/components/Books/BookCards.jsx:18-21 | selects the id and opens the modal |
| BookCardsView.BookCards.CloseModal | client/src/components/Books/BookCards.jsx:24-27 | closes the modal and clears the selection, sending nothing |
| BookCardsView.BookCards.DeleteBook | client/src/components/Books/BookCards.jsx:30-44 | ignores its argument, leaves the delete effects for the selection, and changes neither the modal flag nor the selection |
| BookCardsView.LastSelectionWins | client/src/components/Books/BookCards.jsx:18-44 | after two opens and a confirm, the DELETE targets the second id and the modal is still open |
| BookCardsView.CancelSendsNothing | client/src/components/Books/BookCards.jsx:110-116 | open then Cancel leaves no request, the modal closed and no selection |
| Home.Matches | client/src/components/Home/Home.jsx:6-9 | a book passes the filter exactly when the lower-cased query occurs in its lower-cased title, author or genre |
| Home.FilterBooks | client/src/components/Home/Home.jsx:5-10 | the filtered list is no longer than the collection and holds every copy of each matching book and nothing else |
| Home.FilterIsSubsequence | client/src/components/Home/Home.jsx:5-10 | the filtered list keeps the collection's order |
| Home.FilterKeepsAllMatching | client/src/components/Home/Home.jsx:5-10 | a list whose books all match is kept whole |
| Home.EmptyQueryKeepsAll | client/src/components/Home/Home.jsx:5-10 | the empty query keeps the whole collection in order |
| Home.FilterIdempotent | client/src/components/Home/Home.jsx:5-10 | filtering the result again with the same query changes nothing |
| Home.FilterIgnoresQueryCase | client/src/components/Home/Home.jsx:6-9 | queries that lower-case alike give the same list |
| Home.LowerCaseQuerySameResult | client/src/components/Home/Home.jsx:6-9 | lower-casing the query first gives the same list |
| Home.HomeView | client/src/components/Home/Home.jsx:15-27 | the skeleton exactly while loading; otherwise "No Book Found" exactly when no book matches, and otherwise the cards of exactly the filtered list |
| Home.EmptyQueryShowsEverything | client/src/components/Home/Home.jsx:5-27 | with no query a loaded, non-empty collection is shown in full |

## Left out

- Network I/O (`fetch`, `res.ok`, `res.json()`): every request is an `Ok`/`Fail` outcome and every single-book fetch a `Found`/`NotFound` outcome; response bodies other than the fetched book are not modelled.
- Toasts, `console.log`, `alert`, the modal's markup and all JSX and CSS are presentation; `navigate("/")` is recorded as a `NavigateHome` effect.
- `new Date().getFullYear()` is the `currentYear` parameter.
- `Number()`/`isNaN()` are modelled for blank strings (0) and optionally signed runs of ASCII decimal digits, with surrounding white space; fractions, exponents, hexadecimal/binary/octal literals and `Infinity` are treated as NaN, although JavaScript reads them as numbers. Floating point is not modelled.
- `toLowerCase()` is modelled for the ASCII letters only; other characters are left unchanged.
- Records from the server are assumed to have string fields; a missing field (where `trim()` would throw), a numeric `publishedYear`, and fields other than `_id` (such as `__v`) are not modelled.
- JsText.ShortNumberRange: the bound covers only the integer numerals the model's `Number()` reads; JavaScript's `isNaN` also lets through four-character exponent strings such as "9e99", whose value lies far outside [-999, 9999].
- Validation.TypedYearRange: the same gap; "9e99" passes the year input's filter in JavaScript, so the typed year's range is promised only for the integer numerals the model reads.
- The year input's browser behaviour (`maxLength`, and `type="number"` on the add page) is not modelled; the handler's own filter is.
- BookFormPage.BookForm.HandleChange, EditBookPage.EditBook.HandleChange, AddBooksPage.AddBook.HandleChange: require a field other than the year, because the year input has its own handler in all three forms.
- EditBookPage.EditBook.ValidateForm, EditBookPage.EditBook.HandleChange, EditBookPage.EditBook.HandleYearInput, EditBookPage.EditBook.HandleSubmit: require a loaded form, because the page renders no inputs while its form is null.
- BookCardsView.BookCards.OpenDeleteModal: takes the id as a string; a card whose book has no `_id` is not modelled.
- React's batching of state updates and effect scheduling: each handler runs atomically, so `loading` being true while a request is in flight, and a second submit or delete during that time, are not modelled.
- The spinner and null renders of the edit views (`BookForm.jsx` lines 123-129, `EditBook.jsx` lines 105-112) are markup choices and are not modelled.
- The unmounting of the card list: after a successful delete, `fetchBooks` sets the list's loading flag, the list shows the skeleton and the card component (with its open modal) is discarded and later remounted closed. BookCardsView.BookCards models one mounted component only.
- `client/src/App.jsx` (routing and the collection `fetchBooks`) is not part of this model: `fetchBooks` is a `RefreshBooks` effect, and it never throws.
- `client/src/components/SkeletonBooks.jsx` is static markup and not part of this model.
