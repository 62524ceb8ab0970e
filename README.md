# Book-set composer of the school book-inventory admin front end

This project is a Dafny model of the client-side logic in the admin front end
that is more than plain rendering. It has three parts:

- **The book-set composer** on the edit screen. The operator picks books from
  the catalog, sets a quantity per book, removes books and submits. The
  composer checks the form first and then builds the update payload. The
  selection is loaded from the persisted book set when the page opens.
- **The book-set list.** It covers which sets are expanded, the four filters
  and the query the list is fetched with, and the delete-confirmation dialog.
- **The master-data screen.** Each of the five reference entities (boards,
  mediums, classes, academic years, books) has a form schema. The module also
  covers how an edit form is filled from a record, each entity's display name,
  the add/edit dialog state, and the messages shown after a save.

Modules:

- `JsValues` (`js_values.dfy`) holds the JavaScript-side values:
  - scalars that come from JSON or from form controls, and their truthiness;
  - the global `parseInt` without a radix: leading white space, sign, `0x`
    prefix, longest digit run, and NaN when there are no digits;
  - `parseInt(x) || 1`;
  - `String(n)` of an integer, and the round trip `parseInt(String(n)) == n`
    over exact integers (see "Left out" for where JavaScript numbers differ).
- `BookSetComposer` (`composer.dfy`) has the pure core as functions on values:
  add, set quantity, remove, the add-book candidate list, validation, the
  payload and hydration. Lemmas state what each promises and how they relate.
- `EditBookSet` (`edit_book_set.dfy`) is the edit page as a class. Its fields
  are the page's state hooks. Each handler changes those fields through the
  composer functions and leaves every other field as it was.
- `BookSetList` (`book_set_list.dfy`) is the list page: the pure projections
  plus a class for its state.
- `MasterData` (`master_data.dfy`) is the master-data page: the schemas and
  message functions plus a class for its dialog state.

Network calls are replaced by their outcome, which is passed in as a
parameter (`LoadReply`, `UpdateReply`, `SaveReply`, `deleted`). The update,
delete and save methods also return what they send: the update payload, the
id the delete names, and the create or update request. The loads made when a
page opens are fixed fetches, so `Editor.LoadData` takes only their outcome.

Two behaviours of the code are easy to overlook, and the model keeps both:

- `parseInt(raw) || 1` keeps negative quantities (`"-3"` stays `-3`); only
  NaN and 0 become 1. The input's `min="1"` is only a browser hint.
- If the persisted record has no `book_set_items`, or an item whose `books` is
  null, loading fails with "Failed to load data": the `.map` throws, and the
  code has no fallback to an empty list. By the time it throws, the form
  fields have already been copied from the record.

## Model

| member | source | states |
|---|---|---|
| JsValues.OrOne | src/pages/EditBookSet/index.jsx:93 | `parseInt(x) \|\| 1` is the parsed integer when that is truthy (a non-zero number, negative ones included) and 1 when the parse is NaN or 0; never 0 |
| JsValues.TrimStartSkipsWhitespace | src/pages/EditBookSet/index.jsx:80 | `parseInt` skips exactly the leading JavaScript white space: the result is a suffix, every removed character is white space, and the result does not start with white space |
| JsValues.DigitPrefixIsLongestRun | src/pages/EditBookSet/index.jsx:80 | the digits `parseInt` reads are the longest prefix of digits of the radix |
| JsValues.ParseIntValue | src/pages/EditBookSet/index.jsx:121-124 | `parseInt` of an integral number (an exact integer) gives that number back, and of null/undefined gives NaN |
| JsValues.NatToDecimal | src/pages/EditBookSet/index.jsx:250 | the decimal text of an option's id is non-empty, all digits, and has no leading zero |
| JsValues.DecimalValue | src/pages/EditBookSet/index.jsx:250 | the decimal text of `n` has the value `n` |
| JsValues.DigitPrefixOfDigits | src/pages/EditBookSet/index.jsx:80 | on an all-digit text `parseInt` reads every character |
| JsValues.ParseIntRoundTrip | src/pages/EditBookSet/index.jsx:80 | `parseInt(String(n)) == n` for every exact integer: an option value parses back to the id it was rendered from |
| JsValues.ParseIntOfWord | src/pages/EditBookSet/index.jsx:80-81 | text that starts with something other than white space, a sign or a digit parses to NaN, so the handler returns early |
| JsValues.ParseIntOfNothing | src/pages/EditBookSet/index.jsx:80-81 | when nothing is left after the white space and the sign, the result is NaN |
| JsValues.ParseIntEmpty | src/pages/EditBookSet/index.jsx:80-81 | the placeholder option's empty value parses to NaN |
| JsValues.ParseIntSignOnly | src/pages/EditBookSet/index.jsx:93 | a lone "-" or "+" parses to NaN |
| JsValues.ParseIntNoDigits | src/pages/EditBookSet/index.jsx:80-81 | "abc", "" (the placeholder option) and "-" parse to NaN |
| JsValues.ParseIntDecimal | src/pages/EditBookSet/index.jsx:93 | "0", "5" and "-3" parse to 0, 5 and -3 |
| JsValues.ParseIntHex | src/pages/EditBookSet/index.jsx:93 | without a radix, "0x1A" is read as hexadecimal 26, and "0x" alone is NaN |
| JsValues.DigitText | src/pages/EditBookSet/index.jsx:250 | the text of a one-digit id is that digit, with a "-" when it is negative |
| JsValues.ParseIntSkipsWhitespace | src/pages/EditBookSet/index.jsx:93 | a leading white-space character never changes the result |
| JsValues.ParseIntDecimalRun | src/pages/EditBookSet/index.jsx:93 | text that starts with a decimal digit (and is not "0x...") parses to the value of its leading digit run, whatever follows |
| JsValues.ParseIntIgnoresTrailingText | src/pages/EditBookSet/index.jsx:93 | leading white space is skipped and trailing non-digits are ignored: " 12px" is 12 |
| JsValues.OrOneExamples | src/pages/EditBookSet/index.jsx:93 | quantity text "abc" and "0" give 1, "5" gives 5, "-3" gives -3 |
| BookSetComposer.FindBook | src/pages/EditBookSet/index.jsx:83 | `books.find` is None exactly when no catalog book has the id; otherwise it is the first book with the id |
| BookSetComposer.AddBook | src/pages/EditBookSet/index.jsx:79-86 | adding only ever appends: the old selection is a prefix of the new one, which is at most one entry longer; an appended entry is a catalog book under its own id, with quantity 1, that was not selected before |
| BookSetComposer.AddBookAppends | src/pages/EditBookSet/index.jsx:79-86 | when the value parses to a non-zero id that the catalog has and that is not selected, the first such catalog book is appended with quantity 1 |
| BookSetComposer.AddBookNoOp | src/pages/EditBookSet/index.jsx:81-84 | a falsy parse, an id not in the catalog, or an id already selected leaves the selection unchanged |
| BookSetComposer.AddBookKeepsUnique | src/pages/EditBookSet/index.jsx:84-86 | adding never creates a second entry for a book |
| BookSetComposer.QuantityOfDecimal | src/pages/EditBookSet/index.jsx:93 | for every exact integer `n`, quantity text `String(n)` is stored as `n`, except that 0 becomes 1 |
| BookSetComposer.QuantityOfShownQuantity | src/pages/EditBookSet/index.jsx:93 | a stored quantity, shown in its input and read back, is unchanged |
| BookSetComposer.Requantified | src/pages/EditBookSet/index.jsx:93 | an entry for the changed book takes `parseInt(raw) \|\| 1`, keeping its id and book; any other entry is unchanged |
| BookSetComposer.SetQuantity | src/pages/EditBookSet/index.jsx:90-96 | the length and order are kept, and each entry becomes its requantified self |
| BookSetComposer.SetQuantityExamples | src/pages/EditBookSet/index.jsx:93 | on a selected entry, "abc" and "0" store 1, "5" stores 5, "-3" stores -3 |
| BookSetComposer.SetQuantityLastWins | src/pages/EditBookSet/index.jsx:90-96 | of two quantity changes to one book, only the second matters |
| BookSetComposer.SetQuantityKeepsUnique | src/pages/EditBookSet/index.jsx:90-96 | changing a quantity keeps at most one entry per book |
| BookSetComposer.RemoveBook | src/pages/EditBookSet/index.jsx:98-100 | removing never makes the selection longer |
| BookSetComposer.RemoveBookMembers | src/pages/EditBookSet/index.jsx:99 | the entries left are exactly the entries whose book is not the id |
| BookSetComposer.RemoveBookSplit | src/pages/EditBookSet/index.jsx:99 | removal works piece by piece, so the remaining entries keep their order |
| BookSetComposer.RemoveBookAbsent | src/pages/EditBookSet/index.jsx:99 | removing a book that is not selected changes nothing |
| BookSetComposer.RemoveBookOnly | src/pages/EditBookSet/index.jsx:99 | when no other entry shares the id at position k, removing that id deletes exactly position k |
| BookSetComposer.RemoveBookAt | src/pages/EditBookSet/index.jsx:99 | with one entry per book, removing the book at position k deletes exactly position k |
| BookSetComposer.RemoveBookKeepsUnique | src/pages/EditBookSet/index.jsx:99 | removing keeps at most one entry per book |
| BookSetComposer.RemoveThenAdd | src/pages/EditBookSet/index.jsx:79-100 | removing a book and adding it again appends a fresh entry with quantity 1; the earlier quantity is gone |
| BookSetComposer.Candidates | src/pages/EditBookSet/index.jsx:247-248 | the candidate list is never longer than the catalog |
| BookSetComposer.CandidatesMembers | src/pages/EditBookSet/index.jsx:247-248 | the books offered are exactly the catalog books that are not selected |
| BookSetComposer.CandidatesSplit | src/pages/EditBookSet/index.jsx:247-248 | filtering works piece by piece, so offered books keep catalog order |
| BookSetComposer.CandidatesOfEmpty | src/pages/EditBookSet/index.jsx:247-248 | with nothing selected, the whole catalog is offered in order |
| BookSetComposer.AddCandidate | src/pages/EditBookSet/index.jsx:79-86 | choosing an offered book with a non-zero id (option value `String(id)`) appends exactly one entry for it with quantity 1 |
| BookSetComposer.AddCandidateZero | src/pages/EditBookSet/index.jsx:81 | a book with id 0 can be offered but never added, because `!bookId` rejects 0 |
| BookSetComposer.DraftForm.With | src/pages/EditBookSet/index.jsx:74-77 | the input change sets the named field to the new value and keeps the other four fields |
| BookSetComposer.ValidateOrder | src/pages/EditBookSet/index.jsx:107-115 | "All fields are required" exactly when some field is falsy; "Please select at least one book" exactly when all fields are truthy and nothing is selected; success exactly when both checks pass |
| BookSetComposer.ParseIntValueSentAs | src/pages/EditBookSet/index.jsx:121-124 | the integer parse of a selector sends a held id as that id and an unchosen selector (undefined or `''`) as NaN |
| BookSetComposer.MakePayload | src/pages/EditBookSet/index.jsx:119-126 | the payload keeps the set name and carries the selection's book lines; each of the four ids that holds an id (the loaded number or the option text `String(n)`) is sent as that id, and each id never chosen (undefined or the placeholder's `''`) is sent as NaN |
| BookSetComposer.Lines | src/pages/EditBookSet/index.jsx:125 | the payload lines match the selection one for one, in order, each `{book_id, quantity}` with the book metadata dropped |
| BookSetComposer.PayloadKeepsUnique | src/pages/EditBookSet/index.jsx:119-126 | when the selection has one entry per book, the payload's book ids are distinct |
| BookSetComposer.PayloadIds | src/pages/EditBookSet/index.jsx:121-124 | the four foreign keys are sent as the integers the selectors stand for, whether they hold a loaded number or option text |
| BookSetComposer.PayloadExample | src/pages/EditBookSet/index.jsx:125 | selection `[{3, qty 2}, {1, qty 1}]` is sent as `[{3, 2}, {1, 1}]` |
| BookSetComposer.HydrateThenSubmit | src/pages/EditBookSet/index.jsx:51-58 | the form loaded from a record and submitted unchanged sends back the record's set name and its numeric ids |
| BookSetComposer.HydrateSelection | src/pages/EditBookSet/index.jsx:60-66 | the selection loads exactly when the record has `book_set_items` and every item has its book, and then has one entry per item |
| BookSetComposer.HydrateItems | src/pages/EditBookSet/index.jsx:60-66 | the mapping succeeds exactly when every item has its book; it then has one entry per item, in order, with the book's id, the book and the persisted quantity |
| BookSetComposer.HydrateUnique | src/pages/EditBookSet/index.jsx:60-66 | the loaded selection has one entry per book exactly when the persisted items name distinct books; duplicates are not dropped |
| BookSetComposer.HydrateThenLines | src/pages/EditBookSet/index.jsx:60-66 | submitting a loaded selection unchanged sends back the persisted book ids and quantities |
| BookSetComposer.HydrateExamples | src/pages/EditBookSet/index.jsx:51-66 | one item for book 7 with quantity 4 loads as one entry `{7, qty 4}`; a record without items fails to load |
| BookSetComposer.EditSession | src/pages/EditBookSet/index.jsx:79-115 | add book 5 (qty 1), set qty 3, add 5 again (no-op, qty 3), remove 5 (empty), then submit is refused with `EmptySelection` |
| BookSetComposer.SessionQuantity | src/pages/EditBookSet/index.jsx:90-96 | setting the quantity of the only entry to "3" stores 3 |
| BookSetComposer.SessionAddAgain | src/pages/EditBookSet/index.jsx:84 | adding book 5 when it is already selected changes nothing |
| BookSetComposer.SessionRemove | src/pages/EditBookSet/index.jsx:98-100 | removing the only entry leaves an empty selection |
| EditBookSet.UpdateFailureMessage | src/pages/EditBookSet/index.jsx:132 | a non-empty server message is shown as sent; with no message or an empty one, "Failed to update book set"; never empty |
| EditBookSet.UpdateFailureShowsServerMessage | src/pages/EditBookSet/index.jsx:132 | the fallback is shown exactly when the server sends no message, an empty one, or the fallback's own text |
| EditBookSet.Editor.constructor | src/pages/EditBookSet/index.jsx:10-28 | the page starts loading, with every form field `''`, nothing selected and no message |
| EditBookSet.Editor.LoadData | src/pages/EditBookSet/index.jsx:34-72 | a failed load keeps the state and shows "Failed to load data"; otherwise the catalog is stored, then the form fields, then the selection, and a failing step keeps what came before it; loading always ends |
| EditBookSet.Editor.HandleInputChange | src/pages/EditBookSet/index.jsx:74-77 | only the named form field changes |
| EditBookSet.Editor.HandleAddBook | src/pages/EditBookSet/index.jsx:79-88 | the selection becomes `AddBook` of the old one; one entry per book is preserved; nothing else changes |
| EditBookSet.Editor.HandleQuantityChange | src/pages/EditBookSet/index.jsx:90-96 | the selection becomes `SetQuantity` of the old one; one entry per book is preserved; nothing else changes |
| EditBookSet.Editor.HandleRemoveBook | src/pages/EditBookSet/index.jsx:98-100 | the selection becomes `RemoveBook` of the old one; one entry per book is preserved; nothing else changes |
| EditBookSet.Editor.HandleSubmit | src/pages/EditBookSet/index.jsx:102-136 | a failed check sends nothing and shows its message; otherwise the payload built from the draft is sent, the reply sets the success or the error message, and loading ends; the draft never changes |
| BookSetList.Toggled | src/pages/BookSetList/index.jsx:97-105 | toggling flips the id's membership and no other id's |
| BookSetList.ToggleTwice | src/pages/BookSetList/index.jsx:97-105 | toggling the same id twice restores the set |
| BookSetList.WithFilter | src/pages/BookSetList/index.jsx:66 | the named filter takes the value; the other filters are kept |
| BookSetList.ActiveFilters | src/pages/BookSetList/index.jsx:69-71 | the query holds exactly the filters whose value is not `''`, each with its value |
| BookSetList.NoActiveFiltersInitially | src/pages/BookSetList/index.jsx:22-27 | the initial filters produce an empty query |
| BookSetList.ClearingAFilter | src/pages/BookSetList/index.jsx:64-71 | setting a filter back to `''` removes that key from the query and keeps the rest |
| BookSetList.SettingAFilter | src/pages/BookSetList/index.jsx:64-71 | setting a filter to a non-empty value puts exactly that value under the key in the query |
| BookSetList.ListState.constructor | src/pages/BookSetList/index.jsx:13-27 | nothing expanded, every filter `''`, the delete dialog closed and empty |
| BookSetList.ListState.ToggleExpand | src/pages/BookSetList/index.jsx:97-105 | the expanded set becomes the toggled set; nothing else changes |
| BookSetList.ListState.HandleFilterChange | src/pages/BookSetList/index.jsx:64-74 | the filter is stored, and the list is reloaded with the non-empty filters of the new state |
| BookSetList.ListState.OpenDeleteModal | src/pages/BookSetList/index.jsx:76-78 | the dialog opens with the id and name |
| BookSetList.ListState.CloseDeleteModal | src/pages/BookSetList/index.jsx:80-82 | the dialog is reset to closed, no id and no name, whatever it held |
| BookSetList.ListState.HandleDelete | src/pages/BookSetList/index.jsx:84-95 | the delete request names the dialog's id; a successful delete closes the dialog; a failed one keeps it and shows "Failed to delete book set"; deleting ends either way |
| MasterData.InitialFormData | src/pages/MasterData/index.jsx:81-96 | every field of a blank form is `''`, and a key that is not a tab gets no fields |
| MasterData.InitialFormDataBlank | src/pages/MasterData/index.jsx:81-96 | the blank form is empty exactly for the keys that are not tabs |
| MasterData.BeforeT | src/pages/MasterData/index.jsx:109-110 | `split('T')[0]` is the longest prefix without a 'T', which ends at the first 'T' or at the end |
| MasterData.DatePart | src/pages/MasterData/index.jsx:109-110 | a missing date becomes `''`, a text date its prefix up to the first 'T', and a number throws (None) |
| MasterData.DatePartHasNoT | src/pages/MasterData/index.jsx:109-110 | a date copied into the edit form is text without a 'T', and cutting it again changes nothing |
| MasterData.BeforeTIdempotent | src/pages/MasterData/index.jsx:109-110 | cutting at 'T' twice is the same as cutting once |
| MasterData.BeforeTOfTimestamp | src/pages/MasterData/index.jsx:109-110 | the date part of `<date>T<time>` is exactly the date |
| MasterData.DatePartExample | src/pages/MasterData/index.jsx:109 | "2024-06-01T00:00" becomes "2024-06-01" |
| MasterData.FormDataFromItemKeys | src/pages/MasterData/index.jsx:81-121 | the edit form of a record has the same fields as the add form of its tab; building it fails only for a year whose date is a non-string value |
| MasterData.FormDataFromItemCopies | src/pages/MasterData/index.jsx:98-121 | the edit form copies each field of the record, missing ones as undefined, except the dates, which are the record's dates cut at 'T' |
| MasterData.YearFormDates | src/pages/MasterData/index.jsx:106-111 | a year's edit form holds both dates as text without the time part |
| MasterData.ItemName | src/pages/MasterData/index.jsx:154-169 | a key that is not a tab names every record `''` |
| MasterData.WithInput | src/pages/MasterData/index.jsx:123-126 | the named field takes the text; the other fields are kept |
| MasterData.SliceLast | src/pages/MasterData/index.jsx:137 | `slice(0, -1)` drops exactly the last character |
| MasterData.Singular | src/pages/MasterData/index.jsx:137 | for a tab, the singular is a proper prefix of the key |
| MasterData.SingularNamesTheNameField | src/pages/MasterData/index.jsx:154-169 | for every tab, the entity's singular name plus `_name` is a field of its forms; `getItemName` reads that field, and the edit form copies it |
| MasterData.SliceLastMisnamesClasses | src/pages/MasterData/index.jsx:137 | as written, the classes tab is called "classe", and "classe_name" is not a field of the classes form |
| MasterData.SliceLastOfPlural | src/pages/MasterData/index.jsx:137 | a key that is a stem plus 's' slices to the stem |
| MasterData.ServerErrorOr | src/pages/MasterData/index.jsx:148 | the server's message when it is a non-empty string, the fallback otherwise |
| MasterData.FailureMessage | src/pages/MasterData/index.jsx:148 | the error is the server's non-empty message when there is one, and otherwise "Failed to <mode> <key without its last character>" for every key and mode; never empty |
| MasterData.MessagesOfPluralKey | src/pages/MasterData/index.jsx:137-148 | for a key that is a stem plus 's', the success messages are "<stem> added successfully!" and "<stem> updated successfully!" and the fallback error is "Failed to <mode> <stem>" |
| MasterData.TabIsPlural | src/pages/MasterData/index.jsx:137 | every tab key is its slice plus 's', so the message lemma applies to every tab |
| MasterData.ClassesMessages | src/pages/MasterData/index.jsx:140-148 | the classes tab reads "classe updated successfully!" and "Failed to add classe" |
| MasterData.IntendedFailureMessage | src/pages/MasterData/index.jsx:148 | the intended error: the server's non-empty message, else "Failed to <mode> <singular>" |
| MasterData.MessagesDifferOnlyOnClasses | src/pages/MasterData/index.jsx:137-148 | the messages as written equal the intended ones exactly when the key is not "classes" (for errors: or the server's own message is shown) |
| MasterData.ScreenState.constructor | src/pages/MasterData/index.jsx:10-25 | the boards tab is active, the dialog is closed in add mode with no record and an empty form, and there are no messages |
| MasterData.ScreenState.OpenAddModal | src/pages/MasterData/index.jsx:57-64 | the dialog opens in add mode with the tab's blank form and no record; both messages are cleared |
| MasterData.ScreenState.CloseModal | src/pages/MasterData/index.jsx:75-79 | the dialog closes with an empty form and no record; the mode and messages are kept |
| MasterData.ScreenState.HandleInputChange | src/pages/MasterData/index.jsx:123-126 | the form becomes `WithInput` of the old one; nothing else changes |
| MasterData.ScreenState.HandleSubmit | src/pages/MasterData/index.jsx:128-152 | add mode creates a record of the active tab; edit mode updates the current record by id, or throws before any request when there is none; the reply sets the success or the error message as written (`SuccessMessage`, `FailureMessage`); submitting ends; the dialog's contents are kept |
| MasterData.ScreenState.AfterSave | src/pages/MasterData/index.jsx:143-146 | one second after a save, the dialog is closed and emptied and the success message is cleared |

## Left out

- The create screen is not part of this model.
- The HTTP client is replaced by each call's outcome, passed in as a parameter. The update, delete and save methods also return what they send; `Editor.LoadData` returns nothing, and the route `id` of the update (the page's URL parameter) is not part of what `Editor.HandleSubmit` returns. Nothing models the response bodies beyond the fields read.
- `Promise.all` and the order in which responses arrive are not modelled. A load is one outcome: it either fails or delivers all its results.
- The other selector catalogs (boards, mediums, classes, years) only fill `<option>` lists. They are not modelled.
- Rendering, the loading spinner conditions, `e.target.value = ''` (a DOM reset of the select), and navigation after a successful update (a 1.5 s timer in `navigate`) are not modelled.
- The list's `loadBookSets` after a delete or a filter change, and the master-data screen's `loadData` after a save, are network reloads. `HandleFilterChange` returns the query for its reload; the other reloads are left out.
- BookSetList.ListState.HandleDelete: the reload after a successful delete is left out, so the contract does not show that a failed reload sets "Failed to load book sets".
- MasterData.ScreenState.HandleSubmit: the reload after a successful save is left out, so the contract (`error == ""` after a save) does not show that a failed reload sets "Failed to load master data".
- BookSetList.ActiveFilters: a map has no key order, so the insertion order of the query object is not modelled.
- Values are text, integral numbers or null/undefined. Floats, booleans and objects in form fields are not modelled. A record passed to the master-data screen is never null.
- JsValues.ParseIntRoundTrip: stated over exact integers. A JavaScript number is exact only up to 2^53 in magnitude, and `String` writes exponent form from 1e21 on, so the round trip holds in the program only below those bounds.
- JsValues.ParseIntValue: a number's text is `IntToString` of an exact integer, which agrees with JavaScript's `String` only below 2^53 in magnitude and without exponent form.
- JsValues.ParseInt: the result is the exact value of the digit run. JavaScript's `parseInt` rounds a run above 2^53 to the nearest double ("9007199254740993" gives 9007199254740992), which the model does not do. The exponent and `Infinity` forms do not apply to `parseInt`. Both `0` and `-0` give the integer 0, because the model has no signed zero.
- The master-data `loadData`, the master-data delete dialog and `setActiveTab` are fetches or plain setters. They are not modelled.
- `openEditModal` is not modelled as a method. Its form is `MasterData.FormDataFromItem`. When that call throws, React's handling of the two state updates made just before it is framework behaviour.

## Findings

| source | as written | input that shows it | evidently intended | confidence | as-written member | corrected member |
|---|---|---|---|---|---|---|
| src/pages/MasterData/index.jsx:137, 140, 148 | The entity name in the messages is `activeTab.slice(0, -1)`. | tab `"classes"` gives "classe added successfully!" and "Failed to add classe" | The singular of each tab: "class" for classes, the key without its last letter for the others. That matches the `<singular>_name` field the tab's forms use. | not executed | `MasterData.SuccessMessage` and `MasterData.FailureMessage` on `MasterData.SliceLast`, with `MasterData.SliceLastMisnamesClasses` and `MasterData.ClassesMessages` | `MasterData.IntendedSuccessMessage` and `MasterData.IntendedFailureMessage`, built on `MasterData.Singular`, with `MasterData.SingularNamesTheNameField` and `MasterData.MessagesDifferOnlyOnClasses`. The screen model keeps the messages as written (`MasterData.SuccessMessage`, `MasterData.FailureMessage`, shown by `MasterData.ClassesMessages`). |
