/**
 * The edit screen's state (the page's `useState` hooks) and its event
 * handlers. Each handler applies one composer operation to the state and
 * leaves every other piece of state as it was; the network calls are
 * replaced by their outcome, given as a parameter.
 */
module EditBookSet {
  import opened JsValues
  import opened BookSetComposer

  /** What the parallel loads made when the page opens deliver: None when any
      request fails (the combined promise rejects); otherwise the book catalog
      and the record, which is None when the response holds no record. */
  datatype LoadReply = LoadReply(books: seq<Book>, bookSet: Option<PersistedBookSet>)

  /** The outcome of the update call: success, or a rejection carrying the
      `error` field of the server's response when there is one. */
  datatype UpdateReply = Updated | Rejected(serverError: Option<string>)

  const LoadFailed := "Failed to load data"
  const UpdateSucceeded := "Book set updated successfully!"
  const UpdateFallback := "Failed to update book set"

  /** The message of a rejected update: the server's message when it is a
      non-empty string, the fixed fallback otherwise. */
  function UpdateFailureMessage(serverError: Option<string>): (m: string)
    ensures m != ""
    ensures serverError.Some? && serverError.value != "" ==> m == serverError.value
    ensures serverError.None? || serverError == Some("") ==> m == UpdateFallback
  {
    match serverError
    case Some(e) => if e != "" then e else UpdateFallback
    case None => UpdateFallback
  }

  /** The fallback is shown exactly when the server sends no message, an
      empty one, or the fallback's own text; every other server message is
      shown as sent. */
  lemma UpdateFailureShowsServerMessage(serverError: Option<string>)
    ensures UpdateFailureMessage(serverError) == UpdateFallback <==>
      serverError.None? || serverError.value == "" || serverError.value == UpdateFallback
    ensures serverError.Some? && serverError.value !in {"", UpdateFallback} ==>
      UpdateFailureMessage(serverError) == serverError.value
  {
  }

  class Editor {
    /** The book catalog; the other master-data catalogs only fill selectors. */
    var books: seq<Book>
    var formData: DraftForm
    var selectedBooks: Selection
    var loading: bool
    var error: string
    var success: string

    /** The state as the page mounts: loading, nothing entered, no message. */
    constructor ()
      ensures books == [] && formData == EmptyForm && selectedBooks == []
      ensures loading && error == "" && success == ""
    {
      books := [];
      formData := EmptyForm;
      selectedBooks := [];
      loading := true;
      error := "";
      success := "";
    }

    /** `loadData` once the loads have settled: the catalog is stored first,
        then the form fields, then the selection; a failure at any step keeps
        what was stored before it and reports 'Failed to load data'. A record
        without `book_set_items` thus has its form fields copied but not its
        selection. Loading always ends. */
    method LoadData(reply: Option<LoadReply>)
      modifies this
      ensures !loading && success == old(success)
      ensures reply.None? ==>
        books == old(books) && formData == old(formData) && selectedBooks == old(selectedBooks)
        && error == LoadFailed
      ensures reply.Some? && reply.value.bookSet.None? ==>
        books == reply.value.books && formData == old(formData) && selectedBooks == old(selectedBooks)
        && error == LoadFailed
      ensures reply.Some? && reply.value.bookSet.Some? ==>
        var bs := reply.value.bookSet.value;
        && books == reply.value.books && formData == HydrateForm(bs)
        && (HydrateSelection(bs).None? ==> selectedBooks == old(selectedBooks) && error == LoadFailed)
        && (HydrateSelection(bs).Some? ==> selectedBooks == HydrateSelection(bs).value && error == old(error))
    {
      match reply {
        case None =>
          error := LoadFailed;
        case Some(r) =>
          books := r.books;
          match r.bookSet {
            case None =>
              error := LoadFailed;
            case Some(bs) =>
              formData := HydrateForm(bs);
              var hydrated := HydrateSelection(bs);
              match hydrated {
                case None => error := LoadFailed;
                case Some(sel) => selectedBooks := sel;
              }
          }
      }
      loading := false;
    }

    /** `handleInputChange`: the named field takes the control's text. */
    method HandleInputChange(f: Field, value: string)
      modifies this
      ensures formData == old(formData).With(f, Text(value))
      ensures books == old(books) && selectedBooks == old(selectedBooks)
      ensures loading == old(loading) && error == old(error) && success == old(success)
    {
      formData := formData.With(f, Text(value));
    }

    /** `handleAddBook`, with its early returns. */
    method HandleAddBook(raw: string)
      modifies this
      ensures selectedBooks == AddBook(old(selectedBooks), books, raw)
      ensures Unique(old(selectedBooks)) ==> Unique(selectedBooks)
      ensures books == old(books) && formData == old(formData)
      ensures loading == old(loading) && error == old(error) && success == old(success)
    {
      if Unique(selectedBooks) {
        AddBookKeepsUnique(selectedBooks, books, raw);
      }
      var bookId := ParseInt(raw);
      if !ParsedTruthy(bookId) {
        return;
      }
      var book := FindBook(books, bookId.n);
      if book.None? || IsSelected(selectedBooks, bookId.n) {
        return;
      }
      selectedBooks := selectedBooks + [Entry(bookId.n, book.value, 1)];
    }

    /** `handleQuantityChange`. */
    method HandleQuantityChange(id: int, raw: string)
      modifies this
      ensures selectedBooks == SetQuantity(old(selectedBooks), id, raw)
      ensures Unique(old(selectedBooks)) ==> Unique(selectedBooks)
      ensures books == old(books) && formData == old(formData)
      ensures loading == old(loading) && error == old(error) && success == old(success)
    {
      if Unique(selectedBooks) {
        SetQuantityKeepsUnique(selectedBooks, id, raw);
      }
      selectedBooks := SetQuantity(selectedBooks, id, raw);
    }

    /** `handleRemoveBook`. */
    method HandleRemoveBook(id: int)
      modifies this
      ensures selectedBooks == RemoveBook(old(selectedBooks), id)
      ensures Unique(old(selectedBooks)) ==> Unique(selectedBooks)
      ensures books == old(books) && formData == old(formData)
      ensures loading == old(loading) && error == old(error) && success == old(success)
    {
      if Unique(selectedBooks) {
        RemoveBookKeepsUnique(selectedBooks, id);
      }
      selectedBooks := RemoveBook(selectedBooks, id);
    }

    /** `handleSubmit`: both messages are cleared; a failed check sets its
        message and returns before any request; otherwise the payload is sent
        (and returned here), and the reply sets the success or the error
        message. The draft is never changed, so a rejected update can be
        corrected and retried. */
    method HandleSubmit(reply: UpdateReply) returns (sent: Option<Payload>)
      modifies this
      ensures books == old(books) && formData == old(formData) && selectedBooks == old(selectedBooks)
      ensures Validate(formData, selectedBooks).Some? ==>
        && sent == None && loading == old(loading) && success == ""
        && error == ValidationMessage(Validate(formData, selectedBooks).value)
      ensures Validate(formData, selectedBooks).None? ==>
        && sent == Some(MakePayload(formData, selectedBooks)) && !loading
        && (reply.Updated? ==> success == UpdateSucceeded && error == "")
        && (reply.Rejected? ==> success == "" && error == UpdateFailureMessage(reply.serverError))
    {
      error := "";
      success := "";
      var problem := Validate(formData, selectedBooks);
      if problem.Some? {
        error := ValidationMessage(problem.value);
        return None;
      }
      loading := true;
      var payload := MakePayload(formData, selectedBooks);
      sent := Some(payload);
      match reply {
        case Updated => success := UpdateSucceeded;
        case Rejected(e) => error := UpdateFailureMessage(e);
      }
      loading := false;
    }
  }
}
