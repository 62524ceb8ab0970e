/**
 * The book-set composer of the edit screen: the ordered selection of books
 * with a quantity each, the books that may still be added, the checks made
 * before submission, the payload sent to the server and the draft rebuilt
 * from a persisted book set. Each operation is a pure transformation here;
 * the state holder that applies them is the Editor class of EditBookSet.
 */
module BookSetComposer {
  import opened JsValues

  /** A catalog book, as the master-data provider returns it. */
  datatype Book = Book(id: int, book_name: string, subject: string, publisher: string)

  /** One selected book: its id, the catalog book and the quantity. */
  datatype Entry = Entry(book_id: int, book: Book, quantity: int)

  /** `selectedBooks`, in the order the books were added (or persisted). */
  type Selection = seq<Entry>

  /** Some entry of the selection is for book `id`. */
  predicate IsSelected(sel: Selection, id: int) {
    exists i | 0 <= i < |sel| :: sel[i].book_id == id
  }

  /** At most one entry per book id. */
  predicate Unique(sel: Selection) {
    forall i, j | 0 <= i < j < |sel| :: sel[i].book_id != sel[j].book_id
  }

  // ---------------------------------------------------------------------
  // Adding a book

  /** The catalog lookup of the add handler: the first catalog book with the id. */
  function FindBook(catalog: seq<Book>, id: int): (r: Option<Book>)
    ensures r.None? <==> forall k | 0 <= k < |catalog| :: catalog[k].id != id
    ensures r.Some? ==> exists k | 0 <= k < |catalog| ::
      catalog[k] == r.value && r.value.id == id && forall j | 0 <= j < k :: catalog[j].id != id
  {
    if catalog == [] then None
    else if catalog[0].id == id then Some(catalog[0])
    else
      var r := FindBook(catalog[1..], id);
      assert r.Some? ==> exists k | 0 <= k < |catalog[1..]| ::
        catalog[1..][k] == r.value && r.value.id == id && forall j | 0 <= j < k :: catalog[1..][j].id != id;
      r
  }

  /** `handleAddBook` on the selected option's text `raw`: the id is
      the integer parse of `raw`; a falsy id, an id the catalog does not have, or one
      already selected leaves the selection as it is; otherwise the catalog
      book is appended with quantity 1. */
  function AddBook(sel: Selection, catalog: seq<Book>, raw: string): (r: Selection)
    ensures |r| == |sel| || |r| == |sel| + 1
    ensures r[..|sel|] == sel
    ensures |r| == |sel| + 1 ==>
      && r[|sel|].quantity == 1 && r[|sel|].book in catalog && r[|sel|].book_id == r[|sel|].book.id
      && !IsSelected(sel, r[|sel|].book_id)
  {
    var p := ParseInt(raw);
    if !ParsedTruthy(p) then sel
    else match FindBook(catalog, p.n)
      case None => sel
      case Some(book) => if IsSelected(sel, p.n) then sel else sel + [Entry(p.n, book, 1)]
  }

  /** The three conditions under which adding changes the selection. */
  predicate CanAdd(sel: Selection, catalog: seq<Book>, raw: string) {
    var p := ParseInt(raw);
    && p.Num? && p.n != 0
    && (exists k | 0 <= k < |catalog| :: catalog[k].id == p.n)
    && forall i | 0 <= i < |sel| :: sel[i].book_id != p.n
  }

  /** When the value parses to a non-zero id `n` that the catalog has (first
      at index `k`) and the selection does not, exactly one entry
      for `n`, holding `catalog[k]` with quantity 1, is appended at the end. */
  lemma AddBookAppends(sel: Selection, catalog: seq<Book>, raw: string, n: int, k: nat)
    requires ParseInt(raw) == Num(n) && n != 0
    requires k < |catalog| && catalog[k].id == n && forall j | 0 <= j < k :: catalog[j].id != n
    requires forall i | 0 <= i < |sel| :: sel[i].book_id != n
    ensures CanAdd(sel, catalog, raw)
    ensures AddBook(sel, catalog, raw) == sel + [Entry(n, catalog[k], 1)]
  {
    var r := FindBook(catalog, n);
    assert r.Some?;
    var k' :| 0 <= k' < |catalog| && catalog[k'] == r.value && r.value.id == n
      && forall j | 0 <= j < k' :: catalog[j].id != n;
    assert k' == k;
  }

  /** In every other case (a falsy parse, an id missing from the catalog, an
      id already selected) adding is a no-op. */
  lemma AddBookNoOp(sel: Selection, catalog: seq<Book>, raw: string)
    requires !CanAdd(sel, catalog, raw)
    ensures AddBook(sel, catalog, raw) == sel
  {
  }

  /** Adding never creates a second entry for a book. */
  lemma AddBookKeepsUnique(sel: Selection, catalog: seq<Book>, raw: string)
    requires Unique(sel)
    ensures Unique(AddBook(sel, catalog, raw))
  {
  }

  // ---------------------------------------------------------------------
  // Changing a quantity

  /** The quantity a raw input stands for: its integer parse, with 1 in
      place of a parse that is NaN or 0. */
  function QuantityOf(raw: string): int {
    OrOne(ParseInt(raw))
  }

  /** A quantity typed as the decimal text of `n` is stored as `n`, except
      that 0 becomes 1; negative quantities are kept. */
  lemma QuantityOfDecimal(n: int)
    ensures QuantityOf(IntToString(n)) == if n == 0 then 1 else n
  {
    ParseIntRoundTrip(n);
  }

  /** A stored quantity, shown in its input and read back, is unchanged. */
  lemma QuantityOfShownQuantity(raw: string)
    ensures QuantityOf(IntToString(QuantityOf(raw))) == QuantityOf(raw)
  {
    QuantityOfDecimal(QuantityOf(raw));
  }

  /** One entry after a quantity change to book `id`: the entry for `id`
      takes the new quantity; its id and book, and every other entry, are kept. */
  function Requantified(e: Entry, id: int, raw: string): (r: Entry)
    ensures r.book_id == e.book_id && r.book == e.book
    ensures e.book_id == id ==> r.quantity == QuantityOf(raw)
    ensures e.book_id != id ==> r == e
  {
    if e.book_id == id then e.(quantity := QuantityOf(raw)) else e
  }

  /** `handleQuantityChange`: every entry is mapped on its own, so the list's
      length and order are kept. */
  function SetQuantity(sel: Selection, id: int, raw: string): (r: Selection)
    ensures |r| == |sel|
    ensures forall i | 0 <= i < |sel| :: r[i] == Requantified(sel[i], id, raw)
  {
    if sel == [] then []
    else [Requantified(sel[0], id, raw)] + SetQuantity(sel[1..], id, raw)
  }

  /** "abc" and "0" give quantity 1, "5" gives 5, and "-3" is kept as -3. */
  lemma SetQuantityExamples(sel: Selection, i: nat)
    requires i < |sel|
    ensures SetQuantity(sel, sel[i].book_id, "abc")[i].quantity == 1
    ensures SetQuantity(sel, sel[i].book_id, "0")[i].quantity == 1
    ensures SetQuantity(sel, sel[i].book_id, "5")[i].quantity == 5
    ensures SetQuantity(sel, sel[i].book_id, "-3")[i].quantity == -3
  {
    OrOneExamples();
  }

  /** Only the last of two quantity changes to the same book matters. */
  lemma SetQuantityLastWins(sel: Selection, id: int, first: string, second: string)
    ensures SetQuantity(SetQuantity(sel, id, first), id, second) == SetQuantity(sel, id, second)
  {
    var a := SetQuantity(SetQuantity(sel, id, first), id, second);
    var b := SetQuantity(sel, id, second);
    assert forall i | 0 <= i < |sel| :: a[i] == b[i];
  }

  /** A quantity change keeps at most one entry per book. */
  lemma SetQuantityKeepsUnique(sel: Selection, id: int, raw: string)
    requires Unique(sel)
    ensures Unique(SetQuantity(sel, id, raw))
  {
  }

  // ---------------------------------------------------------------------
  // Removing a book

  /** `handleRemoveBook`: the entries for book `id` are filtered out. */
  function RemoveBook(sel: Selection, id: int): (r: Selection)
    ensures |r| <= |sel|
  {
    if sel == [] then []
    else if sel[0].book_id == id then RemoveBook(sel[1..], id)
    else [sel[0]] + RemoveBook(sel[1..], id)
  }

  /** The entries left are exactly those whose book is not `id`. */
  lemma {:induction false} RemoveBookMembers(sel: Selection, id: int)
    ensures forall e :: e in RemoveBook(sel, id) <==> e in sel && e.book_id != id
  {
    if sel != [] {
      RemoveBookMembers(sel[1..], id);
      assert sel == [sel[0]] + sel[1..];
    }
  }

  /** Removing works piece by piece, so it keeps the relative order of the
      entries it keeps. */
  lemma {:induction false} RemoveBookSplit(a: Selection, b: Selection, id: int)
    ensures RemoveBook(a + b, id) == RemoveBook(a, id) + RemoveBook(b, id)
  {
    if a == [] {
      assert a + b == b;
    } else {
      assert (a + b)[0] == a[0];
      assert (a + b)[1..] == a[1..] + b;
      RemoveBookSplit(a[1..], b, id);
      if a[0].book_id != id {
        var x, ra, rb := a[0], RemoveBook(a[1..], id), RemoveBook(b, id);
        assert [x] + (ra + rb) == ([x] + ra) + rb;
      }
    }
  }

  /** Removing a book that is not selected is a no-op. */
  lemma {:induction false} RemoveBookAbsent(sel: Selection, id: int)
    requires forall i | 0 <= i < |sel| :: sel[i].book_id != id
    ensures RemoveBook(sel, id) == sel
  {
    if sel != [] {
      RemoveBookAbsent(sel[1..], id);
    }
  }

  /** When no other entry shares the id of the entry at index `k`, removing
      that id deletes exactly index `k`. */
  lemma {:induction false} RemoveBookOnly(sel: Selection, k: nat)
    requires k < |sel|
    requires forall i | 0 <= i < |sel| && i != k :: sel[i].book_id != sel[k].book_id
    ensures RemoveBook(sel, sel[k].book_id) == sel[..k] + sel[k + 1..]
    decreases k
  {
    var id := sel[k].book_id;
    var rest := sel[1..];
    if k == 0 {
      assert forall i | 0 <= i < |rest| :: rest[i].book_id != id by {
        forall i | 0 <= i < |rest| ensures rest[i].book_id != id {
          assert rest[i] == sel[i + 1];
        }
      }
      RemoveBookAbsent(rest, id);
    } else {
      assert sel[0].book_id != id;
      assert rest[k - 1] == sel[k];
      assert forall i | 0 <= i < |rest| && i != k - 1 :: rest[i].book_id != rest[k - 1].book_id by {
        forall i | 0 <= i < |rest| && i != k - 1 ensures rest[i].book_id != rest[k - 1].book_id {
          assert rest[i] == sel[i + 1];
        }
      }
      RemoveBookOnly(rest, k - 1);
      assert [sel[0]] + (rest[..k - 1] + rest[k..]) == sel[..k] + sel[k + 1..];
    }
  }

  /** In a selection with one entry per book, removing the book at index `k`
      leaves exactly the entries before and after it, in order. */
  lemma RemoveBookAt(sel: Selection, k: nat)
    requires Unique(sel) && k < |sel|
    ensures RemoveBook(sel, sel[k].book_id) == sel[..k] + sel[k + 1..]
  {
    RemoveBookOnly(sel, k);
  }

  /** Removing keeps at most one entry per book. */
  lemma RemoveBookKeepsUnique(sel: Selection, id: int)
    requires Unique(sel)
    ensures Unique(RemoveBook(sel, id))
  {
    if k :| 0 <= k < |sel| && sel[k].book_id == id {
      RemoveBookAt(sel, k);
      var r := sel[..k] + sel[k + 1..];
      forall i, j | 0 <= i < j < |r| ensures r[i].book_id != r[j].book_id {
        var i' := if i < k then i else i + 1;
        var j' := if j < k then j else j + 1;
        assert r[i] == sel[i'] && r[j] == sel[j'];
      }
    } else {
      RemoveBookAbsent(sel, id);
    }
  }

  /** Removing a book and adding it again gives a fresh entry with quantity 1
      at the end, not the quantity it had before. */
  lemma RemoveThenAdd(sel: Selection, catalog: seq<Book>, raw: string, n: int, k: nat)
    requires ParseInt(raw) == Num(n) && n != 0
    requires k < |catalog| && catalog[k].id == n && forall j | 0 <= j < k :: catalog[j].id != n
    ensures AddBook(RemoveBook(sel, n), catalog, raw) == RemoveBook(sel, n) + [Entry(n, catalog[k], 1)]
  {
    var rest := RemoveBook(sel, n);
    RemoveBookMembers(sel, n);
    assert forall i | 0 <= i < |rest| :: rest[i].book_id != n by {
      forall i | 0 <= i < |rest| ensures rest[i].book_id != n {
        assert rest[i] in rest;
      }
    }
    AddBookAppends(rest, catalog, raw, n, k);
  }

  // ---------------------------------------------------------------------
  // The books that may still be added

  /** The add-book options: the catalog books, in catalog order, that have no
      entry in the selection. */
  function Candidates(catalog: seq<Book>, sel: Selection): (r: seq<Book>)
    ensures |r| <= |catalog|
  {
    if catalog == [] then []
    else if IsSelected(sel, catalog[0].id) then Candidates(catalog[1..], sel)
    else [catalog[0]] + Candidates(catalog[1..], sel)
  }

  /** The books offered are exactly the catalog books not yet selected. */
  lemma {:induction false} CandidatesMembers(catalog: seq<Book>, sel: Selection)
    ensures forall b :: b in Candidates(catalog, sel) <==> b in catalog && !IsSelected(sel, b.id)
  {
    if catalog != [] {
      CandidatesMembers(catalog[1..], sel);
      assert catalog == [catalog[0]] + catalog[1..];
    }
  }

  /** The candidates come in catalog order: filtering works piece by piece. */
  lemma {:induction false} CandidatesSplit(c1: seq<Book>, c2: seq<Book>, sel: Selection)
    ensures Candidates(c1 + c2, sel) == Candidates(c1, sel) + Candidates(c2, sel)
  {
    if c1 == [] {
      assert c1 + c2 == c2;
    } else {
      assert (c1 + c2)[0] == c1[0];
      assert (c1 + c2)[1..] == c1[1..] + c2;
      CandidatesSplit(c1[1..], c2, sel);
      if !IsSelected(sel, c1[0].id) {
        var x, r1, r2 := c1[0], Candidates(c1[1..], sel), Candidates(c2, sel);
        assert [x] + (r1 + r2) == ([x] + r1) + r2;
      }
    }
  }

  /** With nothing selected every catalog book is offered, in catalog order. */
  lemma {:induction false} CandidatesOfEmpty(catalog: seq<Book>)
    ensures Candidates(catalog, []) == catalog
  {
    if catalog != [] {
      CandidatesOfEmpty(catalog[1..]);
    }
  }

  /** Picking an offered book (its option value is `String(b.id)`) succeeds
      whenever its id is non-zero: the selection grows by one entry for it. */
  lemma AddCandidate(sel: Selection, catalog: seq<Book>, b: Book)
    requires b in Candidates(catalog, sel) && b.id != 0
    ensures FindBook(catalog, b.id).Some?
    ensures AddBook(sel, catalog, IntToString(b.id)) == sel + [Entry(b.id, FindBook(catalog, b.id).value, 1)]
    ensures |AddBook(sel, catalog, IntToString(b.id))| == |sel| + 1
  {
    ParseIntRoundTrip(b.id);
    CandidatesMembers(catalog, sel);
    assert b in catalog;
  }

  /** A book offered with id 0 cannot be added: the falsy-id check rejects it first. */
  lemma AddCandidateZero(sel: Selection, catalog: seq<Book>)
    ensures AddBook(sel, catalog, IntToString(0)) == sel
  {
    ParseIntRoundTrip(0);
  }

  // ---------------------------------------------------------------------
  // The draft's scalar fields and their validation

  /** The five scalar form fields. */
  datatype Field = BoardId | MediumId | ClassId | YearId | SetName

  /** `formData`: the four selector values and the set name. */
  datatype DraftForm = DraftForm(board_id: Scalar, medium_id: Scalar, class_id: Scalar,
                                 year_id: Scalar, set_name: Scalar)
  {
    function Get(f: Field): Scalar {
      match f
      case BoardId => board_id
      case MediumId => medium_id
      case ClassId => class_id
      case YearId => year_id
      case SetName => set_name
    }

    /** `handleInputChange`: only the named field changes. */
    function With(f: Field, v: Scalar): (r: DraftForm)
      ensures r.Get(f) == v
      ensures forall g: Field | g != f :: r.Get(g) == Get(g)
    {
      match f
      case BoardId => this.(board_id := v)
      case MediumId => this.(medium_id := v)
      case ClassId => this.(class_id := v)
      case YearId => this.(year_id := v)
      case SetName => this.(set_name := v)
    }
  }

  /** The form before anything is loaded: every field `''`. */
  const EmptyForm := DraftForm(Text(""), Text(""), Text(""), Text(""), Text(""))

  datatype ValidationError = MissingField | EmptySelection

  function ValidationMessage(e: ValidationError): string {
    match e
    case MissingField => "All fields are required"
    case EmptySelection => "Please select at least one book"
  }

  /** The checks `handleSubmit` makes before calling the server, in order:
      a falsy scalar field first, then an empty selection. */
  function Validate(form: DraftForm, sel: Selection): Option<ValidationError> {
    if !Truthy(form.board_id) || !Truthy(form.medium_id) || !Truthy(form.class_id)
       || !Truthy(form.year_id) || !Truthy(form.set_name)
    then Some(MissingField)
    else if |sel| == 0 then Some(EmptySelection)
    else None
  }

  /** Validation stops at the first failure: a falsy field is reported
      whatever the selection holds; an empty selection only when every field
      is set; and a draft passes exactly when both hold. */
  lemma ValidateOrder(form: DraftForm, sel: Selection)
    ensures Validate(form, sel) == Some(MissingField) <==> exists f: Field :: !Truthy(form.Get(f))
    ensures Validate(form, sel) == Some(EmptySelection) <==> (forall f: Field :: Truthy(form.Get(f))) && sel == []
    ensures Validate(form, sel) == None <==> (forall f: Field :: Truthy(form.Get(f))) && sel != []
  {
    if !Truthy(form.board_id) { assert !Truthy(form.Get(BoardId)); }
    if !Truthy(form.medium_id) { assert !Truthy(form.Get(MediumId)); }
    if !Truthy(form.class_id) { assert !Truthy(form.Get(ClassId)); }
    if !Truthy(form.year_id) { assert !Truthy(form.Get(YearId)); }
    if !Truthy(form.set_name) { assert !Truthy(form.Get(SetName)); }
  }

  // ---------------------------------------------------------------------
  // The payload

  /** `{book_id, quantity}` as the server receives it. */
  datatype BookLine = BookLine(book_id: int, quantity: int)

  /** The update payload: the form spread with the four ids run through
      `parseInt` (NaN travels as JSON null), plus the book lines. */
  datatype Payload = Payload(board_id: ParsedInt, medium_id: ParsedInt, class_id: ParsedInt,
                             year_id: ParsedInt, set_name: Scalar, books: seq<BookLine>)

  /** The payload's book lines: each entry reduced to its book id and quantity. */
  function Lines(sel: Selection): (r: seq<BookLine>)
    ensures |r| == |sel|
    ensures forall i | 0 <= i < |sel| :: r[i] == BookLine(sel[i].book_id, sel[i].quantity)
  {
    if sel == [] then [] else [BookLine(sel[0].book_id, sel[0].quantity)] + Lines(sel[1..])
  }

  /** A selector holds either the number it was loaded with or the text of
      the option chosen (`String(id)`). */
  predicate HoldsId(v: Scalar, n: int) {
    v == Number(n) || v == Text(IntToString(n))
  }

  /** How one selector's value is sent: a value that holds an id is sent as
      that id, and a selector never chosen (undefined, or the placeholder's
      `''`) is sent as NaN. */
  ghost predicate SentAs(v: Scalar, p: ParsedInt) {
    && (forall n | HoldsId(v, n) :: p == Num(n))
    && (v == Absent || v == Text("") ==> p == NaN)
  }

  /** The integer parse of a selector's value is sent as `SentAs` says. */
  lemma ParseIntValueSentAs(v: Scalar)
    ensures SentAs(v, ParseIntValue(v))
  {
    forall n | HoldsId(v, n)
      ensures ParseIntValue(v) == Num(n)
    {
      ParseIntRoundTrip(n);
    }
    ParseIntEmpty();
  }

  /** The update payload built from the draft: each of the four ids is sent
      as `SentAs` says, and the set name and book lines as they stand. */
  function MakePayload(form: DraftForm, sel: Selection): (r: Payload)
    ensures r.set_name == form.set_name && r.books == Lines(sel)
    ensures SentAs(form.board_id, r.board_id) && SentAs(form.medium_id, r.medium_id)
    ensures SentAs(form.class_id, r.class_id) && SentAs(form.year_id, r.year_id)
  {
    ParseIntValueSentAs(form.board_id);
    ParseIntValueSentAs(form.medium_id);
    ParseIntValueSentAs(form.class_id);
    ParseIntValueSentAs(form.year_id);
    Payload(ParseIntValue(form.board_id), ParseIntValue(form.medium_id), ParseIntValue(form.class_id),
            ParseIntValue(form.year_id), form.set_name, Lines(sel))
  }

  /** The payload's book ids are the selection's, in order, so a selection
      with one entry per book sends each book once. */
  lemma PayloadKeepsUnique(form: DraftForm, sel: Selection)
    requires Unique(sel)
    ensures var books := MakePayload(form, sel).books;
      forall i, j | 0 <= i < j < |books| :: books[i].book_id != books[j].book_id
  {
  }

  /** Ids coerce back to the numbers the selectors stand for. */
  lemma PayloadIds(form: DraftForm, sel: Selection, board: int, medium: int, klass: int, year: int)
    requires HoldsId(form.board_id, board) && HoldsId(form.medium_id, medium)
    requires HoldsId(form.class_id, klass) && HoldsId(form.year_id, year)
    ensures var p := MakePayload(form, sel);
      p.board_id == Num(board) && p.medium_id == Num(medium) && p.class_id == Num(klass) && p.year_id == Num(year)
  {
    ParseIntRoundTrip(board);
    ParseIntRoundTrip(medium);
    ParseIntRoundTrip(klass);
    ParseIntRoundTrip(year);
  }

  /** Selection `[{3, qty 2}, {1, qty 1}]` is sent as `[{3, 2}, {1, 1}]`. */
  lemma PayloadExample(form: DraftForm, b3: Book, b1: Book)
    ensures MakePayload(form, [Entry(3, b3, 2), Entry(1, b1, 1)]).books == [BookLine(3, 2), BookLine(1, 1)]
  {
  }

  // ---------------------------------------------------------------------
  // Hydration from a persisted book set

  /** An element of `book_set_items`; `books` is null when the item has no
      embedded book. */
  datatype PersistedItem = PersistedItem(books: Option<Book>, quantity: int)

  /** The persisted record `bookSetRes.data.data`; `book_set_items` may be
      missing. */
  datatype PersistedBookSet = PersistedBookSet(board_id: Scalar, medium_id: Scalar, class_id: Scalar,
                                               year_id: Scalar, set_name: Scalar,
                                               book_set_items: Option<seq<PersistedItem>>)

  /** The form fields copied from the record. */
  function HydrateForm(bs: PersistedBookSet): DraftForm {
    DraftForm(bs.board_id, bs.medium_id, bs.class_id, bs.year_id, bs.set_name)
  }

  /** The persisted items mapped one by one to entries carrying the embedded
      book, its id and the persisted quantity; None stands for the TypeError
      an item with null `books` throws. */
  function HydrateItems(items: seq<PersistedItem>): (r: Option<Selection>)
    ensures r.Some? <==> forall i | 0 <= i < |items| :: items[i].books.Some?
    ensures r.Some? ==> |r.value| == |items| && forall i | 0 <= i < |items| ::
      r.value[i] == Entry(items[i].books.value.id, items[i].books.value, items[i].quantity)
  {
    if items == [] then Some([])
    else match items[0].books
      case None => None
      case Some(b) =>
        match HydrateItems(items[1..])
        case None => None
        case Some(rest) => Some([Entry(b.id, b, items[0].quantity)] + rest)
  }

  /** The selection rebuilt from `book_set_items`; None when the record has
      no such field (`.map` of undefined throws) or an item has no book. */
  function HydrateSelection(bs: PersistedBookSet): (r: Option<Selection>)
    ensures r.Some? <==>
      (bs.book_set_items.Some? &&
       forall i | 0 <= i < |bs.book_set_items.value| :: bs.book_set_items.value[i].books.Some?)
    ensures r.Some? ==> |r.value| == |bs.book_set_items.value|
  {
    match bs.book_set_items
    case None => None
    case Some(items) => HydrateItems(items)
  }

  /** Hydration does not drop duplicates: the rebuilt selection has one entry
      per book exactly when the persisted items do. */
  lemma HydrateUnique(items: seq<PersistedItem>)
    requires HydrateItems(items).Some?
    ensures Unique(HydrateItems(items).value) <==>
      forall i, j | 0 <= i < j < |items| :: items[i].books.value.id != items[j].books.value.id
  {
    var sel := HydrateItems(items).value;
    if !Unique(sel) {
      var i, j :| 0 <= i < j < |sel| && sel[i].book_id == sel[j].book_id;
      assert items[i].books.value.id == items[j].books.value.id;
    }
  }

  /** Resubmitting a hydrated draft unchanged sends back the persisted book
      ids and quantities, in the persisted order. */
  lemma HydrateThenLines(items: seq<PersistedItem>)
    requires HydrateItems(items).Some?
    ensures var lines := Lines(HydrateItems(items).value);
      |lines| == |items| && forall i | 0 <= i < |items| ::
        lines[i] == BookLine(items[i].books.value.id, items[i].quantity)
  {
  }

  /** Submitting a loaded draft unchanged sends the record's set name and,
      for ids the server sent as numbers, those numbers. */
  lemma HydrateThenSubmit(bs: PersistedBookSet, sel: Selection)
    ensures var p := MakePayload(HydrateForm(bs), sel);
      && p.set_name == bs.set_name
      && (bs.board_id.Number? ==> p.board_id == Num(bs.board_id.n))
      && (bs.medium_id.Number? ==> p.medium_id == Num(bs.medium_id.n))
      && (bs.class_id.Number? ==> p.class_id == Num(bs.class_id.n))
      && (bs.year_id.Number? ==> p.year_id == Num(bs.year_id.n))
  {
  }

  /** A record with one item for book 7 with quantity 4 hydrates to exactly
      that entry; a record without `book_set_items` fails to hydrate. */
  lemma HydrateExamples(fields: DraftForm, b7: Book)
    requires b7.id == 7
    ensures HydrateSelection(PersistedBookSet(fields.board_id, fields.medium_id, fields.class_id,
                               fields.year_id, fields.set_name, Some([PersistedItem(Some(b7), 4)])))
            == Some([Entry(7, b7, 4)])
    ensures HydrateSelection(PersistedBookSet(fields.board_id, fields.medium_id, fields.class_id,
                               fields.year_id, fields.set_name, None)) == None
  {
    var items := [PersistedItem(Some(b7), 4)];
    assert items[1..] == [];
    var r := HydrateItems(items);
    assert r.Some? && |r.value| == 1 && r.value[0] == Entry(7, b7, 4);
    assert r.value == [Entry(7, b7, 4)];
  }

  // ---------------------------------------------------------------------
  // A whole editing session

  /** Add book 5 (quantity 1), set its quantity to 3, add it again (no-op,
      still 3), remove it: the selection is empty and submitting a complete
      form is refused with the empty-selection error. */
  lemma EditSession(catalog: seq<Book>, form: DraftForm, k: nat)
    requires k < |catalog| && catalog[k].id == 5 && forall j | 0 <= j < k :: catalog[j].id != 5
    requires forall f: Field :: Truthy(form.Get(f))
    ensures AddBook([], catalog, "5") == [Entry(5, catalog[k], 1)]
    ensures SetQuantity([Entry(5, catalog[k], 1)], 5, "3") == [Entry(5, catalog[k], 3)]
    ensures AddBook([Entry(5, catalog[k], 3)], catalog, "5") == [Entry(5, catalog[k], 3)]
    ensures RemoveBook([Entry(5, catalog[k], 3)], 5) == []
    ensures Validate(form, []) == Some(EmptySelection)
  {
    ParseIntDecimal();
    AddBookAppends([], catalog, "5", 5, k);
    SessionQuantity(catalog[k]);
    SessionAddAgain(catalog, k);
    SessionRemove(catalog[k]);
    ValidateOrder(form, []);
  }

  lemma SessionQuantity(b: Book)
    ensures SetQuantity([Entry(5, b, 1)], 5, "3") == [Entry(5, b, 3)]
  {
    assert QuantityOf("3") == 3 by {
      assert IntToString(3) == "3";
      ParseIntRoundTrip(3);
    }
    var r := SetQuantity([Entry(5, b, 1)], 5, "3");
    assert |r| == 1 && r[0] == Entry(5, b, 3);
  }

  lemma SessionAddAgain(catalog: seq<Book>, k: nat)
    requires k < |catalog|
    ensures AddBook([Entry(5, catalog[k], 3)], catalog, "5") == [Entry(5, catalog[k], 3)]
  {
    ParseIntDecimal();
    var s2 := [Entry(5, catalog[k], 3)];
    assert !CanAdd(s2, catalog, "5") by { assert s2[0].book_id == 5; }
    AddBookNoOp(s2, catalog, "5");
  }

  lemma SessionRemove(b: Book)
    ensures RemoveBook([Entry(5, b, 3)], 5) == []
  {
    assert [Entry(5, b, 3)][1..] == [];
  }
}
