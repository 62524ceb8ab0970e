/**
 * The master-data screen: one tab per reference entity (boards, mediums,
 * classes, academic years, books), the form schema of each, the add/edit
 * dialog's state and the messages shown after saving.
 */
module MasterData {
  import opened JsValues

  /** A record as the server returns it; a missing field reads as undefined. */
  type Item = map<string, Scalar>

  /** The dialog's `formData`: field name to value. */
  type FormData = map<string, Scalar>

  function FieldOf(item: Item, key: string): Scalar {
    if key in item then item[key] else Absent
  }

  /** The five tab keys. */
  predicate IsTab(t: string) {
    t == "boards" || t == "mediums" || t == "classes" || t == "years" || t == "books"
  }

  // ---------------------------------------------------------------------
  // Form schemas

  /** `getInitialFormData`: the tab's fields, all `''`; `{}` for any other key. */
  function InitialFormData(t: string): (r: FormData)
    ensures forall k | k in r :: r[k] == Text("")
    ensures !IsTab(t) ==> r == map[]
  {
    if t == "boards" then map["board_name" := Text("")]
    else if t == "mediums" then map["medium_name" := Text("")]
    else if t == "classes" then map["class_name" := Text(""), "class_order" := Text("")]
    else if t == "years" then map["year_name" := Text(""), "start_date" := Text(""), "end_date" := Text("")]
    else if t == "books" then map["book_name" := Text(""), "subject" := Text(""), "publisher" := Text("")]
    else map[]
  }

  /** Every tab key has at least one field, so the form is empty exactly for
      the keys that are not tabs. */
  lemma InitialFormDataBlank(t: string)
    ensures !IsTab(t) <==> InitialFormData(t) == map[]
  {
    if IsTab(t) {
      var k := if t == "boards" then "board_name" else if t == "mediums" then "medium_name"
        else if t == "classes" then "class_name" else if t == "years" then "year_name" else "book_name";
      assert k in InitialFormData(t);
    }
  }

  /** The first piece of a split at 'T': the text before the first 'T', or
      all of it. */
  function BeforeT(s: string): (r: string)
    ensures |r| <= |s| && r == s[..|r|]
    ensures forall i | 0 <= i < |r| :: r[i] != 'T'
    ensures |r| < |s| ==> s[|r|] == 'T'
  {
    if s == [] || s[0] == 'T' then [] else [s[0]] + BeforeT(s[1..])
  }

  /** A date field cut at its first 'T': a missing date becomes `''`; a
      value that is neither text nor missing has no `split`, which throws
      (None). */
  function DatePart(v: Scalar): (r: Option<Scalar>)
    ensures r.None? <==> v.Number?
    ensures v.Absent? ==> r == Some(Text(""))
    ensures v.Text? ==>
      && r.Some? && r.value.Text? && |r.value.s| <= |v.s| && r.value.s == v.s[..|r.value.s|]
      && (|r.value.s| < |v.s| ==> v.s[|r.value.s|] == 'T')
  {
    match v
    case Absent => Some(Text(""))
    case Text(s) => Some(Text(BeforeT(s)))
    case Number(_) => None
  }

  /** The date part never holds a 'T', and cutting it again changes nothing. */
  lemma DatePartHasNoT(v: Scalar)
    requires DatePart(v).Some?
    ensures DatePart(v).value.Text?
    ensures forall i | 0 <= i < |DatePart(v).value.s| :: DatePart(v).value.s[i] != 'T'
    ensures DatePart(DatePart(v).value) == DatePart(v)
  {
    if v.Text? {
      BeforeTIdempotent(v.s);
    }
  }

  lemma {:induction false} BeforeTIdempotent(s: string)
    ensures BeforeT(BeforeT(s)) == BeforeT(s)
  {
    if s != [] && s[0] != 'T' {
      BeforeTIdempotent(s[1..]);
      assert ([s[0]] + BeforeT(s[1..]))[1..] == BeforeT(s[1..]);
    }
  }

  /** The date part of "<date>T<time>" is exactly the date, when the date
      holds no 'T'. */
  lemma {:induction false} BeforeTOfTimestamp(date: string, time: string)
    requires forall i | 0 <= i < |date| :: date[i] != 'T'
    ensures BeforeT(date + "T" + time) == date
  {
    if date != [] {
      assert (date + "T" + time)[1..] == date[1..] + "T" + time;
      BeforeTOfTimestamp(date[1..], time);
    }
  }

  /** A timestamp keeps only its date. */
  lemma DatePartExample()
    ensures DatePart(Text("2024-06-01T00:00")) == Some(Text("2024-06-01"))
  {
    assert "2024-06-01T00:00" == "2024-06-01" + "T" + "00:00";
    BeforeTOfTimestamp("2024-06-01", "00:00");
  }

  /** `getFormDataFromItem`: the tab's fields copied from the record, dates
      cut at 'T'; None when cutting a date throws; `{}` for any other key. */
  function FormDataFromItem(t: string, item: Item): Option<FormData> {
    if t == "boards" then Some(map["board_name" := FieldOf(item, "board_name")])
    else if t == "mediums" then Some(map["medium_name" := FieldOf(item, "medium_name")])
    else if t == "classes" then
      Some(map["class_name" := FieldOf(item, "class_name"), "class_order" := FieldOf(item, "class_order")])
    else if t == "years" then
      match (DatePart(FieldOf(item, "start_date")), DatePart(FieldOf(item, "end_date")))
      case (Some(start), Some(end)) =>
        Some(map["year_name" := FieldOf(item, "year_name"), "start_date" := start, "end_date" := end])
      case _ => None
    else if t == "books" then
      Some(map["book_name" := FieldOf(item, "book_name"), "subject" := FieldOf(item, "subject"),
               "publisher" := FieldOf(item, "publisher")])
    else Some(map[])
  }

  /** The edit form has the same fields as the add form of its tab, and
      building it fails only for a year whose date is not text. */
  lemma FormDataFromItemKeys(t: string, item: Item)
    ensures FormDataFromItem(t, item).None? <==>
      t == "years" && (FieldOf(item, "start_date").Number? || FieldOf(item, "end_date").Number?)
    ensures FormDataFromItem(t, item).Some? ==> FormDataFromItem(t, item).value.Keys == InitialFormData(t).Keys
  {
  }

  /** The edit form copies every field of the record except the dates,
      which are the record's dates cut at 'T'. */
  lemma FormDataFromItemCopies(t: string, item: Item)
    requires FormDataFromItem(t, item).Some?
    ensures forall k | k in FormDataFromItem(t, item).value && k != "start_date" && k != "end_date" ::
      FormDataFromItem(t, item).value[k] == FieldOf(item, k)
    ensures t == "years" ==>
      && FormDataFromItem(t, item).value["start_date"] == DatePart(FieldOf(item, "start_date")).value
      && FormDataFromItem(t, item).value["end_date"] == DatePart(FieldOf(item, "end_date")).value
  {
  }

  /** A year's edit form holds its dates without the time part. */
  lemma YearFormDates(item: Item)
    requires FormDataFromItem("years", item).Some?
    ensures var f := FormDataFromItem("years", item).value;
      && f["start_date"].Text? && f["end_date"].Text?
      && (forall i | 0 <= i < |f["start_date"].s| :: f["start_date"].s[i] != 'T')
      && (forall i | 0 <= i < |f["end_date"].s| :: f["end_date"].s[i] != 'T')
  {
    DatePartHasNoT(FieldOf(item, "start_date"));
    DatePartHasNoT(FieldOf(item, "end_date"));
  }

  /** `getItemName`: the tab's name field of the record, `''` for any other key. */
  function ItemName(t: string, item: Item): (r: Scalar)
    ensures !IsTab(t) ==> r == Text("")
  {
    if t == "boards" then FieldOf(item, "board_name")
    else if t == "mediums" then FieldOf(item, "medium_name")
    else if t == "classes" then FieldOf(item, "class_name")
    else if t == "years" then FieldOf(item, "year_name")
    else if t == "books" then FieldOf(item, "book_name")
    else Text("")
  }

  /** `handleInputChange` on the dialog's form: only the named field changes. */
  function WithInput(form: FormData, name: string, value: string): (r: FormData)
    ensures r.Keys == form.Keys + {name} && r[name] == Text(value)
    ensures forall k | k in form && k != name :: r[k] == form[k]
  {
    form[name := Text(value)]
  }

  // ---------------------------------------------------------------------
  // Entity names in messages

  /** The key without its last character, as the messages take it. */
  function SliceLast(tab: string): (r: string)
    ensures tab != [] ==> r + [tab[|tab| - 1]] == tab
    ensures tab == [] ==> r == []
  {
    if tab == [] then [] else tab[..|tab| - 1]
  }

  /** The entity's singular name: the tab key without its plural ending,
      which is "es" for classes and "s" for the other tabs. */
  function Singular(tab: string): (r: string)
    ensures IsTab(tab) ==> |r| < |tab| && r == tab[..|r|]
  {
    if tab == "classes" then "class" else SliceLast(tab)
  }

  /** Each tab's singular is the stem of its name field, which is both the
      field `getItemName` reads and a field of the tab's forms. */
  lemma SingularNamesTheNameField(t: string, item: Item)
    requires IsTab(t)
    ensures Singular(t) + "_name" in InitialFormData(t)
    ensures ItemName(t, item) == FieldOf(item, Singular(t) + "_name")
    ensures FormDataFromItem(t, item).Some? ==> FormDataFromItem(t, item).value[Singular(t) + "_name"] == ItemName(t, item)
  {
    if t == "boards" {
      assert Singular(t) == "board";
      assert Singular(t) + "_name" == "board_name";
    } else if t == "mediums" {
      assert Singular(t) == "medium";
      assert Singular(t) + "_name" == "medium_name";
    } else if t == "classes" {
      assert Singular(t) + "_name" == "class_name";
    } else if t == "years" {
      assert Singular(t) == "year";
      assert Singular(t) + "_name" == "year_name";
    } else {
      assert Singular(t) == "book";
      assert Singular(t) + "_name" == "book_name";
    }
  }

  /** As written, the classes tab's entity name is "classe", whose name
      field would be "classe_name"; the classes form has no such field. */
  lemma SliceLastMisnamesClasses()
    ensures SliceLast("classes") == "classe"
    ensures SliceLast("classes") + "_name" !in InitialFormData("classes")
  {
    assert SliceLast("classes") + "_name" == "classe_name";
  }

  /** Dropping the last character of a key ending in 's' gives its stem. */
  lemma SliceLastOfPlural(tab: string, stem: string)
    requires tab == stem + "s"
    ensures SliceLast(tab) == stem
  {
    assert tab[..|tab| - 1] == stem;
  }

  // ---------------------------------------------------------------------
  // Messages

  datatype Mode = Add | Edit

  function ModeName(m: Mode): string {
    match m
    case Add => "add"
    case Edit => "edit"
  }

  /** The text of a success message about an entity. */
  function SavedText(entity: string, m: Mode): string {
    entity + (if m == Add then " added successfully!" else " updated successfully!")
  }

  /** The text of a failure message about an entity when the server says
      nothing. */
  function FallbackText(entity: string, m: Mode): string {
    "Failed to " + ModeName(m) + " " + entity
  }

  /** The server's error message when it sent a non-empty one, else the
      fallback. */
  function ServerErrorOr(serverError: Option<string>, fallback: string): (r: string)
    ensures serverError.Some? && serverError.value != "" ==> r == serverError.value
    ensures serverError.None? || serverError.value == "" ==> r == fallback
  {
    if serverError.Some? && serverError.value != "" then serverError.value else fallback
  }

  /** The message shown after a successful save, as `handleSubmit` computes
      it: the entity is named by the tab key without its last character. */
  function SuccessMessage(tab: string, m: Mode): string {
    SavedText(SliceLast(tab), m)
  }

  /** The message shown after a failed save, as `handleSubmit` computes it:
      the server's message, else one naming the mode and the entity the way
      the success message does. */
  function FailureMessage(serverError: Option<string>, tab: string, m: Mode): (r: string)
    ensures r != ""
    ensures serverError.Some? && serverError.value != "" ==> r == serverError.value
    ensures serverError.None? || serverError.value == "" ==>
      r == "Failed to " + ModeName(m) + " " + SliceLast(tab)
  {
    ServerErrorOr(serverError, FallbackText(SliceLast(tab), m))
  }

  /** The success message as evidently intended: the entity by its singular. */
  function IntendedSuccessMessage(tab: string, m: Mode): string {
    SavedText(Singular(tab), m)
  }

  /** The failure message as evidently intended: the entity by its singular. */
  function IntendedFailureMessage(serverError: Option<string>, tab: string, m: Mode): (r: string)
    ensures r != ""
    ensures serverError.Some? && serverError.value != "" ==> r == serverError.value
    ensures serverError.None? || serverError.value == "" ==>
      r == "Failed to " + ModeName(m) + " " + Singular(tab)
  {
    ServerErrorOr(serverError, FallbackText(Singular(tab), m))
  }

  /** The messages as written and as intended agree on every key but
      "classes"; there the failure messages agree only when the server's
      own message is shown. */
  lemma MessagesDifferOnlyOnClasses(serverError: Option<string>, tab: string, m: Mode)
    ensures SuccessMessage(tab, m) == IntendedSuccessMessage(tab, m) <==> tab != "classes"
    ensures FailureMessage(serverError, tab, m) == IntendedFailureMessage(serverError, tab, m) <==>
      tab != "classes" || (serverError.Some? && serverError.value != "")
  {
    if tab == "classes" {
      SliceLastMisnamesClasses();
      assert |SavedText("classe", m)| != |SavedText("class", m)|;
      assert |FallbackText("classe", m)| != |FallbackText("class", m)|;
    }
  }

  /** For a key that is a stem plus 's', every message names the stem. */
  lemma MessagesOfPluralKey(tab: string, stem: string, m: Mode)
    requires tab == stem + "s"
    ensures SuccessMessage(tab, Add) == stem + " added successfully!"
    ensures SuccessMessage(tab, Edit) == stem + " updated successfully!"
    ensures FailureMessage(None, tab, m) == "Failed to " + ModeName(m) + " " + stem
  {
    SliceLastOfPlural(tab, stem);
  }

  /** Every tab key ends in 's', so `MessagesOfPluralKey` applies to each
      tab with the key's own slice as the stem. */
  lemma TabIsPlural(tab: string)
    requires IsTab(tab)
    ensures tab == SliceLast(tab) + "s"
  {
    assert tab[|tab| - 1] == 's';
  }

  /** The classes tab's messages as written. */
  lemma ClassesMessages()
    ensures SuccessMessage("classes", Edit) == "classe updated successfully!"
    ensures FailureMessage(None, "classes", Add) == "Failed to add classe"
  {
    MessagesOfPluralKey("classes", "classe", Add);
    assert "classe" + " updated successfully!" == "classe updated successfully!";
    assert "Failed to " + "add" + " " + "classe" == "Failed to add classe";
  }

  // ---------------------------------------------------------------------
  // The screen's state

  /** What a save sends: a create for the tab, or an update of one record. */
  datatype Request = Create(tab: string, data: FormData) | Update(tab: string, id: Scalar, data: FormData)

  /** The outcome of the create or update call. */
  datatype SaveReply = Saved | Failed(serverError: Option<string>)

  class ScreenState {
    var activeTab: string
    var modalOpen: bool
    var modalMode: Mode
    var currentItem: Option<Item>
    var formData: FormData
    var submitting: bool
    var error: string
    var success: string

    constructor ()
      ensures activeTab == "boards" && !modalOpen && modalMode == Add && currentItem == None
      ensures formData == map[] && !submitting && error == "" && success == ""
    {
      activeTab := "boards";
      modalOpen := false;
      modalMode := Add;
      currentItem := None;
      formData := map[];
      submitting := false;
      error := "";
      success := "";
    }

    /** `openAddModal`: an add dialog with the tab's blank form, messages cleared. */
    method OpenAddModal(t: string)
      modifies this
      ensures modalMode == Add && currentItem == None && formData == InitialFormData(t) && modalOpen
      ensures error == "" && success == ""
      ensures activeTab == old(activeTab) && submitting == old(submitting)
    {
      modalMode := Add;
      currentItem := None;
      formData := InitialFormData(t);
      modalOpen := true;
      error := "";
      success := "";
    }

    /** `closeModal`: the dialog is closed and emptied. */
    method CloseModal()
      modifies this
      ensures !modalOpen && formData == map[] && currentItem == None
      ensures modalMode == old(modalMode) && activeTab == old(activeTab)
      ensures submitting == old(submitting) && error == old(error) && success == old(success)
    {
      modalOpen := false;
      formData := map[];
      currentItem := None;
    }

    /** `handleInputChange`. */
    method HandleInputChange(name: string, value: string)
      modifies this
      ensures formData == WithInput(old(formData), name, value)
      ensures modalOpen == old(modalOpen) && modalMode == old(modalMode) && currentItem == old(currentItem)
      ensures activeTab == old(activeTab) && submitting == old(submitting)
      ensures error == old(error) && success == old(success)
    {
      formData := formData[name := Text(value)];
    }

    /** `handleSubmit`: messages are cleared; an add creates a record of the
        active tab, an edit updates the current record (with no current record
        reading its id throws before any request); the reply sets the success
        or the error message. The dialog's contents are kept. */
    method HandleSubmit(reply: SaveReply) returns (request: Option<Request>)
      modifies this
      ensures modalMode == Add ==> request == Some(Create(activeTab, formData))
      ensures modalMode == Edit && currentItem.Some? ==>
        request == Some(Update(activeTab, FieldOf(currentItem.value, "id"), formData))
      ensures modalMode == Edit && currentItem.None? ==>
        request == None && success == "" && error == FailureMessage(None, activeTab, Edit)
      ensures request.Some? && reply.Saved? ==> success == SuccessMessage(activeTab, modalMode) && error == ""
      ensures request.Some? && reply.Failed? ==>
        success == "" && error == FailureMessage(reply.serverError, activeTab, modalMode)
      ensures !submitting
      ensures activeTab == old(activeTab) && modalOpen == old(modalOpen) && modalMode == old(modalMode)
      ensures currentItem == old(currentItem) && formData == old(formData)
    {
      error := "";
      success := "";
      submitting := true;
      if modalMode == Add {
        request := Some(Create(activeTab, formData));
      } else if currentItem.Some? {
        request := Some(Update(activeTab, FieldOf(currentItem.value, "id"), formData));
      } else {
        request := None;
      }
      if request.None? {
        error := FailureMessage(None, activeTab, modalMode);
      } else if reply.Saved? {
        success := SuccessMessage(activeTab, modalMode);
      } else {
        error := FailureMessage(reply.serverError, activeTab, modalMode);
      }
      submitting := false;
    }

    /** The callback run one second after a successful save: the dialog is
        closed and the success message cleared. */
    method AfterSave()
      modifies this
      ensures !modalOpen && formData == map[] && currentItem == None && success == ""
      ensures modalMode == old(modalMode) && activeTab == old(activeTab)
      ensures submitting == old(submitting) && error == old(error)
    {
      CloseModal();
      success := "";
    }
  }
}
