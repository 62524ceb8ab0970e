/**
 * The book-set list screen: which sets are expanded, the four list filters
 * and the query built from them, and the delete-confirmation dialog. The
 * list itself is fetched from the server and is not part of this model.
 */
module BookSetList {
  import opened JsValues

  /** The set with `id` toggled: its membership flips, no other id's does. */
  function Toggled(expanded: set<int>, id: int): (r: set<int>)
    ensures id in r <==> id !in expanded
    ensures forall other | other != id :: other in r <==> other in expanded
  {
    if id in expanded then expanded - {id} else expanded + {id}
  }

  /** Toggling the same set twice restores it. */
  lemma ToggleTwice(expanded: set<int>, id: int)
    ensures Toggled(Toggled(expanded, id), id) == expanded
  {
  }

  /** The filters before any choice: every key `''`. */
  const InitialFilters: map<string, string> :=
    map["board_id" := "", "medium_id" := "", "class_id" := "", "year_id" := ""]

  /** `handleFilterChange`: the named filter set to the new value, the others kept. */
  function WithFilter(filters: map<string, string>, name: string, value: string): (r: map<string, string>)
    ensures r.Keys == filters.Keys + {name} && r[name] == value
    ensures forall k | k in filters && k != name :: r[k] == filters[k]
  {
    filters[name := value]
  }

  /** The query parameters: the filter entries whose value is not `''`,
      with their values. */
  function ActiveFilters(filters: map<string, string>): (r: map<string, string>)
    ensures forall k :: k in r <==> k in filters && filters[k] != ""
    ensures forall k | k in r :: r[k] == filters[k]
  {
    map k | k in filters && filters[k] != "" :: filters[k]
  }

  /** The initial filters ask for nothing. */
  lemma NoActiveFiltersInitially()
    ensures ActiveFilters(InitialFilters) == map[]
  {
    assert forall k :: k !in ActiveFilters(InitialFilters);
  }

  /** Choosing "All ..." again (value `''`) drops that key from the query and
      leaves the rest of the query as it was. */
  lemma ClearingAFilter(filters: map<string, string>, name: string)
    ensures ActiveFilters(WithFilter(filters, name, "")) == ActiveFilters(filters) - {name}
  {
  }

  /** Choosing a value puts exactly that value under the key in the query. */
  lemma SettingAFilter(filters: map<string, string>, name: string, value: string)
    requires value != ""
    ensures ActiveFilters(WithFilter(filters, name, value)) == ActiveFilters(filters)[name := value]
  {
  }

  /** The delete-confirmation dialog: `{isOpen, id, name}`. */
  datatype DeleteModal = DeleteModal(isOpen: bool, id: Option<int>, name: string)

  const ClosedModal := DeleteModal(false, None, "")

  const DeleteFailed := "Failed to delete book set"

  class ListState {
    var expanded: set<int>
    var filters: map<string, string>
    var deleteModal: DeleteModal
    var deleting: bool
    var error: string

    constructor ()
      ensures expanded == {} && filters == InitialFilters && deleteModal == ClosedModal
      ensures !deleting && error == ""
    {
      expanded := {};
      filters := InitialFilters;
      deleteModal := ClosedModal;
      deleting := false;
      error := "";
    }

    /** `toggleExpand`: a copy of the set is changed in place and stored. */
    method ToggleExpand(id: int)
      modifies this
      ensures expanded == Toggled(old(expanded), id)
      ensures filters == old(filters) && deleteModal == old(deleteModal)
      ensures deleting == old(deleting) && error == old(error)
    {
      var newExpanded := expanded;
      if id in newExpanded {
        newExpanded := newExpanded - {id};
      } else {
        newExpanded := newExpanded + {id};
      }
      expanded := newExpanded;
    }

    /** `handleFilterChange`: the filter is stored and the query the list is
        then reloaded with is returned. */
    method HandleFilterChange(name: string, value: string) returns (query: map<string, string>)
      modifies this
      ensures filters == WithFilter(old(filters), name, value)
      ensures query == ActiveFilters(filters)
      ensures expanded == old(expanded) && deleteModal == old(deleteModal)
      ensures deleting == old(deleting) && error == old(error)
    {
      var newFilters := WithFilter(filters, name, value);
      filters := newFilters;
      query := ActiveFilters(newFilters);
    }

    /** `openDeleteModal`. */
    method OpenDeleteModal(id: int, name: string)
      modifies this
      ensures deleteModal == DeleteModal(true, Some(id), name)
      ensures expanded == old(expanded) && filters == old(filters)
      ensures deleting == old(deleting) && error == old(error)
    {
      deleteModal := DeleteModal(true, Some(id), name);
    }

    /** `closeDeleteModal`: the dialog is reset whatever it held. */
    method CloseDeleteModal()
      modifies this
      ensures deleteModal == ClosedModal
      ensures expanded == old(expanded) && filters == old(filters)
      ensures deleting == old(deleting) && error == old(error)
    {
      deleteModal := DeleteModal(false, None, "");
    }

    /** `handleDelete`, given whether the delete call succeeded: the delete
        request names the dialog's id (returned here); on success the dialog
        is closed, on failure the error is shown and the dialog stays. */
    method HandleDelete(deleted: bool) returns (target: Option<int>)
      modifies this
      ensures target == old(deleteModal).id
      ensures !deleting
      ensures deleted ==> deleteModal == ClosedModal && error == old(error)
      ensures !deleted ==> deleteModal == old(deleteModal) && error == DeleteFailed
      ensures expanded == old(expanded) && filters == old(filters)
    {
      deleting := true;
      target := deleteModal.id;
      if deleted {
        CloseDeleteModal();
      } else {
        error := DeleteFailed;
      }
      deleting := false;
    }
  }
}
