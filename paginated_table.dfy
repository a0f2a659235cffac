/**
  The table controller that the dashboard mounts: state cells as fields, each
  event handler one atomic transition of them. The header checkbox's "checked"
  state is a stored cell here, set by select-all and cleared by a row checkbox.
 */
module PaginatedTable {
  import opened Rows

  class Table {
    var currentPage: int
    var dataSource: seq<Person>
    var totalItems: nat
    var selectedRows: seq<Id>
    var isEditModalVisible: bool
    var isDeleteSingleModalVisible: bool
    var isDeleteMultipleModalVisible: bool
    var selectedPerson: Option<Person>
    var selectAllChecked: bool

    /** Every cell but the stored header flag, as one value. */
    ghost function View(): Cells
      reads this
    {
      Cells(currentPage, dataSource, totalItems, selectedRows, isEditModalVisible,
        isDeleteSingleModalVisible, isDeleteMultipleModalVisible, selectedPerson)
    }

    /**
      The class invariant every handler requires and keeps: the pagination bar
      reports pages from 1 on. It is the first conjunct of `Consistent`, which a
      handler keeps only under conditions of its own (an id on the visible page,
      an update without an id), so the two are stated apart.
     */
    ghost predicate Valid()
      reads this
    {
      currentPage >= 1
    }

    /** The cells' initial values as the component mounts. */
    constructor ()
      ensures Valid() && View() == Mounted && !selectAllChecked
      ensures Consistent(View())
    {
      currentPage := 1;
      dataSource := [];
      totalItems := 0;
      selectedRows := [];
      isEditModalVisible := false;
      isDeleteSingleModalVisible := false;
      isDeleteMultipleModalVisible := false;
      selectedPerson := None;
      selectAllChecked := false;
    }

    /** The fetch has answered with `data`: it becomes the table, and its length the item count. */
    method Loaded(data: seq<Person>)
      requires Valid()
      modifies this
      ensures Valid() && selectAllChecked == old(selectAllChecked)
      ensures View() == old(View()).(dataSource := data, totalItems := |data|)
      ensures Consistent(old(View())) && old(selectedRows) == [] ==> Consistent(View())
    {
      dataSource := data;
      totalItems := |data|;
    }

    /** The rows on screen. */
    function VisibleRows(): seq<Person>
      reads this
    {
      PageRows(dataSource, currentPage)
    }

    /** The header checkbox's two faces: the stored flag, and the derived indeterminate mark. */
    function HeaderState(): (r: (bool, bool))
      reads this
      ensures r.0 == selectAllChecked
      ensures r.1 <==> 0 < |selectedRows| < |dataSource|
    {
      (selectAllChecked, HeaderIndeterminate(selectedRows, dataSource))
    }

    /** The bulk-delete dialog is mounted only while something is selected. */
    function BulkModalMounted(): (r: bool)
      reads this
      ensures r <==> selectedRows != []
    {
      |selectedRows| > 0
    }

    method HandlePageChange(page: int)
      requires Valid() && page >= 1
      modifies this
      ensures Valid() && selectAllChecked == old(selectAllChecked)
      ensures View() == old(View()).(currentPage := page)
      ensures Consistent(old(View())) ==> Consistent(View())
    {
      currentPage := page;
    }

    /**
      A row checkbox: ticking appends the id (a repeat is not checked for),
      unticking drops every occurrence of it; the stored header flag clears.
     */
    method HandleCheckboxChange(checked: bool, id: Id)
      requires Valid()
      modifies this
      ensures Valid() && !selectAllChecked
      ensures View() == old(View()).(selectedRows := if checked then old(selectedRows) + [id]
                                                     else Untick(old(selectedRows), id))
      ensures Consistent(old(View())) && id in Ids(old(VisibleRows())) ==> Consistent(View())
    {
      if checked {
        selectedRows := selectedRows + [id];
      } else {
        selectedRows := Untick(selectedRows, id);
      }
      selectAllChecked := false;
      PageIdsWithin(dataSource, currentPage);
    }

    /** Select-all replaces the selection by the ids of the visible page, or empties it. */
    method HandleSelectAllChange(checked: bool)
      requires Valid()
      modifies this
      ensures Valid() && selectAllChecked == checked
      ensures View() == old(View()).(selectedRows := if checked then Ids(old(VisibleRows())) else [])
      ensures HeaderState() == (checked, checked && PageStart(currentPage) < |dataSource|
                                         && !(currentPage == 1 && |dataSource| <= PageSize))
      ensures Consistent(old(View())) ==> Consistent(View())
    {
      var currentPageIds := Ids(PageRows(dataSource, currentPage));
      selectedRows := if checked then currentPageIds else [];
      selectAllChecked := checked;
      PageIdsWithin(dataSource, currentPage);
      HeaderAfterSelectAll(dataSource, currentPage);
    }

    /** The edit button records the row and opens the edit dialog. */
    method HandleEdit(record: Person)
      requires Valid()
      modifies this
      ensures Valid() && selectAllChecked == old(selectAllChecked)
      ensures View() == old(View()).(selectedPerson := Some(record), isEditModalVisible := true)
      ensures Consistent(old(View())) ==> Consistent(View())
    {
      selectedPerson := Some(record);
      isEditModalVisible := true;
    }

    /** The edit dialog's close callback. */
    method CloseEditModal()
      requires Valid()
      modifies this
      ensures Valid() && selectAllChecked == old(selectAllChecked)
      ensures View() == old(View()).(isEditModalVisible := false)
      ensures Consistent(old(View())) ==> Consistent(View())
    {
      isEditModalVisible := false;
    }

    /**
      A row's delete button. It ignores which row it was pressed on and looks at
      the selection only: nothing happens for none, one selected id opens the
      single dialog for the row found with it, several open the bulk dialog.
     */
    method HandleDelete()
      requires Valid()
      modifies this
      ensures Valid() && selectAllChecked == old(selectAllChecked)
      ensures |old(selectedRows)| == 0 ==> View() == old(View())
      ensures |old(selectedRows)| == 1 ==>
        View() == old(View()).(selectedPerson := FindById(old(dataSource), old(selectedRows)[0]),
                               isDeleteSingleModalVisible := true)
      ensures |old(selectedRows)| > 1 ==> View() == old(View()).(isDeleteMultipleModalVisible := true)
      ensures |old(selectedRows)| > 1 ==> BulkModalMounted()
      ensures Consistent(old(View())) ==> Consistent(View())
    {
      if |selectedRows| == 1 {
        var selectedRow := FindById(dataSource, selectedRows[0]);
        if SelectionWithin(selectedRows, dataSource) {
          LookupOfSelectedSucceeds(selectedRows, dataSource);
        }
        selectedPerson := selectedRow;
        isDeleteSingleModalVisible := true;
      } else if |selectedRows| > 1 {
        isDeleteMultipleModalVisible := true;
      }
    }

    /** Merges `updatedValues` into every row whose id is `personId`. */
    method UpdatePerson(personId: Id, updatedValues: Patch)
      requires Valid()
      modifies this
      ensures Valid() && selectAllChecked == old(selectAllChecked)
      ensures View() == old(View()).(dataSource := MergeById(old(dataSource), personId, updatedValues))
      ensures Consistent(old(View())) && updatedValues.id.None? ==> Consistent(View())
    {
      if SelectionWithin(selectedRows, dataSource) && updatedValues.id.None? {
        SelectionSurvivesEdit(selectedRows, dataSource, personId, updatedValues);
      }
      dataSource := MergeById(dataSource, personId, updatedValues);
    }

    /**
      The two delete dialogs' buttons, each dispatched on its action string.
      The single "ok" reads the recorded person's id for every row, so it needs
      a recorded person unless the table is empty.
     */
    method HandleModal(isMultiple: bool, action: string)
      requires Valid()
      requires !isMultiple && action == "ok" && dataSource != [] ==> selectedPerson.Some?
      modifies this
      ensures Valid() && selectAllChecked == old(selectAllChecked)
      ensures isMultiple ==> View() == old(BulkModalOutcome(View(), action))
      ensures !isMultiple ==> View() == old(SingleModalOutcome(View(), action))
      ensures multiset(dataSource) <= multiset(old(dataSource))
      ensures action == "cancel" || action == "ok" ==>
        HeaderState() == (old(selectAllChecked), false) && !BulkModalMounted()
      ensures Consistent(old(View())) ==> Consistent(View())
    {
      if isMultiple {
        HandleBulkModal(action);
      } else {
        HandleSingleModal(action);
      }
    }

    /**
      The bulk dialog's switch: "cancel" closes it and empties the selection, "ok"
      first removes every row whose id is selected, anything else changes nothing.
     */
    method HandleBulkModal(action: string)
      requires Valid()
      modifies this
      ensures Valid() && selectAllChecked == old(selectAllChecked)
      ensures View() == old(BulkModalOutcome(View(), action))
      ensures multiset(dataSource) <= multiset(old(dataSource))
      ensures Consistent(old(View())) ==> Consistent(View())
    {
      assert "ok" != "cancel" by { assert "ok"[0] != "cancel"[0]; }
      if action == "cancel" {
        CancelBulk();
      } else if action == "ok" {
        ConfirmBulk();
      }
    }

    /** `case "cancel"` of the bulk dialog. */
    method CancelBulk()
      requires Valid()
      modifies this
      ensures Valid() && selectAllChecked == old(selectAllChecked)
      ensures View() == old(View()).(isDeleteMultipleModalVisible := false, selectedRows := [])
      ensures HeaderState() == (old(selectAllChecked), false) && !BulkModalMounted()
      ensures Consistent(old(View())) ==> Consistent(View())
    {
      isDeleteMultipleModalVisible := false;
      selectedRows := [];
    }

    /** `case "ok"` of the bulk dialog: the filter reads the selection before it is emptied. */
    method ConfirmBulk()
      requires Valid()
      modifies this
      ensures Valid() && selectAllChecked == old(selectAllChecked)
      ensures View() == old(View()).(dataSource := RemoveIds(old(dataSource), old(selectedRows)),
                                     isDeleteMultipleModalVisible := false, selectedRows := [])
      ensures multiset(dataSource) <= multiset(old(dataSource))
      ensures HeaderState() == (old(selectAllChecked), false) && !BulkModalMounted()
      ensures Consistent(old(View())) ==> Consistent(View())
    {
      RemoveIdsOnlyRemoves(dataSource, selectedRows);
      dataSource := RemoveIds(dataSource, selectedRows);
      isDeleteMultipleModalVisible := false;
      selectedRows := [];
    }

    /**
      The single dialog's switch: "cancel" closes it and empties the selection, "ok"
      first removes every row carrying the recorded person's id, anything else
      changes nothing.
     */
    method HandleSingleModal(action: string)
      requires Valid()
      requires action == "ok" && dataSource != [] ==> selectedPerson.Some?
      modifies this
      ensures Valid() && selectAllChecked == old(selectAllChecked)
      ensures View() == old(SingleModalOutcome(View(), action))
      ensures multiset(dataSource) <= multiset(old(dataSource))
      ensures Consistent(old(View())) ==> Consistent(View())
    {
      assert "ok" != "cancel" by { assert "ok"[0] != "cancel"[0]; }
      if action == "cancel" {
        CancelSingle();
      } else if action == "ok" {
        ConfirmSingle();
      }
    }

    /** `case "cancel"` of the single dialog. */
    method CancelSingle()
      requires Valid()
      modifies this
      ensures Valid() && selectAllChecked == old(selectAllChecked)
      ensures View() == old(View()).(isDeleteSingleModalVisible := false, selectedRows := [])
      ensures HeaderState() == (old(selectAllChecked), false) && !BulkModalMounted()
      ensures Consistent(old(View())) ==> Consistent(View())
    {
      isDeleteSingleModalVisible := false;
      selectedRows := [];
    }

    /**
      `case "ok"` of the single dialog. The filter callback reads the recorded
      person's id, so it needs a recorded person unless there is no row to test.
     */
    method ConfirmSingle()
      requires Valid()
      requires dataSource != [] ==> selectedPerson.Some?
      modifies this
      ensures Valid() && selectAllChecked == old(selectAllChecked)
      ensures View() == old(View()).(dataSource := if old(selectedPerson).Some?
                                                    then RemoveId(old(dataSource), old(selectedPerson).value.id)
                                                    else old(dataSource),
                                     isDeleteSingleModalVisible := false, selectedRows := [])
      ensures multiset(dataSource) <= multiset(old(dataSource))
      ensures HeaderState() == (old(selectAllChecked), false) && !BulkModalMounted()
      ensures Consistent(old(View())) ==> Consistent(View())
    {
      if selectedPerson.Some? {
        RemoveIdOnlyRemoves(dataSource, selectedPerson.value.id);
        dataSource := RemoveId(dataSource, selectedPerson.value.id);
      }
      isDeleteSingleModalVisible := false;
      selectedRows := [];
    }
  }

  /**
    The cells after a bulk-dialog button: the dialog's switch on its action string.
    "ok" and "cancel" close the dialog and empty the selection, "ok" leaves no
    selected id in the table, rows only ever disappear, any other action changes
    nothing, and consistency is kept.
   */
  ghost function BulkModalOutcome(c: Cells, action: string): (r: Cells)
    ensures action == "cancel" || action == "ok" ==> !r.isDeleteMultipleModalVisible && r.selectedRows == []
    ensures action == "cancel" ==> r.dataSource == c.dataSource
    ensures action == "ok" ==> forall x :: x in Ids(r.dataSource) ==> x !in c.selectedRows
    ensures action != "cancel" && action != "ok" ==> r == c
    ensures multiset(r.dataSource) <= multiset(c.dataSource)
    ensures r.(dataSource := c.dataSource, selectedRows := c.selectedRows,
               isDeleteMultipleModalVisible := c.isDeleteMultipleModalVisible) == c
    ensures Consistent(c) ==> Consistent(r)
  {
    if action == "cancel" then c.(isDeleteMultipleModalVisible := false, selectedRows := [])
    else if action == "ok" then
      RemoveIdsOnlyRemoves(c.dataSource, c.selectedRows);
      c.(dataSource := RemoveIds(c.dataSource, c.selectedRows),
         isDeleteMultipleModalVisible := false, selectedRows := [])
    else c
  }

  /**
    The cells after a single-dialog button: the dialog's switch on its action
    string. "ok" and "cancel" close the dialog and empty the selection, "ok" leaves
    no row with the recorded person's id, rows only ever disappear, any other
    action changes nothing, and consistency is kept.
   */
  ghost function SingleModalOutcome(c: Cells, action: string): (r: Cells)
    ensures action == "cancel" || action == "ok" ==> !r.isDeleteSingleModalVisible && r.selectedRows == []
    ensures action == "cancel" ==> r.dataSource == c.dataSource
    ensures action == "ok" && c.selectedPerson.Some? ==> c.selectedPerson.value.id !in Ids(r.dataSource)
    ensures action != "cancel" && action != "ok" ==> r == c
    ensures multiset(r.dataSource) <= multiset(c.dataSource)
    ensures r.(dataSource := c.dataSource, selectedRows := c.selectedRows,
               isDeleteSingleModalVisible := c.isDeleteSingleModalVisible) == c
    ensures Consistent(c) ==> Consistent(r)
  {
    if action == "cancel" then c.(isDeleteSingleModalVisible := false, selectedRows := [])
    else if action == "ok" && c.selectedPerson.Some? then
      RemoveIdOnlyRemoves(c.dataSource, c.selectedPerson.value.id);
      c.(dataSource := RemoveId(c.dataSource, c.selectedPerson.value.id),
         isDeleteSingleModalVisible := false, selectedRows := [])
    else if action == "ok" then c.(isDeleteSingleModalVisible := false, selectedRows := [])
    else c
  }
}
