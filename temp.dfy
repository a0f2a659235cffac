/**
  The first draft of the table controller. It has no edit path that changes a
  row (the edit button only records the person and raises a flag nobody reads),
  derives the header's "checked" state from the selection instead of storing it,
  and gives each delete-dialog button a handler of its own.
 */
module TempDraft {
  import opened Rows

  class Table {
    var currentPage: int
    var dataSource: seq<Person>
    var totalItems: nat
    var selectedRows: seq<Id>
    var isEditModalVisible: bool
    var isDeleteSingleModalVisible: bool
    var isDeleteMultipleModalVisible: bool
    var selectedPerson: Option<Person>

    /** Every cell, as one value. */
    ghost function View(): Cells
      reads this
    {
      Cells(currentPage, dataSource, totalItems, selectedRows, isEditModalVisible,
        isDeleteSingleModalVisible, isDeleteMultipleModalVisible, selectedPerson)
    }

    /**
      The class invariant every handler requires and keeps: the pagination bar
      reports pages from 1 on. It is the first conjunct of `Consistent`, which a
      handler keeps only under conditions of its own, so the two are stated apart.
     */
    ghost predicate Valid()
      reads this
    {
      currentPage >= 1
    }

    /** The cells' initial values as the component mounts. */
    constructor ()
      ensures Valid() && View() == Mounted
      ensures Consistent(View())
    {
      currentPage := 1;
      dataSource := [];
      totalItems := 0;
      selectedRows := [];
      isEditModalVisible := false;
      isDeleteSingleModalVisible := false;
      isDeleteMultipleModalVisible := false;
      selectedPerson := None;
    }

    /** The fetch has answered with `data`: it becomes the table, and its length the item count. */
    method Loaded(data: seq<Person>)
      requires Valid()
      modifies this
      ensures Valid()
      ensures View() == old(View()).(dataSource := data, totalItems := |data|)
      ensures Consistent(old(View())) && old(selectedRows) == [] ==> Consistent(View())
    {
      dataSource := data;
      totalItems := |data|;
    }

    /** The rows on screen. */
    function VisibleRows(): seq<Person>
      reads this
    {
      PageRows(dataSource, currentPage)
    }

    /**
      The header checkbox: checked when there are as many selected ids as rows
      (so an empty table shows it checked), indeterminate strictly in between.
     */
    function HeaderState(): (r: (bool, bool))
      reads this
      ensures r.0 <==> |selectedRows| == |dataSource|
      ensures r.1 <==> 0 < |selectedRows| < |dataSource|
      ensures !(r.0 && r.1)
    {
      (DerivedHeaderChecked(selectedRows, dataSource), HeaderIndeterminate(selectedRows, dataSource))
    }

    /** The bulk-delete dialog is mounted only while something is selected. */
    function BulkModalMounted(): (r: bool)
      reads this
      ensures r <==> selectedRows != []
    {
      |selectedRows| > 0
    }

    method HandlePageChange(page: int)
      requires Valid() && page >= 1
      modifies this
      ensures Valid()
      ensures View() == old(View()).(currentPage := page)
      ensures Consistent(old(View())) ==> Consistent(View())
    {
      currentPage := page;
    }

    /** A row checkbox: ticking appends the id, unticking drops every occurrence of it. */
    method HandleCheckboxChange(checked: bool, id: Id)
      requires Valid()
      modifies this
      ensures Valid()
      ensures View() == old(View()).(selectedRows := if checked then old(selectedRows) + [id]
                                                     else Untick(old(selectedRows), id))
      ensures Consistent(old(View())) && id in Ids(old(VisibleRows())) ==> Consistent(View())
    {
      if checked {
        selectedRows := selectedRows + [id];
      } else {
        selectedRows := Untick(selectedRows, id);
      }
      PageIdsWithin(dataSource, currentPage);
    }

    /** Select-all replaces the selection by the ids of the visible page, or empties it. */
    method HandleSelectAllChange(checked: bool)
      requires Valid()
      modifies this
      ensures Valid()
      ensures View() == old(View()).(selectedRows := if checked then Ids(old(VisibleRows())) else [])
      ensures checked ==> HeaderState() == (dataSource == [] || (currentPage == 1 && |dataSource| <= PageSize),
                                            PageStart(currentPage) < |dataSource|
                                            && !(currentPage == 1 && |dataSource| <= PageSize))
      ensures !checked ==> HeaderState() == (dataSource == [], false)
      ensures Consistent(old(View())) ==> Consistent(View())
    {
      var currentPageIds := Ids(PageRows(dataSource, currentPage));
      selectedRows := if checked then currentPageIds else [];
      PageIdsWithin(dataSource, currentPage);
      HeaderAfterSelectAll(dataSource, currentPage);
    }

    /** The edit button records the row and raises the edit flag; no row changes. */
    method HandleEdit(record: Person)
      requires Valid()
      modifies this
      ensures Valid()
      ensures View() == old(View()).(selectedPerson := Some(record), isEditModalVisible := true)
      ensures Consistent(old(View())) ==> Consistent(View())
    {
      selectedPerson := Some(record);
      isEditModalVisible := true;
    }

    /**
      A row's delete button, looking at the selection only: nothing for none, the
      single dialog for the row found with one selected id, the bulk dialog for more.
     */
    method HandleDelete()
      requires Valid()
      modifies this
      ensures Valid()
      ensures |old(selectedRows)| == 0 ==> View() == old(View())
      ensures |old(selectedRows)| == 1 ==>
        View() == old(View()).(selectedPerson := FindById(old(dataSource), old(selectedRows)[0]),
                               isDeleteSingleModalVisible := true)
      ensures |old(selectedRows)| > 1 ==> View() == old(View()).(isDeleteMultipleModalVisible := true)
      ensures |old(selectedRows)| > 1 ==> BulkModalMounted()
      ensures Consistent(old(View())) ==> Consistent(View())
    {
      if |selectedRows| == 1 {
        var selectedRow := FindById(dataSource, selectedRows[0]);
        if SelectionWithin(selectedRows, dataSource) {
          LookupOfSelectedSucceeds(selectedRows, dataSource);
        }
        selectedPerson := selectedRow;
        isDeleteSingleModalVisible := true;
      } else if |selectedRows| > 1 {
        isDeleteMultipleModalVisible := true;
      }
    }

    /**
      The single dialog's "ok": removes the rows carrying the recorded person's id,
      closes the dialog and empties the selection. It reads that id for every row,
      so it needs a recorded person unless the table is empty.
     */
    method HandleDeleteSingleModalOk()
      requires Valid()
      requires dataSource != [] ==> selectedPerson.Some?
      modifies this
      ensures Valid()
      ensures View() == old(View()).(dataSource := if old(selectedPerson).Some?
                                                    then RemoveId(old(dataSource), old(selectedPerson).value.id)
                                                    else old(dataSource),
                                     isDeleteSingleModalVisible := false, selectedRows := [])
      ensures multiset(dataSource) <= multiset(old(dataSource))
      ensures HeaderState() == (dataSource == [], false) && !BulkModalMounted()
      ensures Consistent(old(View())) ==> Consistent(View())
    {
      if selectedPerson.Some? {
        RemoveIdOnlyRemoves(dataSource, selectedPerson.value.id);
        dataSource := RemoveId(dataSource, selectedPerson.value.id);
      }
      isDeleteSingleModalVisible := false;
      selectedRows := [];
    }

    /** The single dialog's "cancel": closes it and empties the selection. */
    method HandleDeleteSingleModalCancel()
      requires Valid()
      modifies this
      ensures Valid()
      ensures View() == old(View()).(isDeleteSingleModalVisible := false, selectedRows := [])
      ensures HeaderState() == (dataSource == [], false) && !BulkModalMounted()
      ensures Consistent(old(View())) ==> Consistent(View())
    {
      isDeleteSingleModalVisible := false;
      selectedRows := [];
    }

    /** The bulk dialog's "ok": removes the selected rows, closes it and empties the selection. */
    method HandleDeleteMultipleModalOk()
      requires Valid()
      modifies this
      ensures Valid()
      ensures View() == old(View()).(dataSource := RemoveIds(old(dataSource), old(selectedRows)),
                                     isDeleteMultipleModalVisible := false, selectedRows := [])
      ensures multiset(dataSource) <= multiset(old(dataSource))
      ensures HeaderState() == (dataSource == [], false) && !BulkModalMounted()
      ensures Consistent(old(View())) ==> Consistent(View())
    {
      RemoveIdsOnlyRemoves(dataSource, selectedRows);
      dataSource := RemoveIds(dataSource, selectedRows);
      isDeleteMultipleModalVisible := false;
      selectedRows := [];
    }

    /** The bulk dialog's "cancel": closes it and empties the selection. */
    method HandleDeleteMultipleModalCancel()
      requires Valid()
      modifies this
      ensures Valid()
      ensures View() == old(View()).(isDeleteMultipleModalVisible := false, selectedRows := [])
      ensures HeaderState() == (dataSource == [], false) && !BulkModalMounted()
      ensures Consistent(old(View())) ==> Consistent(View())
    {
      isDeleteMultipleModalVisible := false;
      selectedRows := [];
    }
  }
}
