# Admin dashboard table controller, in Dafny

The admin dashboard fetches a list of people records `{id, name, email, role}`
once and shows them in a table. The table has ten rows per page, a checkbox per
row, a select-all checkbox in the header, an edit dialog, and two delete dialogs:
one for a single row and one for several rows. Edits and deletions change only
the in-memory list. Nothing is written back to the server.

This project models the table controller as three Dafny modules. Each one is a
class whose fields are the component's state cells and whose methods are its
event handlers, one atomic transition per handler:

- `PaginatedTable` models `src/Components/PaginatedTable.js`, the version the
  dashboard mounts. It stores the header's "checked" state in a cell of its own,
  and a single `handleModal(isMultiple, action)` dispatches the dialog buttons. The
  model splits that handler along its two `switch` statements and their cases.
  Only the two checkbox handlers write the stored "checked" cell. A page change
  or a dialog button leaves it as it was, so the header can show checked while
  nothing is selected.
- `TempDraft` models `src/Components/temp.js`, an earlier draft. It has no update
  path, it derives "checked" as `|selectedRows| == |dataSource|`, and each dialog
  button has its own handler.
- `Temp2Draft` models `src/Components/temp2.js`. It is the first draft plus
  `updatePerson` and the edit dialog. Its row checkboxes register their callback
  under a property name (`onCl`) that the checkbox never calls. Its
  `HandleCheckboxChange` is modelled, but the page never reaches it.

All three share module `Rows`, which holds the pure sequence transforms the
handlers apply:

- `Filter`: JavaScript's `Array.prototype.filter`.
- `Slice`: `Array.prototype.slice`, with JavaScript's clamping of its bounds.
- `PageRows`: a page of ten rows.
- `RemoveId` and `RemoveIds`: single and bulk deletion.
- `Untick`: unticking a row checkbox.
- `Merge` and `MergeById`: the object-spread update of an edit.
- `FindById`: `Array.prototype.find` by id.

Each class method's postcondition gives the complete new state as one update
of a snapshot of the cells (`View() == old(View()).(field := …)`). That also
states that every other cell is left as it was, `totalItems` included, since
only the fetch sets it.

`Rows.Consistent` is the invariant of the states the page can reach:

- the current page is at least 1;
- every selected id is the id of a row in the table;
- the single-delete dialog is open only when a person has been recorded for it.

Every handler preserves it. A row checkbox preserves it when it is ticked for a
row on the visible page. An update preserves it when the update supplies no id,
and the edit form never supplies one. The invariant matters because the single
"ok" reads `selectedPerson.id` inside the filter callback. That read fails when
no person is recorded and the table is not empty. This is the one precondition
on that handler, and in every consistent state with the dialog open it holds.

Ids are strings compared by value. The model does not assume they are unique.
Where a property needs unique ids, the lemma says so (`UniqueIds`, or the
weaker first-occurrence condition of `FindFirst`). The selection is a sequence,
not a set, because ticking appends without checking for a repeat. A row
checkbox's change event is modelled as its `checked` boolean. The delete
button's handler takes no argument, because the source ignores the row id it
is passed.

## Model

| member | source | states |
|---|---|---|
| `Rows.Filter` | src/Components/PaginatedTable.js:149-150 | the result is no longer than the input and holds exactly the input's elements that the test accepts |
| `Rows.FilterAppend` | src/Components/PaginatedTable.js:150 | filtering distributes over concatenation, so the survivors keep their relative order |
| `Rows.FilterCount` | src/Components/PaginatedTable.js:166 | each accepted element survives as many times as it occurs; each rejected one does not survive |
| `Rows.FilterDropsOne` | src/Components/PaginatedTable.js:166 | a filter that rejects exactly one position of the sequence drops exactly one element |
| `Rows.Slice` | src/Components/PaginatedTable.js:183 | bounds inside the table select `s[start..end]`, an end past the length stops at the length, a start at or past the length or an end not past the start gives nothing, and the result is never longer than the table |
| `Rows.SliceFromEnd` | src/Components/PaginatedTable.js:183 | a negative bound counts back from the end, a bound before the first element clamps to 0, and an end before the first element gives nothing |
| `Rows.PageRows` | src/Components/PaginatedTable.js:177-183 | from page 1 on, the visible rows are `dataSource[(p-1)*10 .. min(p*10, len)]`, in order, at most ten, and empty past the end |
| `Rows.RowOnOnePage` | src/Components/PaginatedTable.js:177-178 | row k is shown on page p exactly when p = k/10 + 1, at position k mod 10 |
| `Rows.Ids` | src/Components/PaginatedTable.js:104 | the ids keep the rows' length and order, position by position, and the id of every row is among them |
| `Rows.PageIdsWithin` | src/Components/PaginatedTable.js:102-104 | every id select-all collects is the id of a row of the table |
| `Rows.Untick` | src/Components/PaginatedTable.js:95 | unticking removes every occurrence of the id and keeps every other id as often as it occurred |
| `Rows.UntickUndoesTick` | src/Components/PaginatedTable.js:92-95 | unticking an id just ticked gives back a selection that did not contain it |
| `Rows.UntickOrder` | src/Components/temp.js:93 | unticking distributes over concatenation, so the other ids keep their relative order |
| `Rows.HeaderAfterSelectAll` | src/Components/temp.js:38-41 | right after select-all on page p, the derived header is checked exactly when the table is empty, or p is 1 and the table fits on it, and is indeterminate exactly when page p is non-empty and not the whole table |
| `Rows.RemoveId` | src/Components/PaginatedTable.js:165-167 | single deletion removes exactly the rows with that id; every other row keeps its multiplicity |
| `Rows.RemoveIds` | src/Components/PaginatedTable.js:149-151 | bulk deletion removes exactly the rows whose id is selected; every other row keeps its multiplicity; no selected id remains |
| `Rows.RemovalOrder` | src/Components/temp.js:140-142 | both deletions distribute over concatenation, so the surviving rows keep their order |
| `Rows.RemoveIdOnlyRemoves` | src/Components/PaginatedTable.js:165-167 | single deletion neither adds nor alters a row: the result is a sub-multiset of the table |
| `Rows.RemoveIdsOnlyRemoves` | src/Components/PaginatedTable.js:149-151 | bulk deletion neither adds nor alters a row: the result is a sub-multiset of the table |
| `Rows.BulkOfOneIsSingle` | src/Components/temp2.js:155-158 | bulk deletion of a one-id selection equals single deletion of that id |
| `Rows.BulkIgnoresSelectionOrder` | src/Components/temp.js:161-163 | bulk deletion depends only on which ids are selected, not on their order or repeats |
| `Rows.RemoveIdOneRow` | src/Components/temp2.js:133-135 | with unique ids, deleting a row's id shortens the table by exactly one |
| `Rows.FindById` | src/Components/PaginatedTable.js:117 | the lookup finds nothing exactly when no row has the id; otherwise it returns a row of the table that has the id |
| `Rows.FindFirst` | src/Components/temp.js:118 | the lookup returns the first row with the id, so with unique ids it returns that row |
| `Rows.Merge` | src/Components/PaginatedTable.js:136 | each of id, name, email and role takes the supplied value when the update has that key, and keeps the person's value when it does not |
| `Rows.MergeSupplied` | src/Components/PaginatedTable.js:136 | merging the same values twice equals merging them once; an empty patch changes nothing; the edit form's values replace name, email and role and keep the id |
| `Rows.MergeById` | src/Components/PaginatedTable.js:133-139 | an update keeps the length, and each position holds the old row or, if its id matches, the old row merged with the values |
| `Rows.MergeByIdFields` | src/Components/temp2.js:141-147 | rows with another id are unchanged; on a matching row, absent fields keep their values and each supplied field (id, name, email, role) is overwritten; an id no row has changes nothing |
| `Rows.MergeByIdIdempotent` | src/Components/temp2.js:142-146 | applying the same update twice is the same as applying it once |
| `Rows.MergeByIdKeepsIds` | src/Components/EditModal.js:34-55 | an update whose values carry no id (the edit form has no id field) leaves the sequence of ids unchanged |
| `Rows.RemoveAfterEdit` | src/Components/PaginatedTable.js:133-139 | deleting a person after an id-free edit of them leaves the same table as deleting them unedited |
| `Rows.SelectionSurvivesEdit` | src/Components/PaginatedTable.js:135-137 | after an id-free update, every selected id still names a row |
| `Rows.LookupOfSelectedSucceeds` | src/Components/PaginatedTable.js:116-118 | when the one selected id names a row, the lookup records a person |
| `PaginatedTable.Table.constructor` | src/Components/PaginatedTable.js:8-18 | the state on mount: page 1, an empty table, no selection, every dialog closed, no person, header unchecked; it is consistent |
| `PaginatedTable.Table.Loaded` | src/Components/PaginatedTable.js:26-27 | the fetched data becomes the table and its length becomes `totalItems`; nothing else changes |
| `PaginatedTable.Table.HeaderState` | src/Components/PaginatedTable.js:40-43 | the header shows the stored flag as checked, and is indeterminate exactly when the number of selected ids is above 0 and below the number of rows; what it shows after select-all and after each dialog button is stated by `HandleSelectAllChange` and the four dialog cases |
| `PaginatedTable.Table.BulkModalMounted` | src/Components/PaginatedTable.js:200 | the bulk dialog exists exactly while the selection is non-empty; `HandleDelete` opens it only when it is mounted, and every dialog button unmounts it |
| `PaginatedTable.Table.HandlePageChange` | src/Components/PaginatedTable.js:86-88 | only the page changes; consistency is kept |
| `PaginatedTable.Table.HandleCheckboxChange` | src/Components/PaginatedTable.js:90-98 | ticking appends the id and unticking removes all its occurrences; the stored header flag becomes false; nothing else changes; consistency is kept for an id on the visible page |
| `PaginatedTable.Table.HandleSelectAllChange` | src/Components/PaginatedTable.js:100-108 | the selection becomes exactly the visible page's ids (ticked) or empty (unticked), with no union with the earlier selection; the stored header flag equals the tick; right after it the header is indeterminate exactly when the tick is on, page p is non-empty, and the table is not just page 1; consistency is kept |
| `PaginatedTable.Table.HandleEdit` | src/Components/PaginatedTable.js:110-113 | records the person and opens the edit dialog; nothing else changes |
| `PaginatedTable.Table.CloseEditModal` | src/Components/PaginatedTable.js:195 | only the edit dialog closes |
| `PaginatedTable.Table.HandleDelete` | src/Components/PaginatedTable.js:115-124 | with nothing selected nothing changes; with one id, the person found by it is recorded and the single dialog opens; with more, only the bulk dialog opens, and it is mounted; consistency is kept |
| `PaginatedTable.Table.UpdatePerson` | src/Components/PaginatedTable.js:133-139 | the table becomes the id-matched merge and nothing else changes; an id-free update keeps consistency |
| `PaginatedTable.Table.HandleModal` | src/Components/PaginatedTable.js:141-175 | the dialog flag selects the bulk or the single switch; rows only ever disappear; `totalItems` is untouched; after "ok" or "cancel" the bulk dialog is unmounted and the header is no longer indeterminate but keeps its stored checked flag; consistency is kept |
| `PaginatedTable.BulkModalOutcome` | src/Components/PaginatedTable.js:143-157 | "ok" and "cancel" close the bulk dialog and empty the selection; after "ok" no selected id is left in the table; rows only ever disappear; no other cell changes; any other action changes nothing; consistency is kept |
| `PaginatedTable.SingleModalOutcome` | src/Components/PaginatedTable.js:159-173 | "ok" and "cancel" close the single dialog and empty the selection; after "ok" no row has the recorded person's id; rows only ever disappear; no other cell changes; any other action changes nothing; consistency is kept |
| `PaginatedTable.Table.HandleBulkModal` | src/Components/PaginatedTable.js:143-157 | "cancel" and "ok" act as the two cases below; any other action string changes no cell |
| `PaginatedTable.Table.CancelBulk` | src/Components/PaginatedTable.js:144-147 | closes the bulk dialog and empties the selection; the table is unchanged; the bulk dialog is unmounted and the header shows only its stored checked flag |
| `PaginatedTable.Table.ConfirmBulk` | src/Components/PaginatedTable.js:148-154 | keeps exactly the rows whose id was not selected, in order; closes the bulk dialog; empties the selection; the bulk dialog is unmounted and the header shows only its stored checked flag |
| `PaginatedTable.Table.HandleSingleModal` | src/Components/PaginatedTable.js:159-173 | "cancel" and "ok" act as the two cases below; any other action string changes no cell |
| `PaginatedTable.Table.CancelSingle` | src/Components/PaginatedTable.js:160-163 | closes the single dialog and empties the selection; the table is unchanged; the bulk dialog is unmounted and the header shows only its stored checked flag |
| `PaginatedTable.Table.ConfirmSingle` | src/Components/PaginatedTable.js:164-170 | removes exactly the rows with the recorded person's id; closes the single dialog; empties the selection; needs a recorded person unless the table is empty; the bulk dialog is unmounted and the header shows only its stored checked flag |
| `TempDraft.Table.constructor` | src/Components/temp.js:7-16 | the state on mount, which is consistent |
| `TempDraft.Table.Loaded` | src/Components/temp.js:24-25 | the fetched data becomes the table and its length becomes `totalItems` |
| `TempDraft.Table.HeaderState` | src/Components/temp.js:36-44 | the header is checked exactly when the number of selected ids equals the number of rows (so an empty table shows it checked) and indeterminate exactly when the count is strictly between; never both; `HandleSelectAllChange` and the four dialog handlers state what it shows after them |
| `TempDraft.Table.BulkModalMounted` | src/Components/temp.js:196 | the bulk dialog exists exactly while the selection is non-empty; `HandleDelete` opens it only when it is mounted, and every dialog button unmounts it |
| `TempDraft.Table.HandlePageChange` | src/Components/temp.js:84-86 | only the page changes |
| `TempDraft.Table.HandleCheckboxChange` | src/Components/temp.js:88-95 | ticking appends the id and unticking removes all its occurrences; there is no header flag to touch; nothing else changes |
| `TempDraft.Table.HandleSelectAllChange` | src/Components/temp.js:97-106 | the selection becomes exactly the ids of page `(p-1)*10 .. p*10` or empty; after a tick the header is checked exactly when the table is empty or is page 1 alone, and indeterminate when page p is non-empty and not the whole table; after an untick it is checked only for an empty table |
| `TempDraft.Table.HandleEdit` | src/Components/temp.js:108-113 | records the person and raises the edit flag; no row changes |
| `TempDraft.Table.HandleDelete` | src/Components/temp.js:115-129 | with nothing selected nothing changes; with one id the found person is recorded and the single dialog opens; with more the bulk dialog opens; the bulk dialog it opens is mounted |
| `TempDraft.Table.HandleDeleteSingleModalOk` | src/Components/temp.js:138-149 | removes exactly the rows with the recorded person's id, closes the dialog and empties the selection; the bulk dialog is unmounted and the header is checked only for an empty table |
| `TempDraft.Table.HandleDeleteSingleModalCancel` | src/Components/temp.js:151-157 | closes the single dialog and empties the selection; the table is unchanged; the bulk dialog is unmounted and the header is checked only for an empty table |
| `TempDraft.Table.HandleDeleteMultipleModalOk` | src/Components/temp.js:159-170 | keeps exactly the unselected rows in order, closes the dialog and empties the selection; the bulk dialog is unmounted and the header is checked only for an empty table |
| `TempDraft.Table.HandleDeleteMultipleModalCancel` | src/Components/temp.js:172-178 | closes the bulk dialog and empties the selection; the table is unchanged; the bulk dialog is unmounted and the header is checked only for an empty table |
| `Temp2Draft.Table.constructor` | src/Components/temp2.js:8-17 | the state on mount, which is consistent |
| `Temp2Draft.Table.Loaded` | src/Components/temp2.js:25-26 | the fetched data becomes the table and its length becomes `totalItems` |
| `Temp2Draft.Table.HeaderState` | src/Components/temp2.js:37-45 | checked exactly when the number of selected ids equals the number of rows, indeterminate exactly when strictly between, never both; `HandleSelectAllChange` and the four dialog handlers state what it shows after them |
| `Temp2Draft.Table.BulkModalMounted` | src/Components/temp2.js:192 | the bulk dialog exists exactly while the selection is non-empty; `HandleDelete` opens it only when it is mounted, and every dialog button unmounts it |
| `Temp2Draft.Table.HandlePageChange` | src/Components/temp2.js:85-87 | only the page changes |
| `Temp2Draft.Table.HandleCheckboxChange` | src/Components/temp2.js:89-96 | ticking appends the id and unticking removes all its occurrences; the page never calls it (line 51) |
| `Temp2Draft.Table.HandleSelectAllChange` | src/Components/temp2.js:98-106 | the selection becomes exactly the visible page's ids or empty; after a tick the header is checked exactly when the table is empty or is page 1 alone, and indeterminate when page p is non-empty and not the whole table; after an untick it is checked only for an empty table |
| `Temp2Draft.Table.HandleEdit` | src/Components/temp2.js:108-111 | records the person and opens the edit dialog |
| `Temp2Draft.Table.CloseEditModal` | src/Components/temp2.js:188 | only the edit dialog closes |
| `Temp2Draft.Table.HandleDelete` | src/Components/temp2.js:113-123 | none selected: nothing; one: the found person is recorded and the single dialog opens; more: the bulk dialog opens; the bulk dialog it opens is mounted |
| `Temp2Draft.Table.HandleDeleteSingleModalOk` | src/Components/temp2.js:132-140 | removes exactly the rows with the recorded person's id, closes the dialog and empties the selection; the bulk dialog is unmounted and the header is checked only for an empty table |
| `Temp2Draft.Table.UpdatePerson` | src/Components/temp2.js:141-147 | the table becomes the id-matched merge of the values; nothing else changes |
| `Temp2Draft.Table.HandleDeleteSingleModalCancel` | src/Components/temp2.js:149-153 | closes the single dialog and empties the selection; the table is unchanged; the bulk dialog is unmounted and the header is checked only for an empty table |
| `Temp2Draft.Table.HandleDeleteMultipleModalOk` | src/Components/temp2.js:155-163 | keeps exactly the unselected rows in order, closes the dialog and empties the selection; the bulk dialog is unmounted and the header is checked only for an empty table |
| `Temp2Draft.Table.HandleDeleteMultipleModalCancel` | src/Components/temp2.js:165-169 | closes the bulk dialog and empties the selection; the table is unchanged; the bulk dialog is unmounted and the header is checked only for an empty table |

## Left out

- The HTTP fetch in `useEffect` is network I/O. `Loaded(data)` models its successful answer, and a failed fetch (only logged) leaves the mount state as it was.
- The JSX, the column definitions, and the `Table`, `Pagination`, `Modal` and `Checkbox` components are rendering only. The model keeps the derived header flags, the visible page, and the rule that the bulk dialog is mounted only while something is selected.
- `src/Components/EditModal.js` is not part of this model beyond its fields. Its form validation becomes the predicate `FromEditForm`: name, email and role are required, and there is no id field. `MergeSupplied` uses this predicate. `MergeByIdKeepsIds`, `RemoveAfterEdit`, `SelectionSurvivesEdit` and `UpdatePerson` need only its first part, that the values carry no id. `UpdatePerson` accepts any values, as the source does.
- `src/Components/SearchBar.js` is not connected to any state, and `src/Components/Dashboard.js` only composes components. Neither is part of this model.
- `console.log` and `console.error` are left out.
- React runs its state setters asynchronously and in batches. The model treats each handler as one atomic transition that reads the state as it was when the handler was called.
- The failing read of `selectedPerson.id` in the single "ok" is a precondition, not a modelled crash. The precondition excludes exactly the failing case: no person is recorded and the table is not empty.
- `HandleCheckboxChange`, in all three modules: consistency is proved preserved only when the ticked id is on the visible page. The page offers checkboxes only for those rows; the handler itself accepts any id.
