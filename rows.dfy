/**
  People records, the state cells of the admin table controller, and the pure
  sequence transforms its event handlers apply: page slicing, removal by id,
  the id-matched merge of an edit, and the lookup of a selected row.
  All three versions of the controller share these definitions.
 */
module Rows {

  /** Record ids are the strings of the remote JSON; `===` on them is value equality. */
  type Id = string

  datatype Person = Person(id: Id, name: string, email: string, role: string)

  /** `null`/`undefined` versus an object. */
  datatype Option<T> = None | Some(value: T)

  /**
    The object spread into a person by an edit (`{ ...person, ...updatedValues }`):
    a key that is present overwrites the person's field, an absent key keeps it.
   */
  datatype Patch = Patch(id: Option<Id>, name: Option<string>, email: Option<string>, role: Option<string>)

  /** Rows shown per page, the `pageSize` of the pagination bar. */
  const PageSize: nat := 10

  /** The component's state cells, apart from the stored header flag of the final version. */
  datatype Cells = Cells(
    currentPage: int,
    dataSource: seq<Person>,
    totalItems: nat,
    selectedRows: seq<Id>,
    isEditModalVisible: bool,
    isDeleteSingleModalVisible: bool,
    isDeleteMultipleModalVisible: bool,
    selectedPerson: Option<Person>)

  /** The cells as the component mounts, before the fetch has answered. */
  const Mounted: Cells := Cells(1, [], 0, [], false, false, false, None)

  function Min(a: int, b: int): int { if a <= b then a else b }

  // ---------------------------------------------------------------------------
  // Array.prototype.filter
  // ---------------------------------------------------------------------------

  /** The elements of `s` that `keep` accepts, in their original order. */
  function Filter<T(==,!new)>(s: seq<T>, keep: T -> bool): (r: seq<T>)
    ensures |r| <= |s|
    ensures forall x :: x in r <==> x in s && keep(x)
  {
    if s == [] then [] else (if keep(s[0]) then [s[0]] else []) + Filter(s[1..], keep)
  }

  /** Filtering distributes over concatenation: survivors keep their relative order. */
  lemma {:induction false} FilterAppend<T(!new)>(s: seq<T>, t: seq<T>, keep: T -> bool)
    ensures Filter(s + t, keep) == Filter(s, keep) + Filter(t, keep)
  {
    if s == [] {
      assert s + t == t;
    } else {
      assert (s + t)[0] == s[0];
      assert (s + t)[1..] == s[1..] + t;
      FilterAppend(s[1..], t, keep);
    }
  }

  /** Every accepted element survives as often as it occurs; every rejected one disappears. */
  lemma {:induction false} FilterCount<T(!new)>(s: seq<T>, keep: T -> bool)
    ensures forall x :: multiset(Filter(s, keep))[x] == if keep(x) then multiset(s)[x] else 0
  {
    if s != [] {
      FilterCount(s[1..], keep);
      assert s == [s[0]] + s[1..];
      assert multiset(s) == multiset{s[0]} + multiset(s[1..]);
    }
  }

  /** A filter that accepts every element gives back the sequence itself. */
  lemma {:induction false} FilterKeepsAll<T(!new)>(s: seq<T>, keep: T -> bool)
    requires forall x :: x in s ==> keep(x)
    ensures Filter(s, keep) == s
  {
    if s != [] {
      FilterKeepsAll(s[1..], keep);
    }
  }

  /** Two tests that agree on the elements of `s` filter it alike. */
  lemma {:induction false} FilterAgree<T(!new)>(s: seq<T>, p: T -> bool, q: T -> bool)
    requires forall x :: x in s ==> p(x) == q(x)
    ensures Filter(s, p) == Filter(s, q)
  {
    if s != [] {
      FilterAgree(s[1..], p, q);
    }
  }

  // ---------------------------------------------------------------------------
  // Array.prototype.slice and pagination
  // ---------------------------------------------------------------------------

  /** A `slice` bound after JavaScript's clamping: a negative bound counts from the end. */
  function SliceBound(k: int, len: nat): (b: nat)
    ensures b <= len
    ensures 0 <= k <= len ==> b == k
    ensures k > len ==> b == len
    ensures k < 0 ==> b == if len + k < 0 then 0 else len + k
  {
    if k < 0 then (if len + k < 0 then 0 else len + k) else if k < len then k else len
  }

  /**
    `s.slice(start, end)`: bounds within the sequence select `s[start..end]`, an end
    past the length stops at the length, and a start at or past the length, or an
    end not past the start, gives nothing.
   */
  function Slice<T>(s: seq<T>, start: int, end: int): (r: seq<T>)
    ensures |r| <= |s|
    ensures 0 <= start <= end <= |s| ==> r == s[start..end]
    ensures 0 <= start <= |s| <= end ==> r == s[start..]
    ensures start >= |s| || 0 <= end <= start ==> r == []
  {
    var from, to := SliceBound(start, |s|), SliceBound(end, |s|);
    if from < to then s[from..to] else []
  }

  /** A negative `slice` bound counts back from the end, and one before the start clamps to 0. */
  lemma SliceFromEnd<T>(s: seq<T>, start: int, end: int)
    ensures -|s| <= start < 0 ==> Slice(s, start, end) == Slice(s, |s| + start, end)
    ensures start < -|s| ==> Slice(s, start, end) == Slice(s, 0, end)
    ensures -|s| <= end < 0 ==> Slice(s, start, end) == Slice(s, start, |s| + end)
    ensures end < -|s| ==> Slice(s, start, end) == []
  {
  }

  /** `startIndex` of a page. */
  function PageStart(page: int): int { (page - 1) * PageSize }

  /**
    The rows the table shows on `page`: `dataSource.slice(startIndex, endIndex)`.
    From the first page on it is the window of at most ten rows starting at the
    page's first index, in their original order, and empty past the end.
   */
  function PageRows(rows: seq<Person>, page: int): (r: seq<Person>)
    ensures page >= 1 && PageStart(page) < |rows| ==>
      r == rows[PageStart(page)..Min(PageStart(page) + PageSize, |rows|)]
    ensures page >= 1 && PageStart(page) >= |rows| ==> r == []
    ensures page >= 1 ==> |r| <= PageSize
  {
    Slice(rows, PageStart(page), page * PageSize)
  }

  /** Every row is shown on exactly one page, the one its index falls in. */
  lemma RowOnOnePage(rows: seq<Person>, k: int, page: int)
    requires 0 <= k < |rows| && page >= 1
    ensures PageStart(page) <= k < PageStart(page) + |PageRows(rows, page)| <==> page == k / PageSize + 1
    ensures PageRows(rows, k / PageSize + 1)[k % PageSize] == rows[k]
  {
  }

  /** The ids of a sequence of rows: `rows.map((row) => row.id)`. */
  function Ids(rows: seq<Person>): (r: seq<Id>)
    ensures |r| == |rows|
    ensures forall i :: 0 <= i < |rows| ==> r[i] == rows[i].id
    ensures forall p :: p in rows ==> p.id in r
  {
    seq(|rows|, i requires 0 <= i < |rows| => rows[i].id)
  }

  /** The ids that select-all puts in the selection all belong to rows of the table. */
  lemma PageIdsWithin(rows: seq<Person>, page: int)
    requires page >= 1
    ensures forall x :: x in Ids(PageRows(rows, page)) ==> x in Ids(rows)
  {
  }

  // ---------------------------------------------------------------------------
  // Selection
  // ---------------------------------------------------------------------------

  /**
    Unticking a row checkbox: `prevSelectedRows.filter((rowId) => rowId !== id)`.
    Every occurrence of `id` goes; every other id keeps its multiplicity.
   */
  function Untick(selected: seq<Id>, id: Id): (r: seq<Id>)
    ensures id !in r
    ensures forall x :: x != id ==> multiset(r)[x] == multiset(selected)[x]
  {
    FilterCount(selected, (x: Id) => x != id);
    Filter(selected, (x: Id) => x != id)
  }

  /** Unticking a row just ticked restores a selection that did not hold it. */
  lemma UntickUndoesTick(selected: seq<Id>, id: Id)
    requires id !in selected
    ensures Untick(selected + [id], id) == selected
  {
    var keep := (x: Id) => x != id;
    FilterAppend(selected, [id], keep);
    FilterKeepsAll(selected, keep);
    assert Filter([id], keep) == [];
  }

  /** Unticking keeps the other ids in their relative order: it distributes over concatenation. */
  lemma UntickOrder(front: seq<Id>, back: seq<Id>, id: Id)
    ensures Untick(front + back, id) == Untick(front, id) + Untick(back, id)
  {
    FilterAppend(front, back, (x: Id) => x != id);
  }

  /** Header checkbox, all versions: some but not all of the table's rows are selected. */
  predicate HeaderIndeterminate(selected: seq<Id>, rows: seq<Person>)
  {
    |selected| > 0 && |selected| < |rows|
  }

  /** Header checkbox of the drafts: as many selected ids as rows in the table. */
  predicate DerivedHeaderChecked(selected: seq<Id>, rows: seq<Person>)
  {
    |selected| == |rows|
  }

  /**
    Right after select-all ticks page `page`, the derived header shows checked only
    when that page holds the whole table, and indeterminate when the page holds
    some but not all of it.
   */
  lemma HeaderAfterSelectAll(rows: seq<Person>, page: int)
    requires page >= 1
    ensures DerivedHeaderChecked(Ids(PageRows(rows, page)), rows) <==>
      rows == [] || (page == 1 && |rows| <= PageSize)
    ensures HeaderIndeterminate(Ids(PageRows(rows, page)), rows) <==>
      PageStart(page) < |rows| && !(page == 1 && |rows| <= PageSize)
  {
  }

  // ---------------------------------------------------------------------------
  // Deletion
  // ---------------------------------------------------------------------------

  /**
    Single delete: `prevDataSource.filter((row) => row.id !== id)`.
    Exactly the rows with that id go, every other row keeps its multiplicity.
   */
  function RemoveId(rows: seq<Person>, id: Id): (r: seq<Person>)
    ensures forall p :: multiset(r)[p] == if p.id == id then 0 else multiset(rows)[p]
    ensures id !in Ids(r)
  {
    var keep := (row: Person) => row.id != id;
    FilterCount(rows, keep);
    var r := Filter(rows, keep);
    assert forall i :: 0 <= i < |r| ==> r[i] in r;
    r
  }

  /**
    Bulk delete: `prevDataSource.filter((row) => !selectedRows.includes(row.id))`.
    Exactly the rows whose id is selected go, every other row keeps its multiplicity.
   */
  function RemoveIds(rows: seq<Person>, selected: seq<Id>): (r: seq<Person>)
    ensures forall p :: multiset(r)[p] == if p.id in selected then 0 else multiset(rows)[p]
    ensures forall x :: x in Ids(r) ==> x !in selected
  {
    var keep := (row: Person) => row.id !in selected;
    FilterCount(rows, keep);
    var r := Filter(rows, keep);
    assert forall i :: 0 <= i < |r| ==> r[i] in r;
    r
  }

  /** Both deletions keep the survivors in their order: they distribute over concatenation. */
  lemma RemovalOrder(front: seq<Person>, back: seq<Person>, id: Id, selected: seq<Id>)
    ensures RemoveId(front + back, id) == RemoveId(front, id) + RemoveId(back, id)
    ensures RemoveIds(front + back, selected) == RemoveIds(front, selected) + RemoveIds(back, selected)
  {
    FilterAppend(front, back, (row: Person) => row.id != id);
    FilterAppend(front, back, (row: Person) => row.id !in selected);
  }

  /** Single deletion neither adds a row nor changes one: the result is a sub-multiset of the table. */
  lemma RemoveIdOnlyRemoves(rows: seq<Person>, id: Id)
    ensures multiset(RemoveId(rows, id)) <= multiset(rows)
  {
  }

  /** Bulk deletion neither adds a row nor changes one: the result is a sub-multiset of the table. */
  lemma RemoveIdsOnlyRemoves(rows: seq<Person>, selected: seq<Id>)
    ensures multiset(RemoveIds(rows, selected)) <= multiset(rows)
  {
  }

  /** Bulk deletion of a one-id selection is single deletion of that id. */
  lemma BulkOfOneIsSingle(rows: seq<Person>, id: Id)
    ensures RemoveIds(rows, [id]) == RemoveId(rows, id)
  {
    FilterAgree(rows, (row: Person) => row.id !in [id], (row: Person) => row.id != id);
  }

  /** Bulk deletion depends only on which ids are selected, not on their order or repeats. */
  lemma BulkIgnoresSelectionOrder(rows: seq<Person>, a: seq<Id>, b: seq<Id>)
    requires forall x :: x in a <==> x in b
    ensures RemoveIds(rows, a) == RemoveIds(rows, b)
  {
    FilterAgree(rows, (row: Person) => row.id !in a, (row: Person) => row.id !in b);
  }

  /** No two rows share an id; the data is assumed to arrive this way, nothing enforces it. */
  predicate UniqueIds(rows: seq<Person>)
  {
    forall i, j :: 0 <= i < j < |rows| ==> rows[i].id != rows[j].id
  }

  /** A filter that rejects exactly one position drops exactly one element. */
  lemma {:induction false} FilterDropsOne<T(!new)>(s: seq<T>, keep: T -> bool, k: int)
    requires 0 <= k < |s| && !keep(s[k])
    requires forall j :: 0 <= j < |s| && j != k ==> keep(s[j])
    ensures |Filter(s, keep)| == |s| - 1
  {
    if k == 0 {
      forall x | x in s[1..] ensures keep(x) {
        var j :| 0 <= j < |s[1..]| && s[1..][j] == x;
        assert s[j + 1] == x;
      }
      FilterKeepsAll(s[1..], keep);
    } else {
      FilterDropsOne(s[1..], keep, k - 1);
    }
  }

  /** With unique ids, deleting the id of a row removes exactly that one row. */
  lemma RemoveIdOneRow(rows: seq<Person>, k: int)
    requires UniqueIds(rows) && 0 <= k < |rows|
    ensures |RemoveId(rows, rows[k].id)| == |rows| - 1
  {
    var id := rows[k].id;
    var keep := (row: Person) => row.id != id;
    assert RemoveId(rows, id) == Filter(rows, keep);
    FilterDropsOne(rows, keep, k);
  }

  // ---------------------------------------------------------------------------
  // Lookup of the selected row
  // ---------------------------------------------------------------------------

  /** `rows.find((row) => row.id === id)`: the first row with that id, if any. */
  function FindById(rows: seq<Person>, id: Id): (r: Option<Person>)
    ensures r.None? <==> id !in Ids(rows)
    ensures r.Some? ==> r.value.id == id && r.value in rows
  {
    if rows == [] then None
    else if rows[0].id == id then
      assert Ids(rows)[0] == id;
      Some(rows[0])
    else
      assert Ids(rows) == [rows[0].id] + Ids(rows[1..]);
      FindById(rows[1..], id)
  }

  /** The lookup returns the first row carrying the id, so with unique ids the row itself. */
  lemma {:induction false} FindFirst(rows: seq<Person>, k: int)
    requires 0 <= k < |rows|
    requires forall j :: 0 <= j < k ==> rows[j].id != rows[k].id
    ensures FindById(rows, rows[k].id) == Some(rows[k])
  {
    if k > 0 {
      FindFirst(rows[1..], k - 1);
    }
  }

  // ---------------------------------------------------------------------------
  // Editing
  // ---------------------------------------------------------------------------

  /** The value of a key after a spread: the supplied one, or else the one already there. */
  function Pick<T>(supplied: Option<T>, current: T): T
  {
    if supplied.Some? then supplied.value else current
  }

  /**
    `{ ...person, ...updatedValues }`: every field the values supply is overwritten,
    every other field keeps the person's value.
   */
  function Merge(p: Person, patch: Patch): (r: Person)
    ensures patch.id.Some? ==> r.id == patch.id.value
    ensures patch.id.None? ==> r.id == p.id
    ensures patch.name.Some? ==> r.name == patch.name.value
    ensures patch.name.None? ==> r.name == p.name
    ensures patch.email.Some? ==> r.email == patch.email.value
    ensures patch.email.None? ==> r.email == p.email
    ensures patch.role.Some? ==> r.role == patch.role.value
    ensures patch.role.None? ==> r.role == p.role
  {
    Person(Pick(patch.id, p.id), Pick(patch.name, p.name), Pick(patch.email, p.email), Pick(patch.role, p.role))
  }

  /** What the edit form hands over: name, email and role are required, and there is no id field. */
  predicate FromEditForm(patch: Patch)
  {
    patch.id.None? && patch.name.Some? && patch.email.Some? && patch.role.Some?
  }

  /**
    Merging overwrites exactly the supplied fields, so merging the same values
    twice is merging them once; a form's values replace every editable field
    and keep the id.
   */
  lemma MergeSupplied(p: Person, patch: Patch)
    ensures Merge(Merge(p, patch), patch) == Merge(p, patch)
    ensures patch == Patch(None, None, None, None) ==> Merge(p, patch) == p
    ensures FromEditForm(patch) ==>
      Merge(p, patch) == Person(p.id, patch.name.value, patch.email.value, patch.role.value)
  {
  }

  /**
    `updatePerson`: `prevDataSource.map((person) => person.id === personId ? merged : person)`.
    Same length, and position by position the old row or its merge.
   */
  function MergeById(rows: seq<Person>, personId: Id, patch: Patch): (r: seq<Person>)
    ensures |r| == |rows|
    ensures forall i :: 0 <= i < |rows| ==>
      r[i] == if rows[i].id == personId then Merge(rows[i], patch) else rows[i]
  {
    if rows == [] then []
    else
      var first := if rows[0].id == personId then Merge(rows[0], patch) else rows[0];
      [first] + MergeById(rows[1..], personId, patch)
  }

  /**
    An update leaves rows with another id untouched and, on matching rows, changes
    only the fields the patch supplies; an id nobody has changes nothing.
   */
  lemma MergeByIdFields(rows: seq<Person>, personId: Id, patch: Patch, i: int)
    requires 0 <= i < |rows|
    ensures var r := MergeById(rows, personId, patch);
      && (rows[i].id != personId ==> r[i] == rows[i])
      && (rows[i].id == personId && patch.name.None? ==> r[i].name == rows[i].name)
      && (rows[i].id == personId && patch.email.None? ==> r[i].email == rows[i].email)
      && (rows[i].id == personId && patch.role.None? ==> r[i].role == rows[i].role)
      && (rows[i].id == personId && patch.id.None? ==> r[i].id == personId)
      && (rows[i].id == personId && patch.name.Some? ==> r[i].name == patch.name.value)
      && (rows[i].id == personId && patch.email.Some? ==> r[i].email == patch.email.value)
      && (rows[i].id == personId && patch.role.Some? ==> r[i].role == patch.role.value)
      && (rows[i].id == personId && patch.id.Some? ==> r[i].id == patch.id.value)
      && (personId !in Ids(rows) ==> r == rows)
  {
  }

  /** Applying the same update twice is applying it once. */
  lemma MergeByIdIdempotent(rows: seq<Person>, personId: Id, patch: Patch)
    ensures MergeById(MergeById(rows, personId, patch), personId, patch) == MergeById(rows, personId, patch)
  {
  }

  /** An update that supplies no id leaves the ids, and so every selection, as they were. */
  lemma MergeByIdKeepsIds(rows: seq<Person>, personId: Id, patch: Patch)
    requires patch.id.None?
    ensures Ids(MergeById(rows, personId, patch)) == Ids(rows)
  {
  }

  /** Deleting a person after editing them removes the same rows as deleting them unedited. */
  lemma {:induction false} RemoveAfterEdit(rows: seq<Person>, personId: Id, patch: Patch)
    requires patch.id.None?
    ensures RemoveId(MergeById(rows, personId, patch), personId) == RemoveId(rows, personId)
  {
    var keep := (row: Person) => row.id != personId;
    if rows != [] {
      var edited := MergeById(rows, personId, patch);
      RemoveAfterEdit(rows[1..], personId, patch);
      assert edited[1..] == MergeById(rows[1..], personId, patch);
      assert RemoveId(edited, personId) == Filter(edited, keep);
      assert RemoveId(rows, personId) == Filter(rows, keep);
      assert RemoveId(rows[1..], personId) == Filter(rows[1..], keep);
      assert RemoveId(edited[1..], personId) == Filter(edited[1..], keep);
    }
  }

  // ---------------------------------------------------------------------------
  // The invariant that keeps single deletion from dereferencing null
  // ---------------------------------------------------------------------------

  /** Every selected id is the id of some row of the table. */
  predicate SelectionWithin(selected: seq<Id>, rows: seq<Person>)
  {
    forall x :: x in selected ==> x in Ids(rows)
  }

  /**
    The cells as the UI can reach them: the page is at least one, the selection
    names rows of the table, and the single-delete dialog is open only with a
    person recorded for it.
   */
  predicate Consistent(c: Cells)
  {
    && c.currentPage >= 1
    && SelectionWithin(c.selectedRows, c.dataSource)
    && (c.isDeleteSingleModalVisible ==> c.selectedPerson.Some?)
  }

  /** The selection is still within the table after an update that keeps ids. */
  lemma SelectionSurvivesEdit(selected: seq<Id>, rows: seq<Person>, personId: Id, patch: Patch)
    requires SelectionWithin(selected, rows) && patch.id.None?
    ensures SelectionWithin(selected, MergeById(rows, personId, patch))
  {
  }

  /** Opening the single-delete dialog from a selection of one id in the table records a person. */
  lemma LookupOfSelectedSucceeds(selected: seq<Id>, rows: seq<Person>)
    requires SelectionWithin(selected, rows) && |selected| == 1
    ensures FindById(rows, selected[0]).Some?
  {
  }
}
