/**
  The shared list editor of src/components/GenericPickerGrid.tsx. A grid
  owns a list of rows; rows are added or replaced by picking an item from a
  filtered catalog in a modal, deleted from that modal, patched cell by cell,
  and reordered by dragging one row onto another.

  The component's React state (`mode`, `modalOpen`, `selectedIdx`,
  `editIndex`) and the rows its parent holds are one `State`; each handler
  is a function from the old state to the new one. The filtered catalog is
  computed from the catalog and the filter predicates and passed in.
 */
module Picker {
  import opened Options
  import opened RowLists

  datatype Mode = Add | Edit

  datatype State = State(
    mode: Mode,
    modalOpen: bool,
    selectedIdx: int,        // index into the filtered catalog, -1 for "— Choose —"
    editIndex: Option<nat>,  // the row being edited
    rows: seq<Row>)

  /**
    What every handler keeps: edit mode goes with a row being edited, that
    row exists, and a closed modal is reset to add mode with nothing chosen.
   */
  predicate Inv(s: State)
  {
    && (s.mode == Edit <==> s.editIndex.Some?)
    && (s.editIndex.Some? ==> s.editIndex.value < |s.rows|)
    && (!s.modalOpen ==> s.mode == Add && s.selectedIdx == -1)
  }

  /** The component's first render: modal closed, add mode, nothing chosen. */
  function Initial(rows: seq<Row>): (s: State)
    ensures Inv(s) && !s.modalOpen && s.rows == rows
  {
    State(Add, false, -1, None, rows)
  }

  // ---- Filtered catalog

  /** `filters.every(f => f.predicate(it, f.value))`, each filter's value bound in. */
  predicate AllPass<T>(preds: seq<T -> bool>, it: T)
  {
    forall i | 0 <= i < |preds| :: preds[i](it)
  }

  /** `filteredItems`: the catalog items every filter accepts, in catalog order. */
  function FilteredItems<T(!new)>(catalog: seq<T>, preds: seq<T -> bool>): (r: seq<T>)
    ensures |r| <= |catalog|
    ensures forall it :: it in r <==> it in catalog && AllPass(preds, it)
  {
    Filter(catalog, it => AllPass(preds, it))
  }

  /** Two filter controls pass an item exactly when both of their tests do. */
  lemma AllPassPair<T>(p: T -> bool, q: T -> bool, it: T)
    ensures AllPass([p, q], it) <==> p(it) && q(it)
  {
    var preds := [p, q];
    assert preds[0] == p && preds[1] == q;
  }

  /** With no filter the whole catalog is offered, in order. */
  lemma NoFiltersKeepAll<T(!new)>(catalog: seq<T>)
    ensures FilteredItems(catalog, []) == catalog
  {
    FilterAll(catalog, it => AllPass([], it));
  }

  /** `selectedItem`: the chosen item, when the choice is inside the filtered list. */
  function SelectedItem<T>(s: State, filtered: seq<T>): (r: Option<T>)
    ensures r.Some? <==> 0 <= s.selectedIdx < |filtered|
    ensures r.Some? ==> r.value in filtered
  {
    if 0 <= s.selectedIdx < |filtered| then Some(filtered[s.selectedIdx]) else None
  }

  // ---- Modal handlers

  /** `openAdd`: add mode, nothing chosen, no row being edited, modal open; filters are kept. */
  function OpenAdd(s: State): (r: State)
    ensures r.modalOpen && r.mode == Add && r.selectedIdx == -1 && r.editIndex == None
    ensures r.rows == s.rows
  {
    s.(mode := Add, selectedIdx := -1, editIndex := None, modalOpen := true)
  }

  /** `getItemKey?.(it) ?? getItemLabel(it)`: the key that identifies a catalog item. */
  function ItemKey<T>(it: T, key: Option<T -> string>, labelOf: T -> string): string
  {
    match key
    case Some(f) => f(it)
    case None => labelOf(it)
  }

  /** `findIndex`: the first position satisfying `p`, or -1. */
  function FindIndex<T>(s: seq<T>, p: T -> bool): (r: int)
    ensures -1 <= r < |s|
    ensures r >= 0 ==> p(s[r])
    ensures forall j | 0 <= j < |s| && (r < 0 || j < r) :: !p(s[j])
  {
    if |s| == 0 then -1
    else if p(s[0]) then 0
    else
      var k := FindIndex(s[1..], p);
      if k < 0 then -1 else k + 1
  }

  /** The catalog key a row points back to: `getRowCatalogKey?.(row) ?? ""`. */
  function RowTarget(row: Row, rowKey: Option<Row -> Option<string>>): string
  {
    match rowKey
    case Some(f) => f(row).GetOr("")
    case None => ""
  }

  /**
    `openEdit(rowIdx)`: edit mode on that row, modal open, and the first
    filtered item whose key equals the row's catalog key preselected (-1
    when none does).
   */
  function OpenEdit<T>(s: State, rowIdx: nat, filtered: seq<T>, key: Option<T -> string>,
                       labelOf: T -> string, rowKey: Option<Row -> Option<string>>): (r: State)
    requires rowIdx < |s.rows|
    ensures r.modalOpen && r.mode == Edit && r.editIndex == Some(rowIdx) && r.rows == s.rows
    ensures -1 <= r.selectedIdx < |filtered|
    ensures r.selectedIdx >= 0 ==>
      ItemKey(filtered[r.selectedIdx], key, labelOf) == RowTarget(s.rows[rowIdx], rowKey)
    ensures forall j | 0 <= j < |filtered| && (r.selectedIdx < 0 || j < r.selectedIdx) ::
      ItemKey(filtered[j], key, labelOf) != RowTarget(s.rows[rowIdx], rowKey)
  {
    var target := RowTarget(s.rows[rowIdx], rowKey);
    var idx := FindIndex(filtered, it => ItemKey(it, key, labelOf) == target);
    s.(mode := Edit, editIndex := Some(rowIdx), selectedIdx := idx, modalOpen := true)
  }

  /** Picking an entry of the select: `parseInt` of an option value, -1 or a filtered index. */
  function Choose(s: State, idx: int): (r: State)
    requires s.modalOpen
    ensures r.selectedIdx == idx
    ensures r.(selectedIdx := s.selectedIdx) == s
  {
    s.(selectedIdx := idx)
  }

  /** `closeModal`: closed, add mode, nothing chosen, no row being edited. */
  function Close(s: State): (r: State)
    ensures !r.modalOpen && r.mode == Add && r.selectedIdx == -1 && r.editIndex == None
    ensures r.rows == s.rows
  {
    s.(modalOpen := false, editIndex := None, selectedIdx := -1, mode := Add)
  }

  /**
    `saveModal`: without a valid choice nothing happens and the modal stays
    open. Otherwise the chosen item becomes a row (appended in add mode,
    replacing the edited row in edit mode) and the modal closes.
   */
  function Save<T>(s: State, filtered: seq<T>, toRow: T -> Row): (r: State)
    requires s.editIndex.Some? ==> s.editIndex.value < |s.rows|
    ensures !(0 <= s.selectedIdx < |filtered|) ==> r == s
    ensures 0 <= s.selectedIdx < |filtered| ==>
      && !r.modalOpen && r.mode == Add && r.selectedIdx == -1 && r.editIndex == None
      && (s.mode == Add ==> r.rows == s.rows + [toRow(filtered[s.selectedIdx])])
      && (s.mode == Edit && s.editIndex.Some? ==>
            |r.rows| == |s.rows| &&
            r.rows[s.editIndex.value] == toRow(filtered[s.selectedIdx]) &&
            forall j | 0 <= j < |s.rows| && j != s.editIndex.value :: r.rows[j] == s.rows[j])
      && (s.mode == Edit && s.editIndex.None? ==> r.rows == s.rows)
  {
    if s.selectedIdx < 0 || s.selectedIdx >= |filtered| then s
    else
      var newRow := toRow(filtered[s.selectedIdx]);
      var rows :=
        if s.mode == Add then s.rows + [newRow]
        else if s.editIndex.Some? then s.rows[s.editIndex.value := newRow]
        else s.rows;
      Close(s.(rows := rows))
  }

  /**
    `deleteRow`: only in edit mode with a row being edited; that row is
    spliced out (nothing is removed past the end) and the modal closes.
   */
  function Delete(s: State): (r: State)
    ensures !(s.mode == Edit && s.editIndex.Some?) ==> r == s
    ensures s.mode == Edit && s.editIndex.Some? ==>
      && !r.modalOpen && r.mode == Add && r.editIndex == None
      && (s.editIndex.value < |s.rows| ==> r.rows == RemoveAt(s.rows, s.editIndex.value))
      && (s.editIndex.value >= |s.rows| ==> r.rows == s.rows)
  {
    if s.mode != Edit || s.editIndex.None? then s
    else
      var k := s.editIndex.value;
      var rows := if k < |s.rows| then RemoveAt(s.rows, k) else s.rows;
      Close(s.(rows := rows))
  }

  // ---- Row edits

  /** A cell edit: `setRowAt(idx, patch)` on the grid's rows. */
  function SetRow(s: State, idx: nat, patch: Row): (r: State)
    requires idx < |s.rows|
    ensures |r.rows| == |s.rows|
    ensures r.(rows := s.rows) == s
    ensures forall k | 0 <= k < |s.rows| && k != idx :: r.rows[k] == s.rows[k]
    ensures r.rows[idx].Keys == s.rows[idx].Keys + patch.Keys
    ensures forall f | f in patch :: r.rows[idx][f] == patch[f]
    ensures forall f | f in s.rows[idx] && f !in patch :: r.rows[idx][f] == s.rows[idx][f]
  {
    s.(rows := SetRowAt(s.rows, idx, patch))
  }

  /**
    `onDrop(idx)`: with no drag in progress, or a drop onto the dragged row
    itself, the rows are left alone; otherwise the dragged row moves to `idx`.
   */
  function Drop(rows: seq<Row>, from: Option<nat>, idx: nat): (r: seq<Row>)
    requires idx < |rows|
    requires from.Some? ==> from.value < |rows|
    ensures |r| == |rows| && multiset(r) == multiset(rows)
    ensures from.Some? ==> r[idx] == rows[from.value]
    ensures from.Some? ==> RemoveAt(r, idx) == RemoveAt(rows, from.value)
    ensures from.None? || from.value == idx ==> r == rows
    ensures from.Some? && from.value != idx ==> r == Move(rows, from.value, idx)
  {
    if from.None? then rows
    else if from.value == idx then
      MoveSamePlace(rows, idx);
      rows
    else Move(rows, from.value, idx)
  }

  /** Dragging the moved row back to where it came from restores the list. */
  lemma DropBack(rows: seq<Row>, from: nat, to: nat)
    requires from < |rows| && to < |rows|
    ensures Drop(Drop(rows, Some(from), to), Some(to), from) == rows
  {
    MoveInverse(rows, from, to);
    if from == to {
      MoveSamePlace(rows, from);
    }
  }

  // ---- Properties of the handlers together

  /** Every handler keeps the invariant. */
  lemma InvPreserved<T>(s: State, filtered: seq<T>, key: Option<T -> string>, labelOf: T -> string,
                        rowKey: Option<Row -> Option<string>>, toRow: T -> Row,
                        rowIdx: nat, choice: int, patch: Row)
    requires Inv(s)
    ensures Inv(OpenAdd(s))
    ensures rowIdx < |s.rows| ==> Inv(OpenEdit(s, rowIdx, filtered, key, labelOf, rowKey))
    ensures s.modalOpen ==> Inv(Choose(s, choice))
    ensures Inv(Close(s))
    ensures Inv(Save(s, filtered, toRow))
    ensures Inv(Delete(s))
    ensures rowIdx < |s.rows| ==> Inv(SetRow(s, rowIdx, patch))
  {
  }

  /** Closing right after opening the add modal is the same as just closing. */
  lemma OpenAddThenClose(s: State)
    ensures Close(OpenAdd(s)) == Close(s)
  {
  }

  /**
    Adding the `i`-th filtered item appends exactly its row; opening that new
    row for editing preselects the item again, provided rows point back to
    their item's key and no earlier filtered item has the same key.
   */
  lemma AddThenEditPreselects<T>(s: State, filtered: seq<T>, i: nat, key: Option<T -> string>,
                                 labelOf: T -> string, rowKey: Option<Row -> Option<string>>,
                                 toRow: T -> Row)
    requires Inv(s) && !s.modalOpen
    requires i < |filtered|
    requires forall it :: RowTarget(toRow(it), rowKey) == ItemKey(it, key, labelOf)
    requires forall j | 0 <= j < i :: ItemKey(filtered[j], key, labelOf) != ItemKey(filtered[i], key, labelOf)
    ensures Save(Choose(OpenAdd(s), i), filtered, toRow).rows == s.rows + [toRow(filtered[i])]
    ensures
      var added := Save(Choose(OpenAdd(s), i), filtered, toRow);
      OpenEdit(added, |s.rows|, filtered, key, labelOf, rowKey).selectedIdx == i
  {
    var added := Save(Choose(OpenAdd(s), i), filtered, toRow);
    assert added.rows[|s.rows|] == toRow(filtered[i]);
  }

  /** Deleting the row just added gives the original rows back. */
  lemma AddThenDelete<T>(s: State, filtered: seq<T>, i: nat, key: Option<T -> string>,
                         labelOf: T -> string, rowKey: Option<Row -> Option<string>>,
                         toRow: T -> Row)
    requires Inv(s) && !s.modalOpen
    requires i < |filtered|
    ensures
      var added := Save(Choose(OpenAdd(s), i), filtered, toRow);
      Delete(OpenEdit(added, |s.rows|, filtered, key, labelOf, rowKey)).rows == s.rows
  {
    var added := Save(Choose(OpenAdd(s), i), filtered, toRow);
    assert RemoveAt(added.rows, |s.rows|) == s.rows;
  }

  /** Deleting needs edit mode: in add mode the delete handler changes nothing. */
  lemma DeleteInAddMode(s: State)
    requires Inv(s) && s.mode == Add
    ensures Delete(s) == s
  {
  }
}
