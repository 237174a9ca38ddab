/**
  The editable action grids of src/components/ActionsGrid.tsx (actions,
  support actions and reactions): the blank row, seeding an empty list
  with three blank rows, patching one row, and appending a blank row.
 */
module ActionsGrid {
  import opened RowLists

  /** `emptyRow`: ability, to-hit, damage and effect, all blank. */
  function EmptyRow(): (r: Row)
    ensures r.Keys == {"ability", "toHit", "damage", "effect"}
    ensures forall k | k in r :: r[k] == ""
  {
    map["ability" := "", "toHit" := "", "damage" := "", "effect" := ""]
  }

  /** The seeding effect: an empty list becomes three blank rows; any other list is kept. */
  function Seed(rows: seq<Row>): (r: seq<Row>)
    ensures |r| > 0
    ensures |rows| > 0 ==> r == rows
    ensures |rows| == 0 ==> |r| == 3 && forall i | 0 <= i < 3 :: r[i] == EmptyRow()
  {
    if |rows| == 0 then [EmptyRow(), EmptyRow(), EmptyRow()] else rows
  }

  /** Seeding settles: a seeded list is seeded no further. */
  lemma SeedSettles(rows: seq<Row>)
    ensures Seed(Seed(rows)) == Seed(rows)
  {
  }

  /** `set`: row `idx` takes the patched fields; the list keeps its length and its other rows. */
  function Set(rows: seq<Row>, idx: nat, patch: Row): (r: seq<Row>)
    requires idx < |rows|
    ensures |r| == |rows|
    ensures forall k | 0 <= k < |rows| && k != idx :: r[k] == rows[k]
    ensures r[idx].Keys == rows[idx].Keys + patch.Keys
    ensures forall f | f in patch :: r[idx][f] == patch[f]
    ensures forall f | f in rows[idx] && f !in patch :: r[idx][f] == rows[idx][f]
  {
    SetRowAt(rows, idx, patch)
  }

  /** `addRow`: the old rows, then one blank row. */
  function AddRow(rows: seq<Row>): (r: seq<Row>)
    ensures |r| == |rows| + 1
    ensures r[..|rows|] == rows && r[|rows|] == EmptyRow()
  {
    rows + [EmptyRow()]
  }

  /** Removing the added row gives the list back. */
  lemma AddRowUndone(rows: seq<Row>)
    ensures RemoveAt(AddRow(rows), |rows|) == rows
  {
    assert AddRow(rows)[..|rows|] == rows;
  }

  /** Filling the added row sets exactly its patched fields and leaves the others blank. */
  lemma FillAddedRow(rows: seq<Row>, patch: Row)
    requires patch.Keys <= EmptyRow().Keys
    ensures var r := Set(AddRow(rows), |rows|, patch);
      r[..|rows|] == rows && r[|rows|].Keys == EmptyRow().Keys &&
      forall f | f in r[|rows|] :: r[|rows|][f] == (if f in patch then patch[f] else "")
  {
    var r := Set(AddRow(rows), |rows|, patch);
    assert r[..|rows|] == AddRow(rows)[..|rows|];
  }
}
