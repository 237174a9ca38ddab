/**
  The talent list of src/components/TalentsGrid.tsx: the option label, the
  Main/Secondary table filter, the number of child selections a talent
  asks for, the by-name index, the child candidates, how the child choices
  follow the selected parent, and the rows the chosen children become.
 */
module Talents {
  import opened Options
  import opened Text
  import opened Numbers
  import opened RowLists
  import opened Catalog
  import opened Grids
  import Picker

  /** `tableOf`: Table, falling back to table, trimmed and lower-cased. */
  function TableOf(rec: Record): string
  {
    Norm(FieldEither(rec, "Table", "table"))
  }

  /** The two values of the talent type filter. */
  datatype TalentType = Main | Secondary

  function TypeName(t: TalentType): string
  {
    match t
    case Main => "Main"
    case Secondary => "Secondary"
  }

  /** The type control's predicate: `tableOf(rec) === norm(v)`. */
  predicate TypeFilter(rec: Record, t: TalentType)
  {
    TableOf(rec) == Norm(TypeName(t))
  }

  /** The filter compares with "main" or "secondary", so no talent is of both types. */
  lemma TypeFilterRule(rec: Record)
    ensures TypeFilter(rec, Main) <==> TableOf(rec) == "main"
    ensures TypeFilter(rec, Secondary) <==> TableOf(rec) == "secondary"
    ensures !(TypeFilter(rec, Main) && TypeFilter(rec, Secondary))
  {
    NormMain();
    NormSecondary();
  }

  lemma NormMain()
    ensures Norm("Main") == "main"
  {
    var w := "Main";
    assert w[0] == 'M' && w[3] == 'n';
    TrimOfTrimmed(w);
    LowerMain();
  }

  lemma LowerMain()
    ensures ToLower("Main") == "main"
  {
    var l := ToLower("Main");
    assert l[0] == 'm' && l[1] == 'a' && l[2] == 'i' && l[3] == 'n';
  }

  lemma NormSecondary()
    ensures Norm("Secondary") == "secondary"
  {
    var w := "Secondary";
    assert w[0] == 'S' && w[8] == 'y';
    TrimOfTrimmed(w);
    LowerSecondary();
  }

  lemma LowerSecondary()
    ensures ToLower("Secondary") == "secondary"
  {
    var l := ToLower("Secondary");
    assert l[0] == 's' && l[1] == 'e' && l[2] == 'c' && l[3] == 'o' && l[4] == 'n';
    assert l[5] == 'd' && l[6] == 'a' && l[7] == 'r' && l[8] == 'y';
  }

  /** `talentLabel`: the trimmed name, followed by " (requirements)" when those are not blank. */
  function TalentLabel(rec: Record): (s: string)
    ensures |s| >= |Trim(Field(rec, "Name"))|
    ensures s[..|Trim(Field(rec, "Name"))|] == Trim(Field(rec, "Name"))
  {
    var name := Trim(Field(rec, "Name"));
    var req := Trim(Field(rec, "Requirements"));
    if req != "" then name + " (" + req + ")" else name
  }

  /** The label is the bare name exactly when the requirements are blank. */
  lemma TalentLabelBare(rec: Record)
    ensures TalentLabel(rec) == Trim(Field(rec, "Name")) <==> AllSpace(Field(rec, "Requirements"))
  {
  }

  /** `childSelectionCount`: the leading integer of the field when it is positive, else 0. */
  function ChildSelectionCount(rec: Record): nat
  {
    PositiveOrZero(ParseIntPrefix(Trim(Field(rec, "No. child selections"))))
  }

  /** `Number.isFinite(n) && n > 0 ? n : 0` on a `parseInt` result. */
  function PositiveOrZero(p: Option<int>): nat
  {
    match p
    case Some(n) => if n > 0 then n else 0
    case None => 0
  }

  /** A printed count is read back when positive; zero and negative counts ask for no children. */
  lemma ChildSelectionCountOf(rec: Record, k: int)
    requires Field(rec, "No. child selections") == IntToString(k)
    ensures ChildSelectionCount(rec) == if k > 0 then k else 0
  {
    PrintedCount(k);
    assert PositiveOrZero(Some(k)) == if k > 0 then k else 0;
  }

  lemma PrintedCount(k: int)
    ensures PositiveOrZero(ParseIntPrefix(Trim(IntToString(k)))) == PositiveOrZero(Some(k))
  {
    ParseIntOfPrinted(k);
  }

  /** `toRowFromRec`: name, action and description, each copied or empty. */
  function ToRowFromRec(t: Record): (row: Row)
    ensures row.Keys == {"name", "action", "description"}
    ensures row["name"] == Field(t, "Name") && row["action"] == Field(t, "Action")
    ensures row["description"] == Field(t, "Description")
  {
    map["name" := Field(t, "Name"), "action" := Field(t, "Action"),
        "description" := Field(t, "Description")]
  }

  /** A talent row points back to its talent, so editing it preselects that talent. */
  lemma RowPointsBack(t: Record)
    ensures Picker.RowTarget(ToRowFromRec(t), Some(NameRowKey)) ==
      Picker.ItemKey(t, Some(NameKey), TalentLabel)
  {
    NameRowPointsBack(t, ToRowFromRec(t), TalentLabel);
  }

  /** The one filter control. */
  function Filters(t: TalentType): seq<Record -> bool>
  {
    [rec => TypeFilter(rec, t)]
  }

  lemma FiltersPass(t: TalentType, rec: Record)
    ensures Picker.AllPass(Filters(t), rec) <==> TypeFilter(rec, t)
  {
    var preds := Filters(t);
    assert |preds| == 1;
    assert preds[0](rec) == TypeFilter(rec, t);
  }

  // ---- By-name index

  function TrimmedName(t: Record): string
  {
    Trim(Field(t, "Name"))
  }

  /**
    `byName[n]`: the record filed under the trimmed name `n`; records with a
    blank name are not filed, and a later record replaces an earlier one.
   */
  function ByName(items: seq<Record>, n: string): (r: Option<Record>)
    ensures r.Some? ==> n != "" && r.value in items && TrimmedName(r.value) == n
    ensures r.None? ==> n == "" || forall t | t in items :: TrimmedName(t) != n
  {
    LastWith(items, TrimmedName, n)
  }

  /** The record found for a name is the last one carrying it. */
  lemma ByNameLastWins(items: seq<Record>, n: string, i: nat)
    requires n != "" && i < |items| && TrimmedName(items[i]) == n
    requires forall j | i < j < |items| :: TrimmedName(items[j]) != n
    ensures ByName(items, n) == Some(items[i])
  {
    LastWithWins(items, TrimmedName, n, i);
  }

  // ---- Child selections

  /** `String(selected?.Name ?? "").trim()`. */
  function SelectedName(selected: Option<Record>): string
  {
    match selected
    case Some(t) => TrimmedName(t)
    case None => ""
  }

  /** `selected ? childSelectionCount(selected) : 0`. */
  function ChildCount(selected: Option<Record>): nat
  {
    match selected
    case Some(t) => ChildSelectionCount(t)
    case None => 0
  }

  /** The child candidates: talents whose trimmed ParentName is the selected talent's name. */
  function Candidates(items: seq<Record>, selected: Option<Record>): (r: seq<Record>)
    ensures SelectedName(selected) == "" ==> r == []
    ensures forall t :: t in r <==>
      SelectedName(selected) != "" && t in items &&
      Trim(Field(t, "ParentName")) == SelectedName(selected)
  {
    var name := SelectedName(selected);
    if name == "" then [] else Filter(items, t => Trim(Field(t, "ParentName")) == name)
  }

  /** `Array.from({ length: count }, () => "")`. */
  function Blanks(count: nat): (r: seq<string>)
    ensures |r| == count && forall i | 0 <= i < count :: r[i] == ""
  {
    if count == 0 then [] else Blanks(count - 1) + [""]
  }

  /** The child choices together with the parent name they were made for. */
  datatype Choices = Choices(parent: string, picks: seq<string>)

  /**
    The resize step: a different parent starts over with `count` blanks;
    the same parent keeps its picks, cut to `count` or padded with blanks.
   */
  function Resize(c: Choices, selected: Option<Record>): (r: Choices)
    ensures r.parent == SelectedName(selected)
    ensures |r.picks| == ChildCount(selected)
    ensures c.parent != SelectedName(selected) ==>
      forall i | 0 <= i < |r.picks| :: r.picks[i] == ""
    ensures c.parent == SelectedName(selected) ==>
      forall i | 0 <= i < |r.picks| :: r.picks[i] == (if i < |c.picks| then c.picks[i] else "")
  {
    var name := SelectedName(selected);
    var count := ChildCount(selected);
    if c.parent != name then Choices(name, Blanks(count))
    else if |c.picks| != count then
      var kept := if |c.picks| < count then c.picks else c.picks[..count];
      Choices(c.parent, kept + Blanks(count - |kept|))
    else c
  }

  /** Once resized the choices are settled: resizing again for the same talent changes nothing. */
  lemma ResizeSettles(c: Choices, selected: Option<Record>)
    ensures Resize(Resize(c, selected), selected) == Resize(c, selected)
  {
  }

  /** Resizing for the same talent never disturbs picks that still fit. */
  lemma ResizeKeepsPicks(c: Choices, selected: Option<Record>, i: nat)
    requires c.parent == SelectedName(selected)
    requires i < |c.picks| && i < ChildCount(selected)
    ensures Resize(c, selected).picks[i] == c.picks[i]
  {
  }

  /** Choosing child `i`: `next[i] = v`. */
  function Pick(c: Choices, i: nat, v: string): (r: Choices)
    requires i < |c.picks|
    ensures r.parent == c.parent && |r.picks| == |c.picks| && r.picks[i] == v
    ensures forall j | 0 <= j < |c.picks| && j != i :: r.picks[j] == c.picks[j]
  {
    c.(picks := c.picks[i := v])
  }

  /**
    `getExtraRows`: one row per non-blank pick that names a known talent,
    in pick order.
   */
  function ExtraRows(picks: seq<string>, items: seq<Record>): (r: seq<Row>)
    ensures |r| <= |picks|
    ensures forall row | row in r :: exists t | t in items :: row == ToRowFromRec(t)
  {
    var r := Collect(picks, n => ByName(items, n), ToRowFromRec);
    forall row | row in r
      ensures exists t | t in items :: row == ToRowFromRec(t)
    {
      var k :| k in picks && ByName(items, k).Some? && row == ToRowFromRec(ByName(items, k).value);
      assert ByName(items, k).value in items;
    }
    r
  }

  /** When every pick names a known talent, each pick gives exactly its talent's row. */
  lemma ExtraRowsAllKnown(picks: seq<string>, items: seq<Record>)
    requires forall i | 0 <= i < |picks| :: ByName(items, picks[i]).Some?
    ensures |ExtraRows(picks, items)| == |picks|
    ensures forall i | 0 <= i < |picks| ::
      ExtraRows(picks, items)[i] == ToRowFromRec(ByName(items, picks[i]).value)
  {
    var look := n => ByName(items, n);
    CollectAllKnown(picks, look, ToRowFromRec);
    assert ExtraRows(picks, items) == Collect(picks, look, ToRowFromRec);
    forall i | 0 <= i < |picks|
      ensures ExtraRows(picks, items)[i] == ToRowFromRec(ByName(items, picks[i]).value)
    {
      assert look(picks[i]) == ByName(items, picks[i]);
    }
  }

  /**
    Picks mixing known, unknown and blank names: the rows of a list of picks
    are those of its parts in order, and a single pick gives its talent's
    row when it names a known talent and no row otherwise.
   */
  lemma ExtraRowsMixed(a: seq<string>, b: seq<string>, p: string, items: seq<Record>)
    ensures ExtraRows(a + b, items) == ExtraRows(a, items) + ExtraRows(b, items)
    ensures ExtraRows([p], items) ==
      (if ByName(items, p).Some? then [ToRowFromRec(ByName(items, p).value)] else [])
    ensures p == "" ==> ExtraRows([p], items) == []
  {
    var look := n => ByName(items, n);
    CollectAppend(a, b, look, ToRowFromRec);
    CollectOne(p, look, ToRowFromRec);
  }

  /** Blank picks add no rows: a fresh set of choices contributes nothing. */
  lemma ExtraRowsOfBlanks(picks: seq<string>, items: seq<Record>)
    requires forall i | 0 <= i < |picks| :: picks[i] == ""
    ensures ExtraRows(picks, items) == []
  {
    CollectNoneKnown(picks, n => ByName(items, n), ToRowFromRec);
  }
}
