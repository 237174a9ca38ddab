/**
  The race panel of src/components/RaceInfo.tsx: its own race-talent table
  test, the lookup of the race talent by name, and which talent fields it
  shows.
 */
module RaceInfo {
  import opened Options
  import opened Text
  import opened RowLists
  import Catalog

  type Record = Catalog.Record

  /** `normalizeTable`: trimmed, lower-cased, all whitespace removed. */
  function NormalizeTable(v: string): string
  {
    RemoveSpaces(ToLower(Trim(v)))
  }

  /** Trimming first is redundant: only case and the non-space characters count. */
  lemma NormalizeTableIgnoresSpaces(v: string)
    ensures NormalizeTable(v) == ToLower(RemoveSpaces(v))
  {
    RemoveSpacesLower(Trim(v));
    RemoveSpacesTrim(v);
  }

  /** The panel's `isRaceTalentTable`: the normalised Table (or table) is "racetalent". */
  predicate IsRaceTalentTable(t: Record)
  {
    NormalizeTable(Catalog.FieldEither(t, "Table", "table")) == "racetalent"
  }

  /** The panel and the catalog decide race talents alike. */
  lemma SameRaceTalentTest(t: Record)
    ensures IsRaceTalentTable(t) <==> Catalog.IsRaceTalentTable(t)
    ensures IsRaceTalentTable(t) <==>
      ToLower(RemoveSpaces(Catalog.FieldEither(t, "Table", "table"))) == "racetalent"
  {
    NormalizeTableIgnoresSpaces(Catalog.FieldEither(t, "Table", "table"));
    Catalog.RaceTalentTableIgnoresSpaces(t);
  }

  /** A talent's name as the lookup compares it: Name, else name, trimmed and lower-cased. */
  function TalentNeedle(t: Record): string
  {
    Norm(Catalog.FieldEither(t, "Name", "name"))
  }

  /**
    `findTalentByName`: nothing for an empty name; otherwise the first
    race-talent record whose name matches, ignoring case and surrounding
    blanks.
   */
  function FindTalentByName(talents: seq<Record>, name: string): (r: Option<Record>)
    ensures name == "" ==> r == None
    ensures r.Some? ==>
      r.value in talents && IsRaceTalentTable(r.value) && TalentNeedle(r.value) == Norm(name)
    ensures r.None? && name != "" ==>
      forall t | t in talents && IsRaceTalentTable(t) :: TalentNeedle(t) != Norm(name)
  {
    if name == "" then None
    else FirstWith(Filter(talents, IsRaceTalentTable), TalentNeedle, Norm(name))
  }

  /** The record found is the first race talent in catalog order with a matching name. */
  lemma FindTalentFirst(talents: seq<Record>, name: string, i: nat)
    requires name != "" && i < |talents|
    requires IsRaceTalentTable(talents[i]) && TalentNeedle(talents[i]) == Norm(name)
    requires forall j | 0 <= j < i :: !IsRaceTalentTable(talents[j]) || TalentNeedle(talents[j]) != Norm(name)
    ensures FindTalentByName(talents, name) == Some(talents[i])
  {
    FirstWithFiltered(talents, IsRaceTalentTable, TalentNeedle, Norm(name), i);
  }

  /** A blank but non-empty name is not rejected: it matches a race talent with a blank name. */
  lemma BlankNameMatchesBlank(talents: seq<Record>, name: string, i: nat)
    requires name != "" && AllSpace(name) && i < |talents|
    requires IsRaceTalentTable(talents[i]) && AllSpace(Catalog.FieldEither(talents[i], "Name", "name"))
    requires forall j | 0 <= j < i :: !IsRaceTalentTable(talents[j]) || TalentNeedle(talents[j]) != ""
    ensures FindTalentByName(talents, name) == Some(talents[i])
  {
    assert Norm(name) == "";
    assert TalentNeedle(talents[i]) == "";
    FindTalentFirst(talents, name, i);
  }

  // ---- Talent details

  /** The detail fields shown under the talent's name, in this order. */
  const TalentInfoFields: seq<string> := ["Description", "Action", "Mana"]

  /** A detail is shown unless it is missing or blank after trimming. */
  predicate Shown(t: Record, field: string)
  {
    field in t && Trim(t[field]) != ""
  }

  /** A detail is shown exactly when it is present and holds a non-blank character. */
  lemma ShownRule(t: Record, field: string)
    ensures Shown(t, field) <==> field in t && exists i | 0 <= i < |t[field]| :: !IsSpace(t[field][i])
  {
  }

  /** The details shown for a talent, in field order. */
  function ShownFields(t: Record): (r: seq<string>)
    ensures forall f :: f in r <==> f in TalentInfoFields && Shown(t, f)
  {
    Filter(TalentInfoFields, f => Shown(t, f))
  }
}
