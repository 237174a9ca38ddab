/**
  Race and race-talent catalog rules of src/models/catalog.ts: reading a
  record's name, table and requirement, parsing the requirement's race
  list, the eligibility test, the sorted list of talent names a race may
  take, the by-name race index and the race-name list. The catalogs are
  given as sequences of records.
 */
module Catalog {
  import opened Options
  import opened Text
  import opened Sorting
  import opened RowLists

  /** A catalog record: an open set of text fields. */
  type Record = map<string, string>

  /** `rec[key] ?? ""`: a missing field reads as empty text. */
  function Field(rec: Record, key: string): string
  {
    if key in rec then rec[key] else ""
  }

  /** `rec[a] ?? rec[b] ?? ""`: the first field that is present. */
  function FieldEither(rec: Record, a: string, b: string): string
  {
    if a in rec then rec[a] else Field(rec, b)
  }

  /** `getRaceName`. */
  function RaceName(r: Record): string
  {
    FieldEither(r, "Name", "name")
  }

  /** `getTalentName`: Name, else name, else Label, else Title, else "". */
  function TalentName(t: Record): string
  {
    if "Name" in t then t["Name"]
    else if "name" in t then t["name"]
    else if "Label" in t then t["Label"]
    else Field(t, "Title")
  }

  /** `getRequirement`: Requirement, falling back to Requirements, trimmed. */
  function Requirement(t: Record): (r: string)
    ensures Trimmed(r)
    ensures "Requirement" in t ==> r == Trim(t["Requirement"])
    ensures "Requirement" !in t ==> r == Trim(Field(t, "Requirements"))
  {
    Trim(FieldEither(t, "Requirement", "Requirements"))
  }

  /** `getTable`: Table, falling back to table, trimmed. */
  function Table(t: Record): string
  {
    Trim(FieldEither(t, "Table", "table"))
  }

  /** `isRaceTalentTable`: the table, lower-cased and stripped of all whitespace, is "racetalent". */
  predicate IsRaceTalentTable(t: Record)
  {
    RemoveSpaces(ToLower(Table(t))) == "racetalent"
  }

  /** Trimming the table first makes no difference: only its non-space letters count. */
  lemma RaceTalentTableIgnoresSpaces(t: Record)
    ensures IsRaceTalentTable(t) <==>
      ToLower(RemoveSpaces(FieldEither(t, "Table", "table"))) == "racetalent"
  {
    var raw := FieldEither(t, "Table", "table");
    RemoveSpacesLower(Trim(raw));
    RemoveSpacesTrim(raw);
  }

  // ---- Requirement lists

  predicate IsRaceWord(s: string)
  {
    |s| == 4 && ToLower(s) == "race"
  }

  /**
    The `^Race\s*:\s*` prefix removal, case-insensitive: a text that starts
    with "race", optional whitespace, a colon and optional whitespace loses
    that prefix; any other text is returned as it is. The prefix must start
    at the first character.
   */
  function StripRacePrefix(s: string): (r: string)
    ensures |r| <= |s| && r == s[|s| - |r|..]
    ensures r != s ==> |s| >= 4 && IsRaceWord(s[..4])
    ensures |r| > 0 && r != s ==> !IsSpace(r[0])
  {
    if |s| >= 4 && IsRaceWord(s[..4]) then
      var a := TrimStart(s[4..]);
      if |a| > 0 && a[0] == ':' then TrimStart(a[1..]) else s
    else s
  }

  /** A race word in any letter case followed by a colon is dropped, leaving the rest. */
  lemma StripRacePrefixOf(w: string, x: string)
    requires IsRaceWord(w)
    requires |x| > 0 ==> !IsSpace(x[0])
    ensures StripRacePrefix(w + ":" + x) == x
  {
    var s := w + ":" + x;
    assert s[..4] == w;
    assert s[4..] == ":" + x;
    assert !IsSpace(':');
    assert TrimStart(":" + x) == ":" + x;
    assert (":" + x)[1..] == x;
  }

  /** The prefix is only recognised at the very start of the untrimmed piece. */
  lemma StripRacePrefixAnchored()
    ensures StripRacePrefix(" Race: Elf") == " Race: Elf"
  {
    var s := " Race: Elf";
    assert s[..4] == " Rac";
    assert ToLower(s[..4])[0] == ' ';
  }

  /** One entry of a requirement list: prefix stripped, trimmed, lower-cased. */
  function RaceEntry(piece: string): (e: string)
    ensures Trimmed(e) && ToLower(e) == e
  {
    TrimLowerCommute(StripRacePrefix(piece));
    ToLowerIdempotent(Trim(StripRacePrefix(piece)));
    ToLower(Trim(StripRacePrefix(piece)))
  }

  predicate NonEmpty(s: string)
  {
    s != ""
  }

  /**
    `parseRequirementRaces`: an empty requirement lists no race; otherwise
    the comma-separated pieces, each normalised by `RaceEntry`, with empty
    entries dropped.
   */
  function ParseRequirementRaces(req: string): (list: seq<string>)
    ensures req == "" ==> list == []
    ensures forall e | e in list :: e != "" && Trimmed(e) && ToLower(e) == e
  {
    if req == "" then [] else Filter(MapSeq(Split(req, ","), RaceEntry), NonEmpty)
  }

  /** An entry is listed exactly when some comma-separated piece normalises to it. */
  lemma ParseRequirementRacesIn(req: string, e: string)
    ensures e in ParseRequirementRaces(req) <==>
      req != "" && e != "" && exists p | p in Split(req, ",") :: RaceEntry(p) == e
  {
    if req != "" {
      MapSeqIn(Split(req, ","), RaceEntry, e);
    }
  }

  /** The normalised race name a talent's list is searched for. */
  function WantedRace(raceName: string): string
  {
    ToLower(Trim(raceName))
  }

  /** `isTalentAllowedForRace`. */
  predicate IsTalentAllowedForRace(t: Record, raceName: string)
  {
    var list := ParseRequirementRaces(Requirement(t));
    |list| == 0 || WantedRace(raceName) in list
  }

  /**
    A talent with no listed race is open to every race; otherwise a race may
    take it exactly when some piece of the requirement normalises to the
    race's trimmed, lower-cased name.
   */
  lemma AllowedForRaceRule(t: Record, raceName: string)
    ensures ParseRequirementRaces(Requirement(t)) == [] ==> IsTalentAllowedForRace(t, raceName)
    ensures ParseRequirementRaces(Requirement(t)) != [] ==>
      (IsTalentAllowedForRace(t, raceName) <==>
        (WantedRace(raceName) != "" &&
         exists p | p in Split(Requirement(t), ",") :: RaceEntry(p) == WantedRace(raceName)))
  {
    ParseRequirementRacesIn(Requirement(t), WantedRace(raceName));
  }

  /** Race matching ignores case and surrounding whitespace. */
  lemma AllowedIgnoresCase(t: Record, a: string, b: string)
    requires ToLower(Trim(a)) == ToLower(Trim(b))
    ensures IsTalentAllowedForRace(t, a) <==> IsTalentAllowedForRace(t, b)
  {
  }

  // ---- Allowed talent names

  /** `localeCompare` as used here: code-unit order of the ASCII-lower-cased texts. */
  predicate FoldLe(a: string, b: string)
  {
    LexLe(ToLower(a), ToLower(b))
  }

  lemma FoldLeTotalPreorder()
    ensures TotalPreorder(FoldLe)
  {
    forall a, b
      ensures FoldLe(a, b) || FoldLe(b, a)
    {
      LexLeTotal(ToLower(a), ToLower(b));
    }
    forall a, b, c | FoldLe(a, b) && FoldLe(b, c)
      ensures FoldLe(a, c)
    {
      LexLeTransitive(ToLower(a), ToLower(b), ToLower(c));
    }
  }

  /** The race-talent-table talents a race may take. */
  function EligibleTalents(talents: seq<Record>, raceName: string): seq<Record>
  {
    Filter(Filter(talents, IsRaceTalentTable), t => IsTalentAllowedForRace(t, raceName))
  }

  /** The non-empty names of the eligible talents, in catalog order. */
  function EligibleNames(talents: seq<Record>, raceName: string): seq<string>
  {
    Filter(MapSeq(EligibleTalents(talents, raceName), TalentName), NonEmpty)
  }

  /**
    `getAllowedTalentNamesForRace`: no names for an empty race name;
    otherwise the eligible names, sorted.
   */
  function AllowedTalentNames(talents: seq<Record>, raceName: string): (names: seq<string>)
    ensures raceName == "" ==> names == []
    ensures raceName != "" ==> multiset(names) == multiset(EligibleNames(talents, raceName))
  {
    if raceName == "" then [] else Sort(EligibleNames(talents, raceName), FoldLe)
  }

  /** The allowed names come out in `localeCompare` order. */
  lemma AllowedTalentNamesSorted(talents: seq<Record>, raceName: string)
    ensures SortedBy(AllowedTalentNames(talents, raceName), FoldLe)
  {
    if raceName != "" {
      FoldLeTotalPreorder();
      SortSorted(EligibleNames(talents, raceName), FoldLe);
    }
  }

  /**
    A name is offered exactly when the race name is non-empty and the name
    is the non-empty name of a race-talent-table talent that race may take.
   */
  lemma AllowedTalentNamesIn(talents: seq<Record>, raceName: string, n: string)
    ensures n in AllowedTalentNames(talents, raceName) <==>
      (raceName != "" && n != "" &&
       exists t | t in talents :: IsRaceTalentTable(t) && IsTalentAllowedForRace(t, raceName) && TalentName(t) == n)
  {
    if raceName != "" {
      var eligible := EligibleTalents(talents, raceName);
      var names := EligibleNames(talents, raceName);
      SortSameElements(names, FoldLe, n);
      assert n in AllowedTalentNames(talents, raceName) <==> n in names;
      assert n in names <==> n != "" && n in MapSeq(eligible, TalentName);
      MapSeqIn(eligible, TalentName, n);
      assert forall t :: t in eligible <==>
        t in talents && IsRaceTalentTable(t) && IsTalentAllowedForRace(t, raceName);
    }
  }

  // ---- Races

  /** `raceByName`: race name to record; on a repeated name the later record wins. */
  function RaceByName(races: seq<Record>): (m: map<string, Record>)
    ensures m.Keys == set r | r in races :: RaceName(r)
  {
    if |races| == 0 then map[]
    else
      var init := races[..|races| - 1];
      var last := races[|races| - 1];
      assert races == init + [last];
      RaceByName(init)[RaceName(last) := last]
  }

  /** Looking up a name other than the last record's goes to the earlier records. */
  lemma RaceByNameStep(races: seq<Record>, k: string)
    requires |races| > 0 && RaceName(races[|races| - 1]) != k
    ensures k in RaceByName(races) <==> k in RaceByName(races[..|races| - 1])
    ensures k in RaceByName(races) ==> RaceByName(races)[k] == RaceByName(races[..|races| - 1])[k]
  {
  }

  /** The record kept for a name is the last one in the catalog with that name. */
  lemma {:induction false} RaceByNameLastWins(races: seq<Record>, k: string)
    requires k in RaceByName(races)
    ensures exists i | 0 <= i < |races| ::
      races[i] == RaceByName(races)[k] && RaceName(races[i]) == k &&
      forall j | i < j < |races| :: RaceName(races[j]) != k
    decreases |races|
  {
    var n := |races|;
    var init := races[..n - 1];
    if RaceName(races[n - 1]) == k {
      assert races[n - 1] == RaceByName(races)[k];
    } else {
      RaceByNameStep(races, k);
      RaceByNameLastWins(init, k);
      var i :| 0 <= i < |init| &&
        init[i] == RaceByName(init)[k] && RaceName(init[i]) == k &&
        forall j | i < j < |init| :: RaceName(init[j]) != k;
      assert races[i] == init[i];
      forall j | i < j < n
        ensures RaceName(races[j]) != k
      {
        if j < n - 1 {
          assert races[j] == init[j];
        }
      }
    }
  }

  /** `raceNamesFromJson`: the non-empty race names, in catalog order. */
  function RaceNames(races: seq<Record>): (names: seq<string>)
    ensures |names| <= |races|
    ensures forall n | n in names :: n != ""
  {
    Filter(MapSeq(races, RaceName), NonEmpty)
  }

  /** A name is offered exactly when it is the non-empty name of some race. */
  lemma RaceNamesIn(races: seq<Record>, n: string)
    ensures n in RaceNames(races) <==> n != "" && exists r | r in races :: RaceName(r) == n
  {
    MapSeqIn(races, RaceName, n);
  }

  /** Every race offered by name can be looked up by that name. */
  lemma RaceNamesIndexed(races: seq<Record>, n: string)
    requires n in RaceNames(races)
    ensures n in RaceByName(races) && RaceName(RaceByName(races)[n]) == n
  {
    RaceNamesIn(races, n);
    RaceByNameLastWins(races, n);
  }
}
