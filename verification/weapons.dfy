/**
  The weapon list of src/components/WeaponsGrid.tsx: the availability and
  type filters and the row a picked weapon becomes. The catalog order and
  the type list are the shared ones of `Grids`.
 */
module Weapons {
  import opened Options
  import opened Text
  import opened RowLists
  import opened Catalog
  import opened Grids
  import Picker

  /** The weapon "yes" test: Starting?, trimmed and lower-cased, is yes, y or true ("1" is not). */
  predicate IsYes(rec: Record)
  {
    var v := Norm(Field(rec, "Starting?"));
    v == "yes" || v == "y" || v == "true"
  }

  /** `isStarting(rec, want)`. */
  predicate IsStarting(rec: Record, want: Availability)
  {
    Wanted(IsYes(rec), want)
  }

  /** `hasType`: some normalised Type token equals the normalised wanted token. */
  predicate HasType(rec: Record, wanted: string)
  {
    Norm(wanted) in NormTokens(Field(rec, "Type"))
  }

  /** A blank wanted token matches nothing; otherwise some comma piece must normalise to it. */
  lemma HasTypeRule(rec: Record, wanted: string)
    ensures HasType(rec, wanted) <==>
      Norm(wanted) != "" && exists p | p in Split(Field(rec, "Type"), ",") :: Norm(p) == Norm(wanted)
  {
    NormTokensIn(Field(rec, "Type"), Norm(wanted));
  }

  /** The type control's predicate: `v ? hasType(it, v) : true`. */
  predicate TypeFilter(rec: Record, v: string)
  {
    v == "" || HasType(rec, v)
  }

  /** Every type the control offers is carried by some weapon of the catalog. */
  lemma OfferedTypeMatches(catalog: seq<Record>, t: string)
    requires t in TypeTokens(catalog)
    ensures exists r | r in catalog :: HasType(r, t)
  {
    TypeTokensSpec(catalog, t);
    TypeTokensCommaFree(catalog, t);
    var r :| r in catalog && exists p | p in Split(Field(r, "Type"), ",") :: Trim(p) == t;
    var p :| p in Split(Field(r, "Type"), ",") && Trim(p) == t;
    TrimIdempotent(p);
    assert Norm(p) == Norm(t);
    HasTypeRule(r, t);
  }

  /** The two filter controls: availability, then type. */
  function Filters(avail: Availability, typeFilter: string): seq<Record -> bool>
  {
    [it => IsStarting(it, avail), it => TypeFilter(it, typeFilter)]
  }

  /** A weapon is offered exactly when it has the chosen availability and passes the type filter. */
  lemma FiltersPass(avail: Availability, typeFilter: string, it: Record)
    ensures Picker.AllPass(Filters(avail, typeFilter), it) <==>
      IsStarting(it, avail) && TypeFilter(it, typeFilter)
  {
    Picker.AllPassPair(x => IsStarting(x, avail), x => TypeFilter(x, typeFilter), it);
  }

  /**
    With no type chosen, the picker lists exactly the weapons of the chosen
    availability, in catalog order, and the two choices together list every weapon.
   */
  lemma AvailabilityOnly(catalog: seq<Record>)
    ensures forall want :: Picker.FilteredItems(catalog, Filters(want, "")) == Offered(catalog, IsYes, want)
    ensures multiset(Picker.FilteredItems(catalog, Filters(Starting, ""))) +
      multiset(Picker.FilteredItems(catalog, Filters(NonStarting, ""))) == multiset(catalog)
  {
    forall want, x
      ensures Picker.AllPass(Filters(want, ""), x) <==> Wanted(IsYes(x), want)
    {
      FiltersPass(want, "", x);
    }
    PickerPartition(catalog, IsYes, want => Filters(want, ""));
  }

  /** `toRow`: name, type, dmg, bonus, reach, ability and starting, each copied or empty. */
  function ToRow(w: Record): (row: Row)
    ensures row.Keys == {"name", "type", "dmg", "bonus", "reach", "ability", "starting"}
    ensures row["name"] == Field(w, "Name") && row["type"] == Field(w, "Type")
    ensures row["dmg"] == Field(w, "dmg") && row["bonus"] == Field(w, "Bonus")
    ensures row["reach"] == Field(w, "Reach") && row["ability"] == Field(w, "Ability modifier")
    ensures row["starting"] == Field(w, "Starting?")
  {
    map["name" := Field(w, "Name"), "type" := Field(w, "Type"), "dmg" := Field(w, "dmg"),
        "bonus" := Field(w, "Bonus"), "reach" := Field(w, "Reach"),
        "ability" := Field(w, "Ability modifier"), "starting" := Field(w, "Starting?")]
  }

  /** A weapon row points back to its weapon, so editing it preselects that weapon. */
  lemma RowPointsBack(w: Record)
    ensures Picker.RowTarget(ToRow(w), Some(NameRowKey)) == Picker.ItemKey(w, Some(NameKey), NameKey)
  {
    NameRowPointsBack(w, ToRow(w), NameKey);
  }
}
