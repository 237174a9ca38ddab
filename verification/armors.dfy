/**
  The armor list of src/components/ArmorsGrid.tsx: the availability and
  type filters and the row a picked armor becomes. The catalog order and
  the type list are the shared ones of `Grids`.
 */
module Armors {
  import opened Options
  import opened Text
  import opened RowLists
  import opened Catalog
  import opened Grids
  import Weapons
  import Picker

  /** The armor "yes" test: Starting?, trimmed and lower-cased, is yes, y, true or 1. */
  predicate IsYes(rec: Record)
  {
    var v := Norm(Field(rec, "Starting?"));
    v == "yes" || v == "y" || v == "true" || v == "1"
  }

  /** `isStarting(rec, want)`. */
  predicate IsStarting(rec: Record, want: Availability)
  {
    Wanted(IsYes(rec), want)
  }

  /**
    The two grids read the same Starting? text differently: "1" makes an
    armor a starting item but leaves a weapon non-starting.
   */
  lemma StartingOneDiffers(rec: Record)
    requires Field(rec, "Starting?") == "1"
    ensures IsStarting(rec, Starting) && Weapons.IsStarting(rec, NonStarting)
  {
    var one := "1";
    assert Trimmed(one);
    TrimOfTrimmed(one);
    assert ToLower(one)[0] == '1';
    assert Norm(one) == one;
    assert one != "yes" && one != "y" && one != "true";
  }

  /**
    `hasType`: a blank wanted value accepts everything; otherwise, when the
    Type field has tokens, the normalised wanted value must be one of them,
    and when it has none the whole field is compared normalised.
   */
  predicate HasType(rec: Record, wanted: string)
  {
    if wanted == "" then true
    else
      var tokens := NormTokens(Field(rec, "Type"));
      if |tokens| > 0 then Norm(wanted) in tokens
      else Norm(Field(rec, "Type")) == Norm(wanted)
  }

  /** The type control's predicate: `v ? hasType(it, v) : true`. */
  predicate TypeFilter(rec: Record, v: string)
  {
    v == "" || HasType(rec, v)
  }

  /** A Type field without tokens is blank, or holds a comma. */
  lemma NoTokensBlankOrComma(raw: string)
    requires |NormTokens(raw)| == 0
    ensures Norm(raw) == "" || ',' in Norm(raw)
  {
    if ',' !in Norm(raw) {
      LowerKeepsNonLetter(Trim(raw), ',');
      if ',' in raw {
        TrimKeeps(raw, ',');
      }
      ContainsChar(raw, ',');
      SplitOfFree(raw, ",");
      NormTokensIn(raw, Norm(raw));
      assert raw in Split(raw, ",");
    }
  }

  /**
    For a non-blank value without commas, such as every type the control
    offers, the armor and weapon type tests agree: the whole-field fallback
    never matches where the token test would not.
   */
  lemma TypeTestsAgree(rec: Record, t: string)
    requires ',' !in t && Norm(t) != ""
    ensures HasType(rec, t) <==> Weapons.HasType(rec, t)
  {
    var raw := Field(rec, "Type");
    assert t != "";
    if |NormTokens(raw)| == 0 {
      NoTokensBlankOrComma(raw);
      LowerKeepsNonLetter(Trim(t), ',');
      if ',' in Trim(t) {
        TrimSubset(t, ',');
      }
    }
  }

  /** So on the offered types the armor filter is the weapon filter. */
  lemma OfferedTypeFiltersAgree(catalog: seq<Record>, t: string, rec: Record)
    requires t in TypeTokens(catalog)
    ensures TypeFilter(rec, t) <==> Weapons.TypeFilter(rec, t)
  {
    TypeTokensCommaFree(catalog, t);
    TypeTestsAgree(rec, t);
  }

  /** The two filter controls: availability, then type. */
  function Filters(avail: Availability, typeFilter: string): seq<Record -> bool>
  {
    [it => IsStarting(it, avail), it => TypeFilter(it, typeFilter)]
  }

  /** An armor is offered exactly when it has the chosen availability and passes the type filter. */
  lemma FiltersPass(avail: Availability, typeFilter: string, it: Record)
    ensures Picker.AllPass(Filters(avail, typeFilter), it) <==>
      IsStarting(it, avail) && TypeFilter(it, typeFilter)
  {
    Picker.AllPassPair(x => IsStarting(x, avail), x => TypeFilter(x, typeFilter), it);
  }

  /**
    With no type chosen, the picker lists exactly the armors of the chosen
    availability, in catalog order, and the two choices together list every armor.
   */
  lemma AvailabilityOnly(catalog: seq<Record>)
    ensures forall want :: Picker.FilteredItems(catalog, Filters(want, "")) == Offered(catalog, IsYes, want)
    ensures multiset(Picker.FilteredItems(catalog, Filters(Starting, ""))) +
      multiset(Picker.FilteredItems(catalog, Filters(NonStarting, ""))) == multiset(catalog)
  {
    forall want, x
      ensures Picker.AllPass(Filters(want, ""), x) <==> Wanted(IsYes(x), want)
    {
      FiltersPass(want, "", x);
    }
    PickerPartition(catalog, IsYes, want => Filters(want, ""));
  }

  /** `toRow`: name, type, acBonus, penalty, property, requirements and starting, each copied or empty. */
  function ToRow(a: Record): (row: Row)
    ensures row.Keys == {"name", "type", "acBonus", "penalty", "property", "requirements", "starting"}
    ensures row["name"] == Field(a, "Name") && row["type"] == Field(a, "Type")
    ensures row["acBonus"] == Field(a, "AC bonus") && row["penalty"] == Field(a, "Penalty")
    ensures row["property"] == Field(a, "Property") && row["requirements"] == Field(a, "Requirements")
    ensures row["starting"] == Field(a, "Starting?")
  {
    map["name" := Field(a, "Name"), "type" := Field(a, "Type"), "acBonus" := Field(a, "AC bonus"),
        "penalty" := Field(a, "Penalty"), "property" := Field(a, "Property"),
        "requirements" := Field(a, "Requirements"), "starting" := Field(a, "Starting?")]
  }

  /** An armor row points back to its armor, so editing it preselects that armor. */
  lemma RowPointsBack(a: Record)
    ensures Picker.RowTarget(ToRow(a), Some(NameRowKey)) == Picker.ItemKey(a, Some(NameKey), NameKey)
  {
    NameRowPointsBack(a, ToRow(a), NameKey);
  }
}
