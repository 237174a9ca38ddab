/**
  What the catalog grids (spells, weapons, armors, talents) share: catalog
  items are keyed by their Name field and rows point back through their
  `name` field; weapon and armor catalogs are sorted by name and offer a
  type filter over the distinct comma-separated Type tokens; both have a
  required Starting / Non-starting availability filter.
 */
module Grids {
  import opened Options
  import opened Text
  import opened Sorting
  import opened RowLists
  import opened Catalog
  import Picker

  // ---- Keys

  /** `getItemKey` / `getItemLabel` of the name-keyed grids: `String(rec.Name ?? "")`. */
  function NameKey(rec: Record): string
  {
    Field(rec, "Name")
  }

  /** `getRowCatalogKey`: `row.name || null`. */
  function NameRowKey(row: Row): Option<string>
  {
    var n := Field(row, "name");
    if n == "" then None else Some(n)
  }

  /**
    A row whose `name` is the item's Name points back to that item: editing
    it preselects the item again (a nameless row and a nameless item both
    use the empty key).
   */
  lemma NameRowPointsBack(rec: Record, row: Row, labelOf: Record -> string)
    requires Field(row, "name") == Field(rec, "Name")
    ensures Picker.RowTarget(row, Some(NameRowKey)) == Picker.ItemKey(rec, Some(NameKey), labelOf)
  {
  }

  // ---- Sorting by name

  /** `String(a.Name ?? "").localeCompare(String(b.Name ?? ""), undefined, { sensitivity: "base" })`. */
  predicate NameLe(a: Record, b: Record)
  {
    FoldLe(Field(a, "Name"), Field(b, "Name"))
  }

  lemma NameLeTotalPreorder()
    ensures TotalPreorder(NameLe)
  {
    forall a, b
      ensures NameLe(a, b) || NameLe(b, a)
    {
      LexLeTotal(ToLower(Field(a, "Name")), ToLower(Field(b, "Name")));
    }
    forall a, b, c | NameLe(a, b) && NameLe(b, c)
      ensures NameLe(a, c)
    {
      LexLeTransitive(ToLower(Field(a, "Name")), ToLower(Field(b, "Name")), ToLower(Field(c, "Name")));
    }
  }

  /** The catalog copy sorted by name. */
  function SortByName(catalog: seq<Record>): (r: seq<Record>)
    ensures multiset(r) == multiset(catalog)
  {
    Sort(catalog, NameLe)
  }

  /** The sorted catalog holds the same items, in name order ignoring case. */
  lemma SortByNameOrdered(catalog: seq<Record>)
    ensures SortedBy(SortByName(catalog), NameLe)
    ensures forall x :: x in SortByName(catalog) <==> x in catalog
  {
    NameLeTotalPreorder();
    SortSorted(catalog, NameLe);
    forall x
      ensures x in SortByName(catalog) <==> x in catalog
    {
      SortSameElements(catalog, NameLe, x);
    }
  }

  // ---- Availability

  /** The two values of the required availability filter. */
  datatype Availability = Starting | NonStarting

  /** `want === "Starting" ? yes : !yes`. */
  predicate Wanted(yes: bool, want: Availability)
  {
    if want == Starting then yes else !yes
  }

  /** The catalog items an availability choice offers, given each item's "yes", in catalog order. */
  function Offered(catalog: seq<Record>, yes: Record -> bool, want: Availability): (r: seq<Record>)
    ensures forall x :: x in r <==> x in catalog && Wanted(yes(x), want)
  {
    Filter(catalog, x => Wanted(yes(x), want))
  }

  /**
    The two availability choices split any catalog: every item is offered
    under exactly one of them, so together they offer the whole catalog,
    each item as often as it occurs.
   */
  lemma {:induction false} AvailabilityPartition(catalog: seq<Record>, yes: Record -> bool)
    ensures multiset(Offered(catalog, yes, Starting)) + multiset(Offered(catalog, yes, NonStarting))
      == multiset(catalog)
    decreases |catalog|
  {
    if |catalog| > 0 {
      var x, rest := catalog[0], catalog[1..];
      AvailabilityPartition(rest, yes);
      assert catalog == [x] + rest;
      var ps, pn := y => Wanted(yes(y), Starting), y => Wanted(yes(y), NonStarting);
      FilterAppend([x], rest, ps);
      FilterAppend([x], rest, pn);
      assert [x][1..] == [];
      assert Offered(catalog, yes, Starting) == Filter([x], ps) + Offered(rest, yes, Starting);
      assert Offered(catalog, yes, NonStarting) == Filter([x], pn) + Offered(rest, yes, NonStarting);
    }
  }

  /**
    A grid whose filter controls, with no type chosen, pass an item exactly
    when its availability matches lists the offered items in catalog
    order, and its two availability choices together list the whole catalog.
   */
  lemma PickerPartition(catalog: seq<Record>, yes: Record -> bool, filters: Availability -> seq<Record -> bool>)
    requires forall want, x :: Picker.AllPass(filters(want), x) <==> Wanted(yes(x), want)
    ensures forall want :: Picker.FilteredItems(catalog, filters(want)) == Offered(catalog, yes, want)
    ensures multiset(Picker.FilteredItems(catalog, filters(Starting))) +
      multiset(Picker.FilteredItems(catalog, filters(NonStarting))) == multiset(catalog)
  {
    forall want
      ensures Picker.FilteredItems(catalog, filters(want)) == Offered(catalog, yes, want)
    {
      FilterSameTest(catalog, it => Picker.AllPass(filters(want), it), x => Wanted(yes(x), want));
    }
    AvailabilityPartition(catalog, yes);
  }

  // ---- Type tokens

  /** One record's Type tokens: its Type field split on commas, trimmed, empties dropped. */
  function TokensOf(rec: Record): seq<string>
  {
    Filter(MapSeq(Split(Field(rec, "Type"), ","), Trim), NonEmpty)
  }

  /** A token is listed for a record exactly when some comma piece of its Type trims to it. */
  lemma TokensOfIn(rec: Record, t: string)
    ensures t in TokensOf(rec) <==>
      t != "" && exists p | p in Split(Field(rec, "Type"), ",") :: Trim(p) == t
  {
    var m := MapSeq(Split(Field(rec, "Type"), ","), Trim);
    assert t in TokensOf(rec) <==> t in m && t != "";
    MapSeqIn(Split(Field(rec, "Type"), ","), Trim, t);
  }

  /** Every token of every record, in catalog order. */
  function AllTokens(catalog: seq<Record>): seq<string>
  {
    if |catalog| == 0 then [] else TokensOf(catalog[0]) + AllTokens(catalog[1..])
  }

  lemma {:induction false} AllTokensIn(catalog: seq<Record>, t: string)
    ensures t in AllTokens(catalog) <==> exists r | r in catalog :: t in TokensOf(r)
    decreases |catalog|
  {
    if |catalog| > 0 {
      AllTokensIn(catalog[1..], t);
      assert catalog == [catalog[0]] + catalog[1..];
    }
  }

  predicate Distinct(s: seq<string>)
  {
    forall i, j | 0 <= i < j < |s| :: s[i] != s[j]
  }

  /** `new Set(...)` read back in insertion order: each value once, where it first occurs. */
  function Dedup(s: seq<string>): (d: seq<string>)
    ensures forall x :: x in d <==> x in s
    ensures Distinct(d)
  {
    if |s| == 0 then []
    else
      var init := s[..|s| - 1];
      var x := s[|s| - 1];
      assert s == init + [x];
      var d := Dedup(init);
      if x in d then d else d + [x]
  }

  /** A list is free of repeats exactly when each of its values occurs once. */
  lemma {:induction false} DistinctCount(s: seq<string>)
    ensures Distinct(s) <==> forall x | x in s :: multiset(s)[x] == 1
    decreases |s|
  {
    if |s| > 0 {
      var t := s[1..];
      DistinctCount(t);
      assert s == [s[0]] + t;
      assert multiset(s) == multiset{s[0]} + multiset(t);
      if Distinct(s) {
        assert s[0] !in t;
        assert Distinct(t) by {
          forall i, j | 0 <= i < j < |t|
            ensures t[i] != t[j]
          {
            assert s[i + 1] == t[i] && s[j + 1] == t[j];
          }
        }
      }
      if forall x | x in s :: multiset(s)[x] == 1 {
        assert multiset(s)[s[0]] == 1;
        assert s[0] !in multiset(t);
        forall x | x in t
          ensures multiset(t)[x] == 1
        {
          assert x in s;
        }
        forall i, j | 0 <= i < j < |s|
          ensures s[i] != s[j]
        {
          if i == 0 {
            assert s[j] == t[j - 1];
          } else {
            assert s[i] == t[i - 1] && s[j] == t[j - 1];
          }
        }
      }
    }
  }

  /** Reordering keeps a list free of repeats. */
  lemma DistinctPermutation(s: seq<string>, r: seq<string>)
    requires multiset(r) == multiset(s) && Distinct(s)
    ensures Distinct(r)
  {
    DistinctCount(s);
    DistinctCount(r);
    forall x | x in r
      ensures x in s
    {
      assert x in multiset(r);
    }
  }

  /**
    `allTypeTokens` / `allTypes`: the distinct trimmed non-empty Type tokens
    of the catalog, sorted ignoring case.
   */
  function TypeTokens(catalog: seq<Record>): (r: seq<string>)
    ensures multiset(r) == multiset(Dedup(AllTokens(catalog)))
  {
    Sort(Dedup(AllTokens(catalog)), FoldLe)
  }

  /** The offered types: each once, in order, exactly the tokens some item carries. */
  lemma TypeTokensSpec(catalog: seq<Record>, t: string)
    ensures Distinct(TypeTokens(catalog))
    ensures SortedBy(TypeTokens(catalog), FoldLe)
    ensures t in TypeTokens(catalog) <==>
      t != "" && exists r | r in catalog :: exists p | p in Split(Field(r, "Type"), ",") :: Trim(p) == t
  {
    var d := Dedup(AllTokens(catalog));
    DistinctPermutation(d, TypeTokens(catalog));
    FoldLeTotalPreorder();
    SortSorted(d, FoldLe);
    SortSameElements(d, FoldLe, t);
    AllTokensIn(catalog, t);
    forall r | r in catalog
      ensures t in TokensOf(r) <==>
        t != "" && exists p | p in Split(Field(r, "Type"), ",") :: Trim(p) == t
    {
      TokensOfIn(r, t);
    }
  }

  /** No offered type contains a comma: each is one piece of a comma split. */
  lemma TypeTokensCommaFree(catalog: seq<Record>, t: string)
    requires t in TypeTokens(catalog)
    ensures ',' !in t && Norm(t) != ""
  {
    TypeTokensSpec(catalog, t);
    var r :| r in catalog && exists p | p in Split(Field(r, "Type"), ",") :: Trim(p) == t;
    var p :| p in Split(Field(r, "Type"), ",") && Trim(p) == t;
    SplitPiecesFree(Field(r, "Type"), ",");
    ContainsChar(p, ',');
    if ',' in t {
      TrimSubset(p, ',');
    }
    TrimOfTrimmed(t);
  }

  // ---- Type filters

  /** A Type field's tokens as the type filters compare them: split on commas, normalised, empties dropped. */
  function NormTokens(raw: string): seq<string>
  {
    Filter(MapSeq(Split(raw, ","), Norm), NonEmpty)
  }

  lemma NormTokensIn(raw: string, want: string)
    ensures want in NormTokens(raw) <==>
      want != "" && exists p | p in Split(raw, ",") :: Norm(p) == want
  {
    var m := MapSeq(Split(raw, ","), Norm);
    assert want in NormTokens(raw) <==> want in m && want != "";
    MapSeqIn(Split(raw, ","), Norm, want);
  }
}
