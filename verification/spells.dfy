/**
  The spell list of src/components/SpellsGrid.tsx: the catalog sorted by mana
  cost and name, the ability/domain filter, the option label shown in the
  picker, and the row a picked spell becomes.
 */
module Spells {
  import opened Options
  import opened Text
  import opened Numbers
  import opened Sorting
  import opened RowLists
  import opened Catalog
  import opened Grids
  import Picker

  /** `parseMana`: the mana cost read with `parseInt`; `None` stands for +Infinity. */
  function ParseMana(rec: Record): Option<int>
  {
    ParseIntPrefix(Trim(Field(rec, "Mana")))
  }

  /** A mana text that spells an integer, with or without surrounding blanks, is that cost. */
  lemma ParseManaOfInt(rec: Record, n: int, pad: string)
    requires AllSpace(pad)
    requires Field(rec, "Mana") == pad + IntToString(n)
    ensures ParseMana(rec) == Some(n)
  {
    var t := IntToString(n);
    assert !IsSpace(t[0]);
    assert t[|t| - 1] == '-' || IsDigit(t[|t| - 1]);
    TrimOfTrimmed(t);
    TrimStartPastSpace(pad, t);
    assert Trim(pad + t) == Trim(t);
    assert t + "" == t;
    ParseIntPrefixOfInt(n, "");
  }

  /** Leading blanks are all that `trimStart` drops. */
  lemma {:induction false} TrimStartPastSpace(pad: string, t: string)
    requires AllSpace(pad)
    requires |t| > 0 && !IsSpace(t[0])
    ensures TrimStart(pad + t) == t
    decreases |pad|
  {
    if |pad| == 0 {
      assert pad + t == t;
    } else {
      assert (pad + t)[0] == pad[0];
      assert (pad + t)[1..] == pad[1..] + t;
      TrimStartPastSpace(pad[1..], t);
    }
  }

  /** `hasFocus`: the Focus field, trimmed and lower-cased, is yes, y, true or 1. */
  predicate HasFocus(rec: Record)
  {
    var raw := Norm(Field(rec, "Focus"));
    raw == "yes" || raw == "y" || raw == "true" || raw == "1"
  }

  /** `normalize`: lower-case, then trim. */
  function Normalize(s: string): (r: string)
    ensures r == Norm(s)
  {
    TrimLowerCommute(s);
    Trim(ToLower(s))
  }

  // ---- Catalog order

  /** Mana order with `None` as +Infinity: strictly below. */
  predicate ManaLt(a: Option<int>, b: Option<int>)
  {
    match (a, b)
    case (Some(x), Some(y)) => x < y
    case (Some(_), None) => true
    case (None, _) => false
  }

  /**
    The sort comparator: a lower mana cost first (`ma - mb`); equal costs,
    including two unknown ones, by name ignoring case.
   */
  predicate SpellLe(a: Record, b: Record)
  {
    ManaNameLe(ParseMana(a), ParseMana(b), Field(a, "Name"), Field(b, "Name"))
  }

  /** The comparator on already-computed costs and names. */
  predicate ManaNameLe(ma: Option<int>, mb: Option<int>, na: string, nb: string)
  {
    if ma != mb then ManaLt(ma, mb) else FoldLe(na, nb)
  }

  lemma ManaNameTotal(ma: Option<int>, mb: Option<int>, na: string, nb: string)
    ensures ManaNameLe(ma, mb, na, nb) || ManaNameLe(mb, ma, nb, na)
  {
    LexLeTotal(ToLower(na), ToLower(nb));
  }

  lemma ManaNameTransitive(ma: Option<int>, mb: Option<int>, mc: Option<int>, na: string, nb: string, nc: string)
    requires ManaNameLe(ma, mb, na, nb) && ManaNameLe(mb, mc, nb, nc)
    ensures ManaNameLe(ma, mc, na, nc)
  {
    if ma == mb && mb == mc {
      LexLeTransitive(ToLower(na), ToLower(nb), ToLower(nc));
    }
  }

  lemma SpellLeTotalPreorder()
    ensures TotalPreorder(SpellLe)
  {
    forall a, b
      ensures SpellLe(a, b) || SpellLe(b, a)
    {
      ManaNameTotal(ParseMana(a), ParseMana(b), Field(a, "Name"), Field(b, "Name"));
    }
    forall a, b, c | SpellLe(a, b) && SpellLe(b, c)
      ensures SpellLe(a, c)
    {
      ManaNameTransitive(ParseMana(a), ParseMana(b), ParseMana(c),
                         Field(a, "Name"), Field(b, "Name"), Field(c, "Name"));
    }
  }

  /** `spellItems`: the catalog in comparator order. */
  function SpellItems(catalog: seq<Record>): (r: seq<Record>)
    ensures multiset(r) == multiset(catalog)
  {
    Sort(catalog, SpellLe)
  }

  /**
    In the sorted catalog the mana costs never decrease, spells of unknown
    cost come last, and equal costs are in name order.
   */
  lemma SpellItemsOrdered(catalog: seq<Record>, i: nat, j: nat)
    requires i < j < |SpellItems(catalog)|
    ensures !ManaLt(ParseMana(SpellItems(catalog)[j]), ParseMana(SpellItems(catalog)[i]))
    ensures ParseMana(SpellItems(catalog)[i]) == ParseMana(SpellItems(catalog)[j]) ==>
      FoldLe(Field(SpellItems(catalog)[i], "Name"), Field(SpellItems(catalog)[j], "Name"))
  {
    SpellLeTotalPreorder();
    SortSorted(catalog, SpellLe);
    var r := SpellItems(catalog);
    assert SpellLe(r[i], r[j]);
  }

  // ---- Filter

  /**
    `spellMatches`: with both filters blank every spell passes; otherwise a
    spell passes when its ability equals the ability filter or one of its
    comma-separated domains equals the domain filter, all compared
    normalised.
   */
  predicate SpellMatches(rec: Record, a: string, d: string)
  {
    var wantA := Normalize(a);
    var wantD := Normalize(d);
    if wantA == "" && wantD == "" then true
    else
      var recAbility := Normalize(Field(rec, "Ability"));
      (wantA != "" && recAbility == wantA) || (wantD != "" && wantD in RecDomains(rec))
  }

  /** The spell's domains: its Domain field split on commas, normalised, empties dropped. */
  function RecDomains(rec: Record): seq<string>
  {
    Filter(MapSeq(Split(Field(rec, "Domain"), ","), Normalize), NonEmpty)
  }

  /** A non-empty normalised domain is listed exactly when some comma piece normalises to it. */
  lemma RecDomainsIn(rec: Record, want: string)
    requires want != ""
    ensures want in RecDomains(rec) <==>
      exists p | p in Split(Field(rec, "Domain"), ",") :: Norm(p) == want
  {
    var pieces := Split(Field(rec, "Domain"), ",");
    assert want in RecDomains(rec) <==> want in MapSeq(pieces, Normalize);
    MapSeqIn(pieces, Normalize, want);
    if want in RecDomains(rec) {
      var p :| p in pieces && Normalize(p) == want;
      assert Norm(p) == want;
    } else {
      forall p | p in pieces ensures Norm(p) != want {
        assert Normalize(p) == Norm(p);
      }
    }
  }

  /** The filter rule in terms of the raw fields. */
  lemma SpellMatchesRule(rec: Record, a: string, d: string)
    ensures SpellMatches(rec, a, d) <==>
      (Norm(a) == "" && Norm(d) == "") ||
      (Norm(a) != "" && Norm(Field(rec, "Ability")) == Norm(a)) ||
      (Norm(d) != "" && exists p | p in Split(Field(rec, "Domain"), ",") :: Norm(p) == Norm(d))
  {
    var wa := Norm(a);
    var wd := Norm(d);
    assert Normalize(a) == wa && Normalize(d) == wd;
    var ab := Norm(Field(rec, "Ability"));
    assert Normalize(Field(rec, "Ability")) == ab;
    assert SpellMatches(rec, a, d) <==> (wa == "" && wd == "") || (wa != "" && ab == wa) || (wd != "" && wd in RecDomains(rec));
    if wd != "" {
      RecDomainsIn(rec, wd);
    }
  }

  /** Both filter controls carry the same test, each with its own value bound in. */
  function SpellFilters(ability: string, domain: string): seq<Record -> bool>
  {
    [it => SpellMatches(it, ability, domain), it => SpellMatches(it, ability, domain)]
  }

  /** An item passes the two controls exactly when it matches the filter pair. */
  lemma SpellFiltersPass(ability: string, domain: string, it: Record)
    ensures Picker.AllPass(SpellFilters(ability, domain), it) <==> SpellMatches(it, ability, domain)
  {
    var preds := SpellFilters(ability, domain);
    assert |preds| == 2;
    assert Picker.AllPass(preds, it) <==> preds[0](it) && preds[1](it);
    assert preds[0](it) == SpellMatches(it, ability, domain);
    assert preds[1](it) == SpellMatches(it, ability, domain);
  }

  /** The picker offers exactly the sorted spells matching the filter pair. */
  lemma SpellFilteredItems(catalog: seq<Record>, ability: string, domain: string)
    ensures Picker.FilteredItems(SpellItems(catalog), SpellFilters(ability, domain)) ==
      Filter(SpellItems(catalog), it => SpellMatches(it, ability, domain))
  {
    var preds := SpellFilters(ability, domain);
    forall it | it in SpellItems(catalog)
      ensures Picker.AllPass(preds, it) == SpellMatches(it, ability, domain)
    {
      SpellFiltersPass(ability, domain, it);
    }
    FilterSameTest(SpellItems(catalog), it => Picker.AllPass(preds, it),
                   it => SpellMatches(it, ability, domain));
  }

  // ---- Picker label, key and row

  function ManaText(m: Option<int>): string
  {
    match m
    case Some(n) => IntToString(n)
    case None => "?"
  }

  /** `getItemLabel`: "mana – Name[ (F)] – Action", with "?" for an unknown cost. */
  function SpellLabel(rec: Record): string
  {
    ManaText(ParseMana(rec)) + LabelTail(rec)
  }

  /** What follows the cost: " – Name[ (F)] – Action". */
  function LabelTail(rec: Record): (t: string)
    ensures |t| > 0 && t[0] == ' '
  {
    " \U{2013} " + Field(rec, "Name") + (if HasFocus(rec) then " (F)" else "") +
    " \U{2013} " + Field(rec, "Action")
  }

  /**
    The focus tag: the label tail is four characters longer, and carries
    " (F)" right after the name, exactly when the spell needs a focus.
   */
  lemma FocusTagShown(rec: Record)
    ensures HasFocus(rec) <==> |LabelTail(rec)| == |Field(rec, "Name")| + |Field(rec, "Action")| + 10
    ensures HasFocus(rec) ==>
      LabelTail(rec)[3 + |Field(rec, "Name")|..7 + |Field(rec, "Name")|] == " (F)"
  {
    TailShape(Field(rec, "Name"), HasFocus(rec), Field(rec, "Action"));
  }

  lemma TailShape(name: string, focus: bool, action: string)
    ensures var t := " \U{2013} " + name + (if focus then " (F)" else "") + " \U{2013} " + action;
      (focus <==> |t| == |name| + |action| + 10) &&
      (focus ==> t[3 + |name|..7 + |name|] == " (F)")
  {
    var dash := " \U{2013} ";
    assert |dash| == 3;
    if focus {
      var t := dash + name + " (F)" + dash + action;
      assert t[3 + |name|..7 + |name|] == " (F)";
    }
  }

  /** The label starts with the cost: reading it back with `parseInt` gives the spell's mana. */
  lemma SpellLabelMana(rec: Record)
    ensures ParseIntPrefix(SpellLabel(rec)) == ParseMana(rec)
  {
    var m := ParseMana(rec);
    var rest := LabelTail(rec);
    assert SpellLabel(rec) == ManaText(m) + rest;
    if m.Some? {
      ParseIntPrefixOfInt(m.value, rest);
    } else {
      UnknownCostLabel(rest);
    }
  }

  /** A label starting with "?" holds no number. */
  lemma UnknownCostLabel(rest: string)
    ensures ParseIntPrefix("?" + rest) == None
  {
    var s := "?" + rest;
    assert s[0] == '?';
    assert TrimStart(s) == s;
    assert LeadingDigits(s) == "";
  }

  /** `toRow`: the seven row fields, each copied from its catalog field or empty. */
  function SpellToRow(rec: Record): (row: Row)
    ensures row.Keys == {"name", "action", "mana", "range", "duration", "focus", "description"}
    ensures row["name"] == Field(rec, "Name") && row["mana"] == Field(rec, "Mana")
    ensures row["action"] == Field(rec, "Action") && row["range"] == Field(rec, "Range")
    ensures row["duration"] == Field(rec, "Duration") && row["focus"] == Field(rec, "Focus")
    ensures row["description"] == Field(rec, "Description")
  {
    map["name" := Field(rec, "Name"), "action" := Field(rec, "Action"),
        "mana" := Field(rec, "Mana"), "range" := Field(rec, "Range"),
        "duration" := Field(rec, "Duration"), "focus" := Field(rec, "Focus"),
        "description" := Field(rec, "Description")]
  }

  /**
    A row made from a spell points back to that spell's key, so editing it
    preselects the spell again (a nameless row and a nameless spell both map
    to the empty key).
   */
  lemma SpellRowPointsBack(rec: Record)
    ensures Picker.RowTarget(SpellToRow(rec), Some(NameRowKey)) ==
      Picker.ItemKey(rec, Some(NameKey), SpellLabel)
  {
    NameRowPointsBack(rec, SpellToRow(rec), SpellLabel);
  }
}
