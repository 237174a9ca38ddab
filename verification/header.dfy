/**
  The header of src/components/HeaderSection.tsx. The race and its race
  talent live together in one field, `raceTalent`, as "race | talent"; the
  header decodes it, re-encodes it on either select, clears a talent the
  race does not allow, and coerces the numeric inputs.
 */
module HeaderSection {
  import opened Text
  import opened Numbers
  import opened Catalog

  const Sep := " | "

  /** `raceTalent.split(" | ")[0]`. */
  function RaceOf(rt: string): string
  {
    Split(rt, Sep)[0]
  }

  /** `raceTalent.split(" | ")[1] ?? ""`. */
  function TalentOf(rt: string): string
  {
    var parts := Split(rt, Sep);
    if |parts| > 1 then parts[1] else ""
  }

  /** The stored form: the race alone, or race + " | " + talent for a non-blank talent. */
  function Encode(race: string, talent: string): string
  {
    race + (if talent != "" then Sep + talent else "")
  }

  predicate EndsInBar(s: string)
  {
    |s| >= 2 && s[|s| - 2] == ' ' && s[|s| - 1] == '|'
  }

  /** Neither decoded part ever contains the separator. */
  lemma DecodedPartsFree(rt: string)
    ensures !Contains(RaceOf(rt), Sep) && !Contains(TalentOf(rt), Sep)
  {
    SplitPiecesFree(rt, Sep);
    var parts := Split(rt, Sep);
    assert parts[0] in parts;
    if |parts| > 1 {
      assert parts[1] in parts;
    }
  }

  /** In race + " | " + talent the first separator is the one put there. */
  lemma FirstSeparator(race: string, talent: string)
    requires !Contains(race, Sep) && !EndsInBar(race)
    ensures FindFrom(race + Sep + talent, Sep, 0) == |race|
  {
    var s := race + Sep + talent;
    var n := |race|;
    assert s[n..n + 3] == Sep;
    assert OccursAt(s, Sep, n);
    forall k | 0 <= k < n
      ensures !OccursAt(s, Sep, k)
    {
      SepAt(s, k);
      if k + 3 <= n {
        SepAt(race, k);
        assert !OccursAt(race, Sep, k);
        assert s[k] == race[k] && s[k + 1] == race[k + 1] && s[k + 2] == race[k + 2];
      } else if k == n - 2 {
        assert s[k] == race[n - 2] && s[k + 1] == race[n - 1];
      } else {
        assert k == n - 1;
        assert s[k + 1] == ' ';
      }
    }
  }

  /** The separator occurs at `k` exactly when the three characters there are blank, bar, blank. */
  lemma SepAt(s: string, k: nat)
    requires k + 3 <= |s|
    ensures OccursAt(s, Sep, k) <==> s[k] == ' ' && s[k + 1] == '|' && s[k + 2] == ' '
  {
    if s[k] == ' ' && s[k + 1] == '|' && s[k + 2] == ' ' {
      assert s[k..k + 3] == Sep;
    }
  }

  /**
    Decoding undoes encoding when neither part contains " | " and, for a
    non-blank talent, the race does not end in " |".
   */
  lemma DecodeEncode(race: string, talent: string)
    requires !Contains(race, Sep) && !Contains(talent, Sep)
    requires talent != "" ==> !EndsInBar(race)
    ensures RaceOf(Encode(race, talent)) == race
    ensures TalentOf(Encode(race, talent)) == talent
  {
    if talent == "" {
      assert Encode(race, talent) == race;
      SplitOfFree(race, Sep);
    } else {
      var s := race + Sep + talent;
      assert Encode(race, talent) == s;
      FirstSeparator(race, talent);
      assert s[..|race|] == race;
      assert s[|race| + 3..] == talent;
      SplitOfFree(talent, Sep);
      assert Split(s, Sep) == [race] + [talent];
    }
  }

  /** A race ending in " |" does not survive a non-blank talent: it decodes shorter. */
  lemma EncodeBarRace(race: string, talent: string)
    requires EndsInBar(race) && talent != ""
    ensures RaceOf(Encode(race, talent)) != race
  {
    var s := race + Sep + talent;
    assert Encode(race, talent) == s;
    var n := |race|;
    assert s[n - 2..n + 1] == Sep;
    assert OccursAt(s, Sep, n - 2);
    var k := FindFrom(s, Sep, 0);
    assert 0 <= k <= n - 2;
    assert |RaceOf(s)| == k;
  }

  // ---- Select handlers

  /** `handleTalentChange`: the current race with the chosen talent, or alone for a blank choice. */
  function HandleTalentChange(rt: string, value: string): (r: string)
    ensures value == "" ==> r == RaceOf(rt)
  {
    Encode(RaceOf(rt), value)
  }

  /** The chosen talent reads back, and the race is kept, unless the race ends in " |". */
  lemma TalentChangeRoundTrip(rt: string, value: string)
    requires !Contains(value, Sep)
    requires value != "" ==> !EndsInBar(RaceOf(rt))
    ensures RaceOf(HandleTalentChange(rt, value)) == RaceOf(rt)
    ensures TalentOf(HandleTalentChange(rt, value)) == value
  {
    DecodedPartsFree(rt);
    DecodeEncode(RaceOf(rt), value);
  }

  /** The talents the header offers for the current race; none without a race. */
  function Allowed(talents: seq<Record>, rt: string): (r: seq<string>)
    ensures RaceOf(rt) == "" ==> r == []
  {
    AllowedTalentNames(talents, RaceOf(rt))
  }

  /**
    `handleRaceChange`: the new race, keeping the current talent only when
    it is in the list allowed for the race being replaced.
   */
  function HandleRaceChange(talents: seq<Record>, rt: string, value: string): string
  {
    var talent := TalentOf(rt);
    var stillValid := talent != "" && talent in Allowed(talents, rt);
    Encode(value, if stillValid then talent else "")
  }

  /**
    After a race change the new race reads back, and the old talent reads
    back exactly when it was non-blank and allowed for the old race;
    otherwise the talent is blank.
   */
  lemma RaceChangeRule(talents: seq<Record>, rt: string, value: string)
    requires !Contains(value, Sep) && !EndsInBar(value)
    ensures RaceOf(HandleRaceChange(talents, rt, value)) == value
    ensures var t := TalentOf(rt);
      TalentOf(HandleRaceChange(talents, rt, value)) ==
        (if t != "" && t in Allowed(talents, rt) then t else "")
  {
    DecodedPartsFree(rt);
    var t := TalentOf(rt);
    DecodeEncode(value, if t != "" && t in Allowed(talents, rt) then t else "");
  }

  // ---- Clearing an invalid talent

  /** A stored value is consistent when there is no race, no talent, or an allowed talent. */
  predicate Consistent(talents: seq<Record>, rt: string)
  {
    RaceOf(rt) == "" || TalentOf(rt) == "" || TalentOf(rt) in Allowed(talents, rt)
  }

  /** The effect: a race with a talent it does not allow is stored as the race alone. */
  function ClearInvalid(talents: seq<Record>, rt: string): string
  {
    if RaceOf(rt) != "" && TalentOf(rt) != "" && TalentOf(rt) !in Allowed(talents, rt)
    then RaceOf(rt) else rt
  }

  /** A race alone decodes as that race with no talent. */
  lemma RaceAlone(rt: string)
    ensures RaceOf(RaceOf(rt)) == RaceOf(rt) && TalentOf(RaceOf(rt)) == ""
  {
    DecodedPartsFree(rt);
    SplitOfFree(RaceOf(rt), Sep);
  }

  /** A stored value with a talent is longer than its race. */
  lemma TalentMeansLonger(rt: string)
    requires TalentOf(rt) != ""
    ensures |RaceOf(rt)| < |rt|
  {
    var k := FindFrom(rt, Sep, 0);
    assert k >= 0;
  }

  /** The effect leaves a consistent value, and changes a value exactly when it is inconsistent. */
  lemma ClearInvalidConsistent(talents: seq<Record>, rt: string)
    ensures Consistent(talents, ClearInvalid(talents, rt))
    ensures ClearInvalid(talents, rt) == rt <==> Consistent(talents, rt)
  {
    RaceAlone(rt);
    if !Consistent(talents, rt) {
      TalentMeansLonger(rt);
    }
  }

  /** The effect settles: running it again changes nothing. */
  lemma ClearInvalidSettles(talents: seq<Record>, rt: string)
    ensures ClearInvalid(talents, ClearInvalid(talents, rt)) == ClearInvalid(talents, rt)
  {
    ClearInvalidConsistent(talents, rt);
    ClearInvalidConsistent(talents, ClearInvalid(talents, rt));
  }

  // ---- Numeric fields

  /** `Number(text) || ""`: 0 and `NaN` are stored as blank. */
  function HeaderNumber(raw: string): (r: Value)
    ensures !r.NaN? && (r.Num? ==> r.n != 0)
    ensures r.Blank? <==> ParseNumber(raw) == NaN || ParseNumber(raw) == Num(0)
    ensures r.Num? ==> r == ParseNumber(raw)
  {
    match ParseNumber(raw)
    case Num(n) => if n != 0 then Num(n) else Blank
    case _ => Blank
  }

  /** A typed non-zero integer is stored as itself; a typed 0 and an empty input store blank. */
  lemma HeaderNumberOfPrinted(n: int)
    ensures n != 0 ==> HeaderNumber(IntToString(n)) == Num(n)
    ensures HeaderNumber(IntToString(0)) == Blank
    ensures HeaderNumber("") == Blank
  {
    ParseNumberOfPrinted(n);
    ParseNumberOfPrinted(0);
  }
}
