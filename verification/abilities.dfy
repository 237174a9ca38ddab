/**
  The ability table of src/components/AbilityTable.tsx: the drafted base
  input, the base commit that recomputes the modifier and fills a blank
  save, the save input, and the save value the table shows.
 */
module AbilityTable {
  import opened Text
  import opened Numbers
  import opened Sheet

  /**
    The base input's draft: empty text is blank, `NaN` is blank, anything
    else is `Number(text)`. The text is not trimmed first, so an all-blank
    text that is not empty drafts 0.
   */
  function DraftBase(raw: string): (r: Value)
    ensures !r.NaN?
    ensures raw == "" ==> r == Blank
    ensures raw != "" && AllSpace(raw) ==> r == Num(0)
    ensures r.Num? && !AllSpace(raw) ==> IsIntLiteral(Trim(raw)) && r.n == LiteralValue(Trim(raw))
    ensures r.Blank? ==> raw == "" || !IsIntLiteral(Trim(raw))
  {
    if raw == "" then Blank
    else
      match ParseNumber(raw)
      case NaN => Blank
      case v => v
  }

  /**
    `setBaseCommit`: ability `k` gets the new base and the modifier computed
    from it; its save takes that modifier only when it was blank.
   */
  function SetBaseCommit(abs: Abilities, k: AbilityKey, base: Value): (r: Abilities)
    ensures r.Get(k).base == base && r.Get(k).mod == CalcMod(base)
    ensures abs.Get(k).save == Blank ==> r.Get(k).save == CalcMod(base)
    ensures abs.Get(k).save != Blank ==> r.Get(k).save == abs.Get(k).save
    ensures forall j: AbilityKey | j != k :: r.Get(j) == abs.Get(j)
  {
    var row := abs.Get(k);
    var newMod := CalcMod(base);
    var nextSave := if row.save == Blank then newMod else row.save;
    abs.Set(k, AbilityRow(base, newMod, nextSave))
  }

  /** `setSave`: only ability `k`'s save changes; its base and modifier stay. */
  function SetSave(abs: Abilities, k: AbilityKey, save: Value): (r: Abilities)
    ensures r.Get(k) == abs.Get(k).(save := save)
    ensures forall j: AbilityKey | j != k :: r.Get(j) == abs.Get(j)
  {
    abs.Set(k, abs.Get(k).(save := save))
  }

  /** The save input's commit: trimmed, blank or non-numeric gives blank, else `Number(text)`. */
  function SaveText(raw: string): (r: Value)
    ensures !r.NaN?
    ensures r.Blank? <==> AllSpace(raw) || !IsIntLiteral(Trim(raw))
    ensures r.Num? ==> r.n == LiteralValue(Trim(raw))
  {
    ReadSigned(raw)
  }

  /** The save shown: the stored save, or the draft base's modifier while the save is blank. */
  function DisplayedSave(row: AbilityRow, draftBase: Value): (r: Value)
    ensures row.save != Blank ==> r == row.save
    ensures row.save == Blank ==> r == CalcMod(draftBase)
  {
    if row.save == Blank then CalcMod(draftBase) else row.save
  }

  /**
    The save is filled once and then stops following the base: after a
    first commit fills a blank save, a later commit of another base keeps
    the first modifier as the save.
   */
  lemma SaveStopsTracking(abs: Abilities, k: AbilityKey, b1: int, b2: int)
    requires abs.Get(k).save == Blank
    ensures SetBaseCommit(abs, k, Num(b1)).Get(k).save == CalcMod(Num(b1))
    ensures SetBaseCommit(SetBaseCommit(abs, k, Num(b1)), k, Num(b2)).Get(k).save == CalcMod(Num(b1))
    ensures SetBaseCommit(SetBaseCommit(abs, k, Num(b1)), k, Num(b2)).Get(k).mod == CalcMod(Num(b2))
  {
  }

  /** A commit of a blank base leaves the save as it was: blank stays blank. */
  lemma BlankBaseCommit(abs: Abilities, k: AbilityKey)
    ensures SetBaseCommit(abs, k, Blank).Get(k) == AbilityRow(Blank, Blank, abs.Get(k).save)
  {
  }

  /** Committing the same base twice is the same as committing it once. */
  lemma SetBaseCommitIdempotent(abs: Abilities, k: AbilityKey, base: Value)
    ensures SetBaseCommit(SetBaseCommit(abs, k, base), k, base) == SetBaseCommit(abs, k, base)
  {
    var once := SetBaseCommit(abs, k, base);
    AbilitiesExt(SetBaseCommit(once, k, base), once);
  }

  /**
    While the save is blank the table shows the draft's modifier, and once
    the draft is committed that modifier is what gets stored: what was shown
    is what is kept.
   */
  lemma CommitStoresShownSave(abs: Abilities, k: AbilityKey, draft: Value)
    requires abs.Get(k).save == Blank
    ensures SetBaseCommit(abs, k, draft).Get(k).save == DisplayedSave(abs.Get(k), draft)
  {
  }

  /** Typing the shown save back into the save input stores it, turning a derived save into an explicit one. */
  lemma TypedBackSave(abs: Abilities, k: AbilityKey, draft: Value)
    ensures var shown := DisplayedSave(abs.Get(k), draft);
      SetSave(abs, k, SaveText(FormatSigned(shown))).Get(k).save ==
        (if shown.Num? then shown else Blank)
  {
    ReadSignedOfFormatted(DisplayedSave(abs.Get(k), draft));
  }

  /** The scenario of a base of 14, a save overridden to +5, then a base of 16. */
  lemma OverrideScenario(abs: Abilities)
    requires abs.Get(Phy) == BlankAbility
    ensures var a1 := SetBaseCommit(abs, Phy, Num(14));
      a1.Get(Phy) == AbilityRow(Num(14), Num(2), Num(2)) &&
      var a2 := SetSave(a1, Phy, Num(5));
      SetBaseCommit(a2, Phy, Num(16)).Get(Phy) == AbilityRow(Num(16), Num(3), Num(5))
  {
    CalcModExamples();
  }
}
