/**
  The spellcasting block of src/components/SpellcastingBlock.tsx: the
  modifier of the chosen casting ability, the save DC, the record patch
  `setSC`, the ability choice that fills a blank spell attack, and the
  spell-attack input.
 */
module SpellcastingBlock {
  import opened Options
  import opened Text
  import opened Numbers
  import opened Sheet
  import SkillsGrid

  /** What the block shows while the character has no spellcasting record yet. */
  const NoSpellcasting := Spellcasting("", "", Blank)

  /** `ch.spellcasting ?? { ability: "", domain: "", spellAttack: "" }`. */
  function Current(stored: Option<Spellcasting>): Spellcasting
  {
    stored.GetOr(NoSpellcasting)
  }

  /**
    The modifier of ability `a`: blank when no ability is chosen or the
    text names none; otherwise the stored mod, or the one computed from the
    base when the mod is blank. That is blank again when the base is not a
    number; a stored `NaN` mod passes, as `typeof NaN` is "number".
   */
  function AbilityModifier(abs: Abilities, a: string): (r: Value)
    ensures a == "" || KeyOf(a).None? ==> r == Blank
    ensures KeyOf(a).Some? ==> r == EffectiveMod(abs.Get(KeyOf(a).value))
    ensures KeyOf(a).Some? && abs.Get(KeyOf(a).value).mod.Blank? ==>
      r == CalcMod(abs.Get(KeyOf(a).value).base)
  {
    match KeyOf(a)
    case None => Blank
    case Some(k) =>
      var m := EffectiveMod(abs.Get(k));
      if m.Blank? then Blank else m
  }

  /**
    The block's modifier and the skill grid's agree on every chosen ability
    whose modifier is set or computable; where it is neither, the skill grid
    counts 0 and the block shows blank.
   */
  lemma AbilityModifierAgrees(abs: Abilities, k: AbilityKey)
    ensures !EffectiveMod(abs.Get(k)).Blank? ==>
      AbilityModifier(abs, KeyName(k)) == SkillsGrid.AbilityMod(abs, k)
    ensures EffectiveMod(abs.Get(k)).Blank? ==>
      AbilityModifier(abs, KeyName(k)) == Blank && SkillsGrid.AbilityMod(abs, k) == Num(0)
  {
    KeyOfName(k);
  }

  /** The block's modifier: that of the chosen casting ability. */
  function Modifier(abs: Abilities, sc: Spellcasting): Value
  {
    AbilityModifier(abs, sc.ability)
  }

  /** The spell save DC: 10 + modifier, blank when the modifier is, `NaN` when it is `NaN`. */
  function DC(mod: Value): (r: Value)
    ensures r.Num? <==> mod.Num?
    ensures r.Blank? <==> mod.Blank?
    ensures r.Num? ==> r.n - mod.n == 10
  {
    match mod
    case Num(m) => Num(10 + m)
    case NaN => NaN
    case Blank => Blank
  }

  /** Which fields a patch sets. */
  datatype Patch = Patch(ability: Option<string>, domain: Option<string>, spellAttack: Option<Value>)

  /** `{ ...(prev.spellcasting ?? sc), ...patch }`: patched fields replaced, the rest kept. */
  function SetSC(stored: Option<Spellcasting>, p: Patch): (r: Spellcasting)
    ensures r.ability == p.ability.GetOr(Current(stored).ability)
    ensures r.domain == p.domain.GetOr(Current(stored).domain)
    ensures r.spellAttack == p.spellAttack.GetOr(Current(stored).spellAttack)
  {
    var sc := Current(stored);
    Spellcasting(p.ability.GetOr(sc.ability), p.domain.GetOr(sc.domain),
                 p.spellAttack.GetOr(sc.spellAttack))
  }

  /** An empty patch stores the record the block was showing. */
  lemma SetSCEmpty(stored: Option<Spellcasting>)
    ensures SetSC(stored, Patch(None, None, None)) == Current(stored)
  {
  }

  /**
    `onAbilityChange`: the new ability is stored; a blank spell attack is
    filled with that ability's modifier, a non-blank one is kept.
   */
  function OnAbilityChange(abs: Abilities, stored: Option<Spellcasting>, a: string): (r: Spellcasting)
    ensures r.ability == a && r.domain == Current(stored).domain
    ensures Current(stored).spellAttack != Blank || a == "" ==> r.spellAttack == Current(stored).spellAttack
  {
    var sc := Current(stored);
    var next := if sc.spellAttack == Blank && a != "" then AbilityModifier(abs, a) else sc.spellAttack;
    SetSC(stored, Patch(Some(a), None, Some(next)))
  }

  /**
    A blank spell attack is filled with exactly the modifier the block then
    shows, so the attack and the DC agree: DC = 10 + attack.
   */
  lemma FilledAttackMatchesModifier(abs: Abilities, stored: Option<Spellcasting>, a: string)
    requires Current(stored).spellAttack == Blank
    ensures var sc := OnAbilityChange(abs, stored, a);
      sc.spellAttack == Modifier(abs, sc) &&
      (sc.spellAttack.Num? ==> DC(Modifier(abs, sc)) == Num(10 + sc.spellAttack.n))
  {
  }

  /** `onDomainChange`: only the domain changes. */
  function OnDomainChange(stored: Option<Spellcasting>, d: string): (r: Spellcasting)
    ensures r == Current(stored).(domain := d)
  {
    SetSC(stored, Patch(None, Some(d), None))
  }

  /** `onAttackChange`: the trimmed text, blank or non-numeric as blank, else `Number(text)`. */
  function OnAttackChange(stored: Option<Spellcasting>, raw: string): (r: Spellcasting)
    ensures r.ability == Current(stored).ability && r.domain == Current(stored).domain
    ensures !r.spellAttack.NaN?
    ensures r.spellAttack.Blank? <==> AllSpace(raw) || !IsIntLiteral(Trim(raw))
    ensures r.spellAttack.Num? ==> r.spellAttack.n == LiteralValue(Trim(raw))
  {
    SetSC(stored, Patch(None, None, Some(ReadSigned(raw))))
  }

  /** Typing back the shown spell attack stores it unchanged. */
  lemma ShownAttackTypedBack(stored: Option<Spellcasting>)
    requires !Current(stored).spellAttack.NaN?
    ensures OnAttackChange(stored, FormatSigned(Current(stored).spellAttack)) == Current(stored)
  {
    ReadSignedOfFormatted(Current(stored).spellAttack);
  }

  /** With no spellcasting record the block has no ability, so no modifier and no DC. */
  lemma NoRecordNoModifier(abs: Abilities)
    ensures Modifier(abs, Current(None)) == Blank && DC(Modifier(abs, Current(None))) == Blank
  {
  }
}
