/**
  The character record of src/types.ts as the editing blocks see it: the
  five abilities with their base, modifier and save, the skill list and
  its static table, and the spellcasting block's own record.
 */
module Sheet {
  import opened Options
  import opened Numbers
  import opened RowLists

  // ---- Abilities

  datatype AbilityKey = Phy | Agi | Int | Con | Cha

  /** `abilityKeys`, in table order. */
  const AbilityKeys: seq<AbilityKey> := [Phy, Agi, Int, Con, Cha]

  function KeyName(k: AbilityKey): string
  {
    match k
    case Phy => "Phy"
    case Agi => "Agi"
    case Int => "Int"
    case Con => "Con"
    case Cha => "Cha"
  }

  /** Reads a select value as an ability key; any other text names no ability. */
  function KeyOf(s: string): (r: Option<AbilityKey>)
    ensures r.Some? ==> KeyName(r.value) == s
  {
    if s == "Phy" then Some(Phy)
    else if s == "Agi" then Some(Agi)
    else if s == "Int" then Some(Int)
    else if s == "Con" then Some(Con)
    else if s == "Cha" then Some(Cha)
    else None
  }

  /** Every key's name reads back as that key. */
  lemma KeyOfName(k: AbilityKey)
    ensures KeyOf(KeyName(k)) == Some(k)
  {
  }

  /** `AbilityRow`: base score, modifier and save, each a number or blank. */
  datatype AbilityRow = AbilityRow(base: Value, mod: Value, save: Value)

  const BlankAbility := AbilityRow(Blank, Blank, Blank)

  /** `Record<AbilityKey, AbilityRow>`. */
  datatype Abilities = Abilities(phy: AbilityRow, agi: AbilityRow, intl: AbilityRow,
                                 con: AbilityRow, cha: AbilityRow)
  {
    function Get(k: AbilityKey): AbilityRow
    {
      match k
      case Phy => phy
      case Agi => agi
      case Int => intl
      case Con => con
      case Cha => cha
    }

    /** `{ ...abilities, [k]: row }`. */
    function Set(k: AbilityKey, row: AbilityRow): (r: Abilities)
      ensures r.Get(k) == row
      ensures forall j: AbilityKey | j != k :: r.Get(j) == Get(j)
    {
      match k
      case Phy => this.(phy := row)
      case Agi => this.(agi := row)
      case Int => this.(intl := row)
      case Con => this.(con := row)
      case Cha => this.(cha := row)
    }
  }

  /** Two ability tables are equal when they agree on every key. */
  lemma AbilitiesExt(a: Abilities, b: Abilities)
    requires forall k: AbilityKey :: a.Get(k) == b.Get(k)
    ensures a == b
  {
    assert a.Get(Phy) == b.Get(Phy) && a.Get(Agi) == b.Get(Agi) && a.Get(Int) == b.Get(Int);
    assert a.Get(Con) == b.Get(Con) && a.Get(Cha) == b.Get(Cha);
  }

  /**
    The committed modifier the skill and spellcasting blocks use: the
    stored mod, or the one computed from the base when the mod is blank.
   */
  function EffectiveMod(row: AbilityRow): Value
  {
    if row.mod == Blank then CalcMod(row.base) else row.mod
  }

  // ---- Skills

  /** An entry of `SKILLS`: key, label and governing ability. */
  datatype SkillInfo = SkillInfo(key: string, labelText: string, ability: AbilityKey)

  /** The fourteen skills, in sheet order. */
  const Skills: seq<SkillInfo> := [
    SkillInfo("Arcana", "Arcana (Int)", Int),
    SkillInfo("Athletics", "Athletics (Phy)", Phy),
    SkillInfo("Deception", "Deception (Cha)", Cha),
    SkillInfo("Finesse", "Finesse (Agi)", Agi),
    SkillInfo("Insight", "Insight (Con)", Con),
    SkillInfo("Intimidation", "Intimidation (Cha)", Cha),
    SkillInfo("Lore", "Lore (Int)", Int),
    SkillInfo("Might", "Might (Phy)", Phy),
    SkillInfo("Perception", "Perception (Con)", Con),
    SkillInfo("Performance", "Performance (Cha)", Cha),
    SkillInfo("Persuasion", "Persuasion (Cha)", Cha),
    SkillInfo("Religion", "Religion (Int)", Int),
    SkillInfo("Stealth", "Stealth (Agi)", Agi),
    SkillInfo("Survival", "Survival (Con)", Con)
  ]

  /**
    A stored skill bonus: normally a number or blank, but older saved data
    may hold the bonus as text.
   */
  datatype Bonus = Stored(v: Value) | Legacy(text: string)

  datatype Skill = Skill(key: string, ability: AbilityKey, bonus: Bonus, total: Value)

  // ---- Spellcasting

  /** `spellMeta`, filled in by the default character. */
  datatype SpellMeta = SpellMeta(ability: AbilityKey, domain: string, mod: Value,
                                 spellAttack: Value, spellSave: Value)

  /** `spellcasting`, the record the spellcasting block reads and writes; the ability may be "". */
  datatype Spellcasting = Spellcasting(ability: string, domain: string, spellAttack: Value)

  // ---- The character

  datatype Character = Character(
    name: string, raceTalent: string, level: Value, age: Value, speed: Value,
    gender: string, initiative: Value, occupation: string, armorClass: Value,
    patron: string, maxHP: Value, curHP: Value, maxMana: Value, curMana: Value,
    abilities: Abilities, skills: seq<Skill>,
    actions: seq<Row>, supportActions: seq<Row>, reactions: seq<Row>,
    spellMeta: SpellMeta, spellcasting: Option<Spellcasting>,
    spells: seq<Row>, talents: seq<Row>, equipment: seq<Row>, desc: Row)
}
