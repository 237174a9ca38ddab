/**
  The blank character of src/storage.ts: every ability blank, level 1, one
  blank skill per entry of the skill table, and fixed numbers of blank
  rows in each list.
 */
module Storage {
  import opened Options
  import opened Numbers
  import opened RowLists
  import opened Sheet
  import ActionsGrid
  import SkillsGrid
  import SpellcastingBlock
  import HeaderSection
  import Catalog
  import Text

  /** `emptyAbilities`. */
  function EmptyAbilities(): (a: Abilities)
    ensures forall k: AbilityKey :: a.Get(k) == BlankAbility
  {
    Abilities(BlankAbility, BlankAbility, BlankAbility, BlankAbility, BlankAbility)
  }

  /** A record with the given fields, all blank. */
  function BlankRow(fields: seq<string>): (r: Row)
    ensures r.Keys == set f | f in fields
    ensures forall f | f in r :: r[f] == ""
  {
    if |fields| == 0 then map[] else BlankRow(fields[1..])[fields[0] := ""]
  }

  /** `Array.from({ length: n }, () => row)`. */
  function Copies(n: nat, row: Row): (r: seq<Row>)
    ensures |r| == n && forall i | 0 <= i < n :: r[i] == row
  {
    if n == 0 then [] else Copies(n - 1, row) + [row]
  }

  /** The skill list: one entry per skill of the table, same key and ability, blank bonus and total. */
  function EmptySkills(table: seq<SkillInfo>): (r: seq<Skill>)
    ensures |r| == |table|
    ensures forall i | 0 <= i < |table| ::
      r[i] == Skill(table[i].key, table[i].ability, Stored(Blank), Blank)
  {
    if |table| == 0 then []
    else [Skill(table[0].key, table[0].ability, Stored(Blank), Blank)] + EmptySkills(table[1..])
  }

  const ActionFields: seq<string> := ["ability", "toHit", "damage", "effect"]

  /** `emptyCharacter`. */
  function EmptyCharacter(): Character
  {
    Character(
      "", "", Num(1), Blank, Blank, "", Blank, "", Blank, "",
      Blank, Blank, Blank, Blank,
      EmptyAbilities(), EmptySkills(Skills),
      Copies(7, BlankRow(ActionFields)), Copies(6, BlankRow(ActionFields)),
      Copies(6, BlankRow(["ability", "effect"])),
      SpellMeta(Int, "", Blank, Blank, Blank), None,
      Copies(12, BlankRow(["name", "mana", "description"])),
      Copies(10, BlankRow(["name", "description"])),
      Copies(10, BlankRow(["name", "description"])),
      BlankRow(["area", "friendHome", "seeking", "friendNearby", "nemesis",
                "profession", "physical", "personality"]))
  }

  /** A row holding exactly the given fields, each blank. */
  predicate BlankWith(r: Row, fields: seq<string>)
  {
    (forall f | f in fields :: f in r) && forall f | f in r :: f in fields && r[f] == ""
  }

  /** The blank character's fields: level 1, every other scalar blank, the lists of the stated sizes. */
  lemma EmptyCharacterShape()
    ensures var c := EmptyCharacter();
      c.level == Num(1) && c.name == "" && c.raceTalent == "" && c.gender == "" &&
      c.occupation == "" && c.patron == "" &&
      c.age == Blank && c.speed == Blank && c.initiative == Blank && c.armorClass == Blank &&
      c.maxHP == Blank && c.curHP == Blank && c.maxMana == Blank && c.curMana == Blank &&
      |c.skills| == 14 && |c.actions| == 7 && |c.supportActions| == 6 && |c.reactions| == 6 &&
      |c.spells| == 12 && |c.talents| == 10 && |c.equipment| == 10
  {
  }

  /**
    Every list row of the blank character is blank and has exactly the
    fields its grid edits; so are the description block and the spell
    record apart from its ability.
   */
  lemma EmptyCharacterRows()
    ensures var c := EmptyCharacter();
      (forall i | 0 <= i < |c.actions| :: BlankWith(c.actions[i], ["ability", "toHit", "damage", "effect"])) &&
      (forall i | 0 <= i < |c.supportActions| :: BlankWith(c.supportActions[i], ["ability", "toHit", "damage", "effect"])) &&
      (forall i | 0 <= i < |c.reactions| :: BlankWith(c.reactions[i], ["ability", "effect"])) &&
      (forall i | 0 <= i < |c.spells| :: BlankWith(c.spells[i], ["name", "mana", "description"])) &&
      (forall i | 0 <= i < |c.talents| :: BlankWith(c.talents[i], ["name", "description"])) &&
      (forall i | 0 <= i < |c.equipment| :: BlankWith(c.equipment[i], ["name", "description"]))
    ensures var c := EmptyCharacter();
      BlankWith(c.desc, ["area", "friendHome", "seeking", "friendNearby", "nemesis",
                         "profession", "physical", "personality"]) &&
      c.spellMeta.domain == "" && c.spellMeta.mod == Blank &&
      c.spellMeta.spellAttack == Blank && c.spellMeta.spellSave == Blank
  {
    CopiesBlank(7, ActionFields);
    CopiesBlank(6, ActionFields);
    CopiesBlank(6, ["ability", "effect"]);
    CopiesBlank(12, ["name", "mana", "description"]);
    CopiesBlank(10, ["name", "description"]);
    FieldSet(["area", "friendHome", "seeking", "friendNearby", "nemesis", "profession", "physical", "personality"]);
  }

  /** Every copy of a blank row has exactly the listed fields, each blank. */
  lemma CopiesBlank(n: nat, fields: seq<string>)
    ensures forall i | 0 <= i < n :: BlankWith(Copies(n, BlankRow(fields))[i], fields)
  {
    FieldSet(fields);
  }

  /** The blank row of a field list holds exactly the listed fields. */
  lemma FieldSet(fields: seq<string>)
    ensures BlankWith(BlankRow(fields), fields)
  {
  }

  /** Every ability is blank, and the skills follow the table in order with blank bonus and total. */
  lemma EmptyCharacterSkills(i: nat)
    requires i < |Skills|
    ensures forall k: AbilityKey :: EmptyCharacter().abilities.Get(k) == BlankAbility
    ensures EmptyCharacter().skills[i] == Skill(Skills[i].key, Skills[i].ability, Stored(Blank), Blank)
  {
  }

  /** The action rows are exactly the action grid's blank row, so seeding leaves them alone. */
  lemma EmptyCharacterActions()
    ensures forall i | 0 <= i < 7 :: EmptyCharacter().actions[i] == ActionsGrid.EmptyRow()
    ensures ActionsGrid.Seed(EmptyCharacter().actions) == EmptyCharacter().actions
    ensures ActionsGrid.Seed(EmptyCharacter().supportActions) == EmptyCharacter().supportActions
  {
    FieldSet(ActionFields);
    BlankWithUnique(BlankRow(ActionFields), ActionsGrid.EmptyRow(), ActionFields);
  }

  /** Two blank rows over the same fields are the same row. */
  lemma BlankWithUnique(a: Row, b: Row, fields: seq<string>)
    requires BlankWith(a, fields) && BlankWith(b, fields)
    ensures a == b
  {
    assert a.Keys == b.Keys;
  }

  /** On the blank character every skill totals 0. */
  lemma EmptyCharacterTotals(i: nat)
    requires i < |EmptyCharacter().skills|
    ensures SkillsGrid.Total(EmptyCharacter().abilities, EmptyCharacter().skills[i]) == Num(0)
  {
    var c := EmptyCharacter();
    EmptyCharacterSkills(i);
    var s := c.skills[i];
    assert s.bonus == Stored(Blank);
    assert c.abilities.Get(s.ability) == BlankAbility;
    SkillsGrid.TotalOfBlank(c.abilities, s);
  }

  /**
    The blank character names Int in `spellMeta`, but the spellcasting
    block reads `spellcasting`, which the blank character does not have:
    the block starts with no ability, no modifier and no DC.
   */
  lemma EmptyCharacterSpellcasting()
    ensures EmptyCharacter().spellMeta.ability == Int
    ensures SpellcastingBlock.Current(EmptyCharacter().spellcasting).ability == ""
    ensures SpellcastingBlock.Modifier(EmptyCharacter().abilities,
                                      SpellcastingBlock.Current(EmptyCharacter().spellcasting)) == Blank
  {
  }

  /** The blank character has no race and no talent, which is consistent. */
  lemma EmptyCharacterRace(talents: seq<Catalog.Record>)
    ensures HeaderSection.RaceOf(EmptyCharacter().raceTalent) == ""
    ensures HeaderSection.Consistent(talents, EmptyCharacter().raceTalent)
  {
    Text.SplitOfFree("", HeaderSection.Sep);
  }
}
