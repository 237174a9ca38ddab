/**
  The skill grid of src/components/SkillsGrid.tsx: reading a stored bonus,
  the committed ability modifier, the total, and the bonus input with its
  per-row editing buffer, which lets a sign be typed before the digits.
 */
module SkillsGrid {
  import opened Text
  import opened Numbers
  import opened Sheet

  /**
    `coerceBonus`: blank stays blank, a finite number is kept, `NaN` is
    blank, and stored text is read with `Number` after trimming, blank when
    that is not a number.
   */
  function CoerceBonus(b: Bonus): (r: Value)
    ensures !r.NaN?
    ensures b.Stored? ==> r == (if b.v.NaN? then Blank else b.v)
    ensures b.Legacy? && b.text == "" ==> r == Blank
    ensures b.Legacy? && b.text != "" && AllSpace(b.text) ==> r == Num(0)
    ensures b.Legacy? && !AllSpace(b.text) ==> (r.Blank? <==> !IsIntLiteral(Trim(b.text)))
    ensures b.Legacy? && !AllSpace(b.text) && r.Num? ==> r.n == LiteralValue(Trim(b.text))
  {
    match b
    case Stored(v) => if v.NaN? then Blank else v
    case Legacy(t) =>
      if t == "" then Blank
      else
        var v := ParseNumber(Trim(t));
        ParseTrimmed(t);
        if v.NaN? then Blank else v
  }

  /** `Number(text.trim())` reads the trimmed text, 0 for an all-blank one. */
  lemma ParseTrimmed(t: string)
    ensures AllSpace(t) ==> ParseNumber(Trim(t)) == Num(0)
    ensures !AllSpace(t) ==> (ParseNumber(Trim(t)).NaN? <==> !IsIntLiteral(Trim(t)))
    ensures !AllSpace(t) && ParseNumber(Trim(t)).Num? ==> ParseNumber(Trim(t)).n == LiteralValue(Trim(t))
  {
    var u := Trim(t);
    TrimIdempotent(t);
    assert Trim(u) == u;
  }

  /** A legacy bonus holding a signed display reads as the value it shows. */
  lemma CoerceLegacyFormatted(v: Value)
    requires v.Num?
    ensures CoerceBonus(Legacy(FormatSigned(v))) == v
  {
    var t := FormatSigned(v);
    LiteralTrimmed(t);
    assert !IsSpace(t[0]);
  }

  /**
    `abilityMod`: the committed modifier of the ability, 0 when it is
    blank. A stored `NaN` modifier is passed through, as `typeof NaN` is
    "number".
   */
  function AbilityMod(abs: Abilities, a: AbilityKey): (r: Value)
    ensures !r.Blank?
    ensures EffectiveMod(abs.Get(a)).Blank? ==> r == Num(0)
    ensures !EffectiveMod(abs.Get(a)).Blank? ==> r == EffectiveMod(abs.Get(a))
  {
    var m := EffectiveMod(abs.Get(a));
    if m.Blank? then Num(0) else m
  }

  /** The total shown for a skill: the committed bonus (0 when blank) plus the ability modifier. */
  function Total(abs: Abilities, s: Skill): (r: Value)
    ensures !r.Blank?
    ensures r.NaN? <==> AbilityMod(abs, s.ability).NaN?
    ensures r.Num? ==> r.n == (if CoerceBonus(s.bonus).Num? then CoerceBonus(s.bonus).n else 0) + AbilityMod(abs, s.ability).n
  {
    var bonus := CoerceBonus(s.bonus);
    var b := if bonus.Num? then bonus.n else 0;
    match AbilityMod(abs, s.ability)
    case Num(m) => Num(b + m)
    case _ => NaN
  }

  /** With a blank bonus the total is the modifier; each point of bonus adds one to it. */
  lemma TotalRule(abs: Abilities, s: Skill, n: int)
    requires AbilityMod(abs, s.ability).Num?
    ensures Total(abs, s.(bonus := Stored(Blank))) == AbilityMod(abs, s.ability)
    ensures Total(abs, s.(bonus := Stored(Num(n)))) == Num(n + AbilityMod(abs, s.ability).n)
  {
  }

  /**
    A bonus kept from older data as text counts as the integer its trimmed
    text spells, and as 0 when that is not an integer.
   */
  lemma TotalOfLegacy(abs: Abilities, s: Skill)
    requires s.bonus.Legacy? && !AllSpace(s.bonus.text)
    requires AbilityMod(abs, s.ability).Num?
    ensures IsIntLiteral(Trim(s.bonus.text)) ==>
      Total(abs, s) == Num(LiteralValue(Trim(s.bonus.text)) + AbilityMod(abs, s.ability).n)
    ensures !IsIntLiteral(Trim(s.bonus.text)) ==> Total(abs, s) == AbilityMod(abs, s.ability)
  {
    var u := Trim(s.bonus.text);
    if IsIntLiteral(u) {
      TotalOfCoerced(abs, s, Num(LiteralValue(u)));
    } else {
      TotalOfCoerced(abs, s, Blank);
    }
  }

  /** The total of a skill whose bonus reads as `c`, on an ability with a numeric modifier. */
  lemma TotalOfCoerced(abs: Abilities, s: Skill, c: Value)
    requires CoerceBonus(s.bonus) == c
    requires AbilityMod(abs, s.ability).Num?
    ensures Total(abs, s) == Num((if c.Num? then c.n else 0) + AbilityMod(abs, s.ability).n)
  {
    assert Total(abs, s).Num?;
  }

  /** A blank bonus on a blank ability totals 0. */
  lemma TotalOfBlank(abs: Abilities, s: Skill)
    requires abs.Get(s.ability) == BlankAbility && s.bonus == Stored(Blank)
    ensures Total(abs, s) == Num(0)
  {
  }

  /** A skill whose ability has a committed base of b and no stored mod totals bonus + floor((b - 10) / 2). */
  lemma TotalFromBase(abs: Abilities, s: Skill, base: int, n: int)
    requires abs.Get(s.ability).mod == Blank && abs.Get(s.ability).base == Num(base)
    requires s.bonus == Stored(Num(n))
    ensures Total(abs, s).Num?
    ensures 2 * (Total(abs, s).n - n) <= base - 10 < 2 * (Total(abs, s).n - n) + 2
  {
  }

  /** `setBonus`: only skill `idx`'s bonus changes. */
  function SetBonus(skills: seq<Skill>, idx: nat, v: Value): (r: seq<Skill>)
    requires idx < |skills|
    ensures |r| == |skills|
    ensures r[idx] == skills[idx].(bonus := Stored(v))
    ensures forall j | 0 <= j < |skills| && j != idx :: r[j] == skills[j]
  {
    skills[idx := skills[idx].(bonus := Stored(v))]
  }

  // ---- The bonus input

  /** The grid's state: the skills and the raw text of the rows being edited. */
  datatype Grid = Grid(skills: seq<Skill>, editing: map<nat, string>)

  /** What a typed text commits: "", "+" and "-" are blank, anything else `Number(text)`, blank if not finite. */
  function CommitTyped(raw: string): (r: Value)
    ensures !r.NaN?
    ensures raw == "" || raw == "+" || raw == "-" ==> r == Blank
  {
    if raw == "" || raw == "+" || raw == "-" then Blank
    else
      match ParseNumber(raw)
      case NaN => Blank
      case v => v
  }

  /** Every complete typing-valid text commits its own value, never blank. */
  lemma CommitTypedValid(raw: string)
    requires IsTypingValid(raw) && raw != "" && raw != "+" && raw != "-"
    ensures IsIntLiteral(raw) && CommitTyped(raw) == Num(LiteralValue(raw))
  {
    TypingValidIsNumber(raw);
  }

  /**
    `onChange` of row `i`: the trimmed text is ignored unless it is typing
    valid; then it becomes the row's buffer and the bonus becomes what it
    commits.
   */
  function OnChange(g: Grid, i: nat, typed: string): (r: Grid)
    requires i < |g.skills|
    ensures !IsTypingValid(Trim(typed)) ==> r == g
    ensures IsTypingValid(Trim(typed)) ==>
      r.editing == g.editing[i := Trim(typed)] &&
      r.skills == SetBonus(g.skills, i, CommitTyped(Trim(typed)))
  {
    var raw := Trim(typed);
    if !IsTypingValid(raw) then g
    else Grid(SetBonus(g.skills, i, CommitTyped(raw)), g.editing[i := raw])
  }

  /**
    `onBlur` of row `i`, as the source has it: the bonus is committed from
    the row's buffer, read as "" when there is none, and the buffer is
    dropped.
   */
  function OnBlur(g: Grid, i: nat): (r: Grid)
    requires i < |g.skills|
    ensures r.editing == g.editing - {i}
    ensures i in g.editing ==> r.skills == SetBonus(g.skills, i, CommitTyped(Trim(g.editing[i])))
    ensures i !in g.editing ==> r.skills == SetBonus(g.skills, i, Blank)
  {
    var raw := if i in g.editing then Trim(g.editing[i]) else "";
    Grid(SetBonus(g.skills, i, CommitTyped(raw)), g.editing - {i})
  }

  /**
    Leaving a row's bonus field without typing in it wipes the committed
    bonus: a skill with bonus +3 and no buffer ends up blank.
   */
  lemma BlurWithoutTypingClears(g: Grid, i: nat)
    requires i < |g.skills| && i !in g.editing
    requires g.skills[i].bonus == Stored(Num(3))
    ensures OnBlur(g, i).skills[i].bonus == Stored(Blank)
    ensures OnBlur(g, i).skills[i].bonus != g.skills[i].bonus
  {
  }

  /**
    `onBlur` as evidently intended: with no buffer there is nothing to
    commit and the bonus stays; with one it commits exactly as the source does.
   */
  function OnBlurKeeping(g: Grid, i: nat): (r: Grid)
    requires i < |g.skills|
    ensures r.editing == g.editing - {i}
    ensures i !in g.editing ==> r.skills == g.skills
    ensures i in g.editing ==> r == OnBlur(g, i)
  {
    if i in g.editing then OnBlur(g, i) else Grid(g.skills, g.editing - {i})
  }

  /** The buffers only ever hold typing-valid text. */
  predicate BuffersValid(g: Grid)
  {
    forall i | i in g.editing :: IsTypingValid(g.editing[i])
  }

  /** Typing and leaving a field keep every buffer typing valid. */
  lemma BuffersValidPreserved(g: Grid, i: nat, typed: string)
    requires i < |g.skills| && BuffersValid(g)
    ensures BuffersValid(OnChange(g, i, typed))
    ensures BuffersValid(OnBlur(g, i))
    ensures BuffersValid(OnBlurKeeping(g, i))
  {
  }

  /**
    Typing a valid text and then leaving the field commits the same bonus
    the typing already committed, and clears the buffer; invalid typing
    followed by leaving is just leaving.
   */
  lemma TypeThenBlur(g: Grid, i: nat, typed: string)
    requires i < |g.skills|
    ensures IsTypingValid(Trim(typed)) ==>
      OnBlurKeeping(OnChange(g, i, typed), i) ==
        Grid(SetBonus(g.skills, i, CommitTyped(Trim(typed))), g.editing - {i})
    ensures !IsTypingValid(Trim(typed)) ==> OnBlurKeeping(OnChange(g, i, typed), i) == OnBlurKeeping(g, i)
  {
    var raw := Trim(typed);
    if IsTypingValid(raw) {
      TrimIdempotent(typed);
      assert OnChange(g, i, typed) == Grid(SetBonus(g.skills, i, CommitTyped(raw)), g.editing[i := raw]);
      BlurAfterChange(g.skills, g.editing, i, raw);
    }
  }

  /** Leaving a field right after a change commits the buffered text again, which changes nothing more. */
  lemma BlurAfterChange(skills: seq<Skill>, editing: map<nat, string>, i: nat, raw: string)
    requires i < |skills| && Trim(raw) == raw
    ensures OnBlurKeeping(Grid(SetBonus(skills, i, CommitTyped(raw)), editing[i := raw]), i) ==
      Grid(SetBonus(skills, i, CommitTyped(raw)), editing - {i})
  {
    var s1 := SetBonus(skills, i, CommitTyped(raw));
    SetBonusTwice(skills, i, CommitTyped(raw));
    assert editing[i := raw] - {i} == editing - {i};
  }

  /** Setting the same bonus twice is setting it once. */
  lemma SetBonusTwice(skills: seq<Skill>, i: nat, v: Value)
    requires i < |skills|
    ensures SetBonus(SetBonus(skills, i, v), i, v) == SetBonus(skills, i, v)
  {
  }

  /** A committed bonus shown signed and typed back, then left, is stored unchanged. */
  lemma ShownBonusTypedBack(g: Grid, i: nat, n: int)
    requires i < |g.skills|
    ensures OnBlurKeeping(OnChange(g, i, FormatSigned(Num(n))), i).skills[i].bonus == Stored(Num(n))
  {
    var s := FormatSigned(Num(n));
    ShownBonusCommits(n);
    TypeThenBlur(g, i, s);
    assert OnBlurKeeping(OnChange(g, i, s), i).skills == SetBonus(g.skills, i, Num(n));
  }

  /** A signed display is complete, typing-valid text that commits its own value. */
  lemma ShownBonusCommits(n: int)
    ensures Trim(FormatSigned(Num(n))) == FormatSigned(Num(n))
    ensures IsTypingValid(FormatSigned(Num(n)))
    ensures CommitTyped(FormatSigned(Num(n))) == Num(n)
  {
    var s := FormatSigned(Num(n));
    FormatSignedRoundTrip(Num(n));
    TrimOfTrimmed(s);
    TypingValidExactly(s);
    assert s != "" && s != "+" && s != "-";
  }
}
