# Veins of Power character sheet — a Dafny model of its editing core

The Veins of Power app is a browser character-sheet editor. Around its React
rendering sits a sequential core of pure logic, and this project models that
core and proves properties of it:

- **The row-list editor** shared by the spell, weapon, armor and talent grids
  (`GenericPickerGrid`). It covers drag-reorder `move`, the field patch
  `setRowAt`, the filtered catalog view, and the add/edit/delete modal. The
  modal is modelled as a state machine over `mode`, `modalOpen`,
  `selectedIdx`, `editIndex` and the rows.
- **The catalog eligibility rules** (`models/catalog.ts` and the race panel
  `RaceInfo`):
  - the race-talent table test;
  - the comma-separated race requirement list, with its optional `Race:` prefix;
  - the allowed-talent list for a race, in `localeCompare` order;
  - the race index by name;
  - the panel's talent lookup.
- **The per-catalog rules** of the spell, weapon, armor and talent grids:
  - catalog order;
  - the availability, type, ability and domain filters;
  - picker labels and keys;
  - the row a picked item becomes;
  - the talent child-selection count, its resize, and the extra rows.
- **The sheet's number handling:**
  - the ability modifier `floor((base - 10) / 2)`;
  - signed display;
  - the sign-tolerant typing validator and the commit rules of the save,
    skill-bonus and spell-attack inputs;
  - the "fill only when blank" rules for saves and spell attack;
  - skill totals and the spell save DC;
  - the header's numeric fields.
- **The `race | talent` text** the header stores, its decoding, and the effect
  that clears a talent the race does not allow.
- **The blank character** (`emptyCharacter`) and the blank-row seeding of the
  action grids.

## How it is modelled

Modules follow the program's files:

| File | Module | Source it models |
|---|---|---|
| `picker.dfy` | `Picker` | `GenericPickerGrid` |
| `catalog.dfy` | `Catalog` | `models/catalog.ts` |
| `spells.dfy` | `Spells` | the spell grid |
| `weapons.dfy` | `Weapons` | the weapon grid |
| `armors.dfy` | `Armors` | the armor grid |
| `talents.dfy` | `Talents` | the talent grid |
| `grids.dfy` | `Grids` | what the four grids share |
| `raceinfo.dfy` | `RaceInfo` | the race panel |
| `header.dfy` | `HeaderSection` | the header |
| `abilities.dfy` | `AbilityTable` | the ability table |
| `skills.dfy` | `SkillsGrid` | the skills grid |
| `spellcasting.dfy` | `SpellcastingBlock` | the spellcasting block |
| `actions.dfy` | `ActionsGrid` | the action grids |
| `storage.dfy` | `Storage` | `emptyCharacter` |
| `sheet.dfy` | `Sheet` | the character record |

Helper modules supply the building blocks:

- `Text`: whitespace trimming, ASCII lower-casing, splitting on a separator.
- `Numbers`: the number conversions.
- `Sorting`: an insertion sort over any total preorder.
- `RowLists`: sequence edits, filtering, keyed lookup.
- `Options`: the option type.

Modelling choices:

- **Numeric fields.** A numeric field (`number | ""`) is `Value = Blank | NaN | Num(int)`.
- **`Number(text)`** is modelled over integer notation: surrounding
  whitespace is ignored, an all-blank text is 0, an optionally signed run of
  digits is its value, and anything else is `NaN`.
- **`parseInt(text, 10)`** reads the signed leading digit run after leading
  whitespace.
- **Catalog records and grid rows** are `map<string, string>`. A missing key
  reads as `""`, and an `a ?? b` chain tests which key is present.
- **`localeCompare`** is modelled as code-unit order of the ASCII-lower-cased
  texts, which is a total preorder.
- **Event handlers** are pure functions from the old state to the new one.
  React's `setState` callbacks and effects are applied at once.
- **Catalogs** are parameters (sequences of records), not loaded JSON.

Where the code and its description differ, the model follows the code:

- `move` is its own inverse for every pair of valid positions, not only
  neighbouring ones (`RowLists.MoveInverse`).
- `openAdd` keeps the filter values.
- `handleRaceChange` keeps the talent when it is allowed for the race being
  replaced, not for the new race. The clearing effect repairs this
  afterwards (`HeaderSection.ClearInvalidConsistent`).
- The spellcasting block reads and writes `spellcasting`, not `spellMeta`.
  The blank character's `spellMeta.ability` of `"Int"` therefore never
  reaches the block (`Storage.EmptyCharacterSpellcasting`).
- `extraPickers` is passed to the picker grid, which never reads it. The
  child choices and `getExtraRows` are modelled, but nothing shows them
  reaching the committed rows.

## Model

| member | source | states |
|---|---|---|
| Text.IsSpace | src/models/catalog.ts:22 | definition of the blanks `trim` drops: ASCII whitespace, no-break space and byte-order mark |
| Text.TrimStart | src/components/SpellsGrid.tsx:14 | what remains after dropping leading blanks: a suffix, everything dropped is blank, and it does not start with a blank |
| Text.TrimEnd | src/models/catalog.ts:22 | what remains after dropping trailing blanks: a prefix, everything dropped is blank, and it does not end with a blank |
| Text.Trim | src/models/catalog.ts:22 | `trim()` gives a text with no surrounding blank, no longer than the input, empty exactly for an all-blank input |
| Text.TrimSubset | src/models/catalog.ts:22 | trimming adds no character |
| Text.TrimKeeps | src/models/catalog.ts:22 | trimming keeps every non-blank character |
| Text.TrimOfTrimmed | src/models/catalog.ts:22 | a text with no surrounding blank is its own trim |
| Text.TrimIdempotent | src/models/catalog.ts:22 | trimming twice is trimming once |
| Text.ToLower | src/models/catalog.ts:59 | `toLowerCase()` keeps the length and lower-cases each character in place |
| Text.LowerKeepsNonLetter | src/models/catalog.ts:59 | a character that is not a letter is in the lower-cased text exactly when it is in the text |
| Text.ToLowerIdempotent | src/models/catalog.ts:59 | lower-casing twice is lower-casing once |
| Text.ToLowerAppend | src/models/catalog.ts:59 | lower-casing distributes over concatenation |
| Text.TrimLowerCommute | src/components/SpellsGrid.tsx:23-25 | trimming and lower-casing commute |
| Text.Norm | src/components/TalentsGrid.tsx:11 | `norm`: the result has no surrounding blank and is its own lower-case |
| Text.RemoveSpaces | src/models/catalog.ts:36 | `replace(/\s+/g, "")`: no blank is left, nothing is added, and a blank-free text is unchanged |
| Text.RemoveSpacesAppend | src/models/catalog.ts:36 | removing blanks distributes over concatenation |
| Text.RemoveSpacesTrim | src/components/RaceInfo.tsx:16-19 | trimming before removing all blanks changes nothing |
| Text.RemoveSpacesLower | src/components/RaceInfo.tsx:16-19 | removing blanks and lower-casing commute |
| Text.FindFrom | src/components/HeaderSection.tsx:25 | the first occurrence of the separator from a position on, or -1 when there is none |
| Text.Split | src/components/HeaderSection.tsx:25-26 | `split(sep)` gives at least one piece |
| Text.Join | src/components/HeaderSection.tsx:43 | definition: the pieces with the separator between them |
| Text.JoinSplit | src/components/HeaderSection.tsx:25-26 | joining the pieces of a split with its separator gives the text back |
| Text.SplitPiecesFree | src/models/catalog.ts:43-44 | no piece of a split contains the separator |
| Text.SplitOfFree | src/models/catalog.ts:43-44 | a text without the separator splits into itself alone |
| Sorting.SortedBy | src/models/catalog.ts:74 | definition: every element is at or before the next under the order |
| Sorting.Insert | src/models/catalog.ts:74 | inserting adds exactly the element |
| Sorting.InsertSorted | src/models/catalog.ts:74 | inserting into a sorted list under a total preorder keeps it sorted |
| Sorting.Sort | src/models/catalog.ts:74 | `sort` returns a permutation of the list |
| Sorting.SortSorted | src/models/catalog.ts:74 | under a total preorder the result is sorted |
| Sorting.SortSameElements | src/models/catalog.ts:74 | the sorted list holds exactly the elements of the list |
| Sorting.LexLe | src/models/catalog.ts:74 | definition of code-unit order on texts |
| Sorting.LexLeTotal | src/models/catalog.ts:74 | of two texts one is always at or before the other |
| Sorting.LexLeTransitive | src/models/catalog.ts:74 | code-unit order is transitive |
| Sorting.LexLeAntisymmetric | src/models/catalog.ts:74 | two texts each at or before the other are equal |
| Numbers.CalcMod | src/utils/math.ts:1-4 | a blank or NaN base gives a blank modifier; a base b gives the m with 2m <= b-10 < 2m+2, i.e. floor((b-10)/2) |
| Numbers.CalcModExamples | src/utils/math.ts:3 | rounding goes toward negative infinity: 9 gives -1, 10 and 11 give 0, 14 gives +2, 16 gives +3, 0 and 1 give -5 |
| Numbers.CalcModMonotone | src/utils/math.ts:3 | a larger base never has a smaller modifier |
| Numbers.CalcModStep | src/utils/math.ts:3 | two more points of base are exactly one more point of modifier |
| Numbers.IntToString | src/components/AbilityTable.tsx:11 | the decimal text of an integer spells that integer, with a leading '-' exactly for negatives |
| Numbers.ParseNumber | src/components/SkillsGrid.tsx:24 | `Number(text)` never gives blank; an all-blank text is 0; NaN exactly when the trimmed text is neither blank nor an integer literal |
| Numbers.LeadingDigits | src/components/SpellsGrid.tsx:14 | the longest all-digit prefix: what follows it is not a digit |
| Numbers.ParseIntPrefixOfInt | src/components/SpellsGrid.tsx:14 | `parseInt` reads back a printed integer whatever non-digit text follows it |
| Numbers.ParseIntOfPrinted | src/components/TalentsGrid.tsx:21-22 | a printed integer has no blanks to trim and `parseInt` reads it back |
| Numbers.ParseNumberOfPrinted | src/components/HeaderSection.tsx:128 | `Number` reads a printed integer back as itself |
| Numbers.FormatSigned | src/components/AbilityTable.tsx:9-12 | blank and NaN show nothing; a number shows as a signed literal whose sign is '+' exactly when it is non-negative |
| Numbers.FormatSignedRoundTrip | src/components/AbilityTable.tsx:9-12 | `Number` of the signed display is the displayed value |
| Numbers.TypingValidIsNumber | src/components/SkillsGrid.tsx:17 | a complete typing-valid text is an integer literal, so its commit is never NaN |
| Numbers.TypingValidExactly | src/components/SkillsGrid.tsx:17 | the typing-valid texts are exactly the integer literals plus "", "+" and "-" |
| Numbers.ReadSigned | src/components/AbilityTable.tsx:136-143 | the save commit: never NaN; blank exactly when the text is blank or not an integer literal; otherwise the literal's value |
| Numbers.ReadSignedOfFormatted | src/components/AbilityTable.tsx:134-143 | typing back what a signed field shows stores the value shown, and blank for a blank display |
| Numbers.ReadSignedOfSigned | src/components/AbilityTable.tsx:134-143 | typing back the signed display of any integer stores that integer |
| Numbers.NatToString | src/components/AbilityTable.tsx:11 | the decimal spelling of a natural number is non-empty, all digits, and its digit value is the number |
| Numbers.IsIntLiteral | src/components/SkillsGrid.tsx:24 | definition: the integer notation `Number` accepts, an optional sign then at least one digit; `Numbers.TypingValidExactly` relates it to the typing pattern |
| Numbers.LiteralValue | src/components/SkillsGrid.tsx:24 | definition: the value of an integer literal, negated for a leading "-"; `Numbers.ParseNumberOfPrinted` shows printed integers read back through it |
| Numbers.ParseIntPrefix | src/components/SpellsGrid.tsx:14 | definition of `parseInt(text, 10)`: leading blanks and one sign skipped, the longest digit run read, nothing without a digit; its read-back property is `Numbers.ParseIntPrefixOfInt` |
| Numbers.IsTypingValid | src/components/SkillsGrid.tsx:17 | definition of `/^[-+]?\d*$/`; characterised by `Numbers.TypingValidExactly` |
| RowLists.Merge | src/components/GenericPickerGrid.tsx:100 | `{...row, ...patch}` has both key sets, patched fields take the patch, the rest keep the row |
| RowLists.RemoveAt | src/components/GenericPickerGrid.tsx:73 | `splice(i, 1)` is one shorter and keeps the others in order |
| RowLists.InsertAt | src/components/GenericPickerGrid.tsx:74 | `splice(i, 0, x)` puts x at i and shifts the later elements up by one |
| RowLists.Move | src/components/GenericPickerGrid.tsx:71-76 | a same-length permutation with the moved element at `to` and the others in their original relative order |
| RowLists.MoveUnique | src/components/GenericPickerGrid.tsx:71-76 | those facts determine the move: any list with them is the move |
| RowLists.MoveInverse | src/components/GenericPickerGrid.tsx:71-76 | moving back from `to` to `from` restores the list, for every pair of valid positions |
| RowLists.MoveSamePlace | src/components/GenericPickerGrid.tsx:71-76 | a move onto the same position changes nothing |
| RowLists.MoveNonAdjacentExample | src/components/GenericPickerGrid.tsx:71-76 | moving [1,2,3] from 0 to 2 gives [2,3,1], and moving back restores it |
| RowLists.SetRowAt | src/components/GenericPickerGrid.tsx:97-102 | the length is kept, every other row is identical, and row idx takes exactly the patched fields |
| RowLists.SetRowAtEmptyPatch | src/components/GenericPickerGrid.tsx:97-102 | an empty patch leaves the rows unchanged |
| RowLists.Filter | src/components/GenericPickerGrid.tsx:190-196 | the kept elements are exactly those of the list that pass the test |
| RowLists.FilterAppend | src/components/GenericPickerGrid.tsx:190-196 | filtering distributes over concatenation, so catalog order is kept |
| RowLists.FilterAll | src/components/GenericPickerGrid.tsx:190-196 | a test every element passes keeps the whole list |
| RowLists.LastWith | src/components/TalentsGrid.tsx:44-51 | an index built key by key holds an element of the list with that key, and nothing for a blank key or an absent one |
| RowLists.LastWithWins | src/components/TalentsGrid.tsx:44-51 | on a repeated key the last element carrying it wins |
| RowLists.FirstWith | src/components/RaceInfo.tsx:30-36 | `find` gives an element with the key, or nothing when none has it |
| RowLists.FirstWithFiltered | src/components/RaceInfo.tsx:29-36 | searching the filtered pool finds the first element that passes the filter and has the key |
| RowLists.RemoveInsert | src/components/GenericPickerGrid.tsx:73-74 | removing the element just inserted gives the list back |
| RowLists.InsertRemove | src/components/GenericPickerGrid.tsx:73-74 | putting a removed element back where it was gives the list back |
| RowLists.FilterSameTest | src/components/GenericPickerGrid.tsx:190-196 | two tests that agree on every element keep the same elements in the same order |
| RowLists.MapSeq | src/components/TalentsGrid.tsx:249 | `xs.map(f)` has the same length and its i-th element is f of the i-th element |
| RowLists.MapSeqIn | src/components/TalentsGrid.tsx:249 | a value is in the mapped list exactly when it is the image of some element |
| RowLists.Collect | src/components/TalentsGrid.tsx:246-249 | at most one result per key, each the image of the element a known key finds |
| RowLists.CollectAllKnown | src/components/TalentsGrid.tsx:246-249 | when every key is known, the i-th result is the image of the i-th key's element |
| RowLists.CollectNoneKnown | src/components/TalentsGrid.tsx:246-249 | keys that find nothing give no results |
| RowLists.CollectAppend | src/components/TalentsGrid.tsx:246-249 | collecting over two key lists in turn is collecting each, so the results keep key order |
| RowLists.CollectOne | src/components/TalentsGrid.tsx:246-249 | one key gives the image of its element when it is known, and nothing otherwise |
| Picker.Initial | src/components/GenericPickerGrid.tsx:128-132 | the first render is closed, in add mode, with nothing chosen, and satisfies the modal invariant |
| Picker.FilteredItems | src/components/GenericPickerGrid.tsx:190-196 | the offered items are exactly the catalog items every filter accepts |
| Picker.NoFiltersKeepAll | src/components/GenericPickerGrid.tsx:190-196 | with no filter the whole catalog is offered, in order |
| Picker.SelectedItem | src/components/GenericPickerGrid.tsx:198-201 | an item is selected exactly when the choice indexes the filtered list, and it is one of the offered items |
| Picker.OpenAdd | src/components/GenericPickerGrid.tsx:134-139 | the modal opens in add mode with nothing chosen and no row being edited; rows are kept |
| Picker.FindIndex | src/components/GenericPickerGrid.tsx:147-150 | `findIndex` gives the first position passing the test, or -1 when none does |
| Picker.OpenEdit | src/components/GenericPickerGrid.tsx:141-157 | edit mode on that row, and the preselected item is the first filtered item whose key equals the row's catalog key, else -1 |
| Picker.Choose | src/components/GenericPickerGrid.tsx:374-376 | picking an option sets the choice and nothing else |
| Picker.Close | src/components/GenericPickerGrid.tsx:159-164 | closing always resets to closed, add mode, nothing chosen and no row edited; rows are kept |
| Picker.Save | src/components/GenericPickerGrid.tsx:166-179 | an invalid choice changes nothing; in add mode the chosen item's row is appended; in edit mode only the edited row is replaced and the length is kept |
| Picker.Delete | src/components/GenericPickerGrid.tsx:181-187 | only edit mode with a row being edited deletes, removing exactly that row and keeping the others in order |
| Picker.SetRow | src/components/GenericPickerGrid.tsx:97-102 | a cell edit changes only the patched row, which gets the fields of the row and the patch, takes the patch's value on every patched field and keeps the rest; the modal state is untouched |
| Picker.Drop | src/components/GenericPickerGrid.tsx:114-121 | no drag or a drop onto itself leaves the rows unchanged; otherwise the result is the move of the dragged row to the target: it lands there and the rest keep their order |
| Picker.DropBack | src/components/GenericPickerGrid.tsx:114-121 | dragging the moved row back to where it came from restores the rows |
| Picker.InvPreserved | src/components/GenericPickerGrid.tsx:128-187 | every handler keeps the modal invariant: edit mode goes with an existing edited row, and a closed modal is in add mode with nothing chosen |
| Picker.OpenAddThenClose | src/components/GenericPickerGrid.tsx:134-164 | opening the add modal and closing it again is the same as closing |
| Picker.AddThenEditPreselects | src/components/GenericPickerGrid.tsx:141-179 | after adding the i-th offered item, editing the new row preselects that item again |
| Picker.AddThenDelete | src/components/GenericPickerGrid.tsx:166-187 | deleting the row just added gives the original rows back |
| Picker.DeleteInAddMode | src/components/GenericPickerGrid.tsx:181-187 | in add mode the delete handler changes nothing |
| Picker.Inv | src/components/GenericPickerGrid.tsx:128-187 | definition of the modal invariant: edit mode exactly with a row being edited, that row exists, and a closed modal is in add mode with nothing chosen; kept by `Picker.InvPreserved` |
| Picker.AllPass | src/components/GenericPickerGrid.tsx:193 | definition of `filters.every(f => f.predicate(it, f.value))`; `Picker.AllPassPair` splits it for two controls |
| Picker.AllPassPair | src/components/GenericPickerGrid.tsx:193 | two filter controls pass an item exactly when both of their tests do |
| Picker.ItemKey | src/components/GenericPickerGrid.tsx:151 | definition of `getItemKey?.(it) ?? getItemLabel(it)`; `Grids.NameRowPointsBack` relates it to the row key |
| Picker.RowTarget | src/components/GenericPickerGrid.tsx:146-152 | definition of `getRowCatalogKey?.(row) ?? ""`; `Grids.NameRowPointsBack` relates it to the item key |
| Catalog.Requirement | src/models/catalog.ts:21-22 | the requirement is trimmed, read from Requirement when present, else from Requirements |
| Catalog.RaceTalentTableIgnoresSpaces | src/models/catalog.ts:32-39 | the race-talent test holds exactly when Table (or table), lower-cased with every blank removed, is "racetalent" |
| Catalog.StripRacePrefix | src/models/catalog.ts:47 | the result is a suffix of the piece; it differs only when the piece starts with "race" in any case, and then no blank is left in front |
| Catalog.StripRacePrefixOf | src/models/catalog.ts:47 | a race word, a colon and the rest lose the prefix, leaving the rest |
| Catalog.StripRacePrefixAnchored | src/models/catalog.ts:47 | a prefix not at the very first character is kept: " Race: Elf" is unchanged |
| Catalog.RaceEntry | src/models/catalog.ts:45-50 | a requirement entry is trimmed and lower-case |
| Catalog.ParseRequirementRaces | src/models/catalog.ts:41-52 | an empty requirement lists nothing; every entry is non-empty, trimmed and lower-case |
| Catalog.ParseRequirementRacesIn | src/models/catalog.ts:41-52 | an entry is listed exactly when some comma piece normalises to it |
| Catalog.AllowedForRaceRule | src/models/catalog.ts:54-64 | an empty list allows every race; otherwise a race is allowed exactly when some piece normalises to its trimmed lower-cased name |
| Catalog.AllowedIgnoresCase | src/models/catalog.ts:59 | two race names equal after trimming and lower-casing are allowed alike |
| Catalog.FoldLeTotalPreorder | src/models/catalog.ts:74 | the name comparison is total and transitive, so it can order a list |
| Catalog.AllowedTalentNames | src/models/catalog.ts:67-75 | a blank race gets no names; otherwise the names are the eligible names, reordered |
| Catalog.AllowedTalentNamesSorted | src/models/catalog.ts:74 | the allowed names come out sorted |
| Catalog.AllowedTalentNamesIn | src/models/catalog.ts:67-75 | a name is offered exactly when the race is non-blank and the name is the non-empty name of a race-talent-table talent that race may take |
| Catalog.RaceByName | src/models/catalog.ts:24 | the index's keys are exactly the race names of the catalog |
| Catalog.RaceByNameStep | src/models/catalog.ts:24 | a name other than the last record's is looked up among the earlier records |
| Catalog.RaceByNameLastWins | src/models/catalog.ts:24 | the record kept for a name is the last one carrying that name |
| Catalog.RaceNames | src/models/catalog.ts:77 | at most one name per race, none of them empty |
| Catalog.RaceNamesIn | src/models/catalog.ts:77 | a name is listed exactly when it is the non-empty name of some race |
| Catalog.RaceNamesIndexed | src/models/catalog.ts:24-77 | every listed race name can be looked up, and finds a race of that name |
| Catalog.Field | src/models/catalog.ts:16 | definition: a missing field reads as empty text, as `?? ""` does |
| Catalog.RaceName | src/models/catalog.ts:16 | definition of `getRaceName`: Name, else name, else "" |
| Catalog.TalentName | src/models/catalog.ts:19-20 | definition of `getTalentName`: Name, else name, else Label, else Title, else "" |
| Catalog.Table | src/models/catalog.ts:32 | definition of `getTable`: Table, else table, trimmed |
| Catalog.IsRaceTalentTable | src/models/catalog.ts:35-39 | definition of `isRaceTalentTable`; characterised by `Catalog.RaceTalentTableIgnoresSpaces` |
| Catalog.WantedRace | src/models/catalog.ts:59 | definition: the race name trimmed and lower-cased |
| Catalog.IsTalentAllowedForRace | src/models/catalog.ts:54-64 | definition of `isTalentAllowedForRace`; characterised by `Catalog.AllowedForRaceRule` and `Catalog.AllowedIgnoresCase` |
| Catalog.FoldLe | src/models/catalog.ts:74 | definition of the name order used for `localeCompare`; a total preorder by `Catalog.FoldLeTotalPreorder` |
| Catalog.EligibleTalents | src/models/catalog.ts:69-71 | definition: the race-talent-table talents the race may take, in catalog order |
| Catalog.EligibleNames | src/models/catalog.ts:69-73 | definition: the non-empty names of the eligible talents, in catalog order |
| Grids.NameRowPointsBack | src/components/WeaponsGrid.tsx:149-150 | a row whose name is the item's Name points back to that item's key |
| Grids.NameLeTotalPreorder | src/components/WeaponsGrid.tsx:37-42 | the by-name comparison is total and transitive |
| Grids.SortByName | src/components/WeaponsGrid.tsx:35-43 | the sorted catalog is a permutation of the catalog |
| Grids.SortByNameOrdered | src/components/WeaponsGrid.tsx:35-43 | the sorted catalog holds the same items, in name order ignoring case |
| Grids.Offered | src/components/WeaponsGrid.tsx:95 | the items offered, in catalog order, are exactly those whose starting test matches the chosen availability |
| Grids.AvailabilityPartition | src/components/WeaponsGrid.tsx:25 | Starting and Non-starting split any catalog: every item is offered under exactly one of them, and the two offers together are the catalog as a multiset |
| Grids.TokensOfIn | src/components/WeaponsGrid.tsx:49-52 | a type token is listed for a record exactly when some comma piece of its Type trims to it |
| Grids.AllTokensIn | src/components/WeaponsGrid.tsx:46-54 | the collected tokens are exactly the tokens of some record |
| Grids.Dedup | src/components/WeaponsGrid.tsx:47-55 | the set keeps each value once and loses none |
| Grids.DistinctCount | src/components/WeaponsGrid.tsx:47-55 | a list is free of repeats exactly when each of its values occurs once |
| Grids.DistinctPermutation | src/components/WeaponsGrid.tsx:55-57 | sorting keeps a list free of repeats |
| Grids.TypeTokens | src/components/WeaponsGrid.tsx:46-58 | the offered types are a reordering of the distinct tokens |
| Grids.TypeTokensSpec | src/components/WeaponsGrid.tsx:46-58 | the types are distinct, sorted ignoring case, and exactly the non-empty trimmed comma pieces of some record's Type |
| Grids.TypeTokensCommaFree | src/components/ArmorsGrid.tsx:47-61 | no offered type holds a comma or is blank |
| Grids.NormTokensIn | src/components/WeaponsGrid.tsx:12-19 | a normalised token is listed exactly when some comma piece normalises to it |
| Grids.NameKey | src/components/WeaponsGrid.tsx:148-149 | definition of `String(w.Name ?? "")`, the item key of the name-keyed grids |
| Grids.NameRowKey | src/components/WeaponsGrid.tsx:150 | definition: the row's name, or no key for an empty name |
| Grids.NameLe | src/components/WeaponsGrid.tsx:37-41 | definition of the by-name comparison; a total preorder by `Grids.NameLeTotalPreorder` |
| Grids.Wanted | src/components/WeaponsGrid.tsx:25 | definition of `want === "Starting" ? yes : !yes` |
| Grids.PickerPartition | src/components/WeaponsGrid.tsx:75-96 | when the controls with no type chosen test only availability, the picker offers exactly the items of that availability in catalog order, and the two choices together offer the whole catalog |
| Grids.TokensOf | src/components/WeaponsGrid.tsx:49-52 | definition: one record's comma pieces, trimmed, empties dropped; characterised by `Grids.TokensOfIn` |
| Grids.AllTokens | src/components/WeaponsGrid.tsx:48-54 | definition: every record's tokens in catalog order; characterised by `Grids.AllTokensIn` |
| Grids.NormTokens | src/components/WeaponsGrid.tsx:13-17 | definition: comma pieces normalised, empties dropped; characterised by `Grids.NormTokensIn` |
| Spells.ParseManaOfInt | src/components/SpellsGrid.tsx:12-16 | a Mana field holding a printed integer, even after blanks, has that cost |
| Spells.Normalize | src/components/SpellsGrid.tsx:23-25 | lower-casing then trimming is the same as trimming then lower-casing |
| Spells.SpellLeTotalPreorder | src/components/SpellsGrid.tsx:41-49 | the comparator is total and transitive |
| Spells.SpellItems | src/components/SpellsGrid.tsx:39-50 | the sorted spells are a permutation of the catalog |
| Spells.SpellItemsOrdered | src/components/SpellsGrid.tsx:39-50 | costs never decrease, unknown costs come after every known one, and equal costs are in name order |
| Spells.RecDomainsIn | src/components/SpellsGrid.tsx:71-74 | a domain is listed exactly when some comma piece normalises to it |
| Spells.SpellMatchesRule | src/components/SpellsGrid.tsx:66-78 | both filters blank pass everything; otherwise a spell passes exactly when its ability equals the ability filter or one of its domains equals the domain filter |
| Spells.SpellFiltersPass | src/components/SpellsGrid.tsx:98-117 | both controls apply the same test, so passing them is the one filter pair test |
| Spells.SpellFilteredItems | src/components/SpellsGrid.tsx:80-119 | the picker offers exactly the sorted spells matching the filter pair |
| Spells.LabelTail | src/components/SpellsGrid.tsx:121-126 | what follows the cost in the label starts with a blank |
| Spells.SpellLabelMana | src/components/SpellsGrid.tsx:121-126 | reading the label back with `parseInt` gives the spell's cost, nothing for "?" |
| Spells.UnknownCostLabel | src/components/SpellsGrid.tsx:123 | a label starting with "?" holds no number |
| Spells.SpellToRow | src/components/SpellsGrid.tsx:153-161 | the row has exactly the seven fields, each copied from its catalog field or empty |
| Spells.SpellRowPointsBack | src/components/SpellsGrid.tsx:151-152 | a spell's row points back to that spell's key, so editing it preselects the spell |
| Spells.ParseMana | src/components/SpellsGrid.tsx:12-16 | definition of `parseMana`, with no number standing for +Infinity; `Spells.ParseManaOfInt` reads printed costs back |
| Spells.TrimStartPastSpace | src/components/SpellsGrid.tsx:13-14 | leading blanks are all that trimming the start drops |
| Spells.HasFocus | src/components/SpellsGrid.tsx:17-22 | definition of `hasFocus`: the trimmed, lower-cased Focus is yes, y, true or 1; its use in the label is `Spells.FocusTagShown` |
| Spells.FocusTagShown | src/components/SpellsGrid.tsx:124-125 | the label carries " (F)" right after the name, and is four characters longer, exactly when the spell needs a focus |
| Spells.ManaLt | src/components/SpellsGrid.tsx:43-45 | definition of `ma - mb < 0` with an unknown cost as +Infinity |
| Spells.ManaNameLe | src/components/SpellsGrid.tsx:41-49 | definition of the comparator on computed costs and names |
| Spells.ManaNameTotal | src/components/SpellsGrid.tsx:41-49 | of two spells, one always comes first or they tie |
| Spells.ManaNameTransitive | src/components/SpellsGrid.tsx:41-49 | the comparator is transitive, unknown costs included |
| Spells.SpellLe | src/components/SpellsGrid.tsx:41-49 | definition of the sort comparator; a total preorder by `Spells.SpellLeTotalPreorder` |
| Spells.SpellMatches | src/components/SpellsGrid.tsx:66-78 | definition of `spellMatches`; characterised by `Spells.SpellMatchesRule` |
| Spells.RecDomains | src/components/SpellsGrid.tsx:71-74 | definition of the spell's normalised domain list; characterised by `Spells.RecDomainsIn` |
| Spells.SpellFilters | src/components/SpellsGrid.tsx:80-119 | definition of the two filter controls; `Spells.SpellFiltersPass` shows they apply one test |
| Spells.ManaText | src/components/SpellsGrid.tsx:122-123 | definition: the cost printed, or "?" for an unknown cost |
| Spells.SpellLabel | src/components/SpellsGrid.tsx:121-126 | definition of `getItemLabel`; `Spells.SpellLabelMana` reads its cost back and `Spells.FocusTagShown` its focus tag |
| Weapons.HasTypeRule | src/components/WeaponsGrid.tsx:12-19 | a blank wanted type matches nothing; otherwise some comma piece of Type must normalise to it |
| Weapons.OfferedTypeMatches | src/components/WeaponsGrid.tsx:46-58 | every type the control offers is carried by some weapon |
| Weapons.FiltersPass | src/components/WeaponsGrid.tsx:95-120 | a weapon is offered exactly when it has the chosen availability and passes the type filter, which a blank type always passes |
| Weapons.ToRow | src/components/WeaponsGrid.tsx:151-159 | the row has exactly the seven fields, each copied from its catalog field or empty |
| Weapons.RowPointsBack | src/components/WeaponsGrid.tsx:148-150 | a weapon's row points back to that weapon |
| Weapons.IsYes | src/components/WeaponsGrid.tsx:21-24 | definition: the trimmed, lower-cased Starting? is yes, y or true |
| Weapons.IsStarting | src/components/WeaponsGrid.tsx:20-26 | definition of `isStarting` |
| Weapons.HasType | src/components/WeaponsGrid.tsx:12-19 | definition of `hasType`; characterised by `Weapons.HasTypeRule` |
| Weapons.TypeFilter | src/components/WeaponsGrid.tsx:120 | definition of `v ? hasType(it, v) : true` |
| Weapons.Filters | src/components/WeaponsGrid.tsx:75-121 | definition of the two controls; `Weapons.FiltersPass` states what they pass |
| Weapons.AvailabilityOnly | src/components/WeaponsGrid.tsx:75-96 | with no type chosen the picker lists exactly the weapons of the chosen availability in catalog order, and the two choices together list every weapon |
| Armors.StartingOneDiffers | src/components/ArmorsGrid.tsx:13-17 | "1" makes an armor starting but leaves a weapon non-starting |
| Armors.NoTokensBlankOrComma | src/components/ArmorsGrid.tsx:23-29 | the whole-field fallback is reached only for a blank Type or one holding a comma |
| Armors.TypeTestsAgree | src/components/ArmorsGrid.tsx:19-30 | for a non-blank comma-free type the armor test equals the weapon test |
| Armors.OfferedTypeFiltersAgree | src/components/ArmorsGrid.tsx:123 | on every offered type the armor filter is the weapon filter |
| Armors.FiltersPass | src/components/ArmorsGrid.tsx:98-123 | an armor is offered exactly when it has the chosen availability and passes the type filter |
| Armors.ToRow | src/components/ArmorsGrid.tsx:147-155 | the row has exactly the seven fields, each copied from its catalog field or empty |
| Armors.RowPointsBack | src/components/ArmorsGrid.tsx:144-146 | an armor's row points back to that armor |
| Armors.IsYes | src/components/ArmorsGrid.tsx:14-15 | definition: the trimmed, lower-cased Starting? is yes, y, true or 1 |
| Armors.IsStarting | src/components/ArmorsGrid.tsx:13-17 | definition of `isStarting` |
| Armors.HasType | src/components/ArmorsGrid.tsx:19-30 | definition of `hasType`; `Armors.TypeTestsAgree` and `Armors.NoTokensBlankOrComma` relate it to the weapon test |
| Armors.TypeFilter | src/components/ArmorsGrid.tsx:123 | definition of `v ? hasType(it, v) : true` |
| Armors.Filters | src/components/ArmorsGrid.tsx:78-124 | definition of the two controls; `Armors.FiltersPass` states what they pass |
| Armors.AvailabilityOnly | src/components/ArmorsGrid.tsx:78-99 | with no type chosen the picker lists exactly the armors of the chosen availability in catalog order, and the two choices together list every armor |
| Talents.TypeFilterRule | src/components/TalentsGrid.tsx:94 | a talent is Main exactly when its table is "main", Secondary exactly when "secondary", and never both |
| Talents.NormMain | src/components/TalentsGrid.tsx:94 | the selected type "Main" normalises to "main" |
| Talents.NormSecondary | src/components/TalentsGrid.tsx:94 | the selected type "Secondary" normalises to "secondary" |
| Talents.TalentLabel | src/components/TalentsGrid.tsx:14-18 | the label starts with the trimmed name |
| Talents.TalentLabelBare | src/components/TalentsGrid.tsx:14-18 | the label is the bare name exactly when the requirements are blank |
| Talents.ChildSelectionCountOf | src/components/TalentsGrid.tsx:20-24 | a printed count is read back when positive; zero and negative counts ask for no children |
| Talents.PrintedCount | src/components/TalentsGrid.tsx:21-23 | the positive-or-zero rule on a printed count is the rule on the count itself |
| Talents.ToRowFromRec | src/components/TalentsGrid.tsx:53-57 | the row has exactly name, action and description, each copied or empty |
| Talents.RowPointsBack | src/components/TalentsGrid.tsx:264-266 | a talent's row points back to that talent |
| Talents.FiltersPass | src/components/TalentsGrid.tsx:255 | a talent is offered exactly when it passes the type filter |
| Talents.ByName | src/components/TalentsGrid.tsx:44-51 | a found record is in the catalog with that trimmed name; a blank or unknown name finds nothing |
| Talents.ByNameLastWins | src/components/TalentsGrid.tsx:44-51 | on a repeated name the last record wins |
| Talents.Candidates | src/components/TalentsGrid.tsx:122-127 | no selection gives no candidates; otherwise exactly the talents whose trimmed ParentName is the selected name |
| Talents.Blanks | src/components/TalentsGrid.tsx:109 | `count` blank choices |
| Talents.Resize | src/components/TalentsGrid.tsx:104-119 | the choices end up with the selected talent's count; a new parent resets them all to blank; the same parent keeps the picks that fit and pads with blanks |
| Talents.ResizeSettles | src/components/TalentsGrid.tsx:104-119 | resizing again for the same talent changes nothing |
| Talents.ResizeKeepsPicks | src/components/TalentsGrid.tsx:111-117 | for the same talent the picks that still fit are kept |
| Talents.Pick | src/components/TalentsGrid.tsx:149-155 | choosing child i sets exactly that choice |
| Talents.ExtraRows | src/components/TalentsGrid.tsx:244-250 | at most one row per pick, each the row of some catalog talent; `Talents.ExtraRowsMixed` pins the rows of any mix of picks |
| Talents.ExtraRowsAllKnown | src/components/TalentsGrid.tsx:244-250 | when every pick names a known talent, the i-th row is the i-th pick's talent's row |
| Talents.ExtraRowsOfBlanks | src/components/TalentsGrid.tsx:245 | blank picks add no rows |
| Talents.ExtraRowsMixed | src/components/TalentsGrid.tsx:244-250 | for any mix of known, unknown and blank picks: the rows of a list are those of its parts in order, and one pick gives its talent's row when known and no row otherwise |
| Talents.TableOf | src/components/TalentsGrid.tsx:12 | definition of `tableOf` |
| Talents.TypeName | src/components/TalentsGrid.tsx:90-91 | definition: the two option values "Main" and "Secondary" |
| Talents.TypeFilter | src/components/TalentsGrid.tsx:94 | definition of `tableOf(rec) === norm(v)`; characterised by `Talents.TypeFilterRule` |
| Talents.Filters | src/components/TalentsGrid.tsx:255 | definition of the one filter control; `Talents.FiltersPass` states what it passes |
| Talents.ChildSelectionCount | src/components/TalentsGrid.tsx:20-24 | definition of `childSelectionCount`; characterised by `Talents.ChildSelectionCountOf` |
| Talents.PositiveOrZero | src/components/TalentsGrid.tsx:23 | definition of `Number.isFinite(n) && n > 0 ? n : 0` |
| Talents.TrimmedName | src/components/TalentsGrid.tsx:47 | definition: the trimmed Name the index is keyed by |
| Talents.SelectedName | src/components/TalentsGrid.tsx:102 | definition of `String(selected?.Name ?? "").trim()` |
| Talents.ChildCount | src/components/TalentsGrid.tsx:103 | definition of `selected ? childSelectionCount(selected) : 0` |
| RaceInfo.NormalizeTableIgnoresSpaces | src/components/RaceInfo.tsx:15-20 | the normalised table is the lower-cased text with every blank removed |
| RaceInfo.SameRaceTalentTest | src/components/RaceInfo.tsx:21-23 | the panel's race-talent test agrees with the catalog's |
| RaceInfo.FindTalentByName | src/components/RaceInfo.tsx:25-38 | an empty name finds nothing; a found talent is a race talent whose normalised name equals the normalised query; nothing found means no such race talent |
| RaceInfo.FindTalentFirst | src/components/RaceInfo.tsx:27-37 | the talent found is the first race talent in catalog order with a matching name |
| RaceInfo.BlankNameMatchesBlank | src/components/RaceInfo.tsx:26-35 | a blank but non-empty query is not rejected and finds a race talent with a blank name |
| RaceInfo.ShownRule | src/components/RaceInfo.tsx:111 | a detail is shown exactly when it is present and holds a non-blank character |
| RaceInfo.ShownFields | src/components/RaceInfo.tsx:109-111 | the details shown are exactly the present, non-blank ones among Description, Action and Mana |
| RaceInfo.NormalizeTable | src/components/RaceInfo.tsx:15-20 | definition of `normalizeTable`; characterised by `RaceInfo.NormalizeTableIgnoresSpaces` |
| RaceInfo.IsRaceTalentTable | src/components/RaceInfo.tsx:21-23 | definition of the panel's race-talent test; equal to the catalog's by `RaceInfo.SameRaceTalentTest` |
| RaceInfo.TalentNeedle | src/components/RaceInfo.tsx:33-35 | definition: Name, else name, trimmed and lower-cased |
| RaceInfo.Shown | src/components/RaceInfo.tsx:111 | definition of the shown-detail test; characterised by `RaceInfo.ShownRule` |
| HeaderSection.DecodedPartsFree | src/components/HeaderSection.tsx:25-26 | neither decoded part contains the separator |
| HeaderSection.FirstSeparator | src/components/HeaderSection.tsx:48 | in race + the separator + talent the first separator is the inserted one, for a race that does not end in a space and a bar |
| HeaderSection.DecodeEncode | src/components/HeaderSection.tsx:25-26 | the stored text decodes back to the race and talent when neither contains the separator and the race does not end in a space and a bar |
| HeaderSection.EncodeBarRace | src/components/HeaderSection.tsx:25-26 | a race ending in a space and a bar with a talent decodes to a different race |
| HeaderSection.HandleTalentChange | src/components/HeaderSection.tsx:46-49 | a blank choice stores the race alone |
| HeaderSection.TalentChangeRoundTrip | src/components/HeaderSection.tsx:46-49 | the chosen talent reads back and the race is kept |
| HeaderSection.Allowed | src/components/HeaderSection.tsx:28-31 | no race offers no talents |
| HeaderSection.RaceChangeRule | src/components/HeaderSection.tsx:41-44 | the new race reads back; the old talent is kept exactly when it was non-blank and allowed for the old race, and otherwise dropped |
| HeaderSection.RaceAlone | src/components/HeaderSection.tsx:36 | a race stored alone decodes as itself with no talent |
| HeaderSection.TalentMeansLonger | src/components/HeaderSection.tsx:35-36 | a stored value with a talent is longer than its race |
| HeaderSection.ClearInvalidConsistent | src/components/HeaderSection.tsx:33-39 | the effect leaves a consistent value and changes the value exactly when it was inconsistent |
| HeaderSection.ClearInvalidSettles | src/components/HeaderSection.tsx:33-39 | running the effect again changes nothing |
| HeaderSection.HeaderNumber | src/components/HeaderSection.tsx:128 | a numeric field stores `Number(text)`, except that 0 and NaN are stored as blank |
| HeaderSection.HeaderNumberOfPrinted | src/components/HeaderSection.tsx:137 | a typed non-zero integer is stored as itself; a typed 0 and an empty input store blank |
| HeaderSection.RaceOf | src/components/HeaderSection.tsx:25 | definition: the first piece of the stored text split at the separator; `HeaderSection.DecodeEncode` reads it back |
| HeaderSection.TalentOf | src/components/HeaderSection.tsx:26 | definition: the second piece of the stored text split at the separator, or empty text; `HeaderSection.DecodeEncode` reads it back |
| HeaderSection.Encode | src/components/HeaderSection.tsx:46-49 | definition of the stored form: the race, then the separator and the talent when a talent is chosen; inverted by `HeaderSection.DecodeEncode` |
| HeaderSection.HandleRaceChange | src/components/HeaderSection.tsx:41-44 | definition of `handleRaceChange`; characterised by `HeaderSection.RaceChangeRule` |
| HeaderSection.Consistent | src/components/HeaderSection.tsx:35 | definition: no race, no talent, or an allowed talent |
| HeaderSection.ClearInvalid | src/components/HeaderSection.tsx:33-39 | definition of the clearing effect; `HeaderSection.ClearInvalidConsistent` and `HeaderSection.ClearInvalidSettles` state what it does |
| Sheet.KeyOf | src/constants.ts:59 | a recognised text is the name of the key it gives |
| Sheet.KeyOfName | src/constants.ts:59 | every ability key's name reads back as that key |
| Sheet.Abilities.Set | src/types.ts:3-8 | the set ability holds the new row and every other ability is unchanged |
| Sheet.AbilitiesExt | src/types.ts:3-8 | two ability tables that agree on every key are equal |
| Sheet.KeyName | src/constants.ts:59 | definition: each key's text; read back by `Sheet.KeyOfName` |
| Sheet.Abilities.Get | src/types.ts:8 | definition of `abilities[k]` |
| Sheet.EffectiveMod | src/components/SkillsGrid.tsx:41 | definition of `row.mod === "" ? calcMod(row.base) : row.mod` |
| AbilityTable.DraftBase | src/components/AbilityTable.tsx:84-91 | the base draft is blank for an empty text and never NaN; a non-empty all-blank text drafts 0; otherwise the literal's value, or blank |
| AbilityTable.SetBaseCommit | src/components/AbilityTable.tsx:36-49 | the committed ability takes the base and its modifier; a blank save is filled with the modifier, any other save is kept; other abilities are unchanged |
| AbilityTable.SetSave | src/components/AbilityTable.tsx:51-59 | only that ability's save changes; its base and modifier stay |
| AbilityTable.SaveText | src/components/AbilityTable.tsx:136-143 | blank or non-numeric save text stores blank, anything else its value |
| AbilityTable.DisplayedSave | src/components/AbilityTable.tsx:125-129 | the stored save when there is one, else the draft base's modifier |
| AbilityTable.SaveStopsTracking | src/components/AbilityTable.tsx:40 | the save is filled once, then keeps the first modifier while the modifier follows later bases |
| AbilityTable.BlankBaseCommit | src/components/AbilityTable.tsx:36-49 | committing a blank base blanks base and modifier and keeps the save |
| AbilityTable.SetBaseCommitIdempotent | src/components/AbilityTable.tsx:36-49 | committing the same base twice is committing it once |
| AbilityTable.CommitStoresShownSave | src/components/AbilityTable.tsx:125-129 | while the save is blank the save shown is the one the commit stores |
| AbilityTable.TypedBackSave | src/components/AbilityTable.tsx:134-143 | typing the shown save back stores it as an explicit save |
| AbilityTable.OverrideScenario | src/components/AbilityTable.tsx:36-59 | base 14 gives mod and save +2; after an override to +5, base 16 gives mod +3 and keeps save +5 |
| SkillsGrid.CoerceBonus | src/components/SkillsGrid.tsx:20-26 | never NaN; a stored number is kept, blank and NaN give blank; legacy text that is not all blank gives blank exactly when its trimmed text is not an integer literal, and otherwise that literal's value |
| SkillsGrid.AbilityMod | src/components/SkillsGrid.tsx:39-43 | the stored mod, else the base's modifier, and 0 when that is blank |
| SkillsGrid.Total | src/components/SkillsGrid.tsx:56-59 | the total is never blank, is NaN exactly when the ability modifier is, and is otherwise the coerced bonus (0 when blank) plus the modifier, for stored and legacy bonuses alike |
| SkillsGrid.TotalOfCoerced | src/components/SkillsGrid.tsx:56-59 | whatever the bonus is stored as, the total is what `coerceBonus` reads from it (0 when blank) plus the numeric modifier |
| SkillsGrid.TotalOfLegacy | src/components/SkillsGrid.tsx:56-59 | a bonus kept as text counts as the integer its trimmed text spells, and as 0 when that text is not an integer |
| SkillsGrid.TotalRule | src/components/SkillsGrid.tsx:56-59 | a blank bonus totals the modifier; a bonus n totals n plus the modifier |
| SkillsGrid.TotalOfBlank | src/components/SkillsGrid.tsx:39-59 | a blank bonus on a blank ability totals 0 |
| SkillsGrid.TotalFromBase | src/components/SkillsGrid.tsx:39-59 | with no stored mod, the total less the bonus is floor((base - 10) / 2) |
| SkillsGrid.SetBonus | src/components/SkillsGrid.tsx:45-51 | only skill idx's bonus changes |
| SkillsGrid.CommitTyped | src/components/SkillsGrid.tsx:95-101 | never NaN; "", "+" and "-" commit blank |
| SkillsGrid.CommitTypedValid | src/components/SkillsGrid.tsx:95-98 | every complete typing-valid text commits its own value |
| SkillsGrid.OnChange | src/components/SkillsGrid.tsx:86-102 | invalid text changes neither bonus nor buffer; valid text is buffered and commits by the typing rule |
| SkillsGrid.OnBlur | src/components/SkillsGrid.tsx:103-118 | the row's buffer is dropped and the bonus is committed from it, blank when there was none |
| SkillsGrid.BlurWithoutTypingClears | src/components/SkillsGrid.tsx:103-111 | leaving a field with a stored +3 without typing clears the bonus |
| SkillsGrid.OnBlurKeeping | src/components/SkillsGrid.tsx:103-118 | leaving without typing keeps the skills; with a buffer it acts as the handler does |
| SkillsGrid.BuffersValidPreserved | src/components/SkillsGrid.tsx:86-118 | typing and leaving a field keep every buffer typing-valid |
| SkillsGrid.TypeThenBlur | src/components/SkillsGrid.tsx:86-118 | typing valid text then leaving commits that text; invalid typing then leaving is leaving |
| SkillsGrid.ShownBonusTypedBack | src/components/SkillsGrid.tsx:62-118 | typing back a shown bonus and leaving stores it unchanged |
| SkillsGrid.ShownBonusCommits | src/components/SkillsGrid.tsx:11-17 | a signed display is trimmed, typing-valid, and commits its own value |
| SkillsGrid.ParseTrimmed | src/components/SkillsGrid.tsx:24 | `Number(text.trim())` is 0 for an all-blank text, and otherwise not a number exactly when the trimmed text is not an integer literal, else that literal's value |
| SkillsGrid.CoerceLegacyFormatted | src/components/SkillsGrid.tsx:20-26 | a legacy bonus text holding a signed display reads as the value displayed |
| SkillsGrid.BuffersValid | src/components/SkillsGrid.tsx:17 | definition: every edit buffer matches the typing pattern; kept by `SkillsGrid.BuffersValidPreserved` |
| SkillsGrid.BlurAfterChange | src/components/SkillsGrid.tsx:103-118 | leaving a field right after a change commits the buffered text again, which changes no bonus, and drops the buffer |
| SkillsGrid.SetBonusTwice | src/components/SkillsGrid.tsx:45-51 | setting the same bonus twice is setting it once |
| SpellcastingBlock.AbilityModifier | src/components/SpellcastingBlock.tsx:21-27 | no ability or an unknown one gives blank; otherwise the ability's effective modifier, NaN passed through: the stored mod, or the base's computed modifier when the mod is blank |
| SpellcastingBlock.DC | src/components/SpellcastingBlock.tsx:29 | the DC is a number exactly when the modifier is, and then 10 more; blank exactly when the modifier is blank, so a NaN modifier gives NaN |
| SpellcastingBlock.SetSC | src/components/SpellcastingBlock.tsx:31-35 | patched fields are replaced and every unpatched field keeps the current value |
| SpellcastingBlock.SetSCEmpty | src/components/SpellcastingBlock.tsx:31-35 | an empty patch stores the record the block was showing |
| SpellcastingBlock.OnAbilityChange | src/components/SpellcastingBlock.tsx:37-46 | the ability is set and the domain kept; a non-blank attack, or a cleared ability, keeps the attack |
| SpellcastingBlock.FilledAttackMatchesModifier | src/components/SpellcastingBlock.tsx:39-44 | a blank attack is filled with the new ability's modifier |
| SpellcastingBlock.OnDomainChange | src/components/SpellcastingBlock.tsx:48-49 | only the domain changes |
| SpellcastingBlock.OnAttackChange | src/components/SpellcastingBlock.tsx:52-57 | ability and domain kept; the attack is never NaN, blank exactly for blank or non-numeric text, and a stored number is the value of the trimmed integer literal typed |
| SpellcastingBlock.ShownAttackTypedBack | src/components/SpellcastingBlock.tsx:52-57 | typing back the shown attack stores the record unchanged |
| SpellcastingBlock.NoRecordNoModifier | src/components/SpellcastingBlock.tsx:19-29 | without a spellcasting record there is no modifier and no DC |
| SpellcastingBlock.Current | src/components/SpellcastingBlock.tsx:19 | definition of `ch.spellcasting ?? { ability: "", domain: "", spellAttack: "" }` |
| SpellcastingBlock.Modifier | src/components/SpellcastingBlock.tsx:21-27 | definition: the modifier of the record's ability |
| SpellcastingBlock.AbilityModifierAgrees | src/components/SpellcastingBlock.tsx:21-27 | the block's modifier equals the skill grid's wherever the ability's modifier is set or computable; otherwise the block shows blank where the grid counts 0 |
| ActionsGrid.EmptyRow | src/components/ActionsGrid.tsx:6-11 | exactly the four fields, all blank |
| ActionsGrid.Seed | src/components/ActionsGrid.tsx:36-42 | an empty list becomes three blank rows; any other list is kept |
| ActionsGrid.SeedSettles | src/components/ActionsGrid.tsx:36-42 | a seeded list is seeded no further |
| ActionsGrid.Set | src/components/ActionsGrid.tsx:44-48 | the length is kept, every other row is identical, and the row takes exactly the patched fields |
| ActionsGrid.AddRow | src/components/ActionsGrid.tsx:50 | the old rows as a prefix, then one blank row |
| ActionsGrid.AddRowUndone | src/components/ActionsGrid.tsx:50 | removing the added row gives the list back |
| ActionsGrid.FillAddedRow | src/components/ActionsGrid.tsx:44-50 | filling the added row sets exactly the patched fields and leaves the others blank |
| Storage.EmptyAbilities | src/storage.ts:6-12 | every ability has blank base, modifier and save |
| Storage.BlankRow | src/storage.ts:36-47 | a row with exactly the given fields, all blank |
| Storage.Copies | src/storage.ts:36 | n copies of the row |
| Storage.EmptySkills | src/storage.ts:30-35 | one skill per table entry, in order, same key and ability, blank bonus and total |
| Storage.EmptyCharacterShape | src/storage.ts:14-73 | level 1, every other scalar blank (name, race and talent, age, speed, gender, initiative, occupation, armor class, patron, hit points and mana), and 14 skills, 7 actions, 6 support actions, 6 reactions, 12 spells, 10 talents and 10 equipment rows |
| Storage.EmptyCharacterRows | src/storage.ts:36-72 | every action and support-action row has exactly ability, to-hit, damage and effect, every reaction ability and effect, every spell name, mana and description, every talent and equipment row name and description, all blank; the description block has its eight fields blank, and the spell record is blank apart from its ability |
| Storage.BlankWith | src/storage.ts:36-72 | definition: a row holding exactly the given fields, each blank |
| Storage.FieldSet | src/storage.ts:36-72 | the blank row of a field list holds exactly those fields, each blank |
| Storage.CopiesBlank | src/storage.ts:42-62 | every row of `Array.from({ length: n }, () => row)` over a blank row holds exactly its fields, each blank |
| Storage.BlankWithUnique | src/storage.ts:36-47 | two blank rows over the same fields are the same row |
| Storage.EmptyCharacterSkills | src/storage.ts:29-35 | every ability is blank and the skills follow the table with blank bonus and total |
| Storage.EmptyCharacterActions | src/storage.ts:36-47 | the action rows are the action grid's blank row, so seeding leaves them alone |
| Storage.EmptyCharacterTotals | src/storage.ts:29-35 | on the blank character every skill totals 0 |
| Storage.EmptyCharacterSpellcasting | src/storage.ts:49-55 | the default spellMeta names Int, but the spellcasting block shows no ability and no modifier |
| Storage.EmptyCharacterRace | src/storage.ts:16 | the blank character has no race and is consistent |
| Storage.EmptyCharacter | src/storage.ts:14-73 | definition of `emptyCharacter`; its scalar fields and list sizes are stated by `Storage.EmptyCharacterShape`, its rows by `Storage.EmptyCharacterRows`, its abilities and skills by `Storage.EmptyCharacterSkills`, and its spell records by `Storage.EmptyCharacterSpellcasting` |

## Left out

- React rendering, styling, the preview sections, the drag highlight and `dataTransfer` handling: these have no checkable contract.
- `loadCharacter` and `saveCharacter` (`localStorage`), file export and import, printing, and the HTTP client: these are I/O.
- The catalogs' JSON imports: the catalogs are parameters of the model.
- The weapon and armor catalogs: src/components/WeaponsGrid.tsx:6 and src/components/ArmorsGrid.tsx:7 import `weapons` and `armors` from src/models/catalog.ts, but that file exports only `races`, `talents` and `spells` (src/models/catalog.ts:11-13), and App.tsx mounts neither grid; the two catalogs have no definition in the source and are parameters only.
- `getTalentId`, `talentById` and `talentNameById` (src/models/catalog.ts:17-18, 25-30): nothing in the modelled core reads them.
- The `setTimeout` scheduling of the talent child choices: only the list transformation it performs is modelled (`Talents.Resize`).
- Non-integer numbers: decimals, exponents and `Infinity`; only the standard decimal integer notation is modelled.
- Numbers.ParseNumber: integers are unbounded, while JavaScript numbers are doubles. Above 2^53 the source rounds (`Number("9007199254740993")` is 9007199254740992), from 10^21 on `String` prints exponent form ("1e+21"), so `Numbers.IntToString`, `Spells.SpellLabel` and `Numbers.ParseIntPrefixOfInt` read back differently there, and a literal of more than 309 digits is `Infinity`.
- SkillsGrid.OnChange: a typing-valid run of more than 309 digits is `Infinity` in the source, so the change handler skips `setBonus` and keeps the old bonus (src/components/SkillsGrid.tsx:97-98) and leaving the field stores blank (src/components/SkillsGrid.tsx:110); the model commits the value typed.
- SkillsGrid.CommitTypedValid: holds as stated only for values JavaScript reads exactly, that is below 2^53 in magnitude, for the width reason above.
- Numbers.ParseNumber: the `0x`, `0o` and `0b` prefixed literals that `Number` also accepts read as not a number; for example, typing "0x10" into an ability's save box (src/components/AbilityTable.tsx:133-143) stores 16 in the source but blank in the model.
- Text.IsSpace: only the ASCII blanks, the no-break space (U+00A0) and the byte-order mark (U+FEFF) are blanks; the other Unicode spaces that `trim()` and `/\s/` drop, such as U+2003 and U+3000, are kept as text.
- Text.LowerChar: only A to Z are lower-cased; `toLowerCase` also folds non-ASCII letters, so "Élf" and "élf" differ in the model.
- Locale-aware collation: `localeCompare` is an ASCII case fold followed by code-unit order.
- Sort stability: the sorts are proved to give ordered permutations, but not to keep the catalog order of equal items.
- Object-prototype keys such as `toString` in the JavaScript index objects: an index is modelled as a plain map.
- The reactions grid: it reuses the action grid's editing rules, which are modelled once.
- The `rows` undefined case in the action grid: rows are always a sequence, and an empty one seeds as the source does.
- The header's `race ? ... : []` guard: it is redundant, because the allowed list is empty for a blank race anyway.
- Picker.Save: it requires a valid edited row, which the modal invariant guarantees (`Picker.InvPreserved`); without it the source would write the new row past the end of the list.
- Talents.ExtraRows: the extra rows are modelled, but `extraPickers` is never consumed by the picker grid, so no property links them to the committed rows.
- SkillsGrid.AbilityMod: a `NaN` modifier is passed through rather than read as 0, matching `typeof NaN === "number"` in the source.
- AbilityTable.DraftBase: a non-empty all-blank draft gives 0, because the draft is not trimmed before `Number`.
- SkillsGrid.CoerceBonus: a legacy all-blank bonus text gives 0, as `Number("")` does.

## Findings

| source | as written | input that shows it | evidently intended | confidence | as-written member | corrected member |
|---|---|---|---|---|---|---|
| src/components/SkillsGrid.tsx:103-111 | leaving the bonus field reads a missing edit buffer as "" and commits blank | a skill with a stored bonus of +3; focus its field and leave it without typing | leaving a field that was never typed in keeps the committed bonus | medium, not executed | SkillsGrid.BlurWithoutTypingClears (of SkillsGrid.OnBlur) | SkillsGrid.OnBlurKeeping (with SkillsGrid.TypeThenBlur and SkillsGrid.ShownBonusTypedBack) |
