# Blameless wheel: selection resolvers and schema index in Dafny

This project models the data logic behind the emotion wheels of the Blameless
application, and proves properties of it. A person picks a core feeling, a
branch and an expression on the discernment wheel. The application then:

- reads the validation table, a CSV file, with `parseCSV`;
- finds the "Christian Validation" text for the picked expression and branch
  (`getValidationForSelection`);
- finds the outer group of the next-steps wheel whose tokens best match the
  selection, and that group's steps (`findNextSteps`);
- converts colours between `#rrggbb` / `#rgb` and byte channels (`hexToRgb`,
  `rgbToHex`).

The standalone wheel (`phil48-wheel`) instead precomputes indexes over the
unified schema with `buildIndexes`. It builds three maps:

- core to the paths of its expressions;
- normalised expression to its path;
- core to outer group to steps.

Then it gives each expression the steps of the first outer group whose
`/`-separated label names it.

Modules, one per file:

| file | module | models |
|---|---|---|
| `optional.dfy` | `Optional` | `null` results |
| `text.dfy` | `Text` | `trim`, `toLowerCase`, `includes`, `split`; `normalizeKey`, `normalize` and `norm` |
| `ordered_map.dfy` | `OrderedMap` | a JavaScript `Map`: its values and its keys in first-insertion order |
| `schema.dfy` | `Schema` | the two trees of the schema |
| `csv.dfy` | `Csv` | `parseCSV` |
| `validation.dfy` | `Validation` | `getValidationForSelection` |
| `next_steps.dfy` | `NextSteps` | `findNextSteps` |
| `color.dfy` | `Color` | `hexToRgb`, `rgbToHex` |
| `index_schema.dfy` | `IndexSchema` | `norm`, `splitOuterGroupLabel`, `buildIndexes` |

Each loop of the source is a `method` with a loop. It is proved equal to a
function that states the result from the end of the input. The properties
the source relies on are proved as lemmas about those functions:

- the record reader inverts RFC 4180 quoting;
- the sort is a stable, descending permutation;
- the colour codec round-trips;
- map keys keep their first-insertion position and the last write wins;
- an expression gets steps exactly when the first outer group naming it
  exists and its label is not empty.

## Model

| member | source | states |
|---|---|---|
| Text.Trim | src/App.jsx:62 | the result is no longer than the input and neither starts nor ends with white space |
| Text.TrimIsTrimmed | src/App.jsx:62 | `trim` removes only white space, from both ends, and keeps the rest as a contiguous part of the input |
| Text.TrimEmptyIff | src/App.jsx:42 | a cell trims to "" exactly when it consists of white space only |
| Text.TrimUnchanged | src/App.jsx:62 | a string without surrounding white space is its own trim |
| Text.Lower | src/App.jsx:62 | lower-casing leaves no upper-case ASCII letter and keeps white space white space |
| Text.ToLower | src/App.jsx:62 | lower-casing keeps the length |
| Text.ToLowerAt | src/App.jsx:62 | lower-casing works character by character |
| Text.NormalizeShape | src/App.jsx:61-63 | `normalizeKey` yields a string with no surrounding white space and no upper-case letter, no longer than its input |
| Text.NormalizeIdempotent | src/App.jsx:260-262 | normalising an already normalised key changes nothing (`normalize`, `normalizeKey` and `norm` agree on strings) |
| Text.ContainsBasics | src/App.jsx:81 | `includes` accepts "" and the string itself, and never a longer string |
| Text.ContainsAntisymmetric | src/App.jsx:81 | two strings that each include the other are equal |
| Text.Split | src/App.jsx:84 | `split` yields at least one piece |
| Text.JoinSplit | src/App.jsx:84 | joining the pieces of a split with the separator gives the input back |
| Text.SplitPiecesLackSeparator | phil48-wheel/src/utils/indexSchema.js:8 | no piece of a split holds the separator |
| Text.SplitNoSeparator | phil48-wheel/src/utils/indexSchema.js:8 | a string without the separator splits into itself alone |
| Text.SplitAfter | phil48-wheel/src/utils/indexSchema.js:8 | a separator-free prefix followed by the separator is split off as the first piece |
| Text.NormalizeAllAt | phil48-wheel/src/utils/indexSchema.js:9 | mapping `norm` over the pieces normalises each piece in place |
| OrderedMap.PutValid | phil48-wheel/src/utils/indexSchema.js:28 | `Map.set` keeps each key listed once and exactly the keys with a value listed |
| OrderedMap.FromEntriesValid | phil48-wheel/src/utils/indexSchema.js:17-31 | a map built by `set` calls lists each key once and exactly its keys |
| OrderedMap.FromEntriesSnoc | phil48-wheel/src/utils/indexSchema.js:31 | one more entry is one more `set` on the map built so far |
| OrderedMap.FromEntriesHasKey | phil48-wheel/src/utils/indexSchema.js:31 | a key has a value exactly when some `set` call used it |
| OrderedMap.FromEntriesValueFrom | phil48-wheel/src/utils/indexSchema.js:50 | every value of the map is the value of one of the `set` calls |
| OrderedMap.FromEntriesLastWins | phil48-wheel/src/utils/indexSchema.js:28 | a key's value is the one its last `set` call gave |
| OrderedMap.FromEntriesOrder | phil48-wheel/src/utils/indexSchema.js:48 | the keys are listed in the order of their first `set` call |
| OrderedMap.FirstIndex | phil48-wheel/src/utils/indexSchema.js:57 | the index found is the first entry with the key, or the length when none has it |
| NextSteps.FindCore | src/App.jsx:267 | `tree.find` gives the first core whose label is exactly the one asked for, and nothing exactly when no core has it |
| NextSteps.TokenScore | src/App.jsx:282-287 | a token contributes 3 exactly when the branch includes it, 2 exactly when it is the expression otherwise, 0 exactly when it is empty or unrelated; never more than 3 |
| NextSteps.GroupScore | src/App.jsx:281-287 | a group's score lies between 0 and 3 |
| NextSteps.GroupScoreIsMax | src/App.jsx:281-287 | a group's score is the largest token contribution (a maximum, not a sum), and 0 when no token contributes |
| NextSteps.BestIndex | src/App.jsx:273-290 | the scan keeps nothing exactly when every group scores 0; otherwise it keeps a group that scores above 0, at least as much as every group and strictly more than every group before it |
| NextSteps.FirstBestUnique | src/App.jsx:289 | only one group can be the group kept |
| NextSteps.BestIndexStep | src/App.jsx:289 | one more group replaces the best so far only on a strictly greater score |
| NextSteps.Winner | src/App.jsx:273-293 | no group label and no steps exactly when every group scores 0; otherwise the label and steps of the first group with the highest score |
| NextSteps.NextStepsForChoice | src/App.jsx:263-294 | no group label and no steps exactly when no core has the label exactly or every outer group of the first such core scores 0 against the normalised branch and expression; otherwise the label and steps of that core's first group with the highest score |
| NextSteps.ScoreTokens | src/App.jsx:281-287 | the inner loop computes the group's score |
| NextSteps.KeepBest | src/App.jsx:273-293 | the outer loop returns the guidance of the group the scan keeps, or none |
| NextSteps.FindNextSteps | src/App.jsx:263-294 | `findNextSteps` returns what `NextStepsFor` specifies |
| Validation.Matching | src/App.jsx:70-72 | the filter keeps exactly the rows whose normalised Emotion is the normalised expression |
| Validation.MatchingSingle | src/App.jsx:70-72 | one row is kept exactly when its normalised Emotion is the word |
| Validation.MatchingAppend | src/App.jsx:70-72 | the filter works row by row: the filter of a table is the filter of its first part followed by that of the rest, so matches keep table order and duplicates |
| Validation.TokenBonus | src/App.jsx:84-87 | the token bonus is at most the number of branch tokens |
| Validation.TokenBonusExtremes | src/App.jsx:84-87 | the token bonus is 0 exactly when no token overlaps the Subtype, and the token count exactly when every token does |
| Validation.TokenBonusStep | src/App.jsx:85-86 | one more token adds 1 exactly when it overlaps the Subtype |
| Validation.ContainmentBonus | src/App.jsx:81-82 | the containment bonus is 0 or 3 |
| Validation.RowScoreBounds | src/App.jsx:78-90 | a row without a Subtype scores 0; no row scores more than 3 plus the number of branch tokens |
| Validation.ScoreAll | src/App.jsx:78-90 | one scored record per matching row |
| Validation.ScoreAllAt | src/App.jsx:78-90 | the k-th scored record is the k-th matching row with its score |
| Validation.Insert | src/App.jsx:92 | inserting adds exactly one element |
| Validation.SortByScore | src/App.jsx:92 | sorting keeps the length |
| Validation.InsertPermutation | src/App.jsx:92 | inserting adds exactly the inserted record |
| Validation.SortPermutation | src/App.jsx:92 | the sort neither loses nor adds a record |
| Validation.InsertMembers | src/App.jsx:92 | inserting brings in no record other than the inserted one |
| Validation.InsertHead | src/App.jsx:92 | the inserted record goes first when the first record scores no more than it; otherwise the first record stays first |
| Validation.InsertFirst | src/App.jsx:92 | into a list in descending order, the inserted record goes first exactly when no record there scores more than it |
| Validation.InsertDescending | src/App.jsx:92 | inserting into a descending list keeps it descending |
| Validation.SortDescending | src/App.jsx:92 | the sorted records are in descending order of score |
| Validation.InsertStable | src/App.jsx:92 | inserting places the record ahead of the records with its score |
| Validation.SortStable | src/App.jsx:92 | records with equal scores keep their table order (the sort is stable) |
| Validation.SortHead | src/App.jsx:92-93 | the first record after the sort is the first matching row with the highest score |
| Validation.ValidationChoice | src/App.jsx:65-94 | no text exactly when the expression label is empty or no row matches it; the trimmed text of the only match; otherwise that of the first match with the highest score |
| Validation.ScoreRow | src/App.jsx:79-89 | the scoring loop for one row computes its score: the containment bonus plus the token bonus |
| Validation.ScoreMatches | src/App.jsx:78-90 | `matches.map` scores every matching row, in order |
| Validation.ValidationForSelection | src/App.jsx:65-94 | `getValidationForSelection` returns what `ValidationOf` specifies |
| Csv.EndRecord | src/App.jsx:38-44 | the end of a record empties the record and the cell; the record, open cell included, is appended when it is not blank and the records are unchanged when it is blank |
| Csv.Step | src/App.jsx:21-46 | one pass of the loop consumes one or two characters |
| Csv.MakeRecord | src/App.jsx:55-57 | an object's keys are exactly the header names |
| Csv.ObjectsUnder | src/App.jsx:54-58 | one object per record: object k is record k keyed by the header |
| Csv.RecordsOf | src/App.jsx:51-58 | no records give no objects; otherwise object k is record k + 1 keyed by the trimmed header names |
| Csv.MakeRecordLastWins | src/App.jsx:56 | under each header name is the cell of the last column with that name, or "" past the end of a short record |
| Csv.LexKeepsNonBlank | src/App.jsx:20-47 | the loop only ever appends records, and only records with a cell that is not blank |
| Csv.RecordsNonBlank | src/App.jsx:42-50 | every record read, the header included, has a cell that is not blank |
| Csv.KeepNonBlank | src/App.jsx:42 | dropping blank records never adds records |
| Csv.LexEscaped | src/App.jsx:24-31 | inside quotes, doubled quotes read as one quote and the closing quote ends quoting |
| Csv.LexQuoted | src/App.jsx:24-32 | a quoted cell reads back as the cell |
| Csv.LexComma | src/App.jsx:33-37 | a comma outside quotes ends the cell |
| Csv.LexLineEnd | src/App.jsx:38-45 | `\n`, `\r\n` or `\r` outside quotes ends the record; a lone `\r` only when no `\n` follows |
| Csv.LexCells | src/App.jsx:20-47 | a written record reads back as its cells |
| Csv.LexLine | src/App.jsx:20-47 | a written record and its line end read back as the record, kept when not blank |
| Csv.LexEncoded | src/App.jsx:20-47 | a written table reads back as its non-blank records |
| Csv.RecordsOfEncode | src/App.jsx:14-50 | reading a table written with quoted cells and any accepted line end gives exactly its non-blank records, in order |
| Csv.BuildRecord | src/App.jsx:55-57 | the `forEach` loop builds the object `MakeRecord` specifies |
| Csv.ReadRecords | src/App.jsx:15-50 | the character loop and the end of the last record give the records `Records` specifies |
| Csv.ToObjects | src/App.jsx:51-58 | the `map` over the records after the header gives the objects `RecordsOf` specifies |
| Csv.ParseCsv | src/App.jsx:14-59 | `parseCSV` returns the objects of the records of the text |
| Color.DigitValue | src/App.jsx:100 | a hex digit's value is below 16 |
| Color.HexChar | src/App.jsx:104 | `toString(16)` writes a lower-case hex digit that reads back as its value |
| Color.RemoveFirstHash | src/App.jsx:98 | `replace("#", "")` removes at most one character |
| Color.FirstHash | src/App.jsx:98 | the index found is that of the first `#`, or the length when there is none |
| Color.RemoveUpTo | src/App.jsx:98 | everything before the first `#` and everything after it is kept; without a `#` the text is unchanged |
| Color.RemoveFirstHashRemovesFirst | src/App.jsx:98 | `replace("#", "")` removes exactly the first `#`, and changes nothing when there is none |
| Color.Expand | src/App.jsx:99 | a three-digit code becomes six digits, position i holding digit i / 2 of the short code; any other length is unchanged |
| Color.ToInt32 | src/App.jsx:101 | the operand of `>>` and `&` is a signed 32-bit value |
| Color.LowByte | src/App.jsx:101 | `& 255` yields a byte |
| Color.HexToRgb | src/App.jsx:97-102 | every channel of `hexToRgb` is a byte |
| Color.Digits | src/App.jsx:104 | a number is written with at least one digit |
| Color.DigitsValue | src/App.jsx:100-104 | the digits written for a number are hex digits that read back as the number |
| Color.PadTwo | src/App.jsx:104 | `padStart(2, "0")` gives at least two characters |
| Color.ChannelOfByte | src/App.jsx:104 | a byte is written as its high and low hex digit |
| Color.RgbToHexDigits | src/App.jsx:103-106 | `rgbToHex` of a byte colour is `#` and the six digits of the three channels |
| Color.RgbToHexShape | src/App.jsx:103-106 | `rgbToHex` of a byte colour is `#` and six lower-case hex digits |
| Color.ValueSix | src/App.jsx:100 | six hex digits read as three bytes, most significant first |
| Color.PairValue | src/App.jsx:100 | two hex digits spell a byte |
| Color.BytesOf | src/App.jsx:101 | the shifts and masks pick out the three bytes of a 24-bit number |
| Color.HexToRgbSix | src/App.jsx:97-102 | `#` and six hex digits read as the three bytes that the digit pairs spell |
| Color.HexToRgbOfRgbToHex | src/App.jsx:97-106 | reading what `rgbToHex` writes gives the colour back |
| Color.RgbToHexOfHexToRgb | src/App.jsx:97-106 | writing what `hexToRgb` reads from a six-digit code gives the code back, lower-cased |
| Color.RgbToHexOfPairs | src/App.jsx:103-106 | writing the three bytes that six digits spell gives the digits, lower-cased |
| Color.PairDigits | src/App.jsx:104 | the high and low digit of a byte that two digits spell are those digits, lower-cased |
| Color.LowerSix | src/App.jsx:104 | lower-casing six characters works character by character |
| Color.ShortForm | src/App.jsx:99 | `#xyz` reads as `#xxyyzz`: each channel is 17 times its digit |
| Color.ShiftIsDivision | src/App.jsx:101 | for every integer, `(x >> 16) & 255`, `(x >> 8) & 255` and `x & 255` are bytes 2, 1 and 0 of `x` |
| Color.ToInt32Wraps | src/App.jsx:101 | the 32-bit conversion differs from the value by a multiple of 2^32 |
| Color.ToInt32Small | src/App.jsx:101 | a value in the 32-bit range is unchanged by the conversion |
| IndexSchema.SplitOuterGroupLabel | phil48-wheel/src/utils/indexSchema.js:6-10 | one token per `/`-separated piece |
| IndexSchema.TokensOfLabel | phil48-wheel/src/utils/indexSchema.js:6-10 | a key is a token of a label exactly when some piece of the label normalises to it |
| IndexSchema.SplitOuterGroupLabelOfTwo | phil48-wheel/src/utils/indexSchema.js:6-10 | a label with one `/` gives its two normalised sides |
| IndexSchema.SplitOuterGroupLabelExample | phil48-wheel/src/utils/indexSchema.js:5 | `"Panicked / Flooded"` gives `["panicked", "flooded"]` |
| IndexSchema.TokensNormalized | phil48-wheel/src/utils/indexSchema.js:1-10 | every token is already normalised |
| IndexSchema.ExprPaths | phil48-wheel/src/utils/indexSchema.js:25-29 | one path per expression |
| IndexSchema.ExprPathsAt | phil48-wheel/src/utils/indexSchema.js:27 | the k-th path of a branch is the k-th expression under that core and branch |
| IndexSchema.BranchesPathsMembers | phil48-wheel/src/utils/indexSchema.js:23-29 | a core's list holds exactly the paths of its branches' expressions |
| IndexSchema.CoreEntries | phil48-wheel/src/utils/indexSchema.js:31 | one `set` call per core node |
| IndexSchema.CoreEntriesAt | phil48-wheel/src/utils/indexSchema.js:31 | the i-th `set` call stores the i-th core's list under its label |
| IndexSchema.ExpressionsByCoreKeys | phil48-wheel/src/utils/indexSchema.js:21-32 | the keys of `expressionsByCore` are exactly the core labels |
| IndexSchema.ExpressionsByCoreLastWins | phil48-wheel/src/utils/indexSchema.js:21-32 | a core label maps to the list of the last core node with that label |
| IndexSchema.MetaEntries | phil48-wheel/src/utils/indexSchema.js:28 | one `set` call per expression |
| IndexSchema.MetaEntriesAt | phil48-wheel/src/utils/indexSchema.js:28 | each path is stored under its normalised expression |
| IndexSchema.WithMetaSnoc | phil48-wheel/src/utils/indexSchema.js:28 | one more expression is one more `set` call |
| IndexSchema.WithMetaAppend | phil48-wheel/src/utils/indexSchema.js:21-30 | setting the paths of one list and then another is setting the paths of both lists together |
| IndexSchema.WithMetaIsFromEntries | phil48-wheel/src/utils/indexSchema.js:28 | `expressionMeta` is the map its `set` calls build |
| IndexSchema.ExpressionMetaValid | phil48-wheel/src/utils/indexSchema.js:19-28 | `expressionMeta` lists each key once, and exactly its keys |
| IndexSchema.ExpressionMetaKeys | phil48-wheel/src/utils/indexSchema.js:28 | the keys of `expressionMeta` are exactly the normalised expression labels |
| IndexSchema.ExpressionMetaLastWins | phil48-wheel/src/utils/indexSchema.js:28 | a normalised label maps to the last path, in traversal order, whose expression normalises to it |
| IndexSchema.GroupEntries | phil48-wheel/src/utils/indexSchema.js:39-41 | one `set` call per outer group |
| IndexSchema.GroupEntriesAt | phil48-wheel/src/utils/indexSchema.js:40 | the i-th `set` call stores the i-th group's steps under its label |
| IndexSchema.GuidanceEntries | phil48-wheel/src/utils/indexSchema.js:42 | one `set` call per next-steps core node |
| IndexSchema.GuidanceEntriesAt | phil48-wheel/src/utils/indexSchema.js:42 | the i-th `set` call stores the i-th core's outer map under its label |
| IndexSchema.OuterMapLastWins | phil48-wheel/src/utils/indexSchema.js:36-43 | within one core, a later outer group with the same label overwrites the steps |
| IndexSchema.OuterMapOrder | phil48-wheel/src/utils/indexSchema.js:38-41 | outer-group labels are listed in order of first appearance; an overwrite keeps the first position |
| IndexSchema.FirstLabel | phil48-wheel/src/utils/indexSchema.js:40 | the index found is the first group with the label, or the count when none has it |
| IndexSchema.FirstLabelIsFirstIndex | phil48-wheel/src/utils/indexSchema.js:40 | the first group with a label is the first `set` call for it |
| IndexSchema.StepsByCoreValid | phil48-wheel/src/utils/indexSchema.js:36-43 | every outer map lists each label once, and exactly its labels |
| IndexSchema.FirstMatch | phil48-wheel/src/utils/indexSchema.js:57-63 | the index found is at most the number of labels |
| IndexSchema.FirstMatchIsFirst | phil48-wheel/src/utils/indexSchema.js:57-63 | the label found has the expression key among its tokens, and no earlier label does |
| IndexSchema.StepEntries | phil48-wheel/src/utils/indexSchema.js:48-73 | no more `set` calls than keys walked |
| IndexSchema.StepEntriesMember | phil48-wheel/src/utils/indexSchema.js:48-73 | each `set` call is for a walked key of `expressionMeta`, with the entry that key earns |
| IndexSchema.StepEntriesComplete | phil48-wheel/src/utils/indexSchema.js:48-73 | each walked key that earns an entry gets that entry set |
| IndexSchema.StepEntriesDistinct | phil48-wheel/src/utils/indexSchema.js:48-73 | keys walked once each are set at most once each |
| IndexSchema.StepEntriesSnoc | phil48-wheel/src/utils/indexSchema.js:48-73 | one more walked key adds its entry exactly when it earns one |
| IndexSchema.StepsKeysAreMetaKeys | phil48-wheel/src/utils/indexSchema.js:48-68 | every key of `stepsByExpression` is a key of `expressionMeta` |
| IndexSchema.StepsByExpressionIsAssociate | phil48-wheel/src/utils/indexSchema.js:48-73 | a key has an entry exactly when it earns one, and the entry is the one it earns |
| IndexSchema.StepsByExpressionEntry | phil48-wheel/src/utils/indexSchema.js:48-73 | a key has an entry exactly when its core has an outer map and that map's first label with the key as a token exists and is not ""; the entry is the path with that label and its steps |
| IndexSchema.IndexesStepsKeys | phil48-wheel/src/utils/indexSchema.js:12-79 | `buildIndexes` gives steps only to expressions of the discernment wheel |
| IndexSchema.IndexesStepsEntry | phil48-wheel/src/utils/indexSchema.js:12-79 | for the result of `buildIndexes`: an expression has steps exactly when its core is in the next-steps wheel and the first label of that core with the expression as a token exists and is not ""; the entry is the meta path, that label and the steps stored under it |
| IndexSchema.MissingTrees | phil48-wheel/src/utils/indexSchema.js:13-14 | a missing next-steps wheel gives no steps; a missing discernment wheel gives two empty maps |
| IndexSchema.NoCoresNoEntries | phil48-wheel/src/utils/indexSchema.js:50-52 | with no outer maps, no expression gets an entry |
| IndexSchema.IndexBranch | phil48-wheel/src/utils/indexSchema.js:25-29 | the expression loop appends the branch's paths to the list and sets each path in `expressionMeta` |
| IndexSchema.BranchStep | phil48-wheel/src/utils/indexSchema.js:27-28 | one pass of the expression loop extends both the list and the meta map by one expression |
| IndexSchema.IndexCore | phil48-wheel/src/utils/indexSchema.js:22-30 | the branch loop builds the core's list and sets its paths in `expressionMeta` |
| IndexSchema.IndexDiscernment | phil48-wheel/src/utils/indexSchema.js:21-32 | the first loop builds the maps `ExpressionsByCore` and `ExpressionMeta` specify |
| IndexSchema.IndexOuterGroups | phil48-wheel/src/utils/indexSchema.js:38-41 | the outer-group loop builds the map `OuterMapOf` specifies |
| IndexSchema.IndexNextSteps | phil48-wheel/src/utils/indexSchema.js:36-43 | the second loop builds the map `StepsByCore` specifies |
| IndexSchema.FindMatchingGroup | phil48-wheel/src/utils/indexSchema.js:54-63 | the search with `break` finds the first label with the key as a token, or nothing |
| IndexSchema.FirstMatchIs | phil48-wheel/src/utils/indexSchema.js:57-63 | a label with the key among its tokens, with no earlier label having it, is the one found |
| IndexSchema.FirstMatchNone | phil48-wheel/src/utils/indexSchema.js:57-63 | with no label having the key as a token, nothing is found |
| IndexSchema.MatchExpression | phil48-wheel/src/utils/indexSchema.js:49-72 | one pass of the third loop gives the entry the key earns, or nothing when it hits one of the two `continue`s |
| IndexSchema.AssociateSteps | phil48-wheel/src/utils/indexSchema.js:46-73 | the third loop builds the map `StepsByExpression` specifies |
| IndexSchema.BuildIndexes | phil48-wheel/src/utils/indexSchema.js:12-79 | `buildIndexes` returns what `IndexesOf` specifies |

## Left out

- The coordinate lexicon of the grid apps is not modelled. Nor are `rgbToHsl`, `hslToRgb`, `shiftHue`, `mix`, `lighten`, `darken`, `polarToCartesian`, `donutSlicePath`, `midAngle` and `clamp` of `src/App.jsx` (lines 107-224): they compute in floating point, for colour blending and the wheel's geometry.
- `getTraitLabel` is left out: it reads a field of a step, and steps are opaque here (a type parameter passed through untouched).
- Rendering, gestures, random picks, the `fetch` of the schema and the CSV, and the build configuration are I/O or presentation, and are left out.
- Text: `trim` removes only ASCII white space, and `toLowerCase` maps only ASCII letters. Unicode white space and case mapping are not modelled.
- Color.HexToRgb: requires a code that is all hex digits after the `#` is removed and the code trimmed, with at most 13 digits. `parseInt`'s reading of a digit prefix of junk, and its loss of precision above 2^53, are not modelled.
- Color.RgbToHex: channels are integers. `Number(n)` of a non-integer or non-numeric channel is not modelled.
- Emotion, Subtype and "Christian Validation" cells that are missing are read as "", as the source's `normalizeKey` and `|| ""` do.
- Labels are always strings here; a missing (`undefined`) label is not modelled. In the source it stays distinct from "" in several places:
  - `findNextSteps` returns `groupLabel: group.label` (src/App.jsx:289), which would be `undefined`.
  - `c.label === coreLabel` (src/App.jsx:267) does not match `undefined` against "".
  - `buildIndexes` uses `coreNode.label`, `br.label` and `og.label` raw as map keys and path fields (phil48-wheel/src/utils/indexSchema.js:22, 27-28, 37, 40).
  - `String(label)` in `splitOuterGroupLabel` tokenises a missing label as "undefined".
- The optional fields of the schema (`branches`, `expressions`, `outer_emotions`, `match_words`, `steps`) and a missing tree are the empty list, as every reader in the source makes them. `findNextSteps` gives the same result for a missing tree and an empty one.
- Validation.SortByScore: `Array.prototype.sort` with the comparator `b.score - a.score` is modelled as a stable insertion sort. ECMAScript requires `sort` to be stable. Stability and the permutation property are proved, not the engine's algorithm.
- Csv: an object is a `map`. The key order of a JavaScript object, and the special handling of a `__proto__` key, are not modelled.
- IndexSchema: "the inputs are never modified" holds because the trees are values. The spread `...meta` is a copy of a value. No lemma states it separately.
- IndexSchema.StepsByExpressionEntry: requires the outer map of the expression's core to list exactly its labels. `IndexSchema.IndexesStepsEntry` proves this requirement for the maps `buildIndexes` builds.
- Where the specification and the code disagree, the model follows the code. `match_words` is normalised, not taken verbatim. A bonus in the validation score needs both strings non-empty. No tree or record is rejected as malformed: every operation accepts any input, except `Color.HexToRgb` as stated above.
