# Unity localization editor tools, modelled in Dafny

This project models the two editor tools of a Unity localization toolkit.

- **The all-in-one localization pipeline** (`LocalizationAllInOneTool`). It walks the
  scene's root objects and gives every legacy `Text` a `LocalizedLegacyText`
  component and every TextMeshPro text a `LocalizedTMPText` component. It cleans
  each element's text: markup tags are stripped, whitespace is trimmed, and
  digits-only text is skipped. It looks at the first key field that exists as a
  string property and writes a key there only if that field is empty; otherwise it
  leaves the component alone. A multi-word text gets the next value of a counter that
  starts at 1 on every run. Any other text gets a slug: separator runs become `_`,
  `_` is trimmed from both ends, and the result is upper-cased. It also collects
  `KEY = text` export lines, one per distinct cleaned text, and builds the export
  file: a prompt header and then the lines.
- **The key finder window** (`LocalizationKeyFinder`). A search lists the GameObject
  of every present component whose type name contains `Localized` and whose
  extracted key equals the search key. The key is taken from the first non-empty
  string field. If there is none, it comes from the first non-empty readable,
  non-indexer string property. Members that throw are skipped. The window shows
  each object's hierarchy path, root first and joined by `/`.

Modules:

- `Wrappers`: the `Option` type. It stands for a C# `null` or a value.
- `DotNetText`: the .NET string operations the tools rely on:
  - `char.IsWhiteSpace` with its exact character list, and `Trim` / `Trim(char)`;
  - ordinal `Contains`, `Split(char)` and `Join`;
  - `int.ToString()` for non-negative values.
- `KeyText`: the text cleaning of `ProcessText` and `GenerateKey`. The three regular
  expressions are written out as functions:
  - `<.*?>` is lazy, and its `.` does not match `\n`;
  - `\d` is pinned to ASCII digits;
  - `[^a-zA-Z0-9]+` matches a run of separators.
- `AllInOneTool`: the pipeline's state and operations.
  - The static counter, the seen set and the export list are fields of the class
    `Pipeline`. The seen set and the export list are locals of one run in the
    tool, so `RunAll` empties them when it starts.
  - A localization component is a class whose `serialized` map stands for its
    serialized properties.
  - `ProcessText`, `AddLocalizationIfMissing`, `RunAll` and `WriteExportFile` are
    methods proved against the specification functions `Decide`, `KeyFor`,
    `ExportLine` and `ExportContent`.
  - `Valid()` keeps the export invariant. Each export line is an `Entry` that
    parses back to its key and source, keys have no space, and sources are
    pairwise distinct and equal to the seen set.
- `KeyFinder`: reflection as sequences of abstract fields and properties, and the
  scene as a sequence of roots, each a sequence of optional `MonoBehaviour`s.
  - `SafeExtractKey`, `KeyFinderWindow.Search` and `GetFullPath` are loop methods.
  - They are proved equal to the specification functions `ExtractKey`,
    `SearchResults` and `FullPath`.
  - Lemmas characterise those functions completely.

Engine types are modelled per tool. `AllInOneTool.GameObject` records which text
components an object has and which localization components it carries.
`KeyFinder.GameObject` records its name and its ancestors' names, nearest parent
first.

Each key assignment does its bookkeeping (seen set and export list) before it writes
the key field. The two updates touch disjoint objects, so the final state is the one
the source produces.

## Model

| member | source | states |
|---|---|---|
| DotNetText.IsWhiteSpace | Localization/Editor/LocalizationAllInOneTool.cs:118 | `char.IsWhiteSpace`: the Unicode space separators, U+0009..U+000D, U+0085, and the line and paragraph separators. |
| DotNetText.IsNullOrWhiteSpace | Localization/Editor/LocalizationAllInOneTool.cs:115 | `string.IsNullOrWhiteSpace`: null, or every character is whitespace. |
| DotNetText.IsNullOrEmpty | Localization/Editor/LocalizationAllInOneTool.cs:132 | `string.IsNullOrEmpty`: null or `""`. |
| DotNetText.Trim | Localization/Editor/LocalizationAllInOneTool.cs:118 | `Trim()`: `TrimBy` with `char.IsWhiteSpace`. |
| DotNetText.TrimEmptyIffWhiteSpace | Localization/Editor/LocalizationAllInOneTool.cs:115-118 | Trimming leaves nothing exactly when the text is whitespace only, so the blank check at :115 is the same as an empty trim. |
| DotNetText.TrimIdempotent | Localization/Editor/LocalizationAllInOneTool.cs:118 | Trimming an already trimmed text changes nothing. |
| DotNetText.TrimBy | Localization/Editor/LocalizationAllInOneTool.cs:180 | The result is a contiguous slice of the input, and every character cut off before or after it satisfies the trimmed predicate. Neither end char of the result satisfies it. It is empty exactly when every char does. Input whose ends are already clean is returned unchanged. |
| DotNetText.LeadingCount | Localization/Editor/LocalizationAllInOneTool.cs:180 | Counts the leading characters `Trim` removes: all of them satisfy the predicate, and the next one, if any, does not. |
| DotNetText.TrailingCount | Localization/Editor/LocalizationAllInOneTool.cs:180 | Counts the trailing characters `Trim` removes: all of them satisfy the predicate, and the one before them, if any, does not. |
| DotNetText.TrimStartOfRun | Localization/Editor/LocalizationAllInOneTool.cs:179 | Trimming a leading run of matching characters, followed by a non-matching one or the end, leaves exactly the rest. |
| DotNetText.Contains | Localization/Editor/LocalizationKeyFinder.cs:88 | Ordinal substring test: true exactly when the needle occurs in the text at some index. |
| DotNetText.Split | Localization/Editor/LocalizationAllInOneTool.cs:137 | Always at least one piece, and no piece contains the separator. |
| DotNetText.SplitManyIffSeparator | Localization/Editor/LocalizationAllInOneTool.cs:137 | `Split(' ').Length > 1` holds exactly when the text contains a space. |
| DotNetText.JoinSplit | Localization/Editor/LocalizationKeyFinder.cs:144 | Joining the pieces of a split gives back the original text. |
| DotNetText.SplitJoin | Localization/Editor/LocalizationKeyFinder.cs:144 | Splitting a join gives back the pieces when no piece holds the separator. |
| DotNetText.NatToDecimal | Localization/Editor/LocalizationAllInOneTool.cs:139 | `int.ToString()` of a non-negative value: non-empty, ASCII digits only, and no leading zero except for 0 itself. |
| DotNetText.DecimalRoundTrip | Localization/Editor/LocalizationAllInOneTool.cs:139 | Reading the decimal numeral back gives the counter value. |
| DotNetText.NatToDecimalInjective | Localization/Editor/LocalizationAllInOneTool.cs:139-140 | Different counter values give different numeric keys. |
| KeyText.TagEnd | Localization/Editor/LocalizationAllInOneTool.cs:118 | Lazy `.*?>`: finds the first `>` with no `\n` before it. When it finds none, every later `>` has a `\n` on the way to it. |
| KeyText.StripTags | Localization/Editor/LocalizationAllInOneTool.cs:118 | `Regex.Replace(s, "<.*?>", "")` never lengthens the text. |
| KeyText.StripTagsNoAngle | Localization/Editor/LocalizationAllInOneTool.cs:118 | Text without `<` is left unchanged by tag stripping. |
| KeyText.CleanTextNoAngle | Localization/Editor/LocalizationAllInOneTool.cs:118 | Cleaning text without `<` only trims it. |
| KeyText.StripTagsFirstTag | Localization/Editor/LocalizationAllInOneTool.cs:118 | The first `<…>` span with no `\n` or `>` inside is removed, shortest match first, and stripping goes on after it. |
| KeyText.TagEndClosing | Localization/Editor/LocalizationAllInOneTool.cs:118 | For a tag without `\n` inside, the match ends at its first `>`. |
| KeyText.StripTagsNoAnglePrefix | Localization/Editor/LocalizationAllInOneTool.cs:118 | Text before the first `<` is kept as it is, and stripping goes on with the rest. |
| KeyText.StripTagsNoClose | Localization/Editor/LocalizationAllInOneTool.cs:118 | Text with no `>` has nothing to close a tag, so it is left unchanged, every `<` included (`"Score < 10"`). |
| KeyText.StripTagsKeepsMultiLineTag | Localization/Editor/LocalizationAllInOneTool.cs:118 | Anywhere in a text, after a prefix with no `<`: a `<…>` span with a newline and no other `<` or `>` inside is not a match. It is kept whole, and stripping goes on after it. |
| KeyText.CleanText | Localization/Editor/LocalizationAllInOneTool.cs:118 | Tags stripped, then `Trim()`: never longer than the source, and no whitespace at either end. |
| KeyText.IsAllDigits | Localization/Editor/LocalizationAllInOneTool.cs:121 | `^\d+$` with `\d` as ASCII: non-empty and digits only. |
| KeyText.IsMultiWord | Localization/Editor/LocalizationAllInOneTool.cs:137 | `source.Split(' ').Length > 1`. |
| KeyText.MultiWordIffSpace | Localization/Editor/LocalizationAllInOneTool.cs:137 | The multi-word test holds exactly when the cleaned text contains a space. |
| KeyText.CollapseSeparators | Localization/Editor/LocalizationAllInOneTool.cs:179 | The output holds only ASCII letters, digits and `_`, with no `__`. It is empty exactly for empty input. It starts with `_` exactly when the input starts with a separator. |
| KeyText.UpperAscii | Localization/Editor/LocalizationAllInOneTool.cs:181 | Keeps the length. No `a-z` is left. Each lower-case letter becomes its upper-case letter, 32 code points lower, and every other character is kept. |
| KeyText.UpperAsciiIdempotent | Localization/Editor/LocalizationAllInOneTool.cs:181 | Upper-casing twice is the same as once. |
| KeyText.GenerateKey | Localization/Editor/LocalizationAllInOneTool.cs:177-182 | Every key holds only `A-Z`, `0-9` and `_`, never starts or ends with `_`, and never contains `__`. |
| KeyText.GenerateKeyFixesKeys | Localization/Editor/LocalizationAllInOneTool.cs:177-182 | A string already of key shape is its own key. |
| KeyText.GenerateKeyIdempotent | Localization/Editor/LocalizationAllInOneTool.cs:179-181 | `GenerateKey(GenerateKey(s)) == GenerateKey(s)`. |
| KeyText.GenerateKeyHasNoSpace | Localization/Editor/LocalizationAllInOneTool.cs:177-182 | Generated keys never contain a space. |
| KeyText.GenerateKeyOfSeparators | Localization/Editor/LocalizationAllInOneTool.cs:179-180 | Text made only of separators gets the empty key. |
| KeyText.CollapseWord | Localization/Editor/LocalizationAllInOneTool.cs:179 | A run of ASCII letters and digits passes through the replacement unchanged. |
| KeyText.CollapseRun | Localization/Editor/LocalizationAllInOneTool.cs:179 | A whole run of separators, followed by a letter, a digit or the end, becomes exactly one `_`. |
| KeyText.CollapseTwoWords | Localization/Editor/LocalizationAllInOneTool.cs:179 | Two words around any separator run collapse to the words around one `_`. |
| KeyText.GenerateKeyOfCollapsed | Localization/Editor/LocalizationAllInOneTool.cs:180-181 | When the replaced text has no `_` at either end, the key is that text upper-cased. |
| KeyText.GenerateKeyOfTwoWords | Localization/Editor/LocalizationAllInOneTool.cs:177-182 | Two letter/digit words joined by any separator run give `UPPER(a) + "_" + UPPER(b)`. |
| KeyText.UpperAsciiAppend | Localization/Editor/LocalizationAllInOneTool.cs:181 | Upper-casing distributes over concatenation. |
| KeyText.EmptyKeyForPunctuation | Localization/Editor/LocalizationAllInOneTool.cs:177-182 | `"!!!"` gets the empty key. |
| KeyText.EmptyKeyForMarkup | Localization/Editor/LocalizationAllInOneTool.cs:118-122 | `"<b></b>"` cleans to the empty string. That is not digits-only, so it goes on to be keyed, and its key is empty. |
| AllInOneTool.IsStringField | Localization/Editor/LocalizationAllInOneTool.cs:128-129 | `FindProperty(name)` is non-null and of type String. |
| AllInOneTool.FirstStringField | Localization/Editor/LocalizationAllInOneTool.cs:126-130 | Returns the first of the candidate names that is a string property. Every name before it is missing or not a string. `None` means no candidate is a string property. |
| AllInOneTool.FirstStringFieldAfterWrite | Localization/Editor/LocalizationAllInOneTool.cs:126-147 | Writing a string to a string property does not change which candidate field is chosen. |
| AllInOneTool.Decide | Localization/Editor/LocalizationAllInOneTool.cs:115-133 | An assignment happens only when all of these hold: the source is present and not blank; the cleaned text is not digits-only; the first string candidate exists and is empty. |
| AllInOneTool.DecideAssigns | Localization/Editor/LocalizationAllInOneTool.cs:126-134 | Conversely, under those conditions the decision is to assign that field with the cleaned text. |
| AllInOneTool.FreshLegacyTextIsKeyed | Localization/Editor/LocalizationAllInOneTool.cs:115-133 | On a fresh LocalizedLegacyText (its only field, `localizationKey`, empty), any text that is not blank and does not clean to digits only is assigned to `localizationKey` with its cleaned text. |
| AllInOneTool.KeyFor | Localization/Editor/LocalizationAllInOneTool.cs:137-145 | With a space, the key is the counter's decimal form. Without one, it is `GenerateKey` of the cleaned text and has key shape. A key never contains a space. |
| AllInOneTool.KeysOfRepeatedText | Localization/Editor/LocalizationAllInOneTool.cs:137-145 | A multi-word text gets a different key at every counter value. A single-word text always gets the same key. |
| AllInOneTool.ReprocessAfterAssign | Localization/Editor/LocalizationAllInOneTool.cs:132-147 | Processing a component again after its key was written skips it, unless the key was empty. An empty key leaves the component open to the same assignment again. |
| AllInOneTool.ExportLine | Localization/Editor/LocalizationAllInOneTool.cs:152 | The export line `"{key} = {source}"`; `ExportLineRoundTrip` reads it back. |
| AllInOneTool.ExportContent | Localization/Editor/LocalizationAllInOneTool.cs:165-169 | The StringBuilder's text: the header and `NL`, then every export line and `NL`, in order (see the lemmas below). |
| AllInOneTool.ExportLineRoundTrip | Localization/Editor/LocalizationAllInOneTool.cs:152 | A `"{key} = {source}"` line parses back to its key and source when the key has no space. |
| AllInOneTool.EntriesTextSnoc | Localization/Editor/LocalizationAllInOneTool.cs:168-169 | One more line appends that line and a newline. |
| AllInOneTool.ExportContentIsHeaderThenEntries | Localization/Editor/LocalizationAllInOneTool.cs:165-169 | For any header, the export text is `header + NL`, then each line followed by `NL`, in list order. |
| AllInOneTool.ExportContentSplitsIntoLines | Localization/Editor/LocalizationAllInOneTool.cs:165-169 | With `NL = "\n"` and lines free of `\n`, splitting the export text at `\n` gives the header's lines, then each export line, then a final empty piece. This holds for any header. |
| AllInOneTool.ExportContentEndsWithNewline | Localization/Editor/LocalizationAllInOneTool.cs:165-169 | The export text always ends with a newline. |
| AllInOneTool.MissingComponents | Localization/Editor/LocalizationAllInOneTool.cs:98-111 | At most two components are added. None is added exactly when the object has Text ⇒ LocalizedLegacyText and TMP ⇒ LocalizedTMPText. |
| AllInOneTool.AddLocalizationIfMissing | Localization/Editor/LocalizationAllInOneTool.cs:98-111 | Afterwards, Text implies LocalizedLegacyText and TMP implies LocalizedTMPText. Existing components are kept, and added ones are fresh with their type's default fields. The count grows by the number added, and a second call adds nothing. |
| AllInOneTool.ExportInvariantSee | Localization/Editor/LocalizationAllInOneTool.cs:151-152 | Seeing a text keeps the export invariant. An export line is added exactly when the text is new. |
| AllInOneTool.WellKeyedFacts | Localization/Editor/LocalizationAllInOneTool.cs:151-152 | Every export line is its entry's `key = source`, keys have no space, and no two entries share a source. |
| AllInOneTool.WellKeyedSourcesCount | Localization/Editor/LocalizationAllInOneTool.cs:151-152 | There are exactly as many entries as distinct exported sources. |
| AllInOneTool.LacksStep | Localization/Editor/LocalizationAllInOneTool.cs:98-111 | When one GameObject becomes complete and no other changes its components, the number of missing components among the objects drops by exactly what that GameObject lacked. |
| AllInOneTool.Pipeline.constructor | Localization/Editor/LocalizationAllInOneTool.cs:51 | The static counter starts at 0, with nothing seen or exported, and the invariant holds. |
| AllInOneTool.Pipeline.ExportLinesHaveDistinctSources | Localization/Editor/LocalizationAllInOneTool.cs:151-152 | Every export line parses back to its entry's key and source, no two lines carry the same source, and there are as many lines as seen texts. |
| AllInOneTool.Pipeline.ProcessText | Localization/Editor/LocalizationAllInOneTool.cs:113-158 | Returns 0 and changes nothing (counter, seen set, export list, fields) when any of these holds: the component is null, the source is blank, the cleaned text is digits-only, no candidate string field exists, or it is non-empty. Otherwise (full statement below the table) it returns 1 and writes `KeyFor` into the first string field. |
| AllInOneTool.Pipeline.AssignKey | Localization/Editor/LocalizationAllInOneTool.cs:135-154 | Writes `KeyFor(cleaned, counter)` to the field, advances the counter exactly for text with a space, adds the text to `seen`, and appends its export line exactly when it is new. |
| AllInOneTool.Pipeline.NextKey | Localization/Editor/LocalizationAllInOneTool.cs:137-145 | The key is `KeyFor(cleaned, counter)`, and the counter grows by 1 exactly when the text contains a space. |
| AllInOneTool.Pipeline.Record | Localization/Editor/LocalizationAllInOneTool.cs:151-152 | `seen.Add(source)`, with an `export.Add` of `"{key} = {source}"` exactly when the add succeeded. The invariant is kept. |
| AllInOneTool.Pipeline.RunAll | Localization/Editor/LocalizationAllInOneTool.cs:56-94 | `added` is exactly the number of components missing in the scene before the run: Text objects without LocalizedLegacyText plus TMP objects without LocalizedTMPText. Afterwards every object of the scene is complete: it has a LocalizedLegacyText if it has a Text, and a LocalizedTMPText if it has a TextMeshPro text. Existing components are kept, and every other one is new. The counter ends between 1 and 1 + keys assigned. Exported ≤ keys assigned ≤ elements, and the export invariant holds. The content is `ExportContent(PromptHeader, exportLines, NL)`. |
| AllInOneTool.Pipeline.ProcessRoots | Localization/Editor/LocalizationAllInOneTool.cs:69-84 | The outer `foreach` over the roots, from a reset pipeline. `added` plus the components still missing among the objects equals the number missing at the start. Every element's object ends up complete, and components are kept or new. The counter is between 1 and 1 + keys assigned, and exported ≤ keys assigned ≤ elements. |
| AllInOneTool.Pipeline.ProcessRoot | Localization/Editor/LocalizationAllInOneTool.cs:71-83 | One root's Text elements, then its TMP elements. Every component added is one that was missing: `added` grows by exactly as much as the missing count shrinks. All of the root's element objects end up complete, complete objects stay complete, components are kept or new, and at most one key is assigned per element. |
| AllInOneTool.Pipeline.ProcessElements | Localization/Editor/LocalizationAllInOneTool.cs:72-83 | One inner `foreach`, Text or TMP. `added` grows by exactly as much as the missing count among the objects shrinks. Every element's object ends up complete, components are kept or new, and keys assigned grow by at most the number of elements. |
| AllInOneTool.Pipeline.ProcessElement | Localization/Editor/LocalizationAllInOneTool.cs:74-75 | `added` grows by exactly the components the element's object lacked, and the missing count among the objects drops by as much. The object becomes complete, and no other object changes. The component of the element's kind then holds what `Decide` says: on `Skip`, 0 and nothing changes. On `Assign`, 1, with the field set to `KeyFor(cleaned, counter)`, and the counter, seen set and export list updated as in `ProcessText`. A fresh component starts from its type's default fields. |
| AllInOneTool.LocalizedComponent.SetString | Localization/Editor/LocalizationAllInOneTool.cs:147-148 | `prop.stringValue = key` updates exactly that serialized property. |
| AllInOneTool.WriteExportFile | Localization/Editor/LocalizationAllInOneTool.cs:165-169 | The StringBuilder ends up holding `ExportContent(PromptHeader, lines, NL)`. |
| KeyFinder.IsLocalizationComponent | Localization/Editor/LocalizationKeyFinder.cs:85-89 | True exactly when `"Localized"` occurs in the type name (ordinal, case-sensitive). |
| KeyFinder.LocalizedTypesAreInspected | Localization/Editor/LocalizationKeyFinder.cs:85-89 | Every type whose name starts with `Localized` is inspected. |
| KeyFinder.ShortTypeNamesAreSkipped | Localization/Editor/LocalizationKeyFinder.cs:85-89 | A type name shorter than `"Localized"` is never inspected. |
| KeyFinder.FirstSome | Localization/Editor/LocalizationKeyFinder.cs:96-111 | `None` exactly when every member yields nothing. Otherwise the result is one of the members' values. |
| KeyFinder.FirstSomeIsFirst | Localization/Editor/LocalizationKeyFinder.cs:96-111 | A present value with only absent ones before it is the one chosen. |
| KeyFinder.FieldKey | Localization/Editor/LocalizationKeyFinder.cs:98-105 | A field gives a key when it is a string field, reading it does not throw, and its value is neither null nor empty. |
| KeyFinder.PropertyKey | Localization/Editor/LocalizationKeyFinder.cs:116-126 | A property gives a key when it is a readable string property, not an indexer, reading it does not throw, and its value is neither null nor empty. |
| KeyFinder.ExtractKey | Localization/Editor/LocalizationKeyFinder.cs:91-134 | A found key is never empty. The result is null exactly when no field and no property yields a key. |
| KeyFinder.FieldKeyWins | Localization/Editor/LocalizationKeyFinder.cs:96-111 | The first field yielding a non-empty string decides, whatever the properties hold. |
| KeyFinder.PropertyKeyFallback | Localization/Editor/LocalizationKeyFinder.cs:113-132 | With no field key, the first readable, non-indexer string property yielding a non-empty string decides. |
| KeyFinder.SafeExtractKey | Localization/Editor/LocalizationKeyFinder.cs:91-135 | The loops with early returns compute exactly `ExtractKey`. They skip non-string fields, null or empty values, members that throw, unreadable properties and indexers. |
| KeyFinder.Matches | Localization/Editor/LocalizationKeyFinder.cs:69-80 | A component is present, a localization component, and extracts exactly the search key. |
| KeyFinder.Matching | Localization/Editor/LocalizationKeyFinder.cs:67-80 | The GameObject of each matching component of a root, one entry per component, in order. |
| KeyFinder.SceneMatching | Localization/Editor/LocalizationKeyFinder.cs:65-80 | The matches of every root, root after root. |
| KeyFinder.MatchingAppend | Localization/Editor/LocalizationKeyFinder.cs:67-81 | Results are produced component by component in traversal order: the matches of a concatenation are the concatenated matches. |
| KeyFinder.MatchingMembership | Localization/Editor/LocalizationKeyFinder.cs:67-81 | A GameObject is among a root's results exactly when some matching component lives on it. |
| KeyFinder.MatchingCount | Localization/Editor/LocalizationKeyFinder.cs:67-81 | There is one result per matching component: the list is exactly as long as the number of matching positions. |
| KeyFinder.MatchingMultiplicity | Localization/Editor/LocalizationKeyFinder.cs:67-81 | Results are not de-duplicated: a GameObject appears once for each matching component that lives on it. |
| KeyFinder.SceneMatchingSound | Localization/Editor/LocalizationKeyFinder.cs:65-82 | Every result comes from a matching component of some root. |
| KeyFinder.SceneMatchingComplete | Localization/Editor/LocalizationKeyFinder.cs:65-82 | The GameObject of every matching component is in the results. |
| KeyFinder.SearchResults | Localization/Editor/LocalizationKeyFinder.cs:56-83 | Nothing for a blank key, otherwise every root's matches, root after root (characterised by the lemmas beside it). |
| KeyFinder.SearchResultsMembership | Localization/Editor/LocalizationKeyFinder.cs:56-83 | A GameObject is in the results exactly when both hold: the key is not blank, and some present component on it has "Localized" in its type name and extracts exactly that key. |
| KeyFinder.NoStringValueNeverMatches | Localization/Editor/LocalizationKeyFinder.cs:76-77 | A component with no non-empty usable string member never matches any key. |
| KeyFinder.EmptyKeyFindsNothing | Localization/Editor/LocalizationKeyFinder.cs:60-61 | Searching for `""` finds nothing. |
| KeyFinder.KeyFinderWindow.constructor | Localization/Editor/LocalizationKeyFinder.cs:9-11 | The window starts with an empty key and no results. |
| KeyFinder.KeyFinderWindow.Search | Localization/Editor/LocalizationKeyFinder.cs:56-83 | The results are cleared, then become exactly `SearchResults(searchKey, scene)`, and are empty for a blank key. |
| KeyFinder.Reversed | Localization/Editor/LocalizationKeyFinder.cs:142-145 | The parent walk visits the ancestors nearest first, so the path lists them in reverse. |
| KeyFinder.FullPath | Localization/Editor/LocalizationKeyFinder.cs:137-149 | The ancestors' names from the root down, then the object's own name, joined by `/` (characterised by the lemmas beside it). |
| KeyFinder.GetFullPath | Localization/Editor/LocalizationKeyFinder.cs:137-149 | The while loop builds exactly the ancestors' names, root first, then the object's name, joined by `/`. |
| KeyFinder.RootPathIsName | Localization/Editor/LocalizationKeyFinder.cs:139-148 | A parentless object's path is its name. |
| KeyFinder.JoinEndsWithLast | Localization/Editor/LocalizationKeyFinder.cs:144 | A `/`-join ends with its last piece. |
| KeyFinder.PathEndsWithName | Localization/Editor/LocalizationKeyFinder.cs:137-149 | The path always ends with the object's own name. |
| KeyFinder.PathSplitsIntoNames | Localization/Editor/LocalizationKeyFinder.cs:137-149 | When no name contains `/`, splitting the path at `/` gives the names from the root down. |

The constants `AllInOneTool.PossibleKeyFieldNames` (Localization/Editor/LocalizationAllInOneTool.cs:13-20) and `AllInOneTool.PromptHeader` (Localization/Editor/LocalizationAllInOneTool.cs:25-49) hold the candidate key field names, in order, and the export prompt's text.

`AllInOneTool.Pipeline.ProcessText` in full. Let `d = Decide(source, fields)`.

- On `Skip`, nothing changes and the result is 0.
- On `Assign(field, cleaned)`, the result is 1 and:
  - the field becomes `KeyFor(cleaned, counter)`;
  - the counter grows by 1 exactly when `cleaned` contains a space;
  - `seen` gains `cleaned`;
  - the export list gains `KEY = cleaned` exactly when `cleaned` was not already seen;
  - `Valid()` is kept.

## Left out

- Unity engine and editor calls are not modelled:
  - `GetActiveScene`, `GetRootGameObjects` and `GetComponentsInChildren` are replaced by the given sequences of roots and elements, in traversal order.
  - `Undo.AddComponent`, `SerializedObject`/`FindProperty`/`ApplyModifiedProperties`, `EditorUtility.SetDirty`, `AssetDatabase.Refresh`, `Selection` and `PingObject` are host calls that cannot be seen here. A property write is a map update.
- The fields of a freshly added `LocalizedLegacyText` / `LocalizedTMPText` are parameters of `AddLocalizationIfMissing`. `LocalizedLegacyText` serializes a single string field, `localizationKey` (Localization - NEW/Scripts/LocalizedLegacyText.cs:7), and `FreshLegacyTextIsKeyed` gives the decision for that layout. `LocalizedTMPText` is not part of this model, so its layout stays a parameter.
- The editor GUI is not modelled: `OnGUI`, `Open`/`GetWindow`, the scroll view, the result buttons.
- Logging is not modelled: the `Debug.Log` summary in `RunAll`. Of the counts it prints, `added` is `RunAll`'s output and is given exactly. The exported count is `|exportLines|`. `keyed` is only bounded (see below).
- The file system is not modelled: `Directory.Exists`/`CreateDirectory` and `File.WriteAllText`. Only the file's content is built.
- `Environment.NewLine` is a parameter `nl`.
- The prompt header's own line breaks are taken as `"\n"`. A verbatim literal takes them from the source file's line endings.
- Reflection order is not modelled. `GetFields`/`GetProperties` order is the order of the given sequences, and a member that throws is one whose read yields `Throws`.
- `AllInOneTool.Decide`: `\d` is pinned to ASCII `0-9`. .NET `\d` also matches other Unicode decimal digits, so text made only of such digits is keyed here but skipped by the tool.
- `AllInOneTool.Pipeline.NextKey`: the counter is an unbounded natural number. The C# `int` would overflow after 2^31 − 1 increments, which no scene reaches.
- `KeyText.UpperAscii`: only ASCII letters are upper-cased. This is exact for `GenerateKey`, whose input at that point holds only ASCII letters, digits and `_`.
- Strings are sequences of Unicode scalar values, not UTF-16 code units. No rule used here (whitespace, ASCII classes, `<`, `>`, `\n`, `_`, `/`, space) can tell the two apart.
- `AllInOneTool.Pipeline.RunAll`: `keyed`, the counter and the export list are bounded, not given as a function of the whole scene. `ProcessElement` ties each element's outcome to `Decide`, but no scene-level function folds those outcomes together.
- `AllInOneTool.Pipeline.ProcessRoots`, `AllInOneTool.Pipeline.ProcessRoot`, `AllInOneTool.Pipeline.ProcessElements`: as in `RunAll`, keys assigned, the counter and the export list are only bounded. The key written to each element's component is stated only by `ProcessElement`, per element; these loops do not fold those outcomes together.
- `AllInOneTool.Pipeline.RunAll`: the static counter's value before a run is arbitrary. The constructor's 0 is the C# default, and every run starts from 1.
- The runtime translation store, the language notifier, `LocalizedLegacyText`'s runtime behaviour and the `RemoveLocalization` tool (`Localization - NEW/`) are not part of this model.
