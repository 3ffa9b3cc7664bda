# HueShift colour engine, modelled in Dafny

HueShift finds colour literals in arbitrary text, such as CSS or code. It lets the user replace all of
them or a chosen subset, measures WCAG contrast, suggests accessible
alternatives and generates Tailwind-style shade palettes. This project models
the engine behind those features and proves properties of it:

- **Scanner**: the four literal patterns (`#hex`, `rgb()/rgba()`, `hsl()/hsla()`,
  CSS named colours) and the rule-block pattern, written as scanners. They
  resolve the regular expressions' backtracking by hand. The global `exec` loop
  is modelled as `Scan`/`ScanAll`.
- **Parser**: `parseColors`. Three structured passes, then the named-colour
  pass with its overlap rule, then sorting by position and stamping each
  instance with the number of instances sharing its normalized value.
- **Overlap**: why no two instances `parseColors` returns overlap, and
  what that gives the highlighter and the replacement when they are handed
  the parse of their own text. The argument rests on the shape of the
  named-colour table (`NamedColors`).
- **Unique**: `getUniqueColors`, the first instance of each normalized
  value, in first-seen order.
- **Replace**: `replaceColor`. The filter (all or selective), the
  right-to-left splicing and the notation each replaced instance is written in.
- **Contrast**: `getContrastRatio`, `getWCAGCompliance` and
  `suggestAccessibleAlternative`, the 101-step lightness sweep.
- **Palette / PaletteExport / ContrastPairs**: the three lightness curves,
  `calculateLightnessScale`, `generateTailwindPalette`, the Tailwind-config and
  CSS exports, and `getContrastPairs`.
- **Highlight**: `escapeHtml` and `generateHighlightedMarkup` of the
  highlighting editor.
- **History**: the editor's bounded undo/redo history, reset, and toggling of
  instances for a selective replacement.
- **PairDetection**: `detectedColorPairs`, the foreground/background pairs
  read out of CSS rule blocks.

The colour library (tinycolor2) is not modelled. It is a record of functions,
`ColorLib.Lib`, passed to every operation that uses it. `ColorLib.Sound` states
the little the engine relies on:

- HSL saturation and lightness are fractions;
- every valid colour normalises to `#rrggbb`;
- luminance is a fraction, by the type of the `luminance` field.

JavaScript numbers are modelled as `real`. Integers appear where the source
works with indices and counts. `Math.round` is modelled exactly, as `Replace.Round`.
Text is a `seq<char>`. JavaScript's `substring`, `trim` and `split` are written out in
the `Text` module with their clamping behaviour.

## Model

| member | source | states |
|---|---|---|
| Scanner.HexAt | lib/color-parser.ts:50 | A hex match is `#` followed by 3, 6 or 8 hex digits that end at a word boundary; a longer alternative is taken only when the 3-digit one fails; no match when none of the three fits |
| Scanner.Digits | lib/color-parser.ts:55 | What `\d{1,3}` takes is one to three digits followed by a non-digit or the end of the text |
| Scanner.DigitsTakesRun | lib/color-parser.ts:55 | Conversely, a run of one to three digits ending at a non-digit or the end of the text is always taken whole |
| Scanner.FirstName | lib/color-parser.ts:90-94 | A named-colour match ends exactly one table name after its start, and the text there spells that name ignoring ASCII case |
| Scanner.RuleAt | components/color-parser.tsx:110 | A rule block opens with `{`, holds at least one character, and closes at the first `}` |
| Scanner.Scan | lib/color-parser.ts:68-87 | The `exec` loop from a position reports ranges at or after it, each a match of the pattern at its start, following one another without overlapping |
| Scanner.ScanAll | lib/color-parser.ts:66-88 | The `exec` loop reports non-empty ranges of the text that follow one another without overlapping |
| Scanner.ScanAllMember | lib/color-parser.ts:68 | Every reported range is a match of the pattern starting at its start |
| Scanner.ScanAllCovers | lib/color-parser.ts:68 | Every position where the pattern matches lies inside some reported range, so no match is skipped unless an earlier match covers it |
| Parser.AcceptValid | lib/color-parser.ts:68-87 | A structured loop records only matches the library accepts, each with its text, normalized value, `${normalized}-${index}` id and the loop's format, and each one of the scanned ranges |
| Parser.AcceptValidHas | lib/color-parser.ts:72-86 | Every scanned match the library accepts is recorded |
| Parser.AcceptNamedKeeps | lib/color-parser.ts:106-119 | Testing a named match for overlap against everything pushed so far gives the same result as testing it against the structured instances alone, because earlier named instances end before later matches start |
| Parser.KeptNamedHas | lib/color-parser.ts:97-124 | Every named match that is valid and starts outside all structured instances is recorded |
| Parser.CollectedSplits | lib/color-parser.ts:65-124 | The collected instances are the structured ones followed by the named matches kept by the overlap rule |
| Parser.FinishSound | lib/color-parser.ts:126-132 | Sorting and stamping keeps exactly the collected instances, orders them by start, and sets each count to the number of instances with that normalized value |
| Parser.TallyCounts | lib/color-parser.ts:85 | The `seenColors` map holds a value exactly when some instance has it, mapped to the number of such instances |
| Parser.CountPermutation | lib/color-parser.ts:127-132 | Counting instances by value does not depend on their order, so counting after sorting agrees with the tally taken before |
| Parser.ParseColors | lib/color-parser.ts:42-135 | Every returned instance is a valid literal at its recorded range, named `${normalized}-${index}`; the list is sorted by start; each count is the number of returned instances sharing the normalized value |
| Parser.ParseColorsScanned | lib/color-parser.ts:66-97 | Every returned instance is one of the ranges its format's pattern reports |
| Parser.ParseColorsStructured | lib/color-parser.ts:66-88 | A hex, rgb or hsl match appears in the result exactly when the library accepts its text |
| Parser.ParseColorsNamed | lib/color-parser.ts:97-124 | A named-colour match appears in the result exactly when the library accepts it and its start lies outside every structured instance |
| NamedColors.TablePlain | lib/color-parser.ts:14-37 | Every name of the table is lower-case letters only, and none ends in `rgb`, `rgba`, `hsl` or `hsla` |
| Overlap.StructuredStartsApart | lib/color-parser.ts:50-62 | A hex, rgb or hsl match never starts inside a match of another of these patterns, because each opens with a character the others cannot hold |
| Overlap.NoneStartInsideNamed | lib/color-parser.ts:50-62 | No hex, rgb or hsl match starts inside a named-colour match: names are letters only, end at a word boundary, and none ends like a function name |
| Overlap.AcceptValidApart | lib/color-parser.ts:66-88 | The instances one structured loop records do not overlap each other |
| Overlap.KeptNamedApart | lib/color-parser.ts:97-124 | The named instances the parser keeps do not overlap each other |
| Overlap.LoopsApart | lib/color-parser.ts:66-88 | The hex, rgb and hsl loops together record instances that do not overlap |
| Overlap.StructuredApartFromNamed | lib/color-parser.ts:106-119 | A kept named instance overlaps no hex, rgb or hsl instance: the overlap check rules out one direction, the patterns the other |
| Overlap.CollectedApart | lib/color-parser.ts:65-124 | Everything the parser records is pairwise non-overlapping |
| Overlap.FinishApart | lib/color-parser.ts:126-132 | Sorting by start and stamping counts keep instances non-overlapping |
| Overlap.ParseColorsApart | lib/color-parser.ts:42-135 | No two instances `parseColors` returns overlap |
| Overlap.ParsedInText | lib/color-parser.ts:42-135 | Every returned instance is a non-empty range inside the text |
| Overlap.ParsedMarkupWeaves | components/highlighted-text-editor.tsx:33-68 | Highlighting a non-empty text with its own parse gives the text with each gap escaped and each instance wrapped in its mark, in text order |
| Overlap.ParsedReplaceWeaves | lib/color-parser.ts:155-211 | Replacing in a text with its own parse rewrites exactly the chosen instances, in their own notation, and keeps every gap |
| Unique.UniqueColors | lib/color-parser.ts:140-150 | The unique list holds no two instances with the same value and only instances of the input |
| Unique.UniqueValues | lib/color-parser.ts:140-150 | A value appears in the unique list exactly when it appears in the input |
| Unique.UniqueEntryFirst | lib/color-parser.ts:143-147 | Each entry is the first instance of its value in the input |
| Unique.UniqueInOrder | lib/color-parser.ts:149 | Entries come in the order their values are first seen |
| Replace.Filter | lib/color-parser.ts:169-176 | An instance is selected exactly when it has the target value and, in selective mode with ids given, its id is among them |
| Replace.Round | lib/color-parser.ts:196-197 | `Math.round` gives the integer within one half of its argument, halves rounding up |
| Replace.ReplaceColor | lib/color-parser.ts:163-166 | An invalid replacement leaves the text unchanged |
| Replace.ReplaceColorWeaves | lib/color-parser.ts:155-211 | For non-overlapping instances inside the text, the result is the text with exactly the selected instances, in order, replaced by the replacement in their own notation, and every gap between them unchanged |
| Replace.SpliceAllWeaves | lib/color-parser.ts:179-208 | Splicing instances from last to first equals rewriting the text front to back |
| Replace.SpliceAllPrefix | lib/color-parser.ts:179-208 | Splices that lie in a prefix leave the suffix untouched, which is why working right to left keeps the earlier indices valid |
| Replace.ReversedOrdered | lib/color-parser.ts:177 | Non-overlapping instances sorted by descending start, read backwards, are in text order |
| Replace.FilterApart | lib/color-parser.ts:169-176 | Filtering keeps instances non-overlapping |
| Replace.ReplacementText | lib/color-parser.ts:186-205 | An 8-digit hex instance gets the `#rrggbbaa` form and any other hex instance gets `#rrggbb`; rgb and hsl instances keep their alpha variant exactly when the original names it; a named instance gets the replacement verbatim |
| Replace.RgbNotation | lib/color-parser.ts:189-192 | The rgb text opens with `rgba(` exactly when alpha is asked for, and otherwise with `rgb(` |
| Replace.HslNotation | lib/color-parser.ts:194-197 | The hsl text opens with `hsla(` exactly when alpha is asked for, and otherwise with `hsl(` |
| Sorting.SortBy | lib/color-parser.ts:127 | Sorting by a key gives a sorted permutation of the input |
| Sorting.SortBySorted | components/highlighted-text-editor.tsx:38 | Sorting an already sorted list by start changes nothing |
| Sorting.SortByReversed | lib/color-parser.ts:177 | Sorting by descending start a list with strictly increasing starts reverses it |
| Sorting.SortByPairwise | components/highlighted-text-editor.tsx:38 | Sorting keeps any symmetric relation that holds between all pairs, such as non-overlap |
| Layout.WeaveIdentity | components/highlighted-text-editor.tsx:40-65 | Writing every gap and every instance as itself reproduces the text, so the front-to-back rewrite misses nothing and repeats nothing |
| Contrast.ContrastRatio | lib/color-parser.ts:216-229 | The ratio is 0 when either colour is invalid and lies between 1 and 21 otherwise |
| Contrast.ContrastSymmetric | lib/color-parser.ts:222-228 | The ratio does not depend on the order of the two colours |
| Contrast.ContrastSelf | lib/color-parser.ts:222-228 | A valid colour has ratio 1 against itself |
| Contrast.ContrastMonotone | lib/color-parser.ts:222-228 | Moving a colour's luminance further from the background's never lowers the ratio |
| Contrast.WcagCompliance | lib/color-parser.ts:234-248 | AA normal holds at ratio 4.5 and above, AA large at 3, AAA normal at 7, AAA large at 4.5 |
| Contrast.ComplianceNested | lib/color-parser.ts:234-248 | AAA normal implies AA normal, AA normal implies AA large, AAA large is AA normal, and a higher ratio keeps every level passed |
| Contrast.TargetRatio | lib/color-parser.ts:264 | A ratio reaches the target of a level exactly when it passes that level's normal-text verdict |
| Contrast.SweepMonotone | lib/color-parser.ts:282-291 | The swept lightness stays a fraction, starts at the colour's own, moves steadily towards white or black, and reaches it at step 100 |
| Contrast.SuggestAccessibleAlternative | lib/color-parser.ts:254-308 | Invalid inputs give none; a colour already meeting the target is returned as its hex; otherwise the first step that meets the target wins; if none does, the first best step is returned only when it beats the colour itself |
| Palette.CurvesDecrease | lib/palette-generator.ts:26-66 | Every lightness curve holds percentages strictly between 0 and 100 that strictly decrease from shade 50 to 950 |
| Palette.ClampPercent | lib/palette-generator.ts:118 | The clamped lightness lies in [0, 100] and equals its input when that is already in range |
| Palette.TargetShadePinned | lib/palette-generator.ts:71-80 | At the target shade the scaled curve value is exactly the base colour's lightness |
| Palette.LightnessScale | lib/palette-generator.ts:71-80 | The scale times the target shade's curve value is the base colour's lightness in percent, and the scale is never negative |
| Palette.LightnessDescends | lib/palette-generator.ts:113-131 | The lightness `ShadeHsl` asks of the library for a darker shade is never above that of a lighter shade |
| Palette.NormalVerdicts | lib/palette-generator.ts:143-163 | A shade's AA and AAA flags are the normal-text verdicts of its ratio, and AAA implies AA |
| Palette.ShadeHsl | lib/palette-generator.ts:113-134 | A shade keeps the base hue and is opaque; its lightness is the shade's curve value times the scale, clamped to 0–100 and divided by 100, which at the target shade is the base colour's lightness; its saturation is 60% of the base's for shades up to 100, 80% from 900 on, and the base's otherwise |
| Palette.GeneratePalette | lib/palette-generator.ts:85-174 | An invalid base gives the error "Invalid color provided" and a valid one never does; the defaults are "primary", 500 and natural; the base is normalized; there are eleven shades in shade order |
| Palette.ShadeRecipe | lib/palette-generator.ts:113-165 | Each shade's hex comes from its computed HSL, and the target shade keeps the base lightness; its recorded HSL is the library's reading of the hex in percent; its ratios are against white and black, with the matching verdicts |
| PaletteExport.ExportCss | lib/palette-generator.ts:200-208 | The CSS export reads back, line by line, as `:root {`, one declaration per shade in palette order, and `}` |
| PaletteExport.ExportTailwindConfig | lib/palette-generator.ts:179-195 | The configuration export reads back, line by line, as the fixed head naming the palette, one entry per shade in palette order, and the fixed tail |
| Text.SplitJoin | lib/palette-generator.ts:180-182 | Lines without line breaks, joined by line breaks, split back into the same lines |
| Decimal.ParsePrinted | lib/palette-generator.ts:202 | The decimal text of a shade number reads back as that number |
| Decimal.NatToStringInjective | lib/color-parser.ts:74 | Different positions print differently, so instance ids of the same value at different positions differ |
| ContrastPairs.FindShade | lib/palette-generator.ts:258-259 | `find` gives none exactly when no shade has the number, and otherwise the first shade with it |
| ContrastPairs.GetContrastPairs | lib/palette-generator.ts:231-276 | At most seven pairs, each one of the fixed pairings with the lighter shade first, and flags that are the AA and AAA normal-text verdicts of the ratio |
| ContrastPairs.PairsOverAll | lib/palette-generator.ts:257-273 | When every pairing finds both shades, there is one pair per pairing, in pairing order |
| ContrastPairs.GeneratedPairs | lib/palette-generator.ts:247-273 | A generated palette yields all seven pairs, in order, each measured between the palette's shades of those numbers |
| Highlight.EscapeHtml | components/highlighted-text-editor.tsx:70-79 | The seven global replacements, applied in order, escape each character on its own, because `&` is handled first and no entity contains a later key |
| Highlight.UnescapeEscape | components/highlighted-text-editor.tsx:70-79 | Escaping loses nothing: decoding the entities gives back the original text |
| Highlight.EscapePlain | components/highlighted-text-editor.tsx:70-79 | Text without any of the seven special characters is left as it is |
| Highlight.EscapedIsInert | components/highlighted-text-editor.tsx:70-79 | Escaped text contains no quote, apostrophe, space or `\n`, a `<` only as the start of `<br>`, and a `>` only as the end of `<br>` |
| Highlight.MarkStyle | components/highlighted-text-editor.tsx:50-57 | A mark opens in the selected style exactly when the instance has the selected value, in the plain style otherwise, and ends with `</mark>` |
| Highlight.SortedOrdered | components/highlighted-text-editor.tsx:38 | Non-overlapping instances sorted by start follow one another in the text |
| Highlight.EmitWeaves | components/highlighted-text-editor.tsx:40-65 | The `forEach` emits each gap escaped and each instance as its mark, from front to back |
| Highlight.HighlightedMarkup | components/highlighted-text-editor.tsx:33-68 | Empty text gives the placeholder span; a non-empty text with no instances is just escaped |
| Highlight.MarkupWeaves | components/highlighted-text-editor.tsx:33-68 | For non-empty text with non-overlapping instances, the markup is the text with each gap escaped and each instance wrapped in its mark, in text order |
| History.ButtonsEnabled | components/color-parser.tsx:184-203 | Undo is enabled exactly when pressing it changes the state, and likewise redo |
| History.Initial | components/color-parser.tsx:63-85 | The first state holds one text, is synced, and has nothing to undo or redo |
| History.Update | components/color-parser.tsx:161-181 | An unchanged text is ignored; otherwise the redo tail is dropped, the text is appended and becomes current, and the oldest entry is dropped beyond fifty |
| History.Undo | components/color-parser.tsx:184-190 | Undo steps back one entry and shows it, when there is one to step back to, and otherwise changes nothing |
| History.Redo | components/color-parser.tsx:193-199 | Redo steps forward one entry and shows it, when there is one, and otherwise changes nothing |
| History.Reset | components/color-parser.tsx:264-267 | Reset shows the original text and clears the selected colour, leaving the history and position alone |
| History.OperationsKeepValid | components/color-parser.tsx:161-199 | The history is never empty, never longer than fifty, and its position stays inside it |
| History.MovesKeepSynced | components/color-parser.tsx:161-199 | Update, undo and redo keep the shown text equal to the history entry at the position |
| History.UndoAfterUpdate | components/color-parser.tsx:161-203 | After an edit, undo is possible and redo is not; undo shows the text from before the edit, even when the bound dropped the oldest entry, and redo then restores the edit |
| History.UndoRedoInverse | components/color-parser.tsx:184-199 | Redo undoes an undo, and undo undoes a redo |
| History.UpdateClearsRedo | components/color-parser.tsx:161-203 | An edit that changes the text leaves nothing to redo and something to undo |
| History.ResetUnrecorded | components/color-parser.tsx:264-267 | Reset puts the shown text out of step with the history, and a following undo discards it |
| History.ToggleInstance | components/color-parser.tsx:269-275 | Toggling puts the id in the selection exactly when it was not there, leaves every other id's membership alone, and appends an unselected id at the end |
| History.Remove | components/color-parser.tsx:272 | Filtering out an id removes every copy of it and keeps every other id |
| History.ToggleFlips | components/color-parser.tsx:269-275 | Toggling flips the id's membership, leaves every other id's alone, and keeps the selection free of duplicates |
| History.ToggleTwice | components/color-parser.tsx:269-275 | Toggling an unselected id twice gives back the selection |
| PairDetection.DeclValue | components/color-parser.tsx:117-118 | A captured declaration value is non-empty and holds no `;` |
| PairDetection.DeclValueFound | components/color-parser.tsx:117-118 | The declaration pattern matches exactly when a colon follows the name, after optional spaces, and something other than `;` follows the colon |
| PairDetection.FirstMatch | components/color-parser.tsx:117-118 | A non-global `match` fails exactly when the pattern matches nowhere, and otherwise captures at the leftmost position where it matches |
| PairDetection.FindValueFirst | components/color-parser.tsx:117-118 | The scan for a declaration gives the leftmost match's capture |
| PairDetection.Rules | components/color-parser.tsx:110-113 | Rule blocks are non-overlapping ranges that open with `{`, close with `}`, and hold at least one character |
| PairDetection.FirstColor | components/color-parser.tsx:125-128 | A declaration value yields a colour exactly when `parseColors` finds one in it; with a sound library that colour is a `#rrggbb` value |
| PairDetection.DetectPairsWith | components/color-parser.tsx:106-139 | At most one pair per rule block; with a sound library, under either reading of the foreground declaration, every pair holds two `#rrggbb` values and a context that is the opening of a rule block, at most fifty characters, followed by `...` |
| PairDetection.DetectPairs | components/color-parser.tsx:106-139 | The same for the corrected reading: at most one pair per rule block, each well shaped |
| PairDetection.ContextShaped | components/color-parser.tsx:132 | The context is the first fifty characters of the block, or all of it, followed by `...` |
| PairDetection.AsWrittenReadsBackground | components/color-parser.tsx:117 | As written, the foreground pattern matches inside `background-color` and reads the background's value |
| PairDetection.AsWrittenMisreads | components/color-parser.tsx:117-118 | As written, in a rule that opens with a `background-color` declaration, the foreground and the background both read that declaration's value |
| PairDetection.AsWrittenSample | components/color-parser.tsx:117-118 | As written, `background-color:red;color:blue` reads foreground "red" and background "red" |
| PairDetection.PropertyOnlySkipsBackground | components/color-parser.tsx:117 | Reading `color` only as a property of its own skips the `color` inside `background-color` |
| PairDetection.PropertyOnlySample | components/color-parser.tsx:117 | With that reading, `background-color:red;color:blue` reads foreground "blue" |
| PairDetection.ReadingsAgree | components/color-parser.tsx:117 | When no `color` in the rule is the tail of a longer property name, both readings find the same foreground |

## Left out

- Indices count Unicode code points, one per `char`. JavaScript counts UTF-16 code units, so the two agree only for text inside the Basic Multilingual Plane.
- tinycolor2 is not modelled: parsing, normalising, HSL and RGB conversion, luminance, and building a colour from HSL are fields of `ColorLib.Lib`. Properties that need more than `ColorLib.Sound` take the library as given.
- JavaScript's number-to-string conversion is the `numberToString` field of the library. The model does not reproduce how floating-point numbers are printed.
- Floating point is modelled as exact real arithmetic. Rounding error in the ratio and lightness computations is not modelled.
- `findSimilarColorGroups`, the Lab conversion and Delta-E are not part of this model.
- `exportAsJSON` is not part of this model: it is `JSON.stringify`, whose formatting belongs to the runtime.
- The React components, scrolling, keyboard shortcuts, clipboard, file download, the 300 ms debounce and `setTimeout` are not modelled. Pair detection reads the text directly, not its debounced copy.
- The glue handlers `handleReplace`, `handleApplySuggestion` and `handleMergeSimilarColors` are not modelled. They only call the modelled operations and the history update.
- Replace.ReplaceColorWeaves: characterises the result only for instances that lie inside the text and do not overlap. `parseColors` produces such lists (`Overlap.ParseColorsApart`, `Overlap.ParsedReplaceWeaves`). `ReplaceColor` itself is defined for any list.
- Highlight.MarkupWeaves: characterises the markup only for non-empty text whose instances lie inside it and do not overlap. `HighlightedMarkup` itself is defined for any input, including the placeholder case.
- PairDetection.DetectPairsWith: states the count and the shape of the pairs. Which rule and which declarations a pair comes from is given by the definitions together with `FindValueFirst` and `FirstMatch`, not by one lemma.
- PairDetection.DetectPairs: uses the corrected foreground reading (see Findings). `DetectPairsWith` with `AsWritten` models the code as written.
- Overlap.ParsedReplaceWeaves and Overlap.ParsedMarkupWeaves: state the result for a text parsed as it stands. The app parses the debounced text (components/color-parser.tsx:89-94). It hands that parse to `replaceColor` together with the current text (components/color-parser.tsx:231-233), and to the editor with the current text (components/color-parser.tsx:425-428). While an edit is still inside the debounce window, the instances can therefore be ranges of the older text, lying outside the current one or on different characters. They still do not overlap each other. The model does not describe that window.
- The placeholder shown for empty text is inserted without escaping, as the source does.
- Reset is not recorded in the history (see `History.ResetUnrecorded`), so "the shown text is the current history entry" is not an invariant of every operation.

## Findings

| source | as written | input that shows it | evidently intended | confidence | as-written member | corrected member |
|---|---|---|---|---|---|---|
| components/color-parser.tsx:117 | The foreground pattern `/color\s*:\s*([^;]+)/i` has no left boundary, so it also matches the `color` at the end of `background-color` | the rule `{background-color:red;color:blue}`: the foreground is read as "red", the same as the background | The foreground comes from the `color` property itself, here "blue" | not executed | PairDetection.AsWrittenSample | PairDetection.PropertyOnlySample |
